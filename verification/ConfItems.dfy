/**
  Configuration items: a singly linked list to which items are only ever prepended, and the C
  string functions it is searched with.
 */
module ConfItems {
  import opened Wrappers

  /** The C string that starts a piece of memory: what comes before its first NUL. */
  function Terminated(s: string): (r: string)
    ensures |r| <= |s| && r == s[..|r|] && '\0' !in r
    ensures '\0' !in s ==> r == s
  {
    if s == "" || s[0] == '\0' then "" else [s[0]] + Terminated(s[1..])
  }

  /** What `strncpy` of `n` bytes leaves once the last of them is overwritten with NUL. */
  function Copied(source: string, n: nat): string
    requires 0 < n <= |source| + 1
  {
    Terminated(source[..n - 1])
  }

  /** The copy of a string is all of it, whatever lies behind it; a NUL in what is copied ends it. */
  lemma CopiedIs(s: string, behind: string, n: nat)
    requires '\0' !in s && (n == |s| + 1 || (|s| < n <= |s + behind| + 1 && behind != "" && behind[0] == '\0'))
    ensures Copied(s + behind, n) == s
  {
    var t := (s + behind)[..n - 1];
    var r := Terminated(t);
    assert forall i :: 0 <= i < |s| && i < |t| ==> t[i] == s[i];
    if n > |s| + 1 { assert t[|s|] == '\0'; }
    TerminatedAt(t, |s|);
    assert t[..|s|] == s;
  }

  lemma {:induction false} TerminatedAt(t: string, k: nat)
    requires k <= |t| && (forall i :: 0 <= i < k ==> t[i] != '\0') && (k < |t| ==> t[k] == '\0')
    ensures Terminated(t) == t[..k]
    decreases k
  {
    if k > 0 {
      TerminatedAt(t[1..], k - 1);
      assert t[..k] == [t[0]] + t[1..][..k - 1];
    }
  }

  /** A byte of a string in memory, with the NUL behind it. */
  function ByteAt(s: string, i: nat): char {
    if i < |s| then s[i] else '\0'
  }

  /** `strncmp(a + i, b + i, n) == 0`. */
  predicate Same(a: string, b: string, i: nat, n: nat)
    decreases n
  {
    n == 0 || (ByteAt(a, i) == ByteAt(b, i) && (ByteAt(a, i) == '\0' || Same(a, b, i + 1, n - 1)))
  }

  /** Comparing more bytes than a string is long is comparing the strings. */
  lemma {:induction false} SameMeansEqual(a: string, b: string, i: nat, n: nat)
    requires '\0' !in a && '\0' !in b && i <= |a| && i <= |b| && a[..i] == b[..i] && |a| < i + n
    ensures Same(a, b, i, n) <==> a == b
    decreases n
  {
    if i < |a| && i < |b| && a[i] == b[i] {
      assert a[..i + 1] == b[..i + 1];
      SameMeansEqual(a, b, i + 1, n - 1);
    } else if i == |a| == |b| {
      assert a == a[..i] && b == b[..i];
    } else {
      assert i < |a| ==> a[i] != '\0';
      assert i < |b| ==> b[i] != '\0';
    }
  }

  /** The lengths count the terminating NUL. */
  datatype Item = Item(name: string, nameLength: nat, value: string, valueLength: nat)

  predicate Matches(item: Item, name: string) { Same(item.name, name, 0, item.nameLength) }

  /** The first item of that name, newest first. */
  function Find(items: seq<Item>, name: string): Option<Item> {
    if items == [] then None else if Matches(items[0], name) then Some(items[0]) else Find(items[1..], name)
  }

  lemma {:induction false} FindAt(items: seq<Item>, k: nat, name: string)
    requires k <= |items| && forall j :: 0 <= j < k ==> !Matches(items[j], name)
    ensures Find(items, name) == Find(items[k..], name)
  {
    if k != 0 {
      FindAt(items[1..], k - 1, name);
      assert items[1..][k - 1..] == items[k..];
    } else {
      assert items[0..] == items;
    }
  }

  /** Nothing is added when the name is taken. */
  function Added(items: seq<Item>, name: string, nameLength: nat, value: string, valueLength: nat): seq<Item>
    requires 0 < nameLength <= |name| + 1 && 0 < valueLength <= |value| + 1
  {
    if Find(items, name).Some? then items
    else [Item(Copied(name, nameLength), nameLength, Copied(value, valueLength), valueLength)] + items
  }

  class ConfNode {
    const item: Item
    const next: ConfNode?

    constructor (item: Item, next: ConfNode?)
      ensures this.item == item && this.next == next
    {
      this.item, this.next := item, next;
    }
  }

  class Conf {
    var nodes: ConfNode?
    ghost var chain: seq<ConfNode>
    ghost var items: seq<Item>  // what the chain holds

    ghost predicate Linked()
      reads this
    {
      && nodes == (if chain == [] then null else chain[0])
      && |items| == |chain|
      && (forall i :: 0 <= i < |chain| ==> chain[i].item == items[i])
      && (forall i, j :: 0 <= i < j == i + 1 < |chain| ==> chain[i].next == chain[j])
      && (chain != [] ==> chain[|chain| - 1].next == null)
      && forall i, j :: 0 <= i < j < |chain| ==> chain[i] != chain[j]
    }

    ghost predicate Valid()
      reads this
    {
      Linked() <==> true
    }

    constructor ()
      ensures Valid() && items == []
    {
      nodes, chain, items := null, [], [];
    }

    /** Frees every node once, following `next` before the node is gone. */
    method Clear() returns (ghost freed: seq<ConfNode>)
      requires Valid()
      modifies this
      ensures Valid() && items == []
      ensures freed == old(chain)
    {
      freed := [];
      var i := nodes;
      var ni := if i != null then i.next else null;
      while i != null
        invariant unchanged(this) && |freed| <= |chain| && freed == chain[..|freed|]
        invariant i == if |freed| < |chain| then chain[|freed|] else null
        invariant i != null ==> ni == i.next
        decreases |chain| - |freed|
      {
        freed := freed + [i];
        i := ni;
        ni := if i != null then i.next else null;
      }
      nodes, chain, items := null, [], [];
    }

    method Get(name: string) returns (found: Option<Item>)
      requires Valid()
      ensures found == Find(items, name)
    {
      var i := nodes;
      ghost var k := 0;
      while i != null
        invariant 0 <= k <= |chain| && i == if k < |chain| then chain[k] else null
        invariant forall j :: 0 <= j < k ==> !Matches(items[j], name)
        decreases |chain| - k
      {
        if Matches(i.item, name) {
          FindAt(items, k, name);
          return Some(i.item);
        }
        i, k := i.next, k + 1;
      }
      FindAt(items, k, name);
      return None;
    }

    method Has(name: string) returns (found: bool)
      requires Valid()
      ensures found <==> Find(items, name).Some?
    {
      var item := Get(name);
      return item.Some?;
    }

    /** A new node in front of the others. */
    method Prepend(item: Item)
      requires Valid()
      modifies this
      ensures Valid() && items == [item] + old(items)
    {
      var node := new ConfNode(item, nodes);
      ghost var was, held := chain, items;
      assert node !in was;
      chain, items := [node] + was, [item] + held;
      nodes := node;
      assert forall i :: 1 <= i < |chain| ==> chain[i] == was[i - 1] && items[i] == held[i - 1];
      assert forall i, j :: 0 <= i < j == i + 1 < |chain| ==> chain[i].next == chain[j];
    }

    method Add(name: string, nameLength: nat, value: string, valueLength: nat, memory: bool) returns (ok: bool)
      requires Valid()
      requires 0 < nameLength <= |name| + 1 && 0 < valueLength <= |value| + 1
      modifies this
      ensures Valid()
      ensures ok <==> Find(old(items), name).None? && memory
      ensures items == if memory then Added(old(items), name, nameLength, value, valueLength) else old(items)
      ensures !memory ==> chain == old(chain)
    {
      var taken := Has(name);
      if taken || !memory { return false; }
      Prepend(Item(Copied(name, nameLength), nameLength, Copied(value, valueLength), valueLength));
      return true;
    }
  }
}
