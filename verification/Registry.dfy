/**
  The handler registry of a server: a singly linked list of services.
 */
module Registry {
  import opened Bytes
  import opened Wrappers
  import opened Codec

  /** What a handler leaves in the response: fields set one by one, and a status. */
  datatype Reply = Reply(fields: seq<Field>, status: uint16)

  /** A handler, as what it makes of the request packet. */
  type Handler = seq<Field> -> Reply

  class ServiceNode {
    const ty: uint16
    const handler: Handler
    var next: ServiceNode?

    constructor (ty: uint16, handler: Handler, next: ServiceNode?)
      ensures this.ty == ty && this.handler == handler && this.next == next
    {
      this.ty, this.handler, this.next := ty, handler, next;
    }
  }

  /** The handler of type `t` among the given services. */
  ghost function Lookup(s: seq<ServiceNode>, t: uint16): Option<Handler> {
    if s == [] then None else if s[0].ty == t then Some(s[0].handler) else Lookup(s[1..], t)
  }

  ghost predicate DistinctServices(s: seq<ServiceNode>) {
    forall i, j :: 0 <= i < j < |s| ==> s[i].ty != s[j].ty
  }

  lemma {:induction false} LookupAt(s: seq<ServiceNode>, k: nat, t: uint16)
    requires k <= |s| && forall j :: 0 <= j < k ==> s[j].ty != t
    ensures Lookup(s, t) == Lookup(s[k..], t)
  {
    if k != 0 {
      LookupAt(s[1..], k - 1, t);
      assert s[1..][k - 1..] == s[k..];
    } else {
      assert s[0..] == s;
    }
  }

  lemma LookupHere(s: seq<ServiceNode>, k: nat, t: uint16)
    requires k <= |s| && forall j :: 0 <= j < k ==> s[j].ty != t
    requires k < |s| ==> s[k].ty == t
    ensures Lookup(s, t) == if k < |s| then Some(s[k].handler) else None
  {
    LookupAt(s, k, t);
  }

  /** Taking one service out takes out its type and nothing else. */
  lemma {:induction false} LookupWithout(s: seq<ServiceNode>, k: nat, t: uint16)
    requires k < |s| && DistinctServices(s)
    ensures Lookup(s[..k] + s[k + 1..], t) == if t == s[k].ty then None else Lookup(s, t)
  {
    var r := s[..k] + s[k + 1..];
    if k == 0 {
      assert r == s[1..];
      if t == s[0].ty { LookupAt(r, |r|, t); }
    } else {
      assert r[1..] == s[1..][..k - 1] + s[1..][k..];
      LookupWithout(s[1..], k - 1, t);
    }
  }

  class Server {
    var services: ServiceNode?
    ghost var nodes: seq<ServiceNode>  // the chain, head first

    ghost predicate Valid()
      reads this, nodes
    {
      && services == (if nodes == [] then null else nodes[0])
      && (forall i {:trigger nodes[i].next} :: 0 <= i < |nodes| ==>
            nodes[i].next == if i + 1 < |nodes| then nodes[i + 1] else null)
      && DistinctServices(nodes)
    }

    /** What is registered under type `t`. */
    ghost function Registered(t: uint16): Option<Handler>
      reads this
    {
      Lookup(nodes, t)
    }

    /** All that is registered, as one value. */
    ghost function Table(): (f: uint16 -> Option<Handler>)
      reads this
      ensures forall t :: f(t) == Registered(t)
    {
      var s := nodes;
      (t: uint16) => Lookup(s, t)
    }

    constructor ()
      ensures Valid() && nodes == []
    {
      services, nodes := null, [];
    }

    method Has(ty: uint16) returns (found: bool)
      requires Valid()
      ensures found <==> Registered(ty).Some?
    {
      var handler := Get(ty);
      return handler.Some?;
    }

    method Get(ty: uint16) returns (handler: Option<Handler>)
      requires Valid()
      ensures handler == Registered(ty)
    {
      var i := services;
      ghost var k := 0;
      while i != null
        invariant 0 <= k <= |nodes| && i == if k < |nodes| then nodes[k] else null
        invariant forall j :: 0 <= j < k ==> nodes[j].ty != ty
        decreases |nodes| - k
      {
        if i.ty == ty {
          LookupAt(nodes, k, ty);
          return Some(i.handler);
        }
        i, k := i.next, k + 1;
      }
      LookupAt(nodes, k, ty);
      return None;
    }

    /** Registers a handler unless the type is taken. */
    method Add(ty: uint16, handler: Handler, memory: bool) returns (ok: bool)
      requires Valid()
      modifies this
      ensures Valid()
      ensures ok <==> old(Registered(ty)).None? && memory
      ensures forall t :: Registered(t) == if ok && t == ty then Some(handler) else old(Registered(t))
    {
      var taken := Has(ty);
      if taken || !memory { return false; }
      forall k | 0 <= k < |nodes|
        ensures nodes[k].ty != ty
      {
        if nodes[k].ty == ty { LookupAt(nodes, k, ty); }
      }
      var node := new ServiceNode(ty, handler, services);
      services := node;
      nodes := [node] + nodes;
      assert nodes[1..] == old(nodes);
      return true;
    }

    /** Takes the node at position `k` out of the chain. */
    method Unlink(ghost k: nat, pi: ServiceNode?, i: ServiceNode)
      requires Valid() && k < |nodes| && i == nodes[k] && pi == if k == 0 then null else nodes[k - 1]
      modifies this, nodes
      ensures Valid() && nodes == old(nodes[..k] + nodes[k + 1..])
    {
      ghost var was := nodes;
      assert forall j :: 0 <= j < |nodes| && j != k - 1 ==> nodes[j] != pi;
      if pi == null { services := i.next; } else { pi.next := i.next; }
      nodes := nodes[..k] + nodes[k + 1..];
      assert forall j :: 0 <= j < |nodes| ==> nodes[j] == was[if j < k then j else j + 1];
    }

    /** Unlinks the handler of a type, following the chain with a trailing pointer. */
    method Remove(ty: uint16) returns (ok: bool)
      requires Valid()
      modifies this, nodes
      ensures Valid()
      ensures ok <==> old(Registered(ty)).Some?
      ensures forall t :: Registered(t) == if t == ty then None else old(Registered(t))
    {
      hide Lookup;
      var pi: ServiceNode?, i := null, services;
      ghost var k := 0;
      while i != null
        invariant 0 <= k <= |nodes| && i == if k < |nodes| then nodes[k] else null
        invariant pi == if k == 0 then null else nodes[k - 1]
        invariant forall j :: 0 <= j < k ==> nodes[j].ty != ty
        invariant Valid() && unchanged(this) && unchanged(nodes)
        decreases |nodes| - k
      {
        if i.ty == ty {
          LookupHere(nodes, k, ty);
          forall t { LookupWithout(nodes, k, t); }
          Unlink(k, pi, i);
          return true;
        }
        pi, i, k := i, i.next, k + 1;
      }
      LookupHere(nodes, k, ty);
      return false;
    }
  }
}
