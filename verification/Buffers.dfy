/** Strings copied one after another into a caller's buffer. */
module Buffers {
  import opened Bytes

  /** The position of the first NUL, or the length. */
  function End(s: seq<byte>): (e: nat)
    ensures e <= |s| && (e < |s| ==> s[e] == 0) && forall i :: 0 <= i < e ==> s[i] != 0
  {
    if s == [] || s[0] == 0 then 0 else 1 + End(s[1..])
  }

  /** The C string that starts a piece of memory; all of it if there is no NUL. */
  function CString(s: seq<byte>): seq<byte> { s[..End(s)] }

  /** An entry as it is left in the buffer: what `strncpy` of `|d|` bytes stores, which pads with
      NULs, and the last byte overwritten with NUL. */
  function Stored(d: seq<byte>): (r: seq<byte>)
    ensures |r| == |d|
  {
    seq(|d|, i requires 0 <= i < |d| => if i < End(d) && i < |d| - 1 then d[i] else 0)
  }

  /** A stored entry is a terminated string within its own bytes: what the entry holds before a
      NUL, without its last byte. */
  lemma StoredIsTerminated(d: seq<byte>, rest: seq<byte>)
    requires d != []
    ensures CString(Stored(d) + rest) == CString(d[..|d| - 1]) && End(Stored(d) + rest) < |d|
  {
    var s, c := Stored(d) + rest, d[..|d| - 1];
    assert s[if End(d) < |d| then End(d) else |d| - 1] == 0;
    assert forall i :: 0 <= i < End(s) ==> s[i] == d[i] == c[i];
    assert End(c) == End(s);
  }

  /** Stores an entry at `p` of a buffer; touches nothing else. */
  method Store(buffer: array<byte>, p: nat, d: seq<byte>)
    requires d != [] && p + |d| <= buffer.Length
    modifies buffer
    ensures buffer[..p + |d|] == old(buffer[..p]) + Stored(d)
    ensures buffer[p + |d|..] == old(buffer[p + |d|..])
  {
    var k, ended := 0, false;
    while k < |d|
      invariant 0 <= k <= |d| && (ended <==> End(d) < k)
      invariant forall i :: p <= i < p + k ==> buffer[i] == if i - p < End(d) then d[i - p] else 0
      invariant forall i :: 0 <= i < buffer.Length && !(p <= i < p + k) ==> buffer[i] == old(buffer[i])
    {
      if d[k] == 0 { ended := true; }
      buffer[p + k] := if ended then 0 else d[k];
      k := k + 1;
    }
    buffer[p + |d| - 1] := 0;
    assert forall i :: p <= i < p + |d| ==> buffer[i] == Stored(d)[i - p];
  }
}
