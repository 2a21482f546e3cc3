/** Bytes, fixed-width integers and network byte order. */
module Bytes {
  type byte = x: int | 0 <= x < 0x100
  type uint16 = x: int | 0 <= x < 0x1_0000
  type uint32 = x: int | 0 <= x < 0x1_0000_0000

  lemma Assoc<T>(a: seq<T>, b: seq<T>, c: seq<T>)
    ensures (a + b) + c == a + (b + c)
  {
  }

  lemma Cut<T>(s: seq<T>, i: nat, j: nat, k: nat)
    requires i <= j <= k <= |s|
    ensures s[i..k] == s[i..j] + s[j..k]
  {
  }

  lemma Nested<T>(s: seq<T>, a: nat, b: nat, i: nat, j: nat)
    requires a <= b <= |s| && i <= j <= b - a
    ensures s[a..b][i..j] == s[a + i..a + j]
  {
    var t := s[a..b];
    assert forall n :: i <= n < j ==> t[n] == s[a + n];
  }

  lemma Glue<T>(s: seq<T>, i: nat, j: nat, k: nat, x: seq<T>, y: seq<T>)
    requires i <= j <= k <= |s| && s[i..j] == x && s[j..k] == y
    ensures s[..k] == s[..i] + (x + y)
  {
  }

  /** A slice that spells `x + y` is one that spells `x` followed by one that spells `y`. */
  lemma Spells<T>(s: seq<T>, i: nat, x: seq<T>, y: seq<T>)
    requires i + |x + y| <= |s| && s[i..i + |x + y|] == x + y
    ensures s[i..i + |x|] == x && s[i + |x|..i + |x + y|] == y
  {
    var t := s[i..i + |x + y|];
    assert forall n :: 0 <= n < |x| ==> s[i + n] == t[n] == x[n];
    forall n | 0 <= n < |y|
      ensures s[i + |x| + n] == y[n]
    {
      assert s[i + |x| + n] == t[|x| + n];
    }
  }

  /** The C unsigned truncations `(uint16_t)n` and `(uint32_t)n`. */
  function Low16(n: nat): uint16 { n % 0x1_0000 }

  /** What 16 bits hold. */
  lemma Low16Holds(n: nat)
    ensures Low16(n) <= n && (Low16(n) == n <==> n < 0x1_0000)
  {
  }

  /** Counting on with 16 bits. */
  lemma Low16Next(n: nat)
    ensures (Low16(n) as int + 1) % 0x1_0000 == Low16(n + 1)
  {
  }

  function Low32(n: nat): uint32 { n % 0x1_0000_0000 }

  /** What `htons` leaves in memory. */
  function Put16(x: uint16): (s: seq<byte>)
    ensures |s| == 2
  {
    [x / 0x100, x % 0x100]
  }

  /** What `htonl` leaves in memory. */
  function Put32(x: uint32): (s: seq<byte>)
    ensures |s| == 4
  {
    [x / 0x100_0000, x / 0x1_0000 % 0x100, x / 0x100 % 0x100, x % 0x100]
  }

  /** `ntohs` of the two bytes at position `i`. */
  function Get16(s: seq<byte>, i: nat): uint16
    requires i + 2 <= |s|
  {
    (s[i] as int) * 0x100 + s[i + 1]
  }

  /** `ntohl` of the four bytes at position `i`. */
  function Get32(s: seq<byte>, i: nat): uint32
    requires i + 4 <= |s|
  {
    ((s[i] as int) * 0x100 + s[i + 1]) * 0x1_0000 + ((s[i + 2] as int) * 0x100 + s[i + 3])
  }

  lemma Get16Put16(x: uint16, before: seq<byte>, after: seq<byte>)
    ensures Get16(before + Put16(x) + after, |before|) == x
  {
    var s := before + Put16(x) + after;
    assert s[|before|] == Put16(x)[0] && s[|before| + 1] == Put16(x)[1];
  }

  lemma Get32Put32(x: uint32, before: seq<byte>, after: seq<byte>)
    ensures Get32(before + Put32(x) + after, |before|) == x
  {
    hide Put32;
    var s, d := before + Put32(x) + after, Put32(x);
    var i := |before|;
    assert s[i] == d[0] && s[i + 1] == d[1] && s[i + 2] == d[2] && s[i + 3] == d[3];
    Sum32(x);
  }

  /** The upper and the lower half of a 32-bit number, and their bytes. */
  lemma Halves(x: uint32)
    ensures x / 0x1_0000 / 0x100 == x / 0x100_0000
    ensures x % 0x1_0000 % 0x100 == x % 0x100
  {
  }

  lemma MiddleByte(x: uint32)
    ensures x % 0x1_0000 / 0x100 == x / 0x100 % 0x100
  {
    var q, r := x / 0x1_0000, x % 0x1_0000;
    assert x / 0x100 == q * 0x100 + r / 0x100;
  }

  lemma Sum32(x: uint32)
    ensures Get32(Put32(x), 0) == x
  {
    var hi, lo := x / 0x1_0000, x % 0x1_0000;
    Halves(x);
    MiddleByte(x);
    assert Put32(x) == [hi / 0x100, hi % 0x100, lo / 0x100, lo % 0x100];
    Sum16(hi);
    Sum16(lo);
  }

  lemma Sum16(x: int)
    requires 0 <= x < 0x1_0000
    ensures (x / 0x100) * 0x100 + x % 0x100 == x
  {
  }

  /** Two wire bytes are the encoding of the number read from them. */
  lemma Put16Get16(s: seq<byte>, i: nat)
    requires i + 2 <= |s|
    ensures s[i..i + 2] == Put16(Get16(s, i))
  {
    var x := Get16(s, i);
    assert x / 0x100 == s[i] && x % 0x100 == s[i + 1];
  }

  lemma Put32Get32(s: seq<byte>, i: nat)
    requires i + 4 <= |s|
    ensures s[i..i + 4] == Put32(Get32(s, i))
  {
    Digits32(s[i], s[i + 1], s[i + 2], s[i + 3]);
  }

  lemma Digits32(a: byte, b: byte, c: byte, d: byte)
    ensures var x := ((a as int) * 0x100 + b) * 0x1_0000 + ((c as int) * 0x100 + d);
            0 <= x < 0x1_0000_0000 && Put32(x) == [a, b, c, d]
  {
    var hi, lo := (a as int) * 0x100 + b, (c as int) * 0x100 + d;
    var x := hi * 0x1_0000 + lo;
    assert x / 0x1_0000 == hi && x % 0x1_0000 == lo;
    Halves(x);
    MiddleByte(x);
  }
}
