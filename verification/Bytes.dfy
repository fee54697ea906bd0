/** Bytes and the little-endian 16-bit fields stored in the byte memories. */
module Bytes {

  type byte = x: int | 0 <= x < 0x100

  /** The 16-bit value stored as `lo` followed by `hi`. */
  function U16(lo: byte, hi: byte): (n: nat)
    ensures n < 0x1_0000
  {
    lo + 0x100 * hi
  }

  function Low(n: nat): byte {
    n % 0x100
  }

  function High(n: nat): byte {
    n / 0x100 % 0x100
  }

  lemma U16RoundTrip(n: nat)
    requires n < 0x1_0000
    ensures U16(Low(n), High(n)) == n
  {
  }

  lemma U16Injective(lo: byte, hi: byte, lo': byte, hi': byte)
    ensures U16(lo, hi) == U16(lo', hi') <==> lo == lo' && hi == hi'
  {
  }

  /** The bytes `s` are found in `b` from position `at` on. */
  ghost predicate Holds(b: seq<byte>, at: nat, s: seq<byte>) {
    && at + |s| <= |b|
    && b[at..at + |s|] == s
  }

  lemma HoldsConcat(b: seq<byte>, at: nat, s: seq<byte>, t: seq<byte>)
    ensures Holds(b, at, s + t) <==> Holds(b, at, s) && Holds(b, at + |s|, t)
  {
    var m, e := at + |s|, at + |s| + |t|;
    if e <= |b| {
      assert b[at..e] == b[at..m] + b[m..e];
      if b[at..e] == s + t {
        assert b[at..m] == b[at..e][..|s|] == s;
        assert b[m..e] == b[at..e][|s|..] == t;
      }
    }
  }

  lemma Associative(a: seq<byte>, b: seq<byte>, c: seq<byte>)
    ensures a + (b + c) == a + b + c
  {
  }

  /** `s` with `data` written over it from position `at` on. */
  function Splice(s: seq<byte>, at: nat, data: seq<byte>): (r: seq<byte>)
    requires at + |data| <= |s|
    ensures |r| == |s|
  {
    s[..at] + data + s[at + |data|..]
  }

  lemma SpliceAt(s: seq<byte>, at: nat, data: seq<byte>)
    requires at + |data| <= |s|
    ensures forall i {:trigger Splice(s, at, data)[i]} :: 0 <= i < |s| ==>
      Splice(s, at, data)[i] == if at <= i < at + |data| then data[i - at] else s[i]
  {
  }

  lemma SpliceTwice(s: seq<byte>, at: nat, x: seq<byte>, y: seq<byte>)
    requires at + |x| + |y| <= |s|
    ensures Splice(Splice(s, at, x), at + |x|, y) == Splice(s, at, x + y)
  {
  }

  lemma SpliceLast(s: seq<byte>, at: nat, data: seq<byte>)
    requires data != [] && at + |data| <= |s|
    ensures Splice(s, at, data) == Splice(s, at, data[..|data| - 1])[at + |data| - 1 := data[|data| - 1]]
  {
  }

  lemma SpliceNothing(s: seq<byte>, at: nat)
    requires at <= |s|
    ensures Splice(s, at, []) == s
  {
  }

  /** Writing one byte more of `data`. */
  lemma SpliceOneMore(s: seq<byte>, at: nat, data: seq<byte>, i: nat)
    requires i < |data| && at + |data| <= |s|
    ensures Splice(s, at, data[..i + 1]) == Splice(s, at, data[..i])[at + i := data[i]]
  {
    assert data[..i + 1][..i] == data[..i];
    SpliceLast(s, at, data[..i + 1]);
  }

  /** The part of a splice that was written holds the data; the rest is as before. */
  lemma SpliceHolds(s: seq<byte>, at: nat, data: seq<byte>)
    requires at + |data| <= |s|
    ensures Holds(Splice(s, at, data), at, data)
    ensures Splice(s, at, data)[..at] == s[..at]
    ensures Splice(s, at, data)[at + |data|..] == s[at + |data|..]
  {
  }

  function Min(a: nat, b: nat): (m: nat)
    ensures m == a || m == b
    ensures m <= a && m <= b
  {
    if a < b then a else b
  }
}
