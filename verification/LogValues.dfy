/**
  The values in a log packet: how the stored bytes of a variable become the
  bytes that are sent, and what a client reads from them.
 */
module LogValues {
  import opened Bytes
  import opened LogBlocks

  const FLOAT := 7
  const FP16 := 8

  /** The unsigned number behind little-endian bytes. */
  function Unsigned(s: seq<byte>): nat {
    if s == [] then 0 else s[0] + 0x100 * Unsigned(s[1..])
  }

  function Power(n: nat): nat {
    if n == 0 then 1 else 0x100 * Power(n - 1)
  }

  /** The number in two's complement. */
  function Signed(s: seq<byte>): int {
    if 2 * Unsigned(s) >= Power(|s|) then Unsigned(s) - Power(|s|) else Unsigned(s)
  }

  /** The low `n` bytes of a number in two's complement. */
  function LowBytes(v: int, n: nat): (s: seq<byte>)
    ensures |s| == n
    decreases n
  {
    if n == 0 then [] else [v % 0x100] + LowBytes(v / 0x100, n - 1)
  }

  predicate IsSigned(t: nat) {
    4 <= t <= 6
  }

  predicate IsInteger(t: nat) {
    1 <= t <= 6
  }

  /** What a value of type `t` means. */
  function Number(t: nat, s: seq<byte>): int {
    if IsSigned(t) then Signed(s) else Unsigned(s)
  }

  /** The world outside: the current bytes of every variable, and the
      conversions of the floating-point unit. */
  datatype World = World(
    stored: Sample -> seq<byte>,
    toFloat: int -> seq<byte>,
    toInt: seq<byte> -> int,
    toHalf: seq<byte> -> int)

  ghost predicate Sane(w: World) {
    && (forall s: Sample :: |w.stored(s)| == StoredLength(s.storageType))
    && (forall v: int :: |w.toFloat(v)| == 4)
  }

  function StoredLength(t: nat): nat {
    if t <= FLOAT then TypeLength(t) else 0
  }

  /** The value as a 32-bit signed number; other types than the seven give 0. */
  function IntegerValue(w: World, s: Sample): int {
    if IsInteger(s.storageType) then Signed(LowBytes(Number(s.storageType, w.stored(s)), 4))
    else if s.storageType == FLOAT then w.toInt(w.stored(s))
    else 0
  }

  function FloatValue(w: World, s: Sample): seq<byte> {
    if s.storageType == FLOAT then w.stored(s) else w.toFloat(IntegerValue(w, s))
  }

  /** The bytes that go into the packet. */
  function SentValue(w: World, s: Sample): seq<byte>
    requires s.logType <= 8
  {
    if s.logType == FLOAT then FloatValue(w, s)
    else if s.logType == FP16 then LowBytes(w.toHalf(FloatValue(w, s)), 2)
    else LowBytes(IntegerValue(w, s), TypeLength(s.logType))
  }

  lemma SentLength(w: World, s: Sample)
    requires Sane(w) && s.logType <= 8
    ensures |SentValue(w, s)| == TypeLength(s.logType)
  {
  }

  // ---------- Numbers and bytes ----------

  lemma {:induction false} UnsignedOfLow(v: int, n: nat)
    ensures 0 <= Unsigned(LowBytes(v, n)) < Power(n)
    ensures exists q :: v == Unsigned(LowBytes(v, n)) + q * Power(n)
    decreases n
  {
    if n == 0 {
      assert v == Unsigned(LowBytes(v, n)) + v * Power(n);
    } else {
      UnsignedOfLow(v / 0x100, n - 1);
      var low := LowBytes(v, n);
      assert low[1..] == LowBytes(v / 0x100, n - 1);
      var q :| v / 0x100 == Unsigned(low[1..]) + q * Power(n - 1);
      assert v == Unsigned(low) + q * Power(n);
    }
  }

  lemma Multiples(q: int, p: int)
    requires p > 0
    ensures q >= 1 ==> q * p >= p
    ensures q <= -1 ==> q * p <= -p
  {
  }

  /** Numbers that differ by a multiple of `p` and by less than `p` are equal. */
  lemma OnlyResidue(u: int, v: int, q: int, p: int)
    requires p > 0 && u == v + q * p && -p < u - v < p
    ensures u == v
  {
    Multiples(q, p);
  }

  /** The numbers that type `t` can hold. */
  predicate InRange(t: nat, v: int)
    requires t <= 8
  {
    var p: int := Power(TypeLength(t));
    if IsSigned(t) then -p <= 2 * v < p else 0 <= v < p
  }

  /** A number is read back from its bytes exactly if the type can hold it. */
  lemma ReadsBackIff(t: nat, v: int)
    requires IsInteger(t)
    ensures Number(t, LowBytes(v, TypeLength(t))) == v <==> InRange(t, v)
  {
    hide LowBytes, Unsigned, Power;
    var n := TypeLength(t);
    var s := LowBytes(v, n);
    UnsignedOfLow(v, n);
    var p: int, u: int := Power(n), Unsigned(s);
    var q :| v == u + q * Power(n);
    if InRange(t, v) {
      if Number(t, s) == u {
        OnlyResidue(v, u, q, p);
      } else {
        assert v == u - p + (q + 1) * p;
        OnlyResidue(v, u - p, q + 1, p);
      }
    }
  }

  /** Low bytes do not see multiples of higher powers. */
  lemma {:induction false} LowBytesModulo(v: int, q: int, n: nat, m: nat)
    requires n <= m
    ensures LowBytes(v + q * Power(m), n) == LowBytes(v, n)
    decreases n
  {
    if n > 0 {
      var h := q * Power(m - 1);
      assert q * Power(m) == 0x100 * h;
      assert (v + 0x100 * h) / 0x100 == v / 0x100 + h && (v + 0x100 * h) % 0x100 == v % 0x100;
      LowBytesModulo(v / 0x100, q, n - 1, m - 1);
    }
  }

  /** Passing through a 32-bit signed number does not change the low bytes. */
  lemma ThroughInt32(v: int, n: nat)
    requires n <= 4
    ensures LowBytes(Signed(LowBytes(v, 4)), n) == LowBytes(v, n)
  {
    hide LowBytes, Unsigned, Power;
    var s := LowBytes(v, 4);
    UnsignedOfLow(v, 4);
    var u: int := Unsigned(s);
    var q :| v == u + q * Power(4);
    LowBytesModulo(u, q, n, 4);
    LowBytesModulo(u, -1, n, 4);
  }

  // ---------- What a client receives ----------

  /** A stored integer arrives unchanged exactly if the type it is sent as can hold it. */
  lemma IntegerArrivesIff(w: World, s: Sample)
    requires IsInteger(s.storageType) && IsInteger(s.logType)
    ensures Number(s.logType, SentValue(w, s)) == Number(s.storageType, w.stored(s))
       <==> InRange(s.logType, Number(s.storageType, w.stored(s)))
  {
    hide LowBytes, Unsigned, Power, Signed, InRange;
    var v := Number(s.storageType, w.stored(s));
    ThroughInt32(v, TypeLength(s.logType));
    ReadsBackIff(s.logType, v);
  }

  lemma {:induction false} UnsignedBelow(s: seq<byte>)
    ensures Unsigned(s) < Power(|s|)
  {
    if s != [] {
      UnsignedBelow(s[1..]);
    }
  }

  /** A stored 2^31, which is converted as -2^31. */
  lemma FloatOfLargeIntegerIsNegative(w: World, s: Sample)
    requires s.storageType == 3 && w.stored(s) == [0, 0, 0, 0x80]
    ensures Number(s.storageType, w.stored(s)) == 0x8000_0000
    ensures IntegerValue(w, s) == -0x8000_0000
  {
    hide LowBytes, Signed, Unsigned, Power;
    Powers();
    BytesOfLarge();
    ThroughInt32(0x8000_0000, 4);
    ReadsBackIff(6, -0x8000_0000);
    LowBytesModulo(-0x8000_0000, 1, 4, 4);
  }

  lemma Powers()
    ensures Power(1) == 0x100 && Power(2) == 0x1_0000 && Power(4) == 0x1_0000_0000
  {
    assert Power(3) == 0x100_0000;
  }

  lemma BytesOfLarge()
    ensures Unsigned([0, 0, 0, 0x80]) == 0x8000_0000
  {
    assert Unsigned([0x80]) == 0x80;
    UnsignedStep(0, [0x80]);
    UnsignedStep(0, [0, 0x80]);
    UnsignedStep(0, [0, 0, 0x80]);
  }

  lemma UnsignedStep(lo: byte, rest: seq<byte>)
    ensures Unsigned([lo] + rest) == lo + 0x100 * Unsigned(rest)
  {
    assert ([lo] + rest)[1..] == rest;
  }

  /** Sent as a float, an unsigned 32-bit variable is taken for a signed one: the
      number that is converted is the stored one exactly below 2 to the 31. */
  lemma FloatOfIntegerIff(w: World, s: Sample)
    requires Sane(w) && IsInteger(s.storageType)
    ensures IntegerValue(w, s) == Number(s.storageType, w.stored(s))
       <==> Number(s.storageType, w.stored(s)) < 0x8000_0000
  {
    var b := w.stored(s);
    UnsignedBelow(b);
    hide LowBytes, Unsigned, Power;
    ReadsBackIff(6, Number(s.storageType, b));
    Powers();
  }

  /** The lengths and the ranges of the types, in numbers. */
  lemma TypesAre(v: int)
    ensures InRange(1, v) <==> 0 <= v < 256
    ensures InRange(2, v) <==> 0 <= v < 65536
    ensures InRange(3, v) <==> 0 <= v < 0x1_0000_0000
    ensures InRange(4, v) <==> -128 <= v < 128
    ensures InRange(5, v) <==> -32768 <= v < 32768
    ensures InRange(6, v) <==> -0x8000_0000 <= v < 0x8000_0000
    ensures TypeLength(1) == TypeLength(4) == 1 && TypeLength(2) == TypeLength(5) == TypeLength(8) == 2
    ensures TypeLength(3) == TypeLength(6) == TypeLength(7) == 4 && TypeLength(0) == 0
  {
    Powers();
  }

  /** A stored float is sent as it is, as a half, or as the integer it is converted to. */
  lemma FloatIsSent(w: World, s: Sample)
    requires s.storageType == 7
    ensures s.logType == 7 ==> SentValue(w, s) == w.stored(s)
    ensures s.logType == 8 ==> SentValue(w, s) == LowBytes(w.toHalf(w.stored(s)), 2)
    ensures s.logType in {1, 4} ==> SentValue(w, s) == LowBytes(w.toInt(w.stored(s)), 1)
    ensures s.logType in {2, 5} ==> SentValue(w, s) == LowBytes(w.toInt(w.stored(s)), 2)
    ensures s.logType in {3, 6} ==> SentValue(w, s) == LowBytes(w.toInt(w.stored(s)), 4)
  {
    hide LowBytes;
  }

  /** A stored integer that is sent as a float is converted first, if it is below
      2 to the 31 from its own value. */
  lemma IntegerSentAsFloat(w: World, s: Sample)
    requires Sane(w) && 1 <= s.storageType <= 6 && Number(s.storageType, w.stored(s)) < 0x8000_0000
    ensures s.logType == 7 ==> SentValue(w, s) == w.toFloat(Number(s.storageType, w.stored(s)))
    ensures s.logType == 8 ==> SentValue(w, s) == LowBytes(w.toHalf(w.toFloat(Number(s.storageType, w.stored(s)))), 2)
  {
    hide LowBytes, Signed, Unsigned;
    FloatOfIntegerIff(w, s);
  }

  /** A stored value of any other type is sent as zero. */
  lemma OtherTypesAreZero(w: World, s: Sample)
    requires s.storageType == 0 || s.storageType > 7
    ensures 1 <= s.logType <= 6 ==> forall k :: 0 <= k < |SentValue(w, s)| ==> SentValue(w, s)[k] == 0
    ensures s.logType == 7 ==> SentValue(w, s) == w.toFloat(0)
  {
    if 1 <= s.logType <= 6 {
      ZeroBytes(TypeLength(s.logType));
    }
  }

  lemma {:induction false} ZeroBytes(n: nat)
    ensures forall k :: 0 <= k < n ==> LowBytes(0, n)[k] == 0
  {
    if n > 0 {
      ZeroBytes(n - 1);
    }
  }

  /** How a client reads a value of up to four bytes: lowest byte first, and from
      types 4 to 6 in two's complement. */
  lemma NumberIs(s: seq<byte>)
    ensures |s| == 1 ==> Unsigned(s) == s[0]
    ensures |s| == 2 ==> Unsigned(s) == s[0] as int + 0x100 * s[1] as int
    ensures |s| == 4 ==>
      Unsigned(s) == s[0] as int + 0x100 * s[1] as int + 0x1_0000 * s[2] as int + 0x100_0000 * s[3] as int
    ensures Number(1, s) == Number(2, s) == Number(3, s) == Unsigned(s)
    ensures |s| == 1 ==> Number(4, s) == if s[0] < 128 then s[0] as int else s[0] as int - 256
    ensures |s| == 2 ==> Number(5, s) == if s[1] < 128 then Unsigned(s) else Unsigned(s) - 65536
    ensures |s| == 4 ==> Number(6, s) == if s[3] < 128 then Unsigned(s) else Unsigned(s) - 0x1_0000_0000
  {
    hide Power;
    Powers();
    UnsignedTail(s);
    if |s| > 1 {
      UnsignedTail(s[1..]);
    }
    if |s| > 2 {
      UnsignedTail(s[1..][1..]);
    }
    if |s| > 3 {
      UnsignedTail(s[1..][1..][1..]);
    }
  }

  lemma UnsignedTail(s: seq<byte>)
    ensures Unsigned(s) == if s == [] then 0 else s[0] as int + 0x100 * Unsigned(s[1..])
  {
  }
}
