/**
  The byte format of the key/value table, independent of the code that walks
  it: a version byte, a chain of length-prefixed records and an end tag.  A
  record whose key length is 0 is a hole; its body is left-over bytes.
 */
module KveFormat {
  import opened Bytes

  const VERSION_ADDRESS := 0
  const FIRST_ITEM_ADDRESS := 1
  const KVE_VERSION: byte := 1
  const HEADER_SIZE := 3
  const END_TAG := 0xffff
  const END_TAG_LENGTH := 2
  const END_TAG_BYTES: seq<byte> := [0xff, 0xff]
  const INVALID_ADDRESS := 0xffff_ffff

  /** Above this size a record could outgrow its 16-bit length field, and the
      search for holes could step over the end tag and stay inside the memory. */
  const MAX_MEMORY_SIZE := 65538

  datatype RawRecord = RawRecord(keyLength: byte, body: seq<byte>) {
    function Size(): nat {
      HEADER_SIZE + |body|
    }

    predicate IsHole() {
      keyLength == 0
    }

    /** The key lies inside the record. */
    predicate WellFormed() {
      keyLength <= |body|
    }

    function Key(): seq<byte> {
      body[..Min(keyLength, |body|)]
    }

    function Value(): seq<byte> {
      body[Min(keyLength, |body|)..]
    }
  }

  /** What the consistency check demands of a record: at least four bytes, and
      a length different from the end tag. */
  type Record = r: RawRecord | 1 <= |r.body| && r.Size() < END_TAG witness RawRecord(0, [0])

  /** A non-empty C string of at most 255 bytes, without its terminator. */
  predicate IsKey(k: seq<byte>) {
    1 <= |k| <= 255 && 0 !in k
  }

  lemma KeyLengths(k: seq<byte>)
    requires forall i :: 0 <= i < |k| ==> k[i] != 0
    ensures IsKey(k) <==> |k| != 0 && |k| < 256
  {
  }

  type Key = k: seq<byte> | IsKey(k) witness [1]

  function Item(key: Key, value: seq<byte>): Record
    requires HEADER_SIZE + |key| + |value| < END_TAG
  {
    RawRecord(|key|, key + value)
  }

  function Header(size: nat, keyLength: byte): (h: seq<byte>)
    ensures |h| == HEADER_SIZE
  {
    [Low(size), High(size), keyLength]
  }

  function Encode(r: Record): (e: seq<byte>)
    ensures |e| == r.Size()
  {
    Header(r.Size(), r.keyLength) + r.body
  }

  function Extent(rs: seq<Record>): nat {
    if rs == [] then 0 else rs[0].Size() + Extent(rs[1..])
  }

  function EncodeAll(rs: seq<Record>): (e: seq<byte>)
    ensures |e| == Extent(rs)
  {
    if rs == [] then [] else Encode(rs[0]) + EncodeAll(rs[1..])
  }

  /** The records `rs` are stored one after the other from address `at` on. */
  ghost predicate Placed(b: seq<byte>, at: nat, rs: seq<Record>) {
    Holds(b, at, EncodeAll(rs))
  }

  /** An end tag at `e`, with at least one byte of memory after it. */
  ghost predicate EndTagAt(b: seq<byte>, e: nat) {
    && e + END_TAG_LENGTH < |b|
    && U16(b[e], b[e + 1]) == END_TAG
  }

  /** Address of the record with index `i`; for `i == |rs|`, of the end tag. */
  function Addr(rs: seq<Record>, i: nat): nat
    requires i <= |rs|
  {
    FIRST_ITEM_ADDRESS + Extent(rs[..i])
  }

  /** What a search returns for the record with index `i`, or for "none". */
  function AddrOrInvalid(rs: seq<Record>, i: nat): nat
    requires i <= |rs|
  {
    if i < |rs| then Addr(rs, i) else INVALID_ADDRESS
  }

  /** All of a table is there, but perhaps not the byte behind the end tag. */
  ghost predicate Written(b: seq<byte>, rs: seq<Record>) {
    && |b| <= MAX_MEMORY_SIZE
    && Holds(b, VERSION_ADDRESS, [KVE_VERSION])
    && Placed(b, FIRST_ITEM_ADDRESS, rs)
    && Holds(b, FIRST_ITEM_ADDRESS + Extent(rs), END_TAG_BYTES)
  }

  /** A table that can be read: a header can be read also at the end tag. */
  ghost predicate IsTable(b: seq<byte>, rs: seq<Record>) {
    Written(b, rs) && FIRST_ITEM_ADDRESS + Extent(rs) + END_TAG_LENGTH < |b|
  }

  lemma EndTagHolds(b: seq<byte>, e: nat)
    ensures Holds(b, e, END_TAG_BYTES) <==> e + END_TAG_LENGTH <= |b| && U16(b[e], b[e + 1]) == END_TAG
    ensures EndTagAt(b, e) <==> e + END_TAG_LENGTH < |b| && Holds(b, e, END_TAG_BYTES)
  {
    if e + END_TAG_LENGTH <= |b| {
      assert b[e..e + 2] == [b[e], b[e + 1]];
    }
  }

  /** A table, as the code that checks it sees it. */
  lemma TableIs(b: seq<byte>, rs: seq<Record>)
    ensures IsTable(b, rs) <==>
      && |b| <= MAX_MEMORY_SIZE
      && FIRST_ITEM_ADDRESS <= |b| && b[VERSION_ADDRESS] == KVE_VERSION
      && Placed(b, FIRST_ITEM_ADDRESS, rs)
      && EndTagAt(b, FIRST_ITEM_ADDRESS + Extent(rs))
  {
    hide EncodeAll, Extent, Placed;
    EndTagHolds(b, FIRST_ITEM_ADDRESS + Extent(rs));
    if |b| > 0 {
      assert b[0..1] == [b[0]];
    }
  }

  // ---------- Concatenation and slicing of record chains ----------

  lemma {:induction false} ExtentConcat(a: seq<Record>, c: seq<Record>)
    ensures Extent(a + c) == Extent(a) + Extent(c)
  {
    if a == [] {
      assert a + c == c;
    } else {
      ExtentConcat(a[1..], c);
      assert (a + c)[1..] == a[1..] + c;
    }
  }

  lemma {:induction false} EncodeConcat(a: seq<Record>, c: seq<Record>)
    ensures EncodeAll(a + c) == EncodeAll(a) + EncodeAll(c)
  {
    if a == [] {
      assert a + c == c;
      assert EncodeAll(a) == [];
      assert EncodeAll(a + c) == EncodeAll(c);
    } else {
      calc {
        EncodeAll(a + c);
        { assert (a + c)[1..] == a[1..] + c; }
        Encode(a[0]) + EncodeAll(a[1..] + c);
        { EncodeConcat(a[1..], c); }
        Encode(a[0]) + (EncodeAll(a[1..]) + EncodeAll(c));
        { Associative(Encode(a[0]), EncodeAll(a[1..]), EncodeAll(c)); }
        Encode(a[0]) + EncodeAll(a[1..]) + EncodeAll(c);
        EncodeAll(a) + EncodeAll(c);
      }
    }
  }

  /** A chain can be cut and joined at any record boundary. */
  lemma PlacedConcat(b: seq<byte>, at: nat, a: seq<Record>, c: seq<Record>)
    ensures Extent(a + c) == Extent(a) + Extent(c)
    ensures Placed(b, at, a + c) <==> Placed(b, at, a) && Placed(b, at + Extent(a), c)
  {
    hide EncodeAll, Extent, Encode;
    ExtentConcat(a, c);
    assert EncodeAll(a + c) == EncodeAll(a) + EncodeAll(c) by {
      EncodeConcat(a, c);
    }
    HoldsConcat(b, at, EncodeAll(a), EncodeAll(c));
    assert at + |EncodeAll(a)| == at + Extent(a);
  }

  lemma PlacedOne(b: seq<byte>, at: nat, r: Record)
    ensures Extent([r]) == r.Size()
    ensures Placed(b, at, [r]) <==> Holds(b, at, Encode(r))
  {
    assert EncodeAll([r]) == Encode(r);
  }

  /** A record is read back from its header and the bytes behind it. */
  lemma EncodeHolds(b: seq<byte>, at: nat, r: Record)
    ensures Holds(b, at, Encode(r)) <==>
      && at + r.Size() <= |b|
      && U16(b[at], b[at + 1]) == r.Size()
      && b[at + 2] == r.keyLength
      && b[at + HEADER_SIZE..at + r.Size()] == r.body
  {
    HoldsConcat(b, at, Header(r.Size(), r.keyLength), r.body);
    U16RoundTrip(r.Size());
    if at + r.Size() <= |b| {
      HeaderHolds(b, at, r.Size(), r.keyLength);
    }
  }

  lemma HeaderHolds(b: seq<byte>, at: nat, size: nat, keyLength: byte)
    requires at + HEADER_SIZE <= |b| && size < 0x1_0000
    ensures Holds(b, at, Header(size, keyLength)) <==>
      U16(b[at], b[at + 1]) == size && b[at + 2] == keyLength
  {
    var h := b[at..at + HEADER_SIZE];
    assert h == [b[at], b[at + 1], b[at + 2]];
    U16RoundTrip(size);
    U16Injective(b[at], b[at + 1], Low(size), High(size));
  }

  lemma AddrStep(rs: seq<Record>, i: nat)
    requires i < |rs|
    ensures Addr(rs, i + 1) == Addr(rs, i) + rs[i].Size()
  {
    assert rs[..i + 1] == rs[..i] + [rs[i]];
    ExtentConcat(rs[..i], [rs[i]]);
  }

  lemma {:induction false} AddrMonotone(rs: seq<Record>, i: nat, j: nat)
    requires i <= j <= |rs|
    ensures Addr(rs, i) + 4 * (j - i) <= Addr(rs, j)
    ensures Addr(rs, j) - Addr(rs, i) == Extent(rs[i..j])
  {
    assert rs[..j] == rs[..i] + rs[i..j];
    ExtentConcat(rs[..i], rs[i..j]);
    ExtentAtLeast(rs[i..j]);
  }

  lemma {:induction false} ExtentAtLeast(rs: seq<Record>)
    ensures 4 * |rs| <= Extent(rs)
  {
    if rs != [] {
      ExtentAtLeast(rs[1..]);
    }
  }

  lemma AddrStart(rs: seq<Record>)
    ensures Addr(rs, 0) == FIRST_ITEM_ADDRESS
  {
    assert rs[..0] == [];
  }

  lemma AddrEnd(rs: seq<Record>)
    ensures Addr(rs, |rs|) == FIRST_ITEM_ADDRESS + Extent(rs)
  {
    assert rs[..|rs|] == rs;
  }

  /** What a reader finds at the address of record `i` of a table. */
  lemma RecordAt(b: seq<byte>, rs: seq<Record>, i: nat)
    requires Written(b, rs) && i < |rs|
    ensures var a := Addr(rs, i);
            && a + rs[i].Size() == Addr(rs, i + 1) <= Addr(rs, |rs|) <= |b| - 2
            && Holds(b, a, Encode(rs[i]))
            && U16(b[a], b[a + 1]) == rs[i].Size()
            && b[a + 2] == rs[i].keyLength
            && b[a + HEADER_SIZE..a + rs[i].Size()] == rs[i].body
  {
    hide EncodeAll, Extent, Encode;
    PlacedSlice(b, FIRST_ITEM_ADDRESS, rs, i, i + 1);
    assert rs[i..i + 1] == [rs[i]];
    PlacedOne(b, Addr(rs, i), rs[i]);
    EncodeHolds(b, Addr(rs, i), rs[i]);
    AddrStep(rs, i);
    AddrMonotone(rs, i + 1, |rs|);
    AddrEnd(rs);
  }

  /** The header that a walk reads at record `i`, or at the end tag. */
  lemma HeaderAt(b: seq<byte>, rs: seq<Record>, i: nat)
    requires Written(b, rs) && i <= |rs|
    ensures 1 <= Addr(rs, i) && Addr(rs, i) + 2 <= |b| <= MAX_MEMORY_SIZE
    ensures IsTable(b, rs) ==> Addr(rs, i) + 2 < |b|
    ensures i == |rs| ==> U16(b[Addr(rs, i)], b[Addr(rs, i) + 1]) == END_TAG
    ensures i < |rs| ==>
      && Addr(rs, i) + 6 <= |b|
      && U16(b[Addr(rs, i)], b[Addr(rs, i) + 1]) == rs[i].Size() < END_TAG
      && b[Addr(rs, i) + 2] == rs[i].keyLength
      && Addr(rs, i + 1) == Addr(rs, i) + rs[i].Size()
  {
    hide EncodeAll, Extent, Encode, Placed, Holds, U16;
    AddrEnd(rs);
    EndTagHolds(b, Addr(rs, |rs|));
    if i < |rs| {
      RecordAt(b, rs, i);
    }
  }

  lemma HeaderInTable(b: seq<byte>, rs: seq<Record>, i: nat)
    requires IsTable(b, rs) && i <= |rs|
    ensures 1 <= Addr(rs, i) && Addr(rs, i) + 2 < |b| <= MAX_MEMORY_SIZE
    ensures i == |rs| ==> U16(b[Addr(rs, i)], b[Addr(rs, i) + 1]) == END_TAG
    ensures i < |rs| ==>
      && U16(b[Addr(rs, i)], b[Addr(rs, i) + 1]) == rs[i].Size() < END_TAG
      && b[Addr(rs, i) + 2] == rs[i].keyLength
      && Addr(rs, i + 1) == Addr(rs, i) + rs[i].Size()
  {
    hide Written, Addr, U16;
    HeaderAt(b, rs, i);
  }

  lemma PlacedDrop(b: seq<byte>, at: nat, rs: seq<Record>, i: nat)
    requires Placed(b, at, rs) && i <= |rs|
    ensures Placed(b, at + Extent(rs[..i]), rs[i..])
  {
    hide EncodeAll, Extent, Encode, Placed;
    PlacedConcat(b, at, rs[..i], rs[i..]);
    assert rs[..i] + rs[i..] == rs;
  }

  lemma PlacedTake(b: seq<byte>, at: nat, rs: seq<Record>, i: nat)
    requires Placed(b, at, rs) && i <= |rs|
    ensures Placed(b, at, rs[..i])
  {
    hide EncodeAll, Extent, Encode, Placed;
    PlacedConcat(b, at, rs[..i], rs[i..]);
    assert rs[..i] + rs[i..] == rs;
  }

  /** Every stretch of a chain is a chain. */
  lemma PlacedSlice(b: seq<byte>, at: nat, rs: seq<Record>, i: nat, j: nat)
    requires Placed(b, at, rs) && i <= j <= |rs|
    ensures Placed(b, at + Extent(rs[..i]), rs[i..j])
  {
    PlacedDrop(b, at, rs, i);
    PlacedTake(b, at + Extent(rs[..i]), rs[i..], j - i);
    assert rs[i..][..j - i] == rs[i..j];
  }

  /** The bytes determine the records: the format can be read in one way only. */
  lemma {:induction false} ReadInOneWay(b: seq<byte>, at: nat, rs: seq<Record>, qs: seq<Record>)
    requires Placed(b, at, rs) && EndTagAt(b, at + Extent(rs))
    requires Placed(b, at, qs) && EndTagAt(b, at + Extent(qs))
    ensures rs == qs
    decreases |rs|
  {
    hide EncodeAll, Extent, Encode, Holds, Placed;
    FirstRecordsAgree(b, at, rs, qs);
    if rs != [] {
      ReadInOneWay(b, at + rs[0].Size(), rs[1..], qs[1..]);
      assert rs == [rs[0]] + rs[1..];
      assert qs == [qs[0]] + qs[1..];
    }
  }

  lemma FirstRecordsAgree(b: seq<byte>, at: nat, rs: seq<Record>, qs: seq<Record>)
    requires Placed(b, at, rs) && EndTagAt(b, at + Extent(rs))
    requires Placed(b, at, qs) && EndTagAt(b, at + Extent(qs))
    ensures rs == [] <==> qs == []
    ensures rs != [] ==>
      && rs[0] == qs[0]
      && Placed(b, at + rs[0].Size(), rs[1..]) && Placed(b, at + rs[0].Size(), qs[1..])
      && at + Extent(rs) == at + rs[0].Size() + Extent(rs[1..])
      && at + Extent(qs) == at + rs[0].Size() + Extent(qs[1..])
  {
    hide EncodeAll, Extent, Encode, Placed, Holds, U16;
    FirstRecordOrEnd(b, at, rs);
    FirstRecordOrEnd(b, at, qs);
    if rs != [] && qs != [] {
      assert rs[0] == RawRecord(b[at + 2], b[at + HEADER_SIZE..at + rs[0].Size()]);
      assert qs[0] == RawRecord(b[at + 2], b[at + HEADER_SIZE..at + qs[0].Size()]);
    }
  }

  lemma FirstRecordOrEnd(b: seq<byte>, at: nat, rs: seq<Record>)
    requires Placed(b, at, rs) && EndTagAt(b, at + Extent(rs))
    ensures at + 2 < |b|
    ensures rs == [] <==> U16(b[at], b[at + 1]) == END_TAG
    ensures rs != [] ==>
      && Extent(rs) == rs[0].Size() + Extent(rs[1..])
      && at + rs[0].Size() <= |b|
      && U16(b[at], b[at + 1]) == rs[0].Size() && b[at + 2] == rs[0].keyLength
      && b[at + HEADER_SIZE..at + rs[0].Size()] == rs[0].body
      && Placed(b, at + rs[0].Size(), rs[1..])
  {
    hide EncodeAll, Encode, Placed, Holds;
    if rs != [] {
      FirstRecord(b, at, rs);
    }
  }

  lemma FirstRecord(b: seq<byte>, at: nat, rs: seq<Record>)
    requires Placed(b, at, rs) && rs != []
    ensures Extent(rs) == rs[0].Size() + Extent(rs[1..])
    ensures at + rs[0].Size() <= |b|
    ensures U16(b[at], b[at + 1]) == rs[0].Size() && b[at + 2] == rs[0].keyLength
    ensures b[at + HEADER_SIZE..at + rs[0].Size()] == rs[0].body
    ensures Placed(b, at + rs[0].Size(), rs[1..])
  {
    hide EncodeAll, Extent, Encode, Placed, U16;
    assert rs == [rs[0]] + rs[1..];
    PlacedConcat(b, at, [rs[0]], rs[1..]);
    PlacedOne(b, at, rs[0]);
    EncodeHolds(b, at, rs[0]);
  }

  // ---------- The layout in numbers ----------

  /** The layout of every table: version 1 in the first byte, the records from the
      second byte on, and two bytes 0xff behind them. */
  lemma LayoutOfTable(b: seq<byte>, rs: seq<Record>)
    requires IsTable(b, rs)
    ensures b[0] == 1 && Addr(rs, 0) == 1
    ensures Addr(rs, |rs|) + 2 < |b| && b[Addr(rs, |rs|)] == 0xff && b[Addr(rs, |rs|) + 1] == 0xff
    ensures forall i :: 0 <= i < |rs| ==> LaidOut(b, Addr(rs, i), Addr(rs, i + 1), rs[i])
  {
    hide EncodeAll, Extent, Encode, Placed, EndTagAt;
    TableIs(b, rs);
    AddrStart(rs);
    AddrEnd(rs);
    var e := Addr(rs, |rs|);
    assert b[e..e + 2] == END_TAG_BYTES && b[e..e + 2][0] == b[e] && b[e..e + 2][1] == b[e + 1];
    forall i | 0 <= i < |rs| ensures LaidOut(b, Addr(rs, i), Addr(rs, i + 1), rs[i]) {
      RecordAt(b, rs, i);
      BodyIs(b, Addr(rs, i), rs[i]);
    }
  }

  /** A record from `a` to `z`: its length, lowest byte first, the length of its
      key, the key and the value. */
  ghost predicate LaidOut(b: seq<byte>, a: nat, z: nat, r: RawRecord) {
    && a + 3 <= z <= |b|
    && b[a] as int + 0x100 * b[a + 1] as int == z - a
    && b[a + 2] == r.keyLength
    && b[a + 3..z] == r.Key() + r.Value()
    && (r.keyLength <= |r.body| ==> |r.Key()| == r.keyLength)
  }

  lemma BodyIs(b: seq<byte>, a: nat, r: Record)
    requires a + r.Size() <= |b| && b[a + HEADER_SIZE..a + r.Size()] == r.body
    ensures b[a + 3..a + r.Size()] == r.Key() + r.Value()
  {
  }

  /** A memory with the value 7, 8 under the key "a". */
  const SAMPLE_IMAGE: seq<byte> := [1, 6, 0, 1, 97, 7, 8, 255, 255, 0]

  lemma SampleIsTable()
    ensures var r: RawRecord := RawRecord(1, [97, 7, 8]);
      IsTable(SAMPLE_IMAGE, [r]) && !r.IsHole() && r.Key() == [97] && r.Value() == [7, 8]
  {
    var r: Record := RawRecord(1, [97, 7, 8]);
    var b := SAMPLE_IMAGE;
    assert b[0..1] == [1];
    PlacedOne(b, 1, r);
    assert b[1..7] == [6, 0, 1] + [97, 7, 8];
    assert b[7..9] == [255, 255];
  }

  /** The length of a record of 0x1234 bytes. */
  lemma LongRecordHeader(body: seq<byte>)
    requires |body| == 0x1234 - 3
    ensures Encode(RawRecord(5, body))[..3] == [0x34, 0x12, 5]
  {
  }
}
