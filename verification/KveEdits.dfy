/** What each kind of write does to a table: record by record, no bytes lost. */
module KveEdits {
  import opened Bytes
  import opened KveFormat

  /** A write leaves alone what lies before or behind it. */
  lemma HoldsOutside(b: seq<byte>, at: nat, data: seq<byte>, p: nat, s: seq<byte>)
    requires at + |data| <= |b|
    requires Holds(b, p, s)
    requires p + |s| <= at || at + |data| <= p
    ensures Holds(Splice(b, at, data), p, s)
  {
    SpliceHolds(b, at, data);
    var n := Splice(b, at, data);
    if p + |s| <= at {
      assert n[p..p + |s|] == n[..at][p..p + |s|] == b[..at][p..p + |s|];
    } else {
      var e := at + |data|;
      assert n[p..p + |s|] == n[e..][p - e..p - e + |s|] == b[e..][p - e..p - e + |s|];
    }
  }

  lemma PlacedNone(b: seq<byte>, at: nat)
    requires at <= |b|
    ensures Extent([]) == 0
    ensures Placed(b, at, [])
  {
  }

  /** A table, piece by piece: version, two chains and the end tag. */
  lemma WrittenOfTwo(b: seq<byte>, a: seq<Record>, c: seq<Record>)
    ensures Written(b, a + c) <==>
      && |b| <= MAX_MEMORY_SIZE
      && Holds(b, VERSION_ADDRESS, [KVE_VERSION])
      && Placed(b, FIRST_ITEM_ADDRESS, a)
      && Placed(b, FIRST_ITEM_ADDRESS + Extent(a), c)
      && Holds(b, FIRST_ITEM_ADDRESS + Extent(a) + Extent(c), END_TAG_BYTES)
    ensures Extent(a + c) == Extent(a) + Extent(c)
  {
    hide EncodeAll, Extent, Encode, Holds, Placed;
    PlacedConcat(b, FIRST_ITEM_ADDRESS, a, c);
  }

  /** A table, piece by piece, around one record. */
  lemma WrittenAround(b: seq<byte>, a: seq<Record>, r: Record, c: seq<Record>)
    ensures Written(b, a + [r] + c) <==>
      && |b| <= MAX_MEMORY_SIZE
      && Holds(b, VERSION_ADDRESS, [KVE_VERSION])
      && Placed(b, FIRST_ITEM_ADDRESS, a)
      && Holds(b, FIRST_ITEM_ADDRESS + Extent(a), Encode(r))
      && Placed(b, FIRST_ITEM_ADDRESS + Extent(a) + r.Size(), c)
      && Holds(b, FIRST_ITEM_ADDRESS + Extent(a) + r.Size() + Extent(c), END_TAG_BYTES)
    ensures Extent(a + [r] + c) == Extent(a) + r.Size() + Extent(c)
  {
    hide EncodeAll, Extent, Encode, Holds, Placed, Written;
    WrittenOfTwo(b, a + [r], c);
    PlacedConcat(b, FIRST_ITEM_ADDRESS, a, [r]);
    PlacedOne(b, FIRST_ITEM_ADDRESS + Extent(a), r);
  }

  lemma FormatGivesTable(b: seq<byte>)
    requires 4 <= |b| <= MAX_MEMORY_SIZE
    ensures IsTable(Splice(Splice(b, VERSION_ADDRESS, [KVE_VERSION]), FIRST_ITEM_ADDRESS, END_TAG_BYTES), [])
  {
    hide Holds, Splice;
    var v := Splice(b, VERSION_ADDRESS, [KVE_VERSION]);
    var f := Splice(v, FIRST_ITEM_ADDRESS, END_TAG_BYTES);
    SpliceHolds(b, VERSION_ADDRESS, [KVE_VERSION]);
    SpliceHolds(v, FIRST_ITEM_ADDRESS, END_TAG_BYTES);
    HoldsOutside(v, FIRST_ITEM_ADDRESS, END_TAG_BYTES, VERSION_ADDRESS, [KVE_VERSION]);
    PlacedNone(f, FIRST_ITEM_ADDRESS);
  }

  /** Writing a record of the same size over another one. */
  lemma Replace(b: seq<byte>, a: seq<Record>, r: Record, c: seq<Record>, q: Record)
    requires Written(b, a + [r] + c) && q.Size() == r.Size()
    ensures FIRST_ITEM_ADDRESS + Extent(a) + q.Size() <= |b|
    ensures Written(Splice(b, FIRST_ITEM_ADDRESS + Extent(a), Encode(q)), a + [q] + c)
    ensures Extent(a + [q] + c) == Extent(a + [r] + c)
  {
    hide EncodeAll, Extent, Encode, Holds, Splice, Written;
    WrittenAround(b, a, r, c);
    var at := FIRST_ITEM_ADDRESS + Extent(a);
    var e := at + r.Size() + Extent(c);
    HeldBytes(b, at, Encode(r));
    var n := Splice(b, at, Encode(q));
    SpliceHolds(b, at, Encode(q));
    HoldsOutside(b, at, Encode(q), VERSION_ADDRESS, [KVE_VERSION]);
    HoldsOutside(b, at, Encode(q), FIRST_ITEM_ADDRESS, EncodeAll(a));
    HoldsOutside(b, at, Encode(q), at + r.Size(), EncodeAll(c));
    HoldsOutside(b, at, Encode(q), e, END_TAG_BYTES);
    WrittenAround(n, a, q, c);
  }

  /** Writing a hole's header over bytes turns what follows into the hole's body. */
  lemma HeaderMakesHole(b: seq<byte>, at: nat, r: Record)
    requires at + r.Size() <= |b| && r.IsHole()
    requires b[at + HEADER_SIZE..at + r.Size()] == r.body
    ensures Splice(b, at, Header(r.Size(), 0)) == Splice(b, at, Encode(r))
  {
    var n := Splice(b, at, Header(r.Size(), 0));
    assert n == b[..at] + Header(r.Size(), 0) + b[at + HEADER_SIZE..];
    assert b[at + HEADER_SIZE..] == r.body + b[at + r.Size()..];
    Associative(b[..at] + Header(r.Size(), 0), r.body, b[at + r.Size()..]);
    Associative(b[..at], Header(r.Size(), 0), r.body);
  }

  /** Writing a record over the end tag, and a new end tag behind it. */
  lemma Append(b: seq<byte>, rs: seq<Record>, q: Record)
    requires Written(b, rs)
    requires FIRST_ITEM_ADDRESS + Extent(rs) + q.Size() + END_TAG_LENGTH <= |b|
    ensures Extent(rs + [q]) == Extent(rs) + q.Size()
    ensures var at := FIRST_ITEM_ADDRESS + Extent(rs);
      Written(Splice(Splice(b, at, Encode(q)), at + q.Size(), END_TAG_BYTES), rs + [q])
  {
    hide EncodeAll, Extent, Encode, Holds, Splice;
    var at := FIRST_ITEM_ADDRESS + Extent(rs);
    var n := Splice(b, at, Encode(q));
    var m := Splice(n, at + q.Size(), END_TAG_BYTES);
    SpliceHolds(b, at, Encode(q));
    HoldsOutside(b, at, Encode(q), VERSION_ADDRESS, [KVE_VERSION]);
    HoldsOutside(b, at, Encode(q), FIRST_ITEM_ADDRESS, EncodeAll(rs));
    SpliceHolds(n, at + q.Size(), END_TAG_BYTES);
    HoldsOutside(n, at + q.Size(), END_TAG_BYTES, VERSION_ADDRESS, [KVE_VERSION]);
    HoldsOutside(n, at + q.Size(), END_TAG_BYTES, FIRST_ITEM_ADDRESS, EncodeAll(rs));
    HoldsOutside(n, at + q.Size(), END_TAG_BYTES, at, Encode(q));
    PlacedOne(m, at, q);
    PlacedConcat(m, FIRST_ITEM_ADDRESS, rs, [q]);
  }

  /** Writing an end tag over record `h` drops that record and all behind it. */
  lemma Crop(b: seq<byte>, rs: seq<Record>, h: nat)
    requires IsTable(b, rs) && h <= |rs|
    ensures Addr(rs, h) + END_TAG_LENGTH < |b|
    ensures IsTable(Splice(b, Addr(rs, h), END_TAG_BYTES), rs[..h])
  {
    hide EncodeAll, Extent, Encode, Holds, Splice, Placed;
    var a, at := rs[..h], Addr(rs, h);
    assert a + rs[h..] == rs;
    ExtentConcat(a, rs[h..]);
    PlacedTake(b, FIRST_ITEM_ADDRESS, rs, h);
    assert Holds(b, FIRST_ITEM_ADDRESS, EncodeAll(a)) by {
      PlacedIs(b, FIRST_ITEM_ADDRESS, a);
    }
    var n := Splice(b, at, END_TAG_BYTES);
    SpliceHolds(b, at, END_TAG_BYTES);
    HoldsOutside(b, at, END_TAG_BYTES, VERSION_ADDRESS, [KVE_VERSION]);
    HoldsOutside(b, at, END_TAG_BYTES, FIRST_ITEM_ADDRESS, EncodeAll(a));
    PlacedIs(n, FIRST_ITEM_ADDRESS, a);
  }

  lemma PlacedIs(b: seq<byte>, at: nat, rs: seq<Record>)
    ensures Placed(b, at, rs) <==> Holds(b, at, EncodeAll(rs))
  {
  }

  /** One step of the compaction: the holes `g` before the items `m` become one
      hole behind them; its body is whatever bytes are left there. */
  lemma SwapHole(b: seq<byte>, a: seq<Record>, g: seq<Record>, m: seq<Record>, c: seq<Record>) returns (hole: Record)
    requires IsTable(b, a + g + m + c) && g != []
    ensures var to, from := FIRST_ITEM_ADDRESS + Extent(a), FIRST_ITEM_ADDRESS + Extent(a) + Extent(g);
            && from + Extent(m) <= |b|
            && Extent(g) < 0x1_0000
            && to + Extent(m) + HEADER_SIZE <= |b|
            && var moved := Splice(b, to, b[from..from + Extent(m)]);
               IsTable(Splice(moved, to + Extent(m), Header(Extent(g), 0)), a + m + [hole] + c)
    ensures hole.IsHole() && hole.Size() == Extent(g)
  {
    hide EncodeAll, Extent, Encode, Holds, Splice, Placed, IsTable;
    var to, from := FIRST_ITEM_ADDRESS + Extent(a), FIRST_ITEM_ADDRESS + Extent(a) + Extent(g);
    var rest := from + Extent(m);
    var e := rest + Extent(c);
    ExtentAtLeast(g);
    PiecesOfTwo(b, a + g + m, c);
    ChainOfThree(b, FIRST_ITEM_ADDRESS, a, g, m);
    PlacedIs(b, from, m);
    HeldBytes(b, from, EncodeAll(m));
    var block := b[from..rest];
    var moved := Splice(b, to, block);
    SpliceHolds(b, to, block);
    HoldsOutside(b, to, block, VERSION_ADDRESS, [KVE_VERSION]);
    PlacedOutside(b, to, block, FIRST_ITEM_ADDRESS, a);
    PlacedIs(moved, to, m);
    PlacedOutside(b, to, block, rest, c);
    HoldsOutside(b, to, block, e, END_TAG_BYTES);

    var at := to + Extent(m);
    hole := RawRecord(0, moved[at + HEADER_SIZE..rest]);
    HeaderMakesHole(moved, at, hole);
    HoleBehind(moved, a, m, hole, c);
  }

  lemma HeldBytes(b: seq<byte>, at: nat, s: seq<byte>)
    requires Holds(b, at, s)
    ensures at + |s| <= |b| && b[at..at + |s|] == s
  {
  }

  lemma PlacedOutside(b: seq<byte>, at: nat, data: seq<byte>, p: nat, rs: seq<Record>)
    requires at + |data| <= |b|
    requires Placed(b, p, rs)
    requires p + Extent(rs) <= at || at + |data| <= p
    ensures Placed(Splice(b, at, data), p, rs)
  {
    hide EncodeAll, Extent, Holds, Splice;
    HoldsOutside(b, at, data, p, EncodeAll(rs));
  }

  lemma PiecesOfTwo(b: seq<byte>, a: seq<Record>, c: seq<Record>)
    requires IsTable(b, a + c)
    ensures |b| <= MAX_MEMORY_SIZE && Holds(b, VERSION_ADDRESS, [KVE_VERSION])
    ensures Placed(b, FIRST_ITEM_ADDRESS, a)
    ensures Placed(b, FIRST_ITEM_ADDRESS + Extent(a), c)
    ensures var e := FIRST_ITEM_ADDRESS + Extent(a) + Extent(c);
            e + END_TAG_LENGTH < |b| && Holds(b, e, END_TAG_BYTES)
  {
    hide EncodeAll, Extent, Encode, Holds, Placed, Written;
    WrittenOfTwo(b, a, c);
  }

  lemma ChainOfThree(b: seq<byte>, at: nat, a: seq<Record>, g: seq<Record>, m: seq<Record>)
    requires Placed(b, at, a + g + m)
    ensures Extent(a + g + m) == Extent(a) + Extent(g) + Extent(m)
    ensures Placed(b, at, a)
    ensures Placed(b, at + Extent(a) + Extent(g), m)
  {
    hide EncodeAll, Extent, Encode, Placed;
    PlacedConcat(b, at, a + g, m);
    PlacedConcat(b, at, a, g);
  }

  lemma HoleBehind(b: seq<byte>, a: seq<Record>, m: seq<Record>, hole: Record, c: seq<Record>)
    requires |b| <= MAX_MEMORY_SIZE
    requires var at := FIRST_ITEM_ADDRESS + Extent(a) + Extent(m);
             var rest := at + hole.Size();
             && rest + Extent(c) + 2 < |b|
             && Holds(b, VERSION_ADDRESS, [KVE_VERSION])
             && Placed(b, FIRST_ITEM_ADDRESS, a)
             && Placed(b, FIRST_ITEM_ADDRESS + Extent(a), m)
             && Placed(b, rest, c)
             && Holds(b, rest + Extent(c), END_TAG_BYTES)
    ensures var at := FIRST_ITEM_ADDRESS + Extent(a) + Extent(m);
            IsTable(Splice(b, at, Encode(hole)), a + m + [hole] + c)
  {
    hide EncodeAll, Extent, Encode, Holds, Splice, Written, Placed, IsTable;
    PlacedConcat(b, FIRST_ITEM_ADDRESS, a, m);
    RecordBetween(b, a + m, hole, c);
  }

  /** Writing a record between two chains that lie far enough apart. */
  lemma RecordBetween(b: seq<byte>, a: seq<Record>, q: Record, c: seq<Record>)
    requires |b| <= MAX_MEMORY_SIZE
    requires var rest := FIRST_ITEM_ADDRESS + Extent(a) + q.Size();
             && rest + Extent(c) + 2 < |b|
             && Holds(b, VERSION_ADDRESS, [KVE_VERSION])
             && Placed(b, FIRST_ITEM_ADDRESS, a)
             && Placed(b, rest, c)
             && Holds(b, rest + Extent(c), END_TAG_BYTES)
    ensures IsTable(Splice(b, FIRST_ITEM_ADDRESS + Extent(a), Encode(q)), a + [q] + c)
  {
    hide EncodeAll, Extent, Encode, Holds, Splice, Written;
    var at := FIRST_ITEM_ADDRESS + Extent(a);
    var rest := at + q.Size();
    var n := Splice(b, at, Encode(q));
    SpliceHolds(b, at, Encode(q));
    HoldsOutside(b, at, Encode(q), VERSION_ADDRESS, [KVE_VERSION]);
    HoldsOutside(b, at, Encode(q), FIRST_ITEM_ADDRESS, EncodeAll(a));
    HoldsOutside(b, at, Encode(q), rest, EncodeAll(c));
    HoldsOutside(b, at, Encode(q), rest + Extent(c), END_TAG_BYTES);
    WrittenAround(n, a, q, c);
  }
}
