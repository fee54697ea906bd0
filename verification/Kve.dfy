/**
  The key/value store: a persistent map kept in one flat byte memory.  The
  ghost field `records` is the reading of the bytes; `Contents()` is the map.
 */
module Kve {
  import opened Bytes
  import opened KveFormat
  import opened KveContents
  import opened KveStorage
  import KveEdits

  /** `value` fits under `key` beside the entries of `m`, in the most compact layout. */
  ghost predicate Fits(m: Contents, key: seq<byte>, value: Value, memorySize: nat) {
    FIRST_ITEM_ADDRESS + Used(m - {key}) + Cost(key, value) + END_TAG_LENGTH < memorySize
  }

  /** A store finds a record of just the length it needs, and writes over it. */
  ghost predicate InPlace(m: Contents, key: seq<byte>, value: Value) {
    key in m && Cost(key, value) % 0x1_0000 == Cost(key, m[key])
  }

  /** The same for a record too long for its length field, which has overflowed. */
  ghost predicate Wraps(m: Contents, key: seq<byte>, value: Value) {
    Cost(key, value) > 0xffff && InPlace(m, key, value)
  }

  /** The contents after a store. */
  ghost function Updated(m: Contents, key: seq<byte>, value: Value, memorySize: nat): Contents {
    if Fits(m, key, value, memorySize) then m[key := value]
    else if Wraps(m, key, value) then m[key := Cut(value)]
    else m - {key}
  }

  /** What the records occupy after an item is appended, with a compaction if it
      does not fit behind them. */
  ghost function AppendExtent(extent: nat, m: Contents, cost: nat, memorySize: nat): nat {
    if FIRST_ITEM_ADDRESS + extent + cost + END_TAG_LENGTH < memorySize then extent + cost
    else if FIRST_ITEM_ADDRESS + Used(m) + cost + END_TAG_LENGTH < memorySize then Used(m) + cost
    else Used(m)
  }

  /** A store appends an item that leaves no byte to access behind the end tag. */
  ghost predicate Brims(t: Table, key: seq<byte>, value: Value, accessible: nat, memorySize: nat) {
    && Fits(t.contents, key, value, memorySize) && !InPlace(t.contents, key, value)
    && FIRST_ITEM_ADDRESS + AppendExtent(t.extent, t.contents - {key}, Cost(key, value), memorySize)
        + END_TAG_LENGTH == accessible
  }

  /** What operations depend on: the map, the bytes that the records occupy, and
      whether the end tag takes the last two bytes that can be accessed. */
  datatype Table = Table(contents: Contents, extent: nat, full: bool)

  ghost function AfterPut(t: Table, key: seq<byte>, value: Value, accessible: nat, memorySize: nat): Table {
    if InPlace(t.contents, key, value) then t.(contents := t.contents[key := Cut(value)])
    else if t.full then t.(contents := t.contents - {key})
    else Table(
      Updated(t.contents, key, value, memorySize),
      AppendExtent(t.extent, t.contents - {key}, Cost(key, value), memorySize),
      Brims(t, key, value, accessible, memorySize))
  }

  ghost predicate PutSucceeds(t: Table, key: seq<byte>, value: Value, memorySize: nat) {
    if t.full then InPlace(t.contents, key, value)
    else Fits(t.contents, key, value, memorySize) || Wraps(t.contents, key, value)
  }

  /** The space that a table needs, in numbers: the version byte, three bytes for the
      header of every item, the end tag, and one byte behind it. */
  lemma FitsIs(m: Contents, key: seq<byte>, value: Value, memorySize: nat)
    ensures Fits(m, key, value, memorySize)
       <==> 1 + Used(m - {key}) + (3 + |key| + |value|) + 2 + 1 <= memorySize
    ensures key in m ==> Used(m) == Used(m - {key}) + 3 + |key| + |m[key]|
    ensures Used(map[]) == 0
  {
    if key in m {
      UsedSplit(m, key);
    }
  }

  /** The image of one entry is accepted and means that entry. */
  lemma SampleMeansEntry()
    ensures exists rs :: GoodTable(SAMPLE_IMAGE, rs) && ContentsOf(rs) == map[[97] := [7, 8]]
  {
    SampleIsTable();
    var r: Record := RawRecord(1, [97, 7, 8]);
    ContentsOfOne(r);
    assert GoodTable(SAMPLE_IMAGE, [r]);
  }

  class Store {
    const memory: Memory
    ghost var records: seq<Record>

    constructor (memory: Memory)
      ensures this.memory == memory
    {
      this.memory := memory;
      records := [];
    }

    /** What the consistency check establishes. */
    ghost predicate Consistent()
      reads this, memory.mem
    {
      memory.Sized() && IsTable(memory.mem[..], records)
    }

    ghost predicate Valid()
      reads this, memory.mem
    {
      memory.Sized() && GoodTable(memory.mem[..], records)
    }

    /** The end tag takes the last two bytes that can be accessed.  Only a medium
        without the last byte of the table lets this happen. */
    ghost predicate Brimful()
      reads this, memory.mem
    {
      && memory.Sized() && !memory.Whole()
      && Written(memory.mem[..], records) && GoodRecords(records)
      && FIRST_ITEM_ADDRESS + Extent(records) + END_TAG_LENGTH == memory.mem.Length
    }

    /** The state between two operations. */
    ghost predicate Sound()
      reads this, memory.mem
    {
      Valid() || Brimful()
    }

    ghost function Seen(): Table
      reads this, memory.mem
    {
      Table(Contents(), Extent(records), Brimful())
    }

    ghost function Contents(): Contents
      reads this
    {
      ContentsOf(records)
    }

    method Format()
      requires memory.Sized()
      modifies this, memory.mem
      ensures Valid() && records == [] && Contents() == map[]
      ensures memory.mem[..] == [1, 0xff, 0xff] + old(memory.mem[3..])
    {
      KveEdits.FormatGivesTable(memory.mem[..]);
      memory.Write(VERSION_ADDRESS, [KVE_VERSION]);
      memory.WriteEnd(FIRST_ITEM_ADDRESS);
      records := [];
    }

    /** Accepts exactly the byte images that can be read as a table. */
    method Check() returns (ok: bool)
      requires memory.Sized()
      ensures ok <==> exists rs :: IsTable(memory.mem[..], rs)
    {
      hide EncodeAll, Extent, Holds, Placed, Written, IsTable, EndTagAt, EndFrom;
      var version := memory.Read(VERSION_ADDRESS, [0], 1);
      assert version[0] == version[..1][0] == memory.mem[VERSION_ADDRESS];
      if version[0] != KVE_VERSION {
        forall rs ensures !IsTable(memory.mem[..], rs) {
          TableIs(memory.mem[..], rs);
        }
        return false;
      }
      var endAddress := memory.FindEnd(FIRST_ITEM_ADDRESS);
      ghost var b := memory.mem[..];
      if endAddress == INVALID_ADDRESS {
        forall rs ensures !IsTable(b, rs) {
          if IsTable(b, rs) {
            TableIsFound(b, rs);
          }
        }
        return false;
      }
      ghost var rs := FoundIsChain(b, FIRST_ITEM_ADDRESS);
      TableIs(b, rs);
      return true;
    }

    /** Start-up: keeps a readable table as it is and formats anything else. */
    method Mount() returns (pass: bool)
      requires memory.Sized()
      modifies this, memory.mem
      ensures pass && Consistent()
      ensures forall rs :: IsTable(old(memory.mem[..]), rs) ==> records == rs && memory.mem[..] == old(memory.mem[..])
      ensures (forall rs :: !IsTable(old(memory.mem[..]), rs)) ==> Valid() && records == [] && Contents() == map[]
    {
      hide IsTable, GoodRecords, ContentsOf;
      ghost var b := memory.mem[..];
      pass := Check();
      assert memory.mem[..] == b;
      if pass {
        ghost var found :| IsTable(b, found);
        records := found;
        forall rs | IsTable(b, rs) ensures rs == found {
          OneTable(b, rs, found);
        }
      } else {
        assert forall rs :: !IsTable(b, rs);
        Format();
        pass := Check();
        assert IsTable(memory.mem[..], records);
      }
    }

    /** Removes the holes of any consistent table: the live records stay, in
        order and byte for byte, and the table ends right behind them. */
    method Defrag()
      requires Consistent()
      modifies this, memory.mem
      ensures Consistent()
      ensures records == Live(old(records)) && NoHoles(records)
      ensures Contents() == old(Contents())
      ensures old(Valid()) ==> Valid()
    {
      hide EncodeAll, Extent, Encode, Splice, Holds, ContentsOf, UniqueKeys, Live, IsTable, Addr, Compacted,
        FirstHole, FirstItem;
      ghost var rs, h: nat := records, 0;
      AddrStart(rs);
      var holeAddress := memory.FindHole(FIRST_ITEM_ADDRESS, rs, 0);
      h := FirstHole(rs, 0);
      while holeAddress != INVALID_ADDRESS
        invariant IsTable(memory.mem[..], rs) && h <= |rs|
        invariant NoHoles(rs[..h])
        invariant records == old(records) && Live(rs) == Live(records)
        invariant holeAddress == INVALID_ADDRESS || holeAddress == Addr(rs, h)
        invariant if h < |rs| then holeAddress == Addr(rs, h) && rs[h].IsHole() else h == |rs|
        decreases |rs| - h
      {
        HeaderInTable(memory.mem[..], rs, h);
        var itemAddress := memory.FindNextItem(holeAddress, rs, h);
        ghost var j := FirstItem(rs, if h < |rs| then h + 1 else h);
        HeaderInTable(memory.mem[..], rs, j);
        if itemAddress == INVALID_ADDRESS {
          // The hole is at the end: crop it.
          KveEdits.Crop(memory.mem[..], rs, h);
          CropKeepsLive(rs, h);
          memory.WriteEnd(holeAddress);
          rs := rs[..h];
          break;
        }
        var nextHoleAddress := memory.FindHole(itemAddress, rs, j);
        ghost var k := FirstHole(rs, j);
        if nextHoleAddress == INVALID_ADDRESS {
          // No hole behind these items: move everything up to the end.
          nextHoleAddress := memory.FindEnd(itemAddress);
          EndIsFound(memory.mem[..], rs, j);
        }
        rs, h := MoveItemsDown(holeAddress, itemAddress, nextHoleAddress, rs, h, j, k);
        holeAddress := holeAddress + (nextHoleAddress - itemAddress);
      }
      HeaderInTable(memory.mem[..], rs, h);
      assert rs[..|rs|] == rs;
      LiveOfNoHoles(rs);
      LiveMeansTheSame(records);
      records := rs;
    }

    /** Moves the items `j..k` over the holes `h..j` and puts one hole behind them. */
    method MoveItemsDown(holeAddress: nat, itemAddress: nat, nextHoleAddress: nat,
                         ghost rs: seq<Record>, ghost h: nat, ghost j: nat, ghost k: nat)
      returns (ghost qs: seq<Record>, ghost h': nat)
      requires IsTable(memory.mem[..], rs) && h < j < k <= |rs|
      requires holeAddress == Addr(rs, h) && itemAddress == Addr(rs, j) && nextHoleAddress == Addr(rs, k)
      requires NoHoles(rs[..h])
      requires forall i :: h <= i < j ==> rs[i].IsHole()
      requires forall i :: j <= i < k ==> !rs[i].IsHole()
      modifies memory.mem
      ensures IsTable(memory.mem[..], qs) && h' < |qs|
      ensures itemAddress <= nextHoleAddress && Addr(qs, h') == holeAddress + (nextHoleAddress - itemAddress)
      ensures NoHoles(qs[..h']) && qs[h'].IsHole()
      ensures Live(qs) == Live(rs)
      ensures |qs| - h' < |rs| - h
    {
      hide EncodeAll, Extent, Encode, Splice, Holds, Live, IsTable, Written, NoHoles, Addr, Compacted;
      ghost var hole := CompactionStep(memory.mem[..], rs, h, j, k);
      CompactionKeepsLive(rs, h, j, k, hole);
      var lengthToMove := nextHoleAddress - itemAddress;
      memory.MoveMemory(itemAddress, holeAddress, lengthToMove);
      memory.WriteHole(holeAddress + lengthToMove, itemAddress - holeAddress);
      qs, h' := Compacted(rs, h, j, k, hole), h + (k - j);
    }

    /** Appends an item behind the last record, compacting the table first if
        the item does not fit there. */
    method AppendItemToEnd(key: Key, value: Value) returns (ok: bool)
      requires Sound() && key !in Contents()
      modifies this, memory.mem
      ensures Sound()
      ensures old(Brimful()) ==> !ok && Seen() == old(Seen())
      ensures !old(Brimful()) ==>
        && (ok <==> Fits(old(Contents()), key, value, memory.memorySize))
        && Contents() == (if ok then old(Contents())[key := value] else old(Contents()))
        && Extent(records) == AppendExtent(old(Extent(records)), old(Contents()), Cost(key, value), memory.memorySize)
        && (Brimful() <==> ok && FIRST_ITEM_ADDRESS + Extent(records) + END_TAG_LENGTH == memory.mem.Length)
    {
      hide EncodeAll, Extent, Encode, Splice, Holds, Written, IsTable, GoodRecords, ContentsOf, Live, Used, EndFrom;
      ghost var m := Contents();
      assert m - {key} == m;
      AppendBounds(this);
      var itemAddress := memory.FindEnd(FIRST_ITEM_ADDRESS);
      if itemAddress == INVALID_ADDRESS {
        return false;
      }
      if itemAddress + HEADER_SIZE + |key| + |value| + END_TAG_LENGTH < memory.memorySize {
        WriteBehindEnd(itemAddress, key, value);
      } else {
        Defrag();
        AppendBounds(this);
        itemAddress := memory.FindEnd(FIRST_ITEM_ADDRESS);
        if itemAddress + HEADER_SIZE + |key| + |value| + END_TAG_LENGTH < memory.memorySize {
          WriteBehindEnd(itemAddress, key, value);
        } else {
          return false;
        }
      }
      return true;
    }

    method WriteBehindEnd(itemAddress: nat, key: Key, value: Value)
      requires Valid() && key !in Contents()
      requires itemAddress == FIRST_ITEM_ADDRESS + Extent(records)
      requires itemAddress + Cost(key, value) + END_TAG_LENGTH < memory.memorySize
      modifies this, memory.mem
      ensures if itemAddress + Cost(key, value) + END_TAG_LENGTH == memory.mem.Length then Brimful() else Valid()
      ensures Contents() == old(Contents())[key := value]
      ensures Extent(records) == old(Extent(records)) + Cost(key, value)
    {
      hide EncodeAll, Extent, Encode, Splice, Holds, Written, GoodRecords, ContentsOf;
      ghost var item := ItemAppended(memory.mem[..], records, key, value);
      assert Cut(value) == value;
      var size := memory.WriteItem(itemAddress, key, value);
      memory.WriteEnd(itemAddress + size);
      records := records + [item];
    }

    /** Sets the value of a key.  On failure the old value of the key is gone; a
        value with an overflowing length may be cut to the length of the old one.
        Of a table without a byte to access behind it, only items of the right
        size can be replaced. */
    method Put(key: Key, value: Value) returns (ok: bool)
      requires Sound()
      modifies this, memory.mem
      ensures Sound()
      ensures ok <==> PutSucceeds(old(Seen()), key, value, memory.memorySize)
      ensures Seen() == AfterPut(old(Seen()), key, value, memory.mem.Length, memory.memorySize)
      ensures !old(Brimful()) ==> Contents() == Updated(old(Contents()), key, value, memory.memorySize)
    {
      hide EncodeAll, Extent, Encode, Splice, Holds, Written, IsTable, GoodRecords, ContentsOf, Used, AppendExtent;
      ghost var m := Contents();
      SoundIs(this);
      AddrStart(records);
      var itemAddress := memory.FindItemByKey(FIRST_ITEM_ADDRESS, key, records, 0);
      ghost var i := FirstMatch(records, 0, key);
      HeaderAt(memory.mem[..], records, i);
      NoMatchNoKey(records, key);
      if itemAddress == INVALID_ADDRESS {
        assert m - {key} == m;
        ok := AppendItemToEnd(key, value);
      } else {
        var currentItem := memory.GetItemInfo(itemAddress);
        var newLength := (|value| + 3 + |key|) % 0x1_0000;
        MatchIsEntry(records, i, key);
        if currentItem.fullLength != newLength {
          PunchHole(itemAddress, currentItem.fullLength, key, i);
          assert m - {key} - {key} == m - {key};
          assert (m - {key})[key := value] == m[key := value];
          ok := AppendItemToEnd(key, value);
        } else {
          CutIsOldLength(m, key, value);
          Overwrite(itemAddress, key, value, i);
          ok := true;
        }
      }
    }

    method PunchHole(itemAddress: nat, fullLength: nat, key: Key, ghost i: nat)
      requires Sound() && i < |records| && Matches(records[i], key)
      requires itemAddress == Addr(records, i) && fullLength == records[i].Size()
      modifies this, memory.mem
      ensures Sound() && key in old(Contents())
      ensures Seen() == old(Seen()).(contents := old(Contents()) - {key})
    {
      hide EncodeAll, Extent, Encode, Splice, Holds, Written, GoodRecords, ContentsOf;
      ghost var hole := HolePunched(memory.mem[..], records, i, key);
      memory.WriteHole(itemAddress, fullLength);
      records := records[i := hole];
    }

    method Overwrite(itemAddress: nat, key: Key, value: Value, ghost i: nat)
      requires Sound() && i < |records| && Matches(records[i], key)
      requires itemAddress == Addr(records, i) && Cost(key, Cut(value)) == records[i].Size()
      modifies this, memory.mem
      ensures Sound()
      ensures Seen() == old(Seen()).(contents := old(Contents())[key := Cut(value)])
      ensures Fits(old(Contents()), key, Cut(value), memory.memorySize)
    {
      hide EncodeAll, Extent, Encode, Splice, Holds, Written, GoodRecords, ContentsOf, Used;
      ItemOverwritten(memory.mem[..], records, i, key, Cut(value));
      var _ := memory.WriteItem(itemAddress, key, value);
      records := records[i := Item(key, Cut(value))];
    }

    /** Removes a key; tells whether it was there. */
    method Delete(key: Key) returns (found: bool)
      requires Sound()
      modifies this, memory.mem
      ensures Sound()
      ensures found <==> key in old(Contents())
      ensures Seen() == old(Seen()).(contents := old(Contents()) - {key})
    {
      hide EncodeAll, Extent, Encode, Splice, Holds, Written, IsTable, GoodRecords, ContentsOf;
      SoundIs(this);
      AddrStart(records);
      var itemAddress := memory.FindItemByKey(FIRST_ITEM_ADDRESS, key, records, 0);
      ghost var i := FirstMatch(records, 0, key);
      HeaderAt(memory.mem[..], records, i);
      NoMatchNoKey(records, key);
      if itemAddress != INVALID_ADDRESS {
        var itemInfo := memory.GetItemInfo(itemAddress);
        PunchHole(itemAddress, itemInfo.fullLength, key, i);
        return true;
      }
      assert Contents() - {key} == Contents();
      return false;
    }

    /** Reads the first bytes of a key's value; nothing for a missing key. */
    method Fetch(key: Key, bufferLength: nat) returns (buffer: seq<byte>)
      requires Sound()
      ensures buffer ==
        if key in Contents() then Contents()[key][..Min(|Contents()[key]|, bufferLength)] else []
    {
      hide EncodeAll, Extent, Encode, Splice, Holds, Written, IsTable, GoodRecords, ContentsOf;
      SoundIs(this);
      AddrStart(records);
      var itemAddress := memory.FindItemByKey(FIRST_ITEM_ADDRESS, key, records, 0);
      ghost var i := FirstMatch(records, 0, key);
      HeaderAt(memory.mem[..], records, i);
      NoMatchNoKey(records, key);
      if itemAddress != INVALID_ADDRESS {
        MatchIsEntry(records, i, key);
        buffer := ReadHead(itemAddress, bufferLength, records[i], i);
        return;
      }
      return [];
    }

    /** Calls `func` for the items whose key starts with `prefix`, in table
        order.  `func` may depend on all calls so far; the iteration stops at
        the first call it answers with false, and at the first empty value. */
    method Foreach(prefix: Key, func: seq<Call> -> bool) returns (ok: bool, calls: seq<Call>)
      requires Sound()
      requires forall k :: k in Contents() && prefix <= k ==> |k| <= 63
      ensures calls <= Visits(records, 0, prefix)
      ensures forall c :: c in calls ==> c.buffer != []
      ensures ok ==> calls == Visits(records, 0, prefix) && Accepted(func, calls)
      ensures !ok ==> Rejected(func, calls) || StuckAtEmpty(func, calls, Visits(records, 0, prefix))
    {
      hide ContentsOf, Addr, IsTable, Written, GoodRecords, Visits, Accepted, Rejected, StuckAtEmpty, AtItem,
        PrefixedKeysFit, Prefixed, CString, Extent, Sound;
      SoundIs(this);
      KeysInContents(records, prefix);
      var keyBuffer := new byte[64](_ => 0);
      AddrStart(records);
      calls := [];
      NothingYet(func);
      ghost var visits, k := Visits(records, 0, prefix), 0;
      var itemSize, itemAddress;
      itemSize, itemAddress, k := Search(FIRST_ITEM_ADDRESS, prefix, keyBuffer, 0);
      while itemAddress != INVALID_ADDRESS
        invariant Sound() && k <= |records| && AtItem(itemAddress, itemSize, prefix, keyBuffer[..], k)
        invariant calls <= visits && Visits(records, k, prefix) == visits[|calls|..]
        invariant forall c :: c in calls ==> c.buffer != []
        invariant Accepted(func, calls)
        decreases |records| - k
      {
        ok, calls := Visit(itemAddress, itemSize, prefix, keyBuffer, func, calls, visits, k);
        if !ok {
          return;
        }
        itemSize, itemAddress, k := Search(itemAddress + itemSize, prefix, keyBuffer, k + 1);
      }
      NoItem(itemAddress, itemSize, prefix, keyBuffer[..], k);
      VisitsNone(records, prefix);
      return true, calls;
    }

    /** Calls `func` for the item that the search has arrived at. */
    method Visit(itemAddress: nat, itemSize: nat, prefix: Key, keyBuffer: array<byte>, func: seq<Call> -> bool,
                 calls: seq<Call>, ghost visits: seq<Call>, ghost k: nat)
      returns (ok: bool, more: seq<Call>)
      requires memory.Sized() && Written(memory.mem[..], records) && WellFormed(records)
      requires forall j :: 0 <= j < |records| && Prefixed(records[j], prefix) ==> 0 !in records[j].Key()
      requires k <= |records| && AtItem(itemAddress, itemSize, prefix, keyBuffer[..], k)
          && itemAddress != INVALID_ADDRESS
      requires calls <= visits && Visits(records, k, prefix) == visits[|calls|..] && Accepted(func, calls)
      requires forall c :: c in calls ==> c.buffer != []
      ensures k < |records| && itemAddress + itemSize == Addr(records, k + 1)
      ensures more <= visits && forall c :: c in more ==> c.buffer != []
      ensures ok ==> Accepted(func, more) && Visits(records, k + 1, prefix) == visits[|more|..]
      ensures !ok ==> Rejected(func, more) || StuckAtEmpty(func, more, visits)
    {
      hide Addr, Written, Visits, Accepted, Rejected, StuckAtEmpty, AtItem, Prefixed, CString;
      ItemThere(itemAddress, itemSize, prefix, keyBuffer[..], k);
      VisitCounts(func, calls, visits, records, k, prefix);
      AddrStep(records, k);
      var buffer := ReadHead(itemAddress, FOREACH_BUFFER_LENGTH, records[k], k);
      if |buffer| == 0 {
        return false, calls;
      }
      more := calls + [Call(CString(keyBuffer[..]), buffer)];
      ok := func(more);
    }

    /** The search has arrived at record `k` and handed its key out, or, if there
        is no such record, has failed. */
    ghost predicate AtItem(itemAddress: nat, itemSize: nat, prefix: seq<byte>, buffer: seq<byte>, k: nat)
      requires k <= |records|
      reads this, memory.mem
    {
      && itemAddress == AddrOrInvalid(records, k)
      && (k < |records| ==>
            && itemAddress < memory.mem.Length && Prefixed(records[k], prefix)
            && HandedOut(buffer, itemSize, records[k]))
    }

    lemma ItemThere(itemAddress: nat, itemSize: nat, prefix: Key, buffer: seq<byte>, k: nat)
      requires k <= |records| && WellFormed(records) && itemAddress != INVALID_ADDRESS
      requires forall j :: 0 <= j < |records| && Prefixed(records[j], prefix) ==> 0 !in records[j].Key()
      requires AtItem(itemAddress, itemSize, prefix, buffer, k)
      ensures k < |records| && itemAddress == Addr(records, k) && Prefixed(records[k], prefix)
      ensures itemSize == records[k].Size() && CString(buffer) == records[k].Key()
    {
      BufferedKey(buffer, itemSize, records[k]);
    }

    lemma NoItem(itemAddress: nat, itemSize: nat, prefix: seq<byte>, buffer: seq<byte>, k: nat)
      requires memory.Sized() && k <= |records| && AtItem(itemAddress, itemSize, prefix, buffer, k)
      requires itemAddress == INVALID_ADDRESS
      ensures k == |records|
    {
    }

    /** Finds the next item to visit. */
    method Search(address: nat, prefix: Key, keyBuffer: array<byte>, ghost i: nat)
      returns (itemSize: nat, itemAddress: nat, ghost k: nat)
      requires keyBuffer != memory.mem && keyBuffer.Length == 64
      requires memory.Sized() && Written(memory.mem[..], records) && WellFormed(records)
      requires i <= |records| && address == Addr(records, i) && PrefixedKeysFit(records, prefix)
      modifies keyBuffer
      ensures i <= k <= |records| && AtItem(itemAddress, itemSize, prefix, keyBuffer[..], k)
      ensures Visits(records, i, prefix) == Visits(records, k, prefix)
    {
      hide Written, Visits, HandedOut, Addr, PrefixedKeysFit, FirstPrefixed;
      itemSize, itemAddress := memory.FindItemByPrefix(address, prefix, keyBuffer, records, i);
      k := FirstPrefixed(records, i, prefix);
      VisitsSkip(records, i, prefix);
    }

    /** Reads the beginning of the value of record `k`. */
    method ReadHead(itemAddress: nat, bufferLength: nat, ghost r: Record, ghost k: nat) returns (buffer: seq<byte>)
      requires memory.Sized() && Written(memory.mem[..], records) && WellFormed(records)
      requires k < |records| && r == records[k] && itemAddress == Addr(records, k)
      ensures buffer == r.Value()[..Min(|r.Value()|, bufferLength)]
    {
      hide EncodeAll, Extent, Encode, Holds, Written, Addr, U16;
      RecordAt(memory.mem[..], records, k);
      var header := memory.GetItemInfo(itemAddress);
      var storeSize := header.fullLength - header.keyLength - HEADER_SIZE;
      var readLength := Min(storeSize, bufferLength);
      buffer := memory.GetBuffer(itemAddress, header, readLength, r);
    }

    /** Adds up what the table holds. */
    method GetStats() returns (stats: Stats)
      requires Valid()
      ensures stats.totalSize == memory.memorySize
      ensures stats.totalItems == |Live(records)|
      ensures stats.itemSize == Used(Contents()) == stats.keySize + stats.dataSize + stats.metadataSize
      ensures stats.metadataSize == 3 * stats.totalItems
      ensures stats.keySize == KeyBytes(Live(records))
      ensures stats.itemSize + stats.holeSize == Extent(records)
      ensures stats.freeSpace == memory.memorySize - Used(Contents()) > 0
      ensures stats.fragmentation * stats.freeSpace <= 100 * stats.holeSize
                < (stats.fragmentation + 1) * stats.freeSpace
      ensures stats.spaceLeftUntilForcedDefrag == memory.memorySize - Extent(records)
    {
      hide EncodeAll, Encode, Splice, Holds, ContentsOf, UniqueKeys, Addr, Used, Live, KeyBytes, Extent, IsTable,
        Percentage;
      AddrStart(records);
      LiveOfNone();
      HeaderInTable(memory.mem[..], records, |records|);
      EndIsFound(memory.mem[..], records, 0);
      var itemAddress := FIRST_ITEM_ADDRESS;
      var endAddress := memory.FindEnd(FIRST_ITEM_ADDRESS);
      var totalSize, totalItems, holeSize, itemSize, dataSize, keySize, metadataSize := 0, 0, 0, 0, 0, 0, 0;
      ghost var k := 0;
      AddrEnd(records);
      assert records[..0] == [];
      while itemAddress < endAddress
        invariant 0 <= k <= |records| && itemAddress == Addr(records, k)
        invariant holeSize >= 0 && dataSize >= 0
        invariant totalSize == Extent(records[..k]) == itemSize + holeSize
        invariant itemSize == Extent(Live(records[..k])) == keySize + dataSize + metadataSize
        invariant totalItems == |Live(records[..k])|
        invariant keySize == KeyBytes(Live(records[..k]))
        invariant metadataSize == HEADER_SIZE * totalItems
        decreases |records| - k
      {
        HeaderInTable(memory.mem[..], records, k);
        var itemInfo := memory.GetItemInfo(itemAddress);
        if itemInfo.fullLength == END_TAG {
          break;
        }
        LiveStep(records, k);
        totalSize := totalSize + itemInfo.fullLength;
        if itemInfo.keyLength == 0 {
          holeSize := holeSize + itemInfo.fullLength;
        } else {
          itemSize := itemSize + itemInfo.fullLength;
          totalItems := totalItems + 1;
          keySize := keySize + itemInfo.keyLength;
          metadataSize := metadataSize + HEADER_SIZE;
          dataSize := dataSize + (itemInfo.fullLength - itemInfo.keyLength - HEADER_SIZE);
        }
        itemAddress := itemAddress + itemInfo.fullLength;
        k := k + 1;
      }
      AddrMonotone(records, k, |records|);
      assert records[..k] == records;
      UsedIsLiveExtent(records);
      var memorySize := memory.memorySize;
      var fragmentation := Percentage(holeSize, memorySize - itemSize);
      PercentageIs(holeSize, memorySize - itemSize);
      stats := Stats(memorySize, totalItems, itemSize, keySize, dataSize, metadataSize, holeSize,
                     memorySize - itemSize, fragmentation, memorySize - totalSize);
    }
  }

  datatype Stats = Stats(
    totalSize: nat, totalItems: nat, itemSize: nat, keySize: nat, dataSize: nat, metadataSize: nat,
    holeSize: nat, freeSpace: int, fragmentation: nat, spaceLeftUntilForcedDefrag: int)

  function Percentage(part: nat, whole: int): nat
    requires whole > 0
  {
    part * 100 / whole
  }

  lemma PercentageIs(part: nat, whole: int)
    requires whole > 0
    ensures Percentage(part, whole) * whole <= 100 * part < (Percentage(part, whole) + 1) * whole
  {
  }

  function KeyBytes(rs: seq<Record>): nat {
    if rs == [] then 0 else rs[|rs| - 1].keyLength + KeyBytes(rs[..|rs| - 1])
  }

  lemma LiveStep(rs: seq<Record>, k: nat)
    requires k < |rs|
    ensures Live(rs[..k + 1]) == Live(rs[..k]) + (if rs[k].IsHole() then [] else [rs[k]])
    ensures Extent(rs[..k + 1]) == Extent(rs[..k]) + rs[k].Size()
    ensures Extent(Live(rs[..k + 1])) == Extent(Live(rs[..k])) + (if rs[k].IsHole() then 0 else rs[k].Size())
    ensures KeyBytes(Live(rs[..k + 1])) == KeyBytes(Live(rs[..k])) + (if rs[k].IsHole() then 0 else rs[k].keyLength)
  {
    assert rs[..k + 1] == rs[..k] + [rs[k]];
    LiveConcat(rs[..k], [rs[k]]);
    ExtentConcat(rs[..k], [rs[k]]);
    LiveOfOne(rs[k]);
    ExtentConcat(Live(rs[..k]), Live([rs[k]]));
    if !rs[k].IsHole() {
      KeyBytesStep(Live(rs[..k]), rs[k]);
      assert Live(rs[..k + 1]) == Live(rs[..k]) + [rs[k]];
    } else {
      assert Live(rs[..k + 1]) == Live(rs[..k]);
    }
  }

  lemma LiveOfOne(r: Record)
    ensures Live([r]) == if r.IsHole() then [] else [r]
    ensures Extent([r]) == r.Size() && Extent([]) == 0
  {
  }

  lemma LiveOfNone()
    ensures Live([]) == [] && Extent([]) == 0 && KeyBytes([]) == 0
  {
  }

  lemma KeyBytesStep(rs: seq<Record>, r: Record)
    ensures KeyBytes(rs + [r]) == KeyBytes(rs) + r.keyLength
  {
    assert (rs + [r])[..|rs|] == rs;
  }

  lemma KeysInContents(rs: seq<Record>, prefix: Key)
    requires forall k :: k in ContentsOf(rs) ==> IsKey(k)
    requires WellFormed(rs)
    requires forall k :: k in ContentsOf(rs) && prefix <= k ==> |k| <= 63
    ensures PrefixedKeysFit(rs, prefix)
    ensures forall j :: 0 <= j < |rs| && Prefixed(rs[j], prefix) ==> 0 !in rs[j].Key()
  {
    forall j | 0 <= j < |rs| && Prefixed(rs[j], prefix)
      ensures rs[j].keyLength <= 63 && 0 !in rs[j].Key()
    {
      NoMatchNoKey(rs, rs[j].Key());
      assert Matches(rs[j], rs[j].Key());
      assert rs[j].Key() in ContentsOf(rs);
    }
  }

  lemma BufferedKey(buffer: seq<byte>, size: nat, r: Record)
    requires HandedOut(buffer, size, r) && r.WellFormed() && 0 !in r.Key()
    ensures CString(buffer) == r.Key()
    ensures size == r.Size()
  {
    assert buffer == r.Key() + [0] + buffer[|r.Key()| + 1..];
    CStringOf(r.Key(), buffer[|r.Key()| + 1..]);
  }

  /** What the other entries need, from what all need and the size of the old entry. */
  lemma UsedByOthers(m: Contents, key: seq<byte>)
    ensures Used(m - {key}) == Used(m) - (if key in m then Cost(key, m[key]) else 0)
  {
    if key in m {
      UsedSplit(m, key);
    } else {
      assert m - {key} == m;
    }
  }

  /** Whether a store leaves no byte to access behind the end tag can be told from
      the statistics and the length of the old value. */
  lemma BrimsByStats(s: Store, stats: Stats, key: Key, value: Value)
    requires s.Valid()
    requires stats.itemSize == Used(s.Contents())
    requires stats.spaceLeftUntilForcedDefrag == s.memory.memorySize - Extent(s.records)
    ensures var m, size := s.Contents(), s.memory.memorySize;
      var others := stats.itemSize - (if key in m then HEADER_SIZE + |key| + |m[key]| else 0);
      var cost := HEADER_SIZE + |key| + |value|;
      var behind := FIRST_ITEM_ADDRESS + cost + END_TAG_LENGTH < stats.spaceLeftUntilForcedDefrag;
      Brims(s.Seen(), key, value, s.memory.mem.Length, size) <==>
        && FIRST_ITEM_ADDRESS + others + cost + END_TAG_LENGTH < size
        && !(key in m && cost % 0x1_0000 == HEADER_SIZE + |key| + |m[key]|)
        && s.memory.mem.Length == FIRST_ITEM_ADDRESS + cost + END_TAG_LENGTH
             + (if behind then size - stats.spaceLeftUntilForcedDefrag else others)
  {
    hide Written, GoodRecords, ContentsOf, Extent, Used;
    UsedByOthers(s.Contents(), key);
  }

  // ---------- The three edits: on the bytes and on the contents ----------

  lemma ItemReadsBack(key: Key, value: Value)
    requires Cost(key, value) < END_TAG
    ensures var r := Item(key, value);
            r.WellFormed() && !r.IsHole() && r.Key() == key && r.Value() == value && r.Size() == Cost(key, value)
  {
  }

  /** If the cut length of a record is that of the old record, then the cut value
      has the length of the old value. */
  lemma CutIsOldLength(m: Contents, key: seq<byte>, value: Value)
    requires InPlace(m, key, value)
    ensures Cost(key, Cut(value)) == Cost(key, m[key])
    ensures Cost(key, value) <= 0xffff ==> Cut(value) == value
  {
  }

  lemma ItemAppended(b: seq<byte>, rs: seq<Record>, key: Key, value: Value) returns (item: Record)
    requires Written(b, rs) && GoodRecords(rs) && key !in ContentsOf(rs)
    requires FIRST_ITEM_ADDRESS + Extent(rs) + Cost(key, value) + END_TAG_LENGTH <= |b|
    requires Cost(key, value) < END_TAG
    ensures var at := FIRST_ITEM_ADDRESS + Extent(rs);
            && item == Item(key, value)
            && Extent(rs + [item]) == Extent(rs) + Cost(key, value)
            && Written(Splice(Splice(b, at, Encode(item)), at + Cost(key, value), END_TAG_BYTES), rs + [item])
            && GoodRecords(rs + [item])
            && ContentsOf(rs + [item]) == ContentsOf(rs)[key := value]
  {
    hide EncodeAll, Extent, Encode, Splice, Holds, Written, ContentsOf, UniqueKeys;
    item := Item(key, value);
    ItemReadsBack(key, value);
    KveEdits.Append(b, rs, item);
    AppendItem(rs, item);
  }

  lemma HolePunched(b: seq<byte>, rs: seq<Record>, i: nat, key: Key) returns (hole: Record)
    requires Written(b, rs) && GoodRecords(rs) && i < |rs| && Matches(rs[i], key)
    ensures hole == RawRecord(0, rs[i].body)
    ensures Addr(rs, i) + HEADER_SIZE <= |b| && rs[i].Size() < 0x1_0000
    ensures Written(Splice(b, Addr(rs, i), Header(rs[i].Size(), 0)), rs[i := hole]) && GoodRecords(rs[i := hole])
    ensures key in ContentsOf(rs) && ContentsOf(rs[i := hole]) == ContentsOf(rs) - {key}
    ensures Extent(rs[i := hole]) == Extent(rs)
  {
    hide EncodeAll, Extent, Encode, Splice, Holds, Written, ContentsOf, UniqueKeys;
    var a, r, c := rs[..i], rs[i], rs[i + 1..];
    hole := RawRecord(0, r.body);
    assert a + [r] + c == rs;
    assert a + [hole] + c == rs[i := hole];
    RecordAt(b, rs, i);
    KveEdits.HeaderMakesHole(b, Addr(rs, i), hole);
    KveEdits.Replace(b, a, r, c, hole);
    ReplaceMatch(a, r, c, hole);
  }

  lemma ItemOverwritten(b: seq<byte>, rs: seq<Record>, i: nat, key: Key, value: Value)
    requires Written(b, rs) && GoodRecords(rs) && i < |rs| && Matches(rs[i], key)
    requires Cost(key, value) == rs[i].Size()
    ensures Addr(rs, i) + Cost(key, value) <= |b|
    ensures var qs := rs[i := Item(key, value)];
            && Written(Splice(b, Addr(rs, i), Encode(Item(key, value))), qs) && GoodRecords(qs)
            && ContentsOf(qs) == ContentsOf(rs)[key := value]
            && Extent(qs) == Extent(rs)
    ensures Used(ContentsOf(rs) - {key}) + Cost(key, value) <= Extent(rs)
  {
    hide EncodeAll, Extent, Encode, Splice, Holds, Written, ContentsOf, UniqueKeys;
    var a, r, c, item := rs[..i], rs[i], rs[i + 1..], Item(key, value);
    assert a + [r] + c == rs;
    assert a + [item] + c == rs[i := item];
    ItemReadsBack(key, value);
    RecordAt(b, rs, i);
    KveEdits.Replace(b, a, r, c, item);
    ReplaceMatch(a, r, c, item);
    UsedIsLiveExtent(rs[i := item]);
    UsedInsert(ContentsOf(rs), key, value);
  }

  /** What every sound state offers. */
  lemma SoundIs(s: Store)
    requires s.Sound()
    ensures s.memory.Sized() && Written(s.memory.mem[..], s.records) && GoodRecords(s.records)
    ensures WellFormed(s.records) && UniqueKeys(s.records)
    ensures forall k :: k in s.Contents() ==> IsKey(k)
  {
    hide Written, UniqueKeys;
  }

  /** What an append goes by: where it finds the end, if at all, and how the
      bytes in use compare with those that the map needs. */
  lemma AppendBounds(s: Store)
    requires s.Sound()
    ensures 4 <= s.memory.mem.Length
    ensures if s.Brimful() then EndFrom(s.memory.mem[..], FIRST_ITEM_ADDRESS) == INVALID_ADDRESS
            else
              var e := FIRST_ITEM_ADDRESS + Extent(s.records);
              EndFrom(s.memory.mem[..], FIRST_ITEM_ADDRESS) == e < MAX_MEMORY_SIZE
    ensures s.Valid() ==> !s.Brimful()
    ensures Used(s.Contents()) <= Extent(s.records)
    ensures NoHoles(s.records) ==> Used(s.Contents()) == Extent(s.records)
  {
    hide Extent, Used, ContentsOf, UniqueKeys, Holds, Placed;
    var b := s.memory.mem[..];
    UsedIsLiveExtent(s.records);
    if NoHoles(s.records) {
      LiveOfNoHoles(s.records);
    }
    ChainIsFollowed(b, FIRST_ITEM_ADDRESS, s.records);
    if !s.Brimful() {
      TableIsFound(b, s.records);
    }
  }

  lemma TableIsFound(b: seq<byte>, rs: seq<Record>)
    requires IsTable(b, rs)
    ensures EndFrom(b, FIRST_ITEM_ADDRESS) == FIRST_ITEM_ADDRESS + Extent(rs) < |b| <= MAX_MEMORY_SIZE
  {
    hide EncodeAll, Extent, Holds, Placed;
    TableIs(b, rs);
    ChainIsFound(b, FIRST_ITEM_ADDRESS, rs);
  }

  lemma OneTable(b: seq<byte>, rs: seq<Record>, qs: seq<Record>)
    requires IsTable(b, rs) && IsTable(b, qs)
    ensures rs == qs
  {
    hide EncodeAll, Extent, Holds, Placed, EndTagAt, IsTable;
    TableIs(b, rs);
    TableIs(b, qs);
    ReadInOneWay(b, FIRST_ITEM_ADDRESS, rs, qs);
  }

  lemma MatchIsEntry(rs: seq<Record>, i: nat, key: seq<byte>)
    requires i < |rs| && Matches(rs[i], key) && UniqueKeys(rs)
    ensures key in ContentsOf(rs) && ContentsOf(rs)[key] == rs[i].Value()
  {
    hide ContentsOf, UniqueKeys;
    assert rs[..i] + [rs[i]] + rs[i + 1..] == rs;
    ReplaceMatch(rs[..i], rs[i], rs[i + 1..], rs[i]);
  }

  lemma EndIsFound(b: seq<byte>, rs: seq<Record>, j: nat)
    requires IsTable(b, rs) && j <= |rs|
    ensures EndFrom(b, Addr(rs, j)) == Addr(rs, |rs|)
  {
    hide EncodeAll, Extent, Holds, Placed, EndTagAt;
    TableIs(b, rs);
    PlacedDrop(b, FIRST_ITEM_ADDRESS, rs, j);
    AddrEnd(rs);
    AddrMonotone(rs, j, |rs|);
    assert rs[j..|rs|] == rs[j..];
    ChainIsFound(b, Addr(rs, j), rs[j..]);
  }

  /** Without the byte behind the end tag, no reader finds a table any more. */
  lemma BrimfulIsUnreadable(b: seq<byte>, rs: seq<Record>, qs: seq<Record>)
    requires Written(b, rs) && FIRST_ITEM_ADDRESS + Extent(rs) + END_TAG_LENGTH == |b|
    ensures !IsTable(b, qs)
  {
    hide EncodeAll, Extent, Encode, Placed, Holds;
    ChainIsFollowed(b, FIRST_ITEM_ADDRESS, rs);
    if IsTable(b, qs) {
      TableIsFound(b, qs);
    }
  }

  // ---------- Compaction, on records ----------

  /** The holes `h..j` moved behind the items `j..k`, as one hole. */
  function Compacted(rs: seq<Record>, h: nat, j: nat, k: nat, hole: Record): seq<Record>
    requires h < j < k <= |rs|
  {
    rs[..h] + rs[j..k] + [hole] + rs[k..]
  }

  lemma CompactionStep(b: seq<byte>, rs: seq<Record>, h: nat, j: nat, k: nat) returns (hole: Record)
    requires IsTable(b, rs) && h < j < k <= |rs|
    ensures hole.IsHole()
    ensures Addr(rs, h) <= Addr(rs, j) <= Addr(rs, k) <= |b|
    ensures var to, from, n := Addr(rs, h), Addr(rs, j), Addr(rs, k) - Addr(rs, j);
            && from - to < 0x1_0000
            && to + n + HEADER_SIZE <= |b|
            && Addr(Compacted(rs, h, j, k, hole), h + (k - j)) == to + n
            && var moved := Splice(b, to, b[from..from + n]);
               IsTable(Splice(moved, to + n, Header(from - to, 0)), Compacted(rs, h, j, k, hole))
  {
    hide EncodeAll, Extent, Encode, Splice, Holds, IsTable;
    var a, g, m, c := rs[..h], rs[h..j], rs[j..k], rs[k..];
    AddrMonotone(rs, h, j);
    AddrMonotone(rs, j, k);
    AddrMonotone(rs, k, |rs|);
    AddrEnd(rs);
    InFourPieces(rs, h, j, k);
    hole := KveEdits.SwapHole(b, a, g, m, c);
    assert Compacted(rs, h, j, k, hole)[..h + (k - j)] == a + m;
    ExtentConcat(a, m);
  }

  lemma CompactionKeepsLive(rs: seq<Record>, h: nat, j: nat, k: nat, hole: Record)
    requires h < j < k <= |rs| && hole.IsHole()
    requires NoHoles(rs[..h])
    requires forall i :: h <= i < j ==> rs[i].IsHole()
    requires forall i :: j <= i < k ==> !rs[i].IsHole()
    ensures var qs := Compacted(rs, h, j, k, hole);
            && Live(qs) == Live(rs)
            && |qs| == |rs| - (j - h) + 1
            && NoHoles(qs[..h + (k - j)])
            && qs[h + (k - j)] == hole
  {
    hide Live;
    var a, g, m, c := rs[..h], rs[h..j], rs[j..k], rs[k..];
    LiveOfHoles(g);
    LiveOfHoles([hole]);
    LiveOfFour(a, g, m, c);
    LiveOfFour(a, m, [hole], c);
    InFourPieces(rs, h, j, k);
    NoHolesBefore(a, m, hole, c);
  }

  lemma InFourPieces(rs: seq<Record>, h: nat, j: nat, k: nat)
    requires h <= j <= k <= |rs|
    ensures rs[..h] + rs[h..j] + rs[j..k] + rs[k..] == rs
  {
    assert rs[..h] + rs[h..j] == rs[..j];
    assert rs[..j] + rs[j..k] == rs[..k];
  }

  lemma NoHolesBefore(a: seq<Record>, m: seq<Record>, hole: Record, c: seq<Record>)
    requires NoHoles(a) && NoHoles(m)
    ensures NoHoles((a + m + [hole] + c)[..|a| + |m|]) && (a + m + [hole] + c)[|a| + |m|] == hole
  {
    assert (a + m + [hole] + c)[..|a| + |m|] == a + m;
  }

  lemma LiveOfFour(a: seq<Record>, g: seq<Record>, m: seq<Record>, c: seq<Record>)
    ensures Live(a + g + m + c) == Live(a) + Live(g) + Live(m) + Live(c)
  {
    LiveConcat(a + g + m, c);
    LiveConcat(a + g, m);
    LiveConcat(a, g);
  }

  lemma CropKeepsLive(rs: seq<Record>, h: nat)
    requires h <= |rs|
    requires forall i :: h <= i < |rs| ==> rs[i].IsHole()
    ensures Live(rs[..h]) == Live(rs)
  {
    hide Live;
    assert rs[..h] + rs[h..] == rs;
    LiveConcat(rs[..h], rs[h..]);
    LiveOfHoles(rs[h..]);
  }
}
