/**
  The storage layer of the key/value table: writers that change the byte
  memory in place, and the walks over the record chain.
 */
module KveStorage {
  import opened Bytes
  import opened KveFormat
  import opened KveContents

  datatype ItemHeader = ItemHeader(fullLength: nat, keyLength: byte)

  /** The string that a zero-terminated buffer holds. */
  function CString(b: seq<byte>): seq<byte> {
    if b == [] || b[0] == 0 then [] else [b[0]] + CString(b[1..])
  }

  lemma {:induction false} CStringOf(s: seq<byte>, rest: seq<byte>)
    requires 0 !in s
    ensures CString(s + [0] + rest) == s
  {
    if s == [] {
      assert (s + [0] + rest)[0] == 0;
    } else {
      assert (s + [0] + rest)[1..] == s[1..] + [0] + rest;
      CStringOf(s[1..], rest);
    }
  }

  /** Where the walk for the end tag arrives, on any bytes whatsoever. */
  function EndFrom(b: seq<byte>, a: nat): nat
    decreases |b| - a
  {
    if a + 2 >= |b| then INVALID_ADDRESS
    else
      var length := U16(b[a], b[a + 1]);
      if length == END_TAG then a
      else if length < HEADER_SIZE + 1 then INVALID_ADDRESS
      else EndFrom(b, a + length)
  }

  /** The walk follows a chain of records to its end. */
  lemma {:induction false} ChainIsFollowed(b: seq<byte>, a: nat, rs: seq<Record>)
    requires Placed(b, a, rs)
    ensures EndFrom(b, a) == EndFrom(b, a + Extent(rs))
    decreases |rs|
  {
    hide EncodeAll, Encode, Holds, Placed;
    if rs != [] {
      FirstRecord(b, a, rs);
      ChainIsFollowed(b, a + rs[0].Size(), rs[1..]);
    }
  }

  /** The walk arrives at `e` exactly if a chain of records leads there. */
  lemma ChainIsFound(b: seq<byte>, a: nat, rs: seq<Record>)
    requires Placed(b, a, rs) && EndTagAt(b, a + Extent(rs))
    ensures EndFrom(b, a) == a + Extent(rs)
  {
    hide EncodeAll, Encode, Extent, Holds, Placed;
    ChainIsFollowed(b, a, rs);
  }

  lemma ChainOfNone(b: seq<byte>, a: nat)
    requires a <= |b|
    ensures Extent([]) == 0 && Placed(b, a, [])
  {
  }

  lemma {:induction false} FoundIsChain(b: seq<byte>, a: nat) returns (rs: seq<Record>)
    requires |b| <= MAX_MEMORY_SIZE
    requires EndFrom(b, a) != INVALID_ADDRESS
    ensures Placed(b, a, rs) && EndTagAt(b, a + Extent(rs))
    ensures EndFrom(b, a) == a + Extent(rs)
    decreases |b| - a
  {
    hide EncodeAll, Encode, Extent, Holds, Placed, U16;
    var length := U16(b[a], b[a + 1]);
    if length == END_TAG {
      rs := [];
      ChainOfNone(b, a);
    } else {
      var rest := FoundIsChain(b, a + length);
      var first: Record := RawRecord(b[a + 2], b[a + HEADER_SIZE..a + length]);
      EncodeHolds(b, a, first);
      PlacedOne(b, a, first);
      PlacedConcat(b, a, [first], rest);
      rs := [first] + rest;
    }
  }

  /** A key that can be found to start with `prefix` fits the buffer it is
      handed out in; of a malformed record any key can be found. */
  ghost predicate PrefixedKeysFit(rs: seq<Record>, prefix: seq<byte>) {
    forall j :: 0 <= j < |rs| ==>
      rs[j].keyLength <= 63 || (rs[j].WellFormed() && !Prefixed(rs[j], prefix))
  }

  /** What a search by prefix hands out: the size of the record, and its key
      as a zero-terminated string. */
  ghost predicate HandedOut(buffer: seq<byte>, size: nat, r: Record) {
    && size == r.Size() && r.keyLength < |buffer|
    && buffer[..r.keyLength] == r.Key() && buffer[r.keyLength] == 0
  }

  /** What is left of `data` when its length is cut to 16 bits. */
  function Cut(data: seq<byte>): seq<byte> {
    data[..|data| % 0x1_0000]
  }

  class Memory {
    /** The bytes that can be accessed, and how many the table believes there are. */
    const mem: array<byte>
    const memorySize: nat

    constructor (mem: array<byte>, memorySize: nat)
      ensures this.mem == mem && this.memorySize == memorySize
    {
      this.mem := mem;
      this.memorySize := memorySize;
    }

    /** The sizes for which the 16-bit arithmetic of the table is exact; the
        medium may lack the last byte. */
    predicate Sized() {
      4 <= mem.Length && mem.Length <= memorySize <= mem.Length + 1 && memorySize <= MAX_MEMORY_SIZE
    }

    lemma SizesAre()
      ensures Sized() <==>
        4 <= mem.Length && (memorySize == mem.Length || memorySize == mem.Length + 1) && memorySize < 65539
    {
    }

    predicate Whole() {
      memorySize == mem.Length
    }

    // ---------- Access to the medium ----------

    /** A read over the end of the memory fails and leaves the buffer as it is. */
    method Read(address: nat, buffer: seq<byte>, length: nat) returns (data: seq<byte>)
      requires length <= |buffer|
      ensures |data| == |buffer| && data[length..] == buffer[length..]
      ensures data[..length] == if address + length <= mem.Length then mem[address..address + length]
          else buffer[..length]
    {
      if address + length <= mem.Length {
        data := mem[address..address + length] + buffer[length..];
      } else {
        data := buffer;
      }
    }

    /** The length is cut to 16 bits; a write over the end of the memory fails
        and changes nothing. */
    method Write(address: nat, data: seq<byte>)
      modifies mem
      ensures mem[..] == if address + |Cut(data)| <= mem.Length then Splice(old(mem[..]), address, Cut(data))
          else old(mem[..])
      ensures address + |data| <= mem.Length && |data| < 0x1_0000 ==> mem[..] == Splice(old(mem[..]), address, data)
    {
      hide Splice;
      ghost var was := mem[..];
      var length := |data| % 0x1_0000;
      CutOfShort(data);
      if address + length <= mem.Length {
        SpliceNothing(was, address);
        assert Cut(data)[..0] == [];
        var i := 0;
        while i < length
          invariant 0 <= i <= length
          invariant mem[..] == Splice(was, address, Cut(data)[..i])
        {
          SpliceOneMore(was, address, Cut(data), i);
          mem[address + i] := data[i];
          i := i + 1;
        }
        assert Cut(data)[..i] == Cut(data);
      }
    }

    // ---------- Writers ----------

    /** Writes the length, and as much of the value, as 16-bit lengths allow. */
    method WriteItem(address: nat, key: Key, value: Value) returns (fullLength: nat)
      requires address + HEADER_SIZE + |key| + |Cut(value)| <= mem.Length
      requires HEADER_SIZE + |key| + |Cut(value)| < END_TAG
      modifies mem
      ensures fullLength == HEADER_SIZE + |key| + |Cut(value)|
      ensures mem[..] == Splice(old(mem[..]), address, Encode(Item(key, Cut(value))))
    {
      hide Splice, Cut;
      ghost var was := mem[..];
      fullLength := (2 + 1 + |key| + |value|) % 0x1_0000;
      SameLength(key, value);
      var header := Header(fullLength, |key|);
      Write(address, header);
      Write(address + HEADER_SIZE, key);
      SpliceTwice(was, address, header, key);
      Write(address + HEADER_SIZE + |key|, value);
      SpliceTwice(was, address, header + key, Cut(value));
      Associative(header, key, Cut(value));
    }

    method WriteHole(address: nat, fullLength: nat)
      requires address + HEADER_SIZE <= mem.Length
      modifies mem
      ensures mem[..] == Splice(old(mem[..]), address, Header(fullLength % 0x1_0000, 0))
    {
      Write(address, Header(fullLength % 0x1_0000, 0));
    }

    method WriteEnd(address: nat)
      requires address + END_TAG_LENGTH <= mem.Length
      modifies mem
      ensures mem[..] == Splice(old(mem[..]), address, [0xff, 0xff])
    {
      Write(address, [0xff, 0xff]);
    }

    /** Moves a block towards lower addresses, 32 bytes at a time; the blocks
        may overlap, and nothing outside the destination changes. */
    method MoveMemory(source: nat, destination: nat, length: nat)
      requires destination <= source
      requires source + length <= mem.Length
      modifies mem
      ensures mem[..] == Splice(old(mem[..]), destination, old(mem[..])[source..source + length])
    {
      hide Splice, Moved;
      ghost var was := mem[..];
      MovedNothing(was, source, destination);
      var moveBuffer := seq(32, _ => 0);
      var sourceAddress, destinationAddress, leftToMove := source, destination, length;
      while leftToMove > 0
        invariant 0 <= leftToMove <= length && |moveBuffer| == 32
        invariant sourceAddress == source + (length - leftToMove)
        invariant destinationAddress == destination + (length - leftToMove)
        invariant Moved(was, mem[..], source, destination, length - leftToMove)
      {
        var moving := Min(leftToMove, 32);
        ghost var now := mem[..];
        moveBuffer := Read(sourceAddress, moveBuffer, moving);
        Write(destinationAddress, moveBuffer[..moving]);
        MovedStep(was, now, source, destination, length - leftToMove, moving);

        sourceAddress := sourceAddress + moving;
        destinationAddress := destinationAddress + moving;
        leftToMove := leftToMove - moving;
      }
      MovedAll(was, mem[..], source, destination, length);
    }

    // ---------- Walks ----------

    method GetItemInfo(address: nat) returns (header: ItemHeader)
      requires address + HEADER_SIZE <= mem.Length
      ensures header == ItemHeader(U16(mem[address], mem[address + 1]), mem[address + 2])
    {
      header := ReadHeader(address, ItemHeader(0, 0));
    }

    /** Reads a header into `header`, which keeps what it holds if the read fails. */
    method ReadHeader(address: nat, header: ItemHeader) returns (found: ItemHeader)
      ensures address + HEADER_SIZE <= mem.Length ==>
        found == ItemHeader(U16(mem[address], mem[address + 1]), mem[address + 2])
      ensures address + HEADER_SIZE > mem.Length && header.fullLength < 0x1_0000 ==> found == header
    {
      var buffer := Read(address, Header(header.fullLength, header.keyLength), HEADER_SIZE);
      if address + HEADER_SIZE <= mem.Length {
        HeaderRead(mem[..], address, buffer);
      } else if header.fullLength < 0x1_0000 {
        U16RoundTrip(header.fullLength);
        assert buffer[..HEADER_SIZE] == Header(header.fullLength, header.keyLength)[..HEADER_SIZE];
        assert buffer == Header(header.fullLength, header.keyLength);
      }
      found := ItemHeader(U16(buffer[0], buffer[1]), buffer[2]);
    }

    method FindEnd(address: nat) returns (end: nat)
      requires Sized() && (address + HEADER_SIZE <= mem.Length || address + 2 >= memorySize)
      ensures end == EndFrom(mem[..], address)
    {
      var currentAddress := address;
      var header := ItemHeader(0, 0);
      while currentAddress < memorySize - 2
        invariant EndFrom(mem[..], address) == EndFrom(mem[..], currentAddress)
        invariant currentAddress != address ==> HEADER_SIZE + 1 <= header.fullLength < END_TAG
        decreases memorySize - currentAddress
      {
        header := ReadHeader(currentAddress, header);
        if header.fullLength == END_TAG {
          return currentAddress;
        }
        if header.fullLength < HEADER_SIZE + 1 {
          return INVALID_ADDRESS;
        }
        currentAddress := currentAddress + header.fullLength;
      }
      return INVALID_ADDRESS;
    }

    /** Finds the first hole from record `i` on.  The end tag is not looked for:
        it is taken for a hole if the byte after it happens to be zero. */
    method FindHole(address: nat, ghost rs: seq<Record>, ghost i: nat) returns (holeAddress: nat)
      requires Sized() && IsTable(mem[..], rs) && i <= |rs| && address == Addr(rs, i)
      ensures var k := FirstHole(rs, i);
              && Addr(rs, k) + 2 < mem.Length
              && holeAddress == if k < |rs| || mem[Addr(rs, k) + 2] == 0 then Addr(rs, k) else INVALID_ADDRESS
    {
      hide EncodeAll, Extent, Encode, Holds, Placed, Written, Addr, U16;
      ghost var k := i;
      HeaderAt(mem[..], rs, k);
      HeaderAt(mem[..], rs, |rs|);
      var currentAddress := address;
      while currentAddress < memorySize - 2
        invariant i <= k <= |rs| && FirstHole(rs, i) == FirstHole(rs, k)
        invariant k < |rs| ==> currentAddress == Addr(rs, k)
        invariant k == |rs| ==>
          currentAddress == Addr(rs, k) || (currentAddress >= memorySize - 2 && mem[Addr(rs, k) + 2] != 0)
        decreases memorySize - currentAddress
      {
        HeaderAt(mem[..], rs, k);
        var header := GetItemInfo(currentAddress);
        if header.keyLength == 0 {
          return currentAddress;
        }
        if k < |rs| {
          k := k + 1;
        }
        currentAddress := currentAddress + header.fullLength;
      }
      HeaderAt(mem[..], rs, k);
      return INVALID_ADDRESS;
    }

    /** Finds the first item behind record `i`. */
    method FindNextItem(address: nat, ghost rs: seq<Record>, ghost i: nat) returns (itemAddress: nat)
      requires Sized() && IsTable(mem[..], rs) && i <= |rs| && address == Addr(rs, i)
      ensures itemAddress == AddrOrInvalid(rs, FirstItem(rs, if i < |rs| then i + 1 else i))
    {
      hide EncodeAll, Extent, Encode, Holds, Placed, Written, Addr, U16;
      ghost var k := i;
      HeaderAt(mem[..], rs, k);
      var currentAddress := address;
      var header := GetItemInfo(currentAddress);
      if header.fullLength == END_TAG {
        return INVALID_ADDRESS;
      }
      k := k + 1;
      currentAddress := currentAddress + header.fullLength;

      while currentAddress < memorySize - 3
        invariant i < k <= |rs| && currentAddress == Addr(rs, k)
        invariant FirstItem(rs, i + 1) == FirstItem(rs, k)
        decreases |rs| - k
      {
        HeaderAt(mem[..], rs, k);
        header := GetItemInfo(currentAddress);
        if header.fullLength == END_TAG {
          return INVALID_ADDRESS;
        }
        if header.keyLength != 0 {
          return currentAddress;
        }
        k := k + 1;
        currentAddress := currentAddress + header.fullLength;
      }
      HeaderAt(mem[..], rs, k);
      return INVALID_ADDRESS;
    }

    /** On every image that passes the check the search ends, at a record or
        not at all; on a well-formed table it finds the first match. */
    method FindItemByKey(address: nat, key: Key, ghost rs: seq<Record>, ghost i: nat) returns (itemAddress: nat)
      requires Sized() && Written(mem[..], rs) && i <= |rs| && address == Addr(rs, i)
      ensures exists k :: i <= k <= |rs| && itemAddress == AddrOrInvalid(rs, k)
      ensures WellFormed(rs) ==> itemAddress == AddrOrInvalid(rs, FirstMatch(rs, i, key))
    {
      hide EncodeAll, Extent, Encode, Holds, Placed, Written, Addr, U16;
      ghost var k := i;
      var searchBuffer := seq(255, _ => 0);
      var currentAddress := address;
      while currentAddress < memorySize - 3
        invariant i <= k <= |rs| && currentAddress == Addr(rs, k) && |searchBuffer| == 255
        invariant WellFormed(rs) ==> FirstMatch(rs, i, key) == FirstMatch(rs, k, key)
        decreases |rs| - k
      {
        HeaderAt(mem[..], rs, k);
        searchBuffer := Read(currentAddress, searchBuffer, 3);
        HeaderRead(mem[..], currentAddress, searchBuffer);
        var length, keyLength := U16(searchBuffer[0], searchBuffer[1]), searchBuffer[2];
        if length == END_TAG {
          assert AddrOrInvalid(rs, k) == INVALID_ADDRESS;
          return INVALID_ADDRESS;
        }
        if keyLength == |key| {
          searchBuffer := ReadKey(currentAddress, searchBuffer, keyLength, rs, k);
          if key == searchBuffer[..keyLength] {
            assert currentAddress == AddrOrInvalid(rs, k);
            return currentAddress;
          }
        }
        k := k + 1;
        currentAddress := currentAddress + length;
      }
      HeaderAt(mem[..], rs, k);
      assert AddrOrInvalid(rs, k) == INVALID_ADDRESS;
      return INVALID_ADDRESS;
    }

    /** Reads the key behind the header at `address`. */
    method ReadKey(address: nat, buffer: seq<byte>, length: byte, ghost rs: seq<Record>, ghost k: nat)
      returns (data: seq<byte>)
      requires Written(mem[..], rs) && k < |rs| && address == Addr(rs, k)
      requires |buffer| == 255 && length == rs[k].keyLength
      ensures |data| == 255
      ensures rs[k].WellFormed() ==> data[..length] == rs[k].Key()
    {
      hide EncodeAll, Extent, Encode, Holds, Placed, Written, Addr;
      data := Read(address + HEADER_SIZE, buffer, length);
      if rs[k].WellFormed() {
        RecordAt(mem[..], rs, k);
        KeyRead(mem[..], address, rs[k]);
      }
    }

    /** As `FindItemByKey`, for the first item whose key starts with `prefix`;
        the key is left in `keyBuffer` as a zero-terminated string. */
    method FindItemByPrefix(address: nat, prefix: Key, keyBuffer: array<byte>, ghost rs: seq<Record>, ghost i: nat)
      returns (size: nat, itemAddress: nat)
      requires keyBuffer != mem && keyBuffer.Length == 64
      requires Sized() && Written(mem[..], rs) && i <= |rs| && address == Addr(rs, i)
      requires PrefixedKeysFit(rs, prefix)
      modifies keyBuffer
      ensures exists k :: i <= k <= |rs| && itemAddress == AddrOrInvalid(rs, k)
      ensures WellFormed(rs) ==>
              var k := FirstPrefixed(rs, i, prefix);
              && itemAddress == AddrOrInvalid(rs, k)
              && (k < |rs| ==>
                    itemAddress < mem.Length && HandedOut(keyBuffer[..], size, rs[k]))
    {
      hide EncodeAll, Extent, Encode, Holds, Placed, Written, Addr, U16;
      ghost var k := i;
      var searchBuffer := seq(255, _ => 0);
      var currentAddress := address;
      while currentAddress < memorySize - 3
        invariant i <= k <= |rs| && currentAddress == Addr(rs, k) && |searchBuffer| == 255
        invariant WellFormed(rs) ==> FirstPrefixed(rs, i, prefix) == FirstPrefixed(rs, k, prefix)
        decreases |rs| - k
      {
        HeaderAt(mem[..], rs, k);
        searchBuffer := Read(currentAddress, searchBuffer, 3);
        HeaderRead(mem[..], currentAddress, searchBuffer);
        var length, keyLength := U16(searchBuffer[0], searchBuffer[1]), searchBuffer[2];
        if length == END_TAG {
          assert AddrOrInvalid(rs, k) == INVALID_ADDRESS;
          return INVALID_ADDRESS, INVALID_ADDRESS;
        }
        if keyLength >= |prefix| {
          searchBuffer := ReadKey(currentAddress, searchBuffer, keyLength, rs, k);
          if prefix == searchBuffer[..|prefix|] {
            if rs[k].WellFormed() {
              assert searchBuffer[..|prefix|] == rs[k].Key()[..|prefix|];
              assert Prefixed(rs[k], prefix);
            }
            assert currentAddress == AddrOrInvalid(rs, k);
            CopyKey(keyBuffer, searchBuffer[..keyLength]);
            return length, currentAddress;
          }
        }
        k := k + 1;
        currentAddress := currentAddress + length;
      }
      HeaderAt(mem[..], rs, k);
      assert AddrOrInvalid(rs, k) == INVALID_ADDRESS;
      return INVALID_ADDRESS, INVALID_ADDRESS;
    }

    static method CopyKey(keyBuffer: array<byte>, key: seq<byte>)
      requires |key| < keyBuffer.Length
      modifies keyBuffer
      ensures keyBuffer[..|key|] == key && keyBuffer[|key|] == 0
    {
      forall j | 0 <= j < |key| {
        keyBuffer[j] := key[j];
      }
      keyBuffer[|key|] := 0;
    }

    /** Reads up to `maxLength` bytes of the value of the record at `address`. */
    method GetBuffer(address: nat, header: ItemHeader, maxLength: nat, ghost r: Record)
      returns (buffer: seq<byte>)
      requires r.WellFormed() && header == ItemHeader(r.Size(), r.keyLength)
      requires Holds(mem[..], address, Encode(r))
      ensures buffer == r.Value()[..Min(|r.Value()|, maxLength)]
    {
      var bufferLength := header.fullLength - HEADER_SIZE - header.keyLength;
      var sizeToRead := Min(bufferLength, maxLength);
      var start := address + HEADER_SIZE + header.keyLength;
      EncodeHolds(mem[..], address, r);
      ValueRead(mem[..], address, r, sizeToRead);
      buffer := Read(start, seq(sizeToRead, _ => 0), sizeToRead);
    }
  }

  lemma CutOfShort(data: seq<byte>)
    ensures |data| < 0x1_0000 ==> Cut(data) == data
  {
  }

  /** The length of a cut value fits its record's length field, cut as well. */
  lemma SameLength(key: Key, value: Value)
    requires HEADER_SIZE + |key| + |Cut(value)| < 0x1_0000
    ensures (HEADER_SIZE + |key| + |value|) % 0x1_0000 == HEADER_SIZE + |key| + |Cut(value)|
  {
  }

  /** The first `n` bytes at `source` have arrived at `destination`. */
  ghost predicate Moved(was: seq<byte>, now: seq<byte>, source: nat, destination: nat, n: nat)
    requires destination <= source && source + n <= |was|
  {
    && |now| == |was|
    && forall j {:trigger now[j]} :: 0 <= j < |was| ==>
         now[j] == if destination <= j < destination + n then was[j - destination + source] else was[j]
  }

  lemma MovedNothing(was: seq<byte>, source: nat, destination: nat)
    requires destination <= source <= |was|
    ensures Moved(was, was, source, destination, 0)
  {
  }

  lemma MovedStep(was: seq<byte>, now: seq<byte>, source: nat, destination: nat, n: nat, moving: nat)
    requires destination <= source && source + n + moving <= |was|
    requires Moved(was, now, source, destination, n)
    ensures Moved(was, Splice(now, destination + n, now[source + n..source + n + moving]),
                  source, destination, n + moving)
  {
    var chunk := now[source + n..source + n + moving];
    var next := Splice(now, destination + n, chunk);
    SpliceAt(now, destination + n, chunk);
    forall j | 0 <= j < |was|
      ensures next[j] == if destination <= j < destination + n + moving then was[j - destination + source] else was[j]
    {
      if destination + n <= j < destination + n + moving {
        assert next[j] == chunk[j - destination - n] == now[j - destination + source];
      } else {
        assert next[j] == now[j];
      }
    }
  }

  lemma MovedAll(was: seq<byte>, now: seq<byte>, source: nat, destination: nat, n: nat)
    requires destination <= source && source + n <= |was|
    requires Moved(was, now, source, destination, n)
    ensures now == Splice(was, destination, was[source..source + n])
  {
    var block := was[source..source + n];
    assert forall i :: 0 <= i < n ==> block[i] == was[source + i];
    SpliceAt(was, destination, block);
  }

  lemma HeaderRead(b: seq<byte>, a: nat, buffer: seq<byte>)
    requires a + HEADER_SIZE <= |b| && HEADER_SIZE <= |buffer|
    requires buffer[..HEADER_SIZE] == b[a..a + HEADER_SIZE]
    ensures buffer[0] == b[a] && buffer[1] == b[a + 1] && buffer[2] == b[a + 2]
  {
    assert buffer[0] == buffer[..HEADER_SIZE][0];
    assert buffer[1] == buffer[..HEADER_SIZE][1];
    assert buffer[2] == buffer[..HEADER_SIZE][2];
  }

  lemma KeyRead(b: seq<byte>, a: nat, r: Record)
    requires a + r.Size() <= |b| && b[a + HEADER_SIZE..a + r.Size()] == r.body
    requires r.WellFormed()
    ensures b[a + HEADER_SIZE..a + HEADER_SIZE + r.keyLength] == r.Key()
  {
    assert b[a + HEADER_SIZE..a + HEADER_SIZE + r.keyLength] == b[a + HEADER_SIZE..a + r.Size()][..r.keyLength];
  }

  lemma ValueRead(b: seq<byte>, a: nat, r: Record, n: nat)
    requires a + r.Size() <= |b| && b[a + HEADER_SIZE..a + r.Size()] == r.body
    requires r.WellFormed() && n <= |r.Value()|
    ensures var s := a + HEADER_SIZE + r.keyLength;
            s + n <= |b| && b[s..s + n] == r.Value()[..n]
  {
    var s := a + HEADER_SIZE + r.keyLength;
    assert r.Value() == r.body[r.keyLength..];
    assert b[s..a + r.Size()] == b[a + HEADER_SIZE..a + r.Size()][r.keyLength..];
    assert b[s..s + n] == b[s..a + r.Size()][..n];
  }
}
