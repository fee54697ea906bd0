/**
  The log subsystem: creates, extends, deletes and samples the log blocks.  Its
  commands run one after the other; locks and timers are not modelled.
 */
module Log {
  import opened LogToc
  import opened LogBlocks
  import opened LogPool
  import opened LogValues
  import B = Bytes

  const PACKET_HEADER := 4
  const MAX_DATA_SIZE := 30

  class Logger {
    const toc: Toc
    const logOps: array<Node>
    const logBlocks: array<Block>
    ghost var lists: seq<seq<nat>>
    ghost var owner: seq<int>
    ghost var contents: Blocks

    /** The memory and its reading, as one value. */
    ghost function Memory(): Pool
      reads this, logOps, logBlocks
    {
      Pool(logOps[..], logBlocks[..], lists, owner, contents)
    }

    /** Every variable has an address. */
    ghost predicate TocUsable() {
      forall i :: 0 <= i < |toc| && !toc[i].IsGroup() ==> toc[i].address != 0
    }

    ghost predicate Sized() {
      logOps.Length == MAX_OPS && logBlocks.Length == MAX_BLOCKS
    }

    ghost predicate Valid()
      reads this, logOps, logBlocks
    {
      Sized() && TocUsable() && Inv(Memory())
    }

    /** Takes over whatever is in the arrays. */
    constructor (toc: Toc, ops: array<Node>, blocks: array<Block>)
      ensures this.toc == toc && logOps == ops && logBlocks == blocks
    {
      this.toc := toc;
      logOps := ops;
      logBlocks := blocks;
      lists, owner, contents := [], [], map[];
    }

    method Init()
      requires Sized() && TocUsable()
      modifies this, logOps, logBlocks
      ensures Valid() && contents == map[]
    {
      var i := 0;
      while i < MAX_BLOCKS
        invariant 0 <= i <= MAX_BLOCKS
        invariant forall j :: 0 <= j < i ==> logBlocks[j].IsFree()
      {
        logBlocks[i] := logBlocks[i].(id := BLOCK_ID_FREE);
        i := i + 1;
      }
      ForceFree();
    }

    /** The last part of a reset: marks everything as free. */
    method ForceFree()
      requires Sized() && TocUsable()
      modifies this, logOps, logBlocks
      ensures Valid() && contents == map[]
    {
      var i := 0;
      while i < MAX_BLOCKS
        invariant 0 <= i <= MAX_BLOCKS
        invariant forall j :: 0 <= j < i ==> logBlocks[j].IsFree()
      {
        logBlocks[i] := logBlocks[i].(id := BLOCK_ID_FREE);
        i := i + 1;
      }
      i := 0;
      while i < MAX_OPS
        invariant 0 <= i <= MAX_OPS
        invariant forall j :: 0 <= j < MAX_BLOCKS ==> logBlocks[j].IsFree()
        invariant forall j :: 0 <= j < i ==> logOps[j].IsFree()
      {
        logOps[i] := Freed(logOps[i]);
        i := i + 1;
      }
      ghost var p := EmptyPool(logOps[..], logBlocks[..]);
      lists, owner, contents := p.lists, p.owner, p.contents;
      EmptyInv(logOps[..], logBlocks[..]);
    }

    // ---------- Nodes ----------

    method OpsMalloc() returns (n: int)
      requires Sized()
      ensures n == NULL <==> FreeCount(logOps[..]) == 0
      ensures n != NULL ==> 0 <= n < MAX_OPS && logOps[n].IsFree()
    {
      var i := 0;
      FreeCountAll(logOps[..]);
      while i < MAX_OPS
        invariant 0 <= i <= MAX_OPS
        invariant forall j :: 0 <= j < i ==> !logOps[j].IsFree()
      {
        if logOps[i].IsFree() {
          break;
        }
        i := i + 1;
      }
      if i >= MAX_OPS {
        n := NULL;
      } else {
        assert logOps[..][i].IsFree();
        n := i;
      }
    }

    method OpsFree(n: nat)
      requires n < logOps.Length
      modifies logOps
      ensures logOps[..] == old(logOps[..])[n := Freed(old(logOps[n]))]
    {
      logOps[n] := logOps[n].(sample := logOps[n].sample.(variable := 0));
    }

    /** The place of the block with this id, or 16. */
    method FindBlock(id: int) returns (i: nat)
      requires Valid() && id != BLOCK_ID_FREE
      ensures i <= MAX_BLOCKS
      ensures i < MAX_BLOCKS <==> id in contents
      ensures i < MAX_BLOCKS ==> logBlocks[i].id == id
    {
      hide Inv, PacketBytes, SamplesOf, Linked;
      i := 0;
      while i < MAX_BLOCKS
        invariant 0 <= i <= MAX_BLOCKS
        invariant forall j :: 0 <= j < i ==> logBlocks[j].id != id
      {
        if logBlocks[i].id == id {
          BlockKnown(i);
          return;
        }
        i := i + 1;
      }
      AllFoundIn(id);
    }

    lemma BlockKnown(i: nat)
      requires Valid() && i < MAX_BLOCKS
      ensures |lists| == MAX_BLOCKS && BlockRead(logBlocks[i], lists[i], logOps[..], contents)
      ensures !logBlocks[i].IsFree() ==> BlockFits(logBlocks[i].id, contents[logBlocks[i].id])
    {
      assert BlockRead(Memory().blocks[i], lists[i], logOps[..], contents);
    }

    /** Where the links of a block start, and how many there are. */
    lemma BlockStarts(i: nat)
      requires Valid() && i < MAX_BLOCKS && !logBlocks[i].IsFree()
      ensures Sized() && |lists| == MAX_BLOCKS
      ensures logBlocks[i].id in contents && Typed(contents[logBlocks[i].id])
      ensures PacketBytes(contents[logBlocks[i].id]) <= MAX_LENGTH && 0 <= logBlocks[i].id < 0x100
      ensures |contents[logBlocks[i].id]| == |lists[i]| && logBlocks[i].ops == At(lists[i], 0)
    {
      hide Inv, PacketBytes;
      BlockKnown(i);
    }

    /** What the walk along the links of a block finds at place `p`. */
    lemma NodeInBlock(i: nat, p: nat)
      requires Valid() && i < MAX_BLOCKS && !logBlocks[i].IsFree() && |lists| == MAX_BLOCKS && p < |lists[i]|
      ensures Sized() && lists[i][p] < MAX_OPS && logOps[lists[i][p]].next == At(lists[i], p + 1)
      ensures logBlocks[i].id in contents && |contents[logBlocks[i].id]| == |lists[i]|
      ensures logOps[lists[i][p]].sample == contents[logBlocks[i].id][p]
      ensures Typed(contents[logBlocks[i].id]) && contents[logBlocks[i].id][p].logType <= 8
    {
      hide Inv, PacketBytes;
      BlockKnown(i);
    }

    lemma AllFoundIn(id: int)
      requires Valid()
      requires forall j :: 0 <= j < MAX_BLOCKS ==> logBlocks[j].id != id
      ensures id !in contents
    {
      assert forall j :: 0 <= j < |logBlocks[..]| ==> logBlocks[..][j].id != id;
    }

    method BlockCalcLength(i: nat) returns (len: nat)
      requires Valid() && i < MAX_BLOCKS && !logBlocks[i].IsFree()
      ensures logBlocks[i].id in contents && Typed(contents[logBlocks[i].id])
      ensures len == PacketBytes(contents[logBlocks[i].id])
    {
      hide Valid, PacketBytes, TypeLength, Typed;
      BlockStarts(i);
      ghost var list, ss := lists[i], contents[logBlocks[i].id];
      len := 0;
      var o := logBlocks[i].ops;
      ghost var p := 0;
      assert ss[..0] == [];
      NoBytes();
      TypedPrefix(ss, 0);
      while o != NULL
        invariant 0 <= p <= |list| && o == At(list, p)
        invariant Typed(ss[..p]) && len == PacketBytes(ss[..p])
        decreases |list| - p
      {
        NodeInBlock(i, p);
        PacketBytesNext(ss, p);
        len := len + TypeLength(logOps[o].sample.logType);
        o := logOps[o].next;
        p := p + 1;
      }
      assert ss[..p] == ss;
    }

    /** Puts the free node `n` behind the last node of block `i`. */
    method BlockAppendOps(i: nat, n: nat, s: Sample)
      requires Valid() && i < MAX_BLOCKS && !logBlocks[i].IsFree()
      requires n < MAX_OPS && logOps[n].IsFree()
      requires s.variable != 0 && s.logType <= 8
      requires logBlocks[i].id in contents && Typed(contents[logBlocks[i].id])
      requires PacketBytes(contents[logBlocks[i].id]) + TypeLength(s.logType) <= MAX_LENGTH
      modifies this, logOps, logBlocks
      ensures Valid()
      ensures logBlocks[i].id == old(logBlocks[i].id)
      ensures contents == old(contents)[logBlocks[i].id := old(contents[logBlocks[i].id]) + [s]]
      ensures FreeCount(logOps[..]) == FreeCount(old(logOps[..])) - 1
    {
      hide Inv, PacketBytes, FreeCount;
      ghost var p := Memory();
      BlockKnown(i);
      PoolShape(p);
      FreeNodeUnlisted(p, n, i);
      AppendKeepsInv(p, i, n, s);
      ghost var q, list := Appended(p, i, n, s), lists[i];
      logOps[n] := Node(NULL, s);
      if logBlocks[i].ops == NULL {
        logBlocks[i] := logBlocks[i].(ops := n);
      } else {
        var o := logBlocks[i].ops;
        ghost var k := 0;
        while logOps[o].next != NULL
          invariant 0 <= k < |list| && o == list[k]
          invariant logOps[..] == p.nodes[n := Node(NULL, s)]
          decreases |list| - k
        {
          o := logOps[o].next;
          k := k + 1;
        }
        logOps[o] := logOps[o].(next := n);
      }
      assert logOps[..] == q.nodes;
      assert logBlocks[..] == q.blocks;
      lists, owner, contents := q.lists, q.owner, q.contents;
    }

    // ---------- Commands ----------

    /** Appends as many of the settings as the budgets and the table allow. */
    method AppendBlock(id: int, settings: seq<Setting>) returns (code: Code)
      requires Valid() && 0 <= id < 0x100 && AllSupported(settings)
      modifies this, logOps, logBlocks
      ensures Valid()
      ensures id !in old(contents) ==> code == ENoEnt && contents == old(contents)
      ensures id in old(contents) ==> AppendOutcome(toc, old(contents), id, settings, contents, code)
    {
      hide Inv, PacketBytes, FreeCount, Total, Taken, Report, SamplesFor, IndexOf, SampleFor, TypeLength, Progress,
        SamplesOf, AppendOutcome;
      var i := FindBlock(id);
      if i >= MAX_BLOCKS {
        return ENoEnt;
      }
      ghost var before := contents;
      BlockStarts(i);
      PoolShape(Memory());
      ghost var used, free := PacketBytes(contents[id]), MAX_OPS - Total(contents);
      AppendStart(toc, used, free, settings, before, id);
      var k := 0;
      while k < |settings|
        invariant 0 <= k <= |settings|
        invariant Valid() && logBlocks[i].id == id
        invariant Progress(toc, before, id, settings, used, free, k, contents, FreeCount(logOps[..]))
      {
        var currentLength := BlockCalcLength(i);
        var logType := settings[k].logType % 0x10;
        if currentLength + TypeLength(logType) > MAX_LENGTH {
          AppendStops(toc, before, id, settings, used, free, k, contents, FreeCount(logOps[..]), E2Big);
          return E2Big;
        }
        var ops := OpsMalloc();
        if ops == NULL {
          AppendStops(toc, before, id, settings, used, free, k, contents, FreeCount(logOps[..]), ENoMem);
          return ENoMem;
        }
        var varId := VariableGetIndex(toc, settings[k].id);
        IndexFound(toc, settings[k]);
        if varId < 0 {
          AppendStops(toc, before, id, settings, used, free, k, contents, FreeCount(logOps[..]), ENoEnt);
          return ENoEnt;
        }
        var sample := Sample(toc[varId].LogType(), logType, toc[varId].address, toc[varId].ByFunction());
        SampleIs(toc, settings[k], sample);
        AppendGoesOn(toc, before, id, settings, used, free, k, contents, FreeCount(logOps[..]), sample);
        BlockAppendOps(i, ops, sample);
        k := k + 1;
      }
      AppendEnds(toc, before, id, settings, used, free, contents, FreeCount(logOps[..]));
      return Ok;
    }

    method CreateBlock(id: int, settings: seq<Setting>, timerCreated: bool) returns (code: Code)
      requires Valid() && 0 <= id < 0x100 && AllSupported(settings)
      modifies this, logOps, logBlocks
      ensures Valid()
      ensures CreateOutcome(toc, old(contents), id, settings, timerCreated, contents, code)
    {
      hide Inv, PacketBytes, FreeCount, Total;
      var taken := FindBlock(id);
      if taken < MAX_BLOCKS {
        return EExist;
      }
      PoolShape(Memory());
      BudgetsHold(Memory());
      var i := 0;
      while i < MAX_BLOCKS
        invariant 0 <= i <= MAX_BLOCKS
        invariant forall j :: 0 <= j < i ==> !logBlocks[j].IsFree()
      {
        if logBlocks[i].IsFree() {
          break;
        }
        i := i + 1;
      }
      if i == MAX_BLOCKS {
        assert forall j :: 0 <= j < MAX_BLOCKS ==> !Memory().blocks[j].IsFree();
        return ENoMem;
      }
      assert !(forall j :: 0 <= j < MAX_BLOCKS ==> !Memory().blocks[j].IsFree()) by {
        assert Memory().blocks[i].IsFree();
      }
      if !timerCreated {
        // The block was taken and is given back.
        ghost var blocks := logBlocks[..];
        logBlocks[i] := Block(BLOCK_ID_FREE, NULL);
        FreeBlockIgnored(Memory(), blocks, i);
        return ENoMem;
      }
      CreateKeepsInv(Memory(), i, id);
      ghost var q := Created(Memory(), i, id);
      logBlocks[i] := Block(id, NULL);
      contents := contents[id := []];
      assert Memory() == q;
      code := AppendBlock(id, settings);
    }

    /** Frees the nodes of a block, and the block. */
    method DeleteBlock(id: int) returns (code: Code)
      requires Valid() && 0 <= id
      modifies this, logOps, logBlocks
      ensures Valid()
      ensures code == if id in old(contents) then Ok else ENoEnt
      ensures contents == old(contents) - {id}
      ensures FreeCount(logOps[..]) == FreeCount(old(logOps[..]))
                + if id in old(contents) then |old(contents[id])| else 0
      ensures id !in old(contents) ==> logOps[..] == old(logOps[..]) && lists == old(lists)
      ensures id in old(contents) ==>
        exists i :: 0 <= i < MAX_BLOCKS && i < |old(lists)| && old(logBlocks[i].id) == id
          && lists == old(lists)[i := []]
          && FreedUpTo(old(logOps[..]), logOps[..], old(lists)[i], |old(lists)[i]|)
      ensures forall i :: 0 <= i < MAX_BLOCKS && old(logBlocks[i].id) != id ==> logBlocks[i] == old(logBlocks[i])
      ensures forall i :: 0 <= i < MAX_BLOCKS && old(logBlocks[i].id) == id ==> logBlocks[i].IsFree()
    {
      hide Inv, PacketBytes, FreeCount, Total, FreedUpTo, Typed;
      var i := FindBlock(id);
      if i >= MAX_BLOCKS {
        AllFoundOut(id);
        assert contents - {id} == contents;
        return ENoEnt;
      }
      BlockStarts(i);
      OnlyPlace(i);
      ghost var p := Memory();
      FreeList(i);
      ghost var nodes := logOps[..];
      DeleteKeepsInv(p, i, nodes);
      ghost var q := Deleted(p, i, nodes);
      logBlocks[i] := logBlocks[i].(id := BLOCK_ID_FREE);
      assert logOps[..] == nodes;
      assert logBlocks[..] == q.blocks;
      lists, owner, contents := q.lists, q.owner, q.contents;
      return Ok;
    }

    /** Frees the nodes along the links of a block. */
    method FreeList(i: nat)
      requires Valid() && i < MAX_BLOCKS && !logBlocks[i].IsFree() && |lists| == MAX_BLOCKS
      modifies logOps
      ensures FreedUpTo(old(logOps[..]), logOps[..], lists[i], |lists[i]|)
      ensures FreeCount(logOps[..]) == FreeCount(old(logOps[..])) + |lists[i]|
    {
      hide Inv, PacketBytes, FreeCount, Total, FreedUpTo, Owned, AllRead, ListOwned, NodeOwned, SamplesOf, Typed,
        BlockRead;
      ghost var p, list := Memory(), lists[i];
      BlockStarts(i);
      PoolShape(p);
      var o := logBlocks[i].ops;
      ghost var k := 0;
      NothingFreed(p.nodes, list);
      while o != NULL
        invariant 0 <= k <= |list| && o == At(list, k)
        invariant FreedUpTo(p.nodes, logOps[..], list, k)
        invariant FreeCount(logOps[..]) == FreeCount(p.nodes) + k
        decreases |list| - k
      {
        ListedNode(p, i, k);
        LinkedNode(p, i, k);
        FreeOneMore(p.nodes, logOps[..], list, k);
        var opsNext := logOps[o].next;
        OpsFree(o);
        o := opsNext;
        k := k + 1;
      }
    }

    lemma AllFoundOut(id: int)
      requires Valid() && id != BLOCK_ID_FREE && id !in contents
      ensures forall j :: 0 <= j < MAX_BLOCKS ==> logBlocks[j].id != id
    {
      forall j | 0 <= j < MAX_BLOCKS ensures logBlocks[j].id != id {
        BlockKnown(j);
      }
    }

    lemma OnlyPlace(i: nat)
      requires Valid() && i < MAX_BLOCKS && !logBlocks[i].IsFree()
      ensures forall j :: 0 <= j < MAX_BLOCKS && j != i ==> logBlocks[j].id != logBlocks[i].id
    {
      forall j | 0 <= j < MAX_BLOCKS && j != i ensures logBlocks[j].id != logBlocks[i].id {
        DifferentIds(logBlocks[..], i, j);
      }
    }

    method Reset()
      requires Valid()
      modifies this, logOps, logBlocks
      ensures Valid() && contents == map[]
    {
      hide Inv, FreeCount, Total;
      var i := 0;
      while i < MAX_BLOCKS
        invariant 0 <= i <= MAX_BLOCKS && Valid()
        invariant forall j :: 0 <= j < i ==> logBlocks[j].IsFree()
      {
        if logBlocks[i].id != BLOCK_ID_FREE {
          BlockKnown(i);
          var _ := DeleteBlock(logBlocks[i].id);
        }
        i := i + 1;
      }
      ForceFree();
    }

    // ---------- Sampling ----------

    /** Builds the packet of a block, from the current values of its variables. */
    method RunBlock(i: nat, timestamp: nat, w: World) returns (packet: seq<B.byte>)
      requires Valid() && i < MAX_BLOCKS && !logBlocks[i].IsFree()
      requires Sane(w)
      ensures logBlocks[i].id in contents && Typed(contents[logBlocks[i].id])
      ensures packet == PacketHeader(logBlocks[i].id % 0x100, timestamp) + Values(contents[logBlocks[i].id], w)
      ensures |packet| == 4 + PacketBytes(contents[logBlocks[i].id]) <= 30
      ensures packet[0] == logBlocks[i].id && packet[1] == timestamp % 256
      ensures packet[2] == timestamp / 256 % 256 && packet[3] == timestamp / 65536 % 256
    {
      hide Valid, PacketBytes, Values, TypeLength, Typed, PacketHeader, SentValue, Sane;
      BlockStarts(i);
      ghost var list, ss := lists[i], contents[logBlocks[i].id];
      packet := PacketHeader(logBlocks[i].id % 0x100, timestamp);
      ghost var header := packet;
      HeaderIs(logBlocks[i].id % 0x100, timestamp);
      var o := logBlocks[i].ops;
      ghost var p := 0;
      assert ss[..0] == [];
      NoBytes();
      NoValues(w);
      assert Typed(ss[..0]) by {
        TypedPrefix(ss, 0);
      }
      while o != NULL
        invariant 0 <= p <= |list| && o == At(list, p)
        invariant Typed(ss[..p]) && packet == header + Values(ss[..p], w)
        invariant |packet| == PACKET_HEADER + PacketBytes(ss[..p])
        decreases |list| - p
      {
        NodeInBlock(i, p);
        var sample := logOps[o].sample;
        var value := SentValue(w, sample);
        NextValue(ss, p, w);
        if |packet| > MAX_DATA_SIZE - |value| {
          assert false;
          break;
        }
        packet := packet + value;
        o := logOps[o].next;
        p := p + 1;
      }
      assert ss[..p] == ss;
      assert packet[..PACKET_HEADER] == header;
      assert packet[0] == header[0] && packet[1] == header[1] && packet[2] == header[2] && packet[3] == header[3];
    }
  }

  // ---------- What the commands promise ----------

  /** The longest takable prefix of the settings was appended, nothing else has
      changed, and the code says what stopped it. */
  ghost predicate AppendOutcome(toc: Toc, before: Blocks, id: int, settings: seq<Setting>, after: Blocks, code: Code)
    requires id in before && AllSupported(settings)
  {
    && Typed(before[id]) && Total(before) <= 128
    && var used, free := PacketBytes(before[id]), 128 - Total(before);
       var n := Taken(toc, used, free, settings);
       && code == Report(toc, used, free, settings)
       && (forall j :: 0 <= j < n ==> InToc(toc, settings[j]))
       && after == before[id := before[id] + SamplesFor(toc, settings[..n])]
  }

  ghost predicate CreateOutcome(toc: Toc, before: Blocks, id: int, settings: seq<Setting>, timerCreated: bool,
                                after: Blocks, code: Code)
    requires AllSupported(settings)
  {
    if id in before then code == EExist && after == before
    else if |before| == 16 || !timerCreated then code == ENoMem && after == before
    else AppendOutcome(toc, before[id := []], id, settings, after, code)
  }

  /** The state of an append after `k` settings. */
  ghost predicate Progress(toc: Toc, before: Blocks, id: int, settings: seq<Setting>, used: nat, free: nat,
                           k: nat, now: Blocks, freeNow: nat)
    requires k <= |settings| && AllSupported(settings)
  {
    && id in before && Typed(before[id]) && used == PacketBytes(before[id])
    && Total(before) <= MAX_OPS && free == MAX_OPS - Total(before)
    && id in now && Typed(now[id])
    && (forall j :: 0 <= j < k ==> InToc(toc, settings[j]))
    && now == before[id := before[id] + SamplesFor(toc, settings[..k])]
    && Taken(toc, used, free, settings) == k + Taken(toc, PacketBytes(now[id]), freeNow, settings[k..])
    && Report(toc, used, free, settings) == Report(toc, PacketBytes(now[id]), freeNow, settings[k..])
  }

  lemma AppendStart(toc: Toc, used: nat, free: nat, settings: seq<Setting>, before: Blocks, id: int)
    requires id in before && Typed(before[id]) && used == PacketBytes(before[id]) && AllSupported(settings)
    requires Total(before) <= MAX_OPS && free == MAX_OPS - Total(before)
    ensures Progress(toc, before, id, settings, used, free, 0, before, free)
  {
    assert settings[..0] == [] && settings[0..] == settings;
    assert before[id] + SamplesFor(toc, []) == before[id];
  }

  lemma AppendStops(toc: Toc, before: Blocks, id: int, settings: seq<Setting>, used: nat, free: nat,
                    k: nat, now: Blocks, freeNow: nat, code: Code)
    requires k < |settings| && AllSupported(settings) && id in before && id in now && Typed(now[id])
    requires Progress(toc, before, id, settings, used, free, k, now, freeNow)
    requires var fits := PacketBytes(now[id]) + TypeLength(settings[k].logType % 0x10) <= MAX_LENGTH;
      || (code == E2Big && !fits)
      || (code == ENoMem && fits && freeNow == 0)
      || (code == ENoEnt && fits && freeNow > 0 && !InToc(toc, settings[k]))
    ensures AppendOutcome(toc, before, id, settings, now, code)
  {
    hide PacketBytes, SamplesFor, InToc, Total, TypeLength;
    assert settings[k..][0] == settings[k];
  }

  lemma AppendGoesOn(toc: Toc, before: Blocks, id: int, settings: seq<Setting>, used: nat, free: nat,
                     k: nat, now: Blocks, freeNow: nat, s: Sample)
    requires k < |settings| && AllSupported(settings) && id in now && Typed(now[id])
    requires Progress(toc, before, id, settings, used, free, k, now, freeNow)
    requires PacketBytes(now[id]) + TypeLength(settings[k].logType % 0x10) <= MAX_LENGTH && freeNow > 0
    requires InToc(toc, settings[k]) && s == SampleFor(toc, settings[k])
    requires s.logType == settings[k].logType % 0x10
    ensures Progress(toc, before, id, settings, used, free, k + 1, now[id := now[id] + [s]], freeNow - 1)
  {
    hide PacketBytes, InToc, SampleFor;
    assert settings[k..][0] == settings[k] && settings[k..][1..] == settings[k + 1..];
    assert settings[..k + 1][..k] == settings[..k];
    PacketBytesStep(now[id], s);
    assert before[id] + SamplesFor(toc, settings[..k]) + [s] == before[id] + SamplesFor(toc, settings[..k + 1]);
  }

  lemma AppendEnds(toc: Toc, before: Blocks, id: int, settings: seq<Setting>, used: nat, free: nat,
                   now: Blocks, freeNow: nat)
    requires AllSupported(settings) && id in before
    requires Progress(toc, before, id, settings, used, free, |settings|, now, freeNow)
    ensures AppendOutcome(toc, before, id, settings, now, Ok)
  {
    hide PacketBytes, SamplesFor, Total;
    assert settings[|settings|..] == [];
  }

  lemma IndexFound(toc: Toc, s: Setting)
    ensures IndexOf(toc, s.id) >= 0 <==> InToc(toc, s)
    ensures InToc(toc, s) ==> 0 <= IndexOf(toc, s.id) < |toc| && !toc[IndexOf(toc, s.id)].IsGroup()
  {
    NumberingIsBijection(toc, |toc|);
  }

  lemma SampleIs(toc: Toc, s: Setting, sample: Sample)
    requires InToc(toc, s) && IndexOf(toc, s.id) < |toc|
    requires var e := toc[IndexOf(toc, s.id)];
      sample == Sample(e.LogType(), s.logType % 0x10, e.address, e.ByFunction())
    ensures sample == SampleFor(toc, s)
  {
  }

  lemma TypedPrefix(ss: seq<Sample>, p: nat)
    requires Typed(ss) && p <= |ss|
    ensures Typed(ss[..p])
  {
  }

  lemma PacketBytesNext(ss: seq<Sample>, p: nat)
    requires Typed(ss) && p < |ss|
    ensures Typed(ss[..p]) && Typed(ss[..p + 1]) && ss[p].logType <= 8
    ensures PacketBytes(ss[..p + 1]) == PacketBytes(ss[..p]) + TypeLength(ss[p].logType)
  {
    hide PacketBytes, TypeLength;
    assert ss[..p + 1] == ss[..p] + [ss[p]];
    PacketBytesStep(ss[..p], ss[p]);
  }

  lemma NoBytes()
    ensures PacketBytes([]) == 0
  {
  }

  /** The plain facts about sizes and totals in a valid memory. */
  lemma PoolShape(p: Pool)
    requires Inv(p)
    ensures |p.nodes| == MAX_OPS && |p.lists| == |p.blocks| == MAX_BLOCKS && |p.owner| == |p.nodes|
    ensures Owned(p) && AllRead(p)
    ensures FreeCount(p.nodes) == MAX_OPS - Total(p.contents)
    ensures FreeCount(p.nodes) + Total(p.contents) == MAX_OPS
  {
  }

  lemma NothingFreed(nodes: seq<Node>, list: seq<nat>)
    ensures FreedUpTo(nodes, nodes, list, 0)
  {
  }

  /** The node in place `k` of a list is linked to the next one. */
  lemma LinkedNode(p: Pool, i: nat, k: nat)
    requires AllRead(p) && i < MAX_BLOCKS && k < |p.lists[i]|
    ensures p.lists[i][k] < |p.nodes| && p.nodes[p.lists[i][k]].next == At(p.lists[i], k + 1)
  {
    assert BlockRead(p.blocks[i], p.lists[i], p.nodes, p.contents);
  }

  /** The node in place `k` of a list is in use, and is not in an earlier place. */
  lemma ListedNode(p: Pool, i: nat, k: nat)
    requires Owned(p) && i < MAX_BLOCKS && k < |p.lists[i]|
    ensures InPool(p.lists[i], p.nodes)
    ensures p.lists[i][k] !in p.lists[i][..k] && !p.nodes[p.lists[i][k]].IsFree()
  {
    assert ListOwned(p.lists[i], i, p.nodes, p.owner);
    assert NodeOwned(p.lists[i][k], p.nodes, p.owner, p.lists);
  }

  /** The list reference of a free block means nothing. */
  lemma FreeBlockIgnored(p: Pool, blocks: seq<Block>, i: nat)
    requires i < |blocks| && blocks[i].IsFree() && Inv(p.(blocks := blocks))
    requires p.blocks == blocks[i := Block(BLOCK_ID_FREE, NULL)]
    ensures Inv(p)
  {
    hide FreeCount, Total, PacketBytes, Linked, SamplesOf, ListOwned, NodeOwned;
    var was := p.(blocks := blocks);
    forall j | 0 <= j < MAX_BLOCKS ensures BlockRead(p.blocks[j], p.lists[j], p.nodes, p.contents) {
      assert BlockRead(was.blocks[j], was.lists[j], was.nodes, was.contents);
    }
    SameIdsFound(p.contents, p.contents, blocks, p.blocks);
  }

  // ---------- Packets ----------

  function PacketHeader(id: B.byte, timestamp: nat): (h: seq<B.byte>)
    ensures |h| == PACKET_HEADER
  {
    [id, timestamp % 0x100, timestamp / 0x100 % 0x100, timestamp / 0x1_0000 % 0x100]
  }

  lemma HeaderIs(id: B.byte, timestamp: nat)
    ensures PacketHeader(id, timestamp)
         == [id, timestamp % 256, timestamp / 256 % 256, timestamp / 65536 % 256]
  {
  }

  function Values(ss: seq<Sample>, w: World): seq<B.byte>
    requires Typed(ss)
  {
    if ss == [] then [] else Values(ss[..|ss| - 1], w) + SentValue(w, ss[|ss| - 1])
  }

  lemma NoValues(w: World)
    ensures Values([], w) == []
  {
  }

  lemma ValuesStep(ss: seq<Sample>, s: Sample, w: World)
    requires Typed(ss) && s.logType <= 8
    ensures Typed(ss + [s])
    ensures Values(ss + [s], w) == Values(ss, w) + SentValue(w, s)
  {
    assert (ss + [s])[..|ss|] == ss;
  }

  lemma NextValue(ss: seq<Sample>, p: nat, w: World)
    requires Typed(ss) && p < |ss| && Sane(w)
    ensures Typed(ss[..p]) && Typed(ss[..p + 1])
    ensures PacketBytes(ss[..p + 1]) == PacketBytes(ss[..p]) + |SentValue(w, ss[p])| <= PacketBytes(ss)
    ensures Values(ss[..p + 1], w) == Values(ss[..p], w) + SentValue(w, ss[p])
  {
    hide TypeLength, Values, SentValue;
    SentLength(w, ss[p]);
    assert ss[..p + 1] == ss[..p] + [ss[p]];
    PacketBytesStep(ss[..p], ss[p]);
    PacketBytesMonotone(ss, p + 1);
    ValuesStep(ss[..p], ss[p], w);
  }

  /** Every value stands behind the values before it, at the offset that their
      type lengths add up to. */
  lemma {:induction false} ValueAtOffset(ss: seq<Sample>, w: World, k: nat)
    requires Typed(ss) && k < |ss|
    requires Sane(w)
    ensures |Values(ss, w)| == PacketBytes(ss)
    ensures PacketBytes(ss[..k]) + TypeLength(ss[k].logType) <= PacketBytes(ss)
    ensures var o := PacketBytes(ss[..k]);
      Values(ss, w)[o..o + TypeLength(ss[k].logType)] == SentValue(w, ss[k])
  {
    hide SentValue, Sane, TypeLength;
    var n := |ss| - 1;
    var rest := ss[..n];
    SentLength(w, ss[n]);
    if k == n {
      ValuesLength(rest, w);
    } else {
      ValueAtOffset(rest, w, k);
      assert rest[..k] == ss[..k];
    }
  }

  lemma {:induction false} ValuesLength(ss: seq<Sample>, w: World)
    requires Typed(ss)
    requires Sane(w)
    ensures |Values(ss, w)| == PacketBytes(ss)
  {
    hide SentValue, Sane, TypeLength;
    if ss != [] {
      ValuesLength(ss[..|ss| - 1], w);
      SentLength(w, ss[|ss| - 1]);
    }
  }
}
