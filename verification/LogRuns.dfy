/**
  Whole runs of log commands: the pool of linked nodes behaves like a plain map
  from block ids to lists of samples, with the three budgets kept throughout.
 */
module LogRuns {
  import opened LogToc
  import opened LogBlocks
  import opened LogPool
  import opened Log

  datatype Command =
    | Create(id: int, settings: seq<Setting>, timerCreated: bool)
    | Append(id: int, settings: seq<Setting>)
    | Delete(id: int)
    | Start(id: int)
    | Stop(id: int)
    | Reset

  /** Ids are bytes, and types are within the table of type lengths. */
  predicate Callable(c: Command) {
    && (c.Reset? || 0 <= c.id < 0x100)
    && (c.Create? || c.Append? ==> AllSupported(c.settings))
  }

  datatype Outcome = Outcome(blocks: Blocks, code: Code)

  // ---------- The reference ----------

  ghost function AppendTo(toc: Toc, m: Blocks, id: int, settings: seq<Setting>): Outcome
    requires WithinBudget(m) && id in m && AllSupported(settings)
  {
    var used, free := PacketBytes(m[id]), 128 - Total(m);
    var n := Taken(toc, used, free, settings);
    TakenInToc(toc, used, free, settings);
    Outcome(m[id := m[id] + SamplesFor(toc, settings[..n])], Report(toc, used, free, settings))
  }

  ghost function After(toc: Toc, m: Blocks, c: Command): Outcome
    requires WithinBudget(m) && Callable(c)
  {
    match c
    case Create(id, settings, timerCreated) =>
      if id in m then Outcome(m, EExist)
      else if |m| == 16 || !timerCreated then Outcome(m, ENoMem)
      else
        EmptyBlockWithinBudget(m, id);
        AppendTo(toc, m[id := []], id, settings)
    case Append(id, settings) => if id in m then AppendTo(toc, m, id, settings) else Outcome(m, ENoEnt)
    case Delete(id) => Outcome(m - {id}, if id in m then Ok else ENoEnt)
    case Start(id) => Outcome(m, if id in m then Ok else ENoEnt)
    case Stop(id) => Outcome(m, if id in m then Ok else ENoEnt)
    case Reset => Outcome(map[], Ok)
  }

  lemma TakenInToc(toc: Toc, used: nat, free: nat, settings: seq<Setting>)
    requires AllSupported(settings)
    ensures var n := Taken(toc, used, free, settings);
      && n <= free && (forall j :: 0 <= j < n ==> InToc(toc, settings[j]))
      && (n > 0 ==> used + Asked(settings[..n]) <= MAX_LENGTH)
  {
    TakenIsLongest(toc, used, free, settings, Taken(toc, used, free, settings));
  }

  lemma EmptyBlockWithinBudget(m: Blocks, id: int)
    requires WithinBudget(m) && id !in m && |m| < MAX_BLOCKS && 0 <= id < 0x100
    ensures WithinBudget(m[id := []])
  {
    TotalUpdate(m, id, []);
  }

  // ---------- The budgets are kept ----------

  lemma {:induction false} AskedStep(ss: seq<Setting>)
    requires AllSupported(ss) && ss != []
    ensures Asked(ss) == Asked(ss[..|ss| - 1]) + TypeLength(ss[|ss| - 1].logType % 0x10)
  {
    hide TypeLength;
    if |ss| > 1 {
      AskedStep(ss[1..]);
      assert ss[1..][..|ss| - 2] == ss[..|ss| - 1][1..];
    }
  }

  lemma {:induction false} SamplesBytes(toc: Toc, a: seq<Sample>, ss: seq<Setting>)
    requires Typed(a) && AllSupported(ss)
    requires forall j :: 0 <= j < |ss| ==> InToc(toc, ss[j])
    ensures Typed(a + SamplesFor(toc, ss))
    ensures PacketBytes(a + SamplesFor(toc, ss)) == PacketBytes(a) + Asked(ss)
  {
    hide TypeLength, InToc, IndexOf, PacketBytes;
    if ss == [] {
      assert a + SamplesFor(toc, ss) == a;
    } else {
      var k := |ss| - 1;
      SamplesBytes(toc, a, ss[..k]);
      AskedStep(ss);
      var s := SampleFor(toc, ss[k]);
      PacketBytesStep(a + SamplesFor(toc, ss[..k]), s);
      assert a + SamplesFor(toc, ss) == a + SamplesFor(toc, ss[..k]) + [s];
    }
  }

  lemma AppendKeepsBudget(toc: Toc, m: Blocks, id: int, settings: seq<Setting>)
    requires WithinBudget(m) && id in m && AllSupported(settings)
    ensures WithinBudget(AppendTo(toc, m, id, settings).blocks)
  {
    hide PacketBytes, Asked, Taken, Report, SamplesFor, InToc, Total;
    var used, free := PacketBytes(m[id]), 128 - Total(m);
    var n := Taken(toc, used, free, settings);
    TakenInToc(toc, used, free, settings);
    SamplesBytes(toc, m[id], settings[..n]);
    NothingAsked(settings);
    TotalUpdate(m, id, m[id] + SamplesFor(toc, settings[..n]));
    var m' := AppendTo(toc, m, id, settings).blocks;
    assert m'.Keys == m.Keys;
    assert |m'| == |m'.Keys| == |m|;
  }

  lemma NothingAsked(settings: seq<Setting>)
    ensures Asked(settings[..0]) == 0
  {
  }

  /** No command, in any order, breaks a budget. */
  lemma BudgetsKept(toc: Toc, m: Blocks, c: Command)
    requires WithinBudget(m) && Callable(c)
    ensures WithinBudget(After(toc, m, c).blocks)
  {
    hide PacketBytes, Total, AppendTo;
    match c {
      case Create(id, settings, timerCreated) =>
        if id !in m && |m| < MAX_BLOCKS && timerCreated {
          EmptyBlockWithinBudget(m, id);
          AppendKeepsBudget(toc, m[id := []], id, settings);
        }
      case Append(id, settings) =>
        if id in m {
          AppendKeepsBudget(toc, m, id, settings);
        }
      case Delete(id) =>
        TotalUpdate(m, id, []);
        assert (m - {id}).Keys == m.Keys - {id};
        assert |m - {id}| <= |m|;
      case Reset => EmptyWithinBudget();
      case _ =>
    }
  }

  lemma EmptyWithinBudget()
    ensures WithinBudget(map[])
  {
  }

  ghost function Final(toc: Toc, cs: seq<Command>): (m: Blocks)
    requires forall c :: c in cs ==> Callable(c)
    ensures WithinBudget(m)
  {
    if cs == [] then map[]
    else
      var m := Final(toc, cs[..|cs| - 1]);
      BudgetsKept(toc, m, cs[|cs| - 1]);
      After(toc, m, cs[|cs| - 1]).blocks
  }

  ghost function Codes(toc: Toc, cs: seq<Command>): (codes: seq<Code>)
    requires forall c :: c in cs ==> Callable(c)
    ensures |codes| == |cs|
  {
    if cs == [] then []
    else
      var before := cs[..|cs| - 1];
      Codes(toc, before) + [After(toc, Final(toc, before), cs[|cs| - 1]).code]
  }

  // ---------- The subsystem meets the reference ----------

  method Perform(log: Logger, c: Command) returns (code: Code)
    requires log.Valid() && WithinBudget(log.contents) && Callable(c)
    modifies log, log.logOps, log.logBlocks
    ensures log.Valid() && WithinBudget(log.contents)
    ensures Outcome(log.contents, code) == After(log.toc, old(log.contents), c)
  {
    hide Inv, PacketBytes, Total, Taken, Report, SamplesFor, WithinBudget;
    BudgetsKept(log.toc, log.contents, c);
    match c {
      case Create(id, settings, timerCreated) => code := log.CreateBlock(id, settings, timerCreated);
      case Append(id, settings) => code := log.AppendBlock(id, settings);
      case Delete(id) => code := log.DeleteBlock(id);
      case Start(id) =>
        var i := log.FindBlock(id);
        code := if i >= MAX_BLOCKS then ENoEnt else Ok;
      case Stop(id) =>
        var i := log.FindBlock(id);
        code := if i >= MAX_BLOCKS then ENoEnt else Ok;
      case Reset =>
        log.Reset();
        code := Ok;
    }
  }

  /** Every run from the initial state ends in the blocks of the reference, with
      the answers of the reference, in a memory that satisfies all invariants. */
  method Run(log: Logger, cs: seq<Command>) returns (codes: seq<Code>)
    requires log.Sized() && log.TocUsable()
    requires forall c :: c in cs ==> Callable(c)
    modifies log, log.logOps, log.logBlocks
    ensures log.Valid()
    ensures log.contents == Final(log.toc, cs)
    ensures codes == Codes(log.toc, cs)
  {
    hide Inv, Final, Codes, After, WithinBudget;
    log.Init();
    codes := [];
    RunStart(log.toc);
    EmptyWithinBudget();
    var i := 0;
    while i < |cs|
      invariant 0 <= i <= |cs|
      invariant log.Valid() && WithinBudget(log.contents)
      invariant log.contents == Final(log.toc, cs[..i])
      invariant codes == Codes(log.toc, cs[..i])
    {
      RunStep(log.toc, cs, i);
      var code := Perform(log, cs[i]);
      codes := codes + [code];
      i := i + 1;
    }
    assert cs[..i] == cs;
  }

  lemma RunStart(toc: Toc)
    ensures Final(toc, []) == map[] && Codes(toc, []) == []
  {
  }

  lemma RunStep(toc: Toc, cs: seq<Command>, i: nat)
    requires i < |cs| && forall c :: c in cs ==> Callable(c)
    ensures Callable(cs[i])
    ensures Final(toc, cs[..i + 1]) == After(toc, Final(toc, cs[..i]), cs[i]).blocks
    ensures Codes(toc, cs[..i + 1]) == Codes(toc, cs[..i]) + [After(toc, Final(toc, cs[..i]), cs[i]).code]
  {
    hide After, WithinBudget;
    assert cs[..i + 1][..i] == cs[..i];
    assert cs[..i + 1][i] == cs[i];
  }
}
