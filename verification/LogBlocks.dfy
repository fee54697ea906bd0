/**
  What the log subsystem promises, without its memory layout: blocks with
  unique ids, each a list of variables to sample, under three shared budgets.
 */
module LogBlocks {
  import opened LogToc

  const MAX_LENGTH := 26
  const MAX_OPS := 128
  const MAX_BLOCKS := 16

  /** A variable to sample, and the type it is sent as. */
  datatype Sample = Sample(storageType: nat, logType: nat, variable: nat, byFunction: bool)

  datatype Setting = Setting(logType: nat, id: nat)

  datatype Code = Ok | ENoEnt | EExist | ENoMem | E2Big

  /** The blocks in use, by id. */
  type Blocks = map<int, seq<Sample>>

  /** Bytes that a value of this type takes in a packet. */
  function TypeLength(logType: nat): nat
    requires logType <= 8
  {
    match logType
    case 0 => 0
    case 1 => 1
    case 2 => 2
    case 3 => 4
    case 4 => 1
    case 5 => 2
    case 6 => 4
    case 7 => 4
    case _ => 2
  }

  /** This id asks for a raw memory address instead of a variable of the table. */
  const MEMORY_VARIABLE := 0xffff

  /** The type asked for, in the low four bits, has a length; and the setting
      asks for a variable of the table. */
  predicate Supported(s: Setting) {
    s.logType % 0x10 <= 8 && s.id != MEMORY_VARIABLE
  }

  predicate AllSupported(ss: seq<Setting>) {
    forall i {:trigger ss[i]} :: 0 <= i < |ss| ==> Supported(ss[i])
  }

  predicate Typed(ss: seq<Sample>) {
    forall i :: 0 <= i < |ss| ==> ss[i].logType <= 8
  }

  /** Bytes that the values of a block take in a packet. */
  function PacketBytes(ss: seq<Sample>): nat
    requires Typed(ss)
  {
    if ss == [] then 0 else PacketBytes(ss[..|ss| - 1]) + TypeLength(ss[|ss| - 1].logType)
  }

  lemma PacketBytesStep(ss: seq<Sample>, s: Sample)
    requires Typed(ss) && s.logType <= 8
    ensures Typed(ss + [s]) && PacketBytes(ss + [s]) == PacketBytes(ss) + TypeLength(s.logType)
  {
    assert (ss + [s])[..|ss|] == ss;
  }

  lemma {:induction false} PacketBytesMonotone(ss: seq<Sample>, k: nat)
    requires Typed(ss) && k <= |ss|
    ensures PacketBytes(ss[..k]) <= PacketBytes(ss)
  {
    if k < |ss| {
      PacketBytesMonotone(ss[..|ss| - 1], k);
      assert ss[..|ss| - 1][..k] == ss[..k];
    } else {
      assert ss[..k] == ss;
    }
  }

  /** Variables sampled by all blocks together. */
  ghost function Total(m: Blocks): nat
    decreases |m|
  {
    if m == map[] then 0
    else
      assert exists k :: k in m by {
        assert (forall k :: k !in m) ==> m == map[];
      }
      var k :| k in m;
      |m[k]| + Total(m - {k})
  }

  lemma {:induction false} TotalSplit(m: Blocks, k: int)
    requires k in m
    ensures Total(m) == |m[k]| + Total(m - {k})
    decreases |m|
  {
    var j :| j in m && Total(m) == |m[j]| + Total(m - {j});
    if j != k {
      TotalSplit(m - {j}, k);
      TotalSplit(m - {k}, j);
      assert m - {j} - {k} == m - {k} - {j};
    }
  }

  lemma TotalUpdate(m: Blocks, k: int, ss: seq<Sample>)
    ensures Total(m[k := ss]) == Total(m - {k}) + |ss|
    ensures k !in m ==> Total(m - {k}) == Total(m)
    ensures k in m ==> Total(m - {k}) == Total(m) - |m[k]|
  {
    TotalSplit(m[k := ss], k);
    assert m[k := ss] - {k} == m - {k};
    if k in m {
      TotalSplit(m, k);
    } else {
      assert m - {k} == m;
    }
  }

  /** The budgets: blocks, variables in all, and bytes per block. */
  ghost predicate WithinBudget(m: Blocks) {
    && |m| <= 16
    && Total(m) <= 128
    && forall k :: k in m ==> 0 <= k < 0x100 && Typed(m[k]) && PacketBytes(m[k]) <= 26
  }

  // ---------- Appending ----------

  predicate InToc(toc: Toc, s: Setting) {
    s.id < |Variables(toc)|
  }

  /** The sample that a setting stands for. */
  function SampleFor(toc: Toc, s: Setting): Sample
    requires InToc(toc, s)
  {
    var e := toc[IndexOf(toc, s.id)];
    Sample(e.LogType(), s.logType % 0x10, e.address, e.ByFunction())
  }

  function SamplesFor(toc: Toc, ss: seq<Setting>): (r: seq<Sample>)
    requires forall i :: 0 <= i < |ss| ==> InToc(toc, ss[i])
    ensures |r| == |ss|
  {
    if ss == [] then [] else SamplesFor(toc, ss[..|ss| - 1]) + [SampleFor(toc, ss[|ss| - 1])]
  }

  function Fits(used: nat, s: Setting): bool
    requires Supported(s)
  {
    used + TypeLength(s.logType % 0x10) <= MAX_LENGTH
  }

  /** How many settings are taken, and what is reported. */
  function Taken(toc: Toc, used: nat, free: nat, ss: seq<Setting>): (n: nat)
    requires AllSupported(ss)
    ensures n <= |ss|
    decreases |ss|
  {
    if ss == [] || !Fits(used, ss[0]) || free == 0 || !InToc(toc, ss[0]) then 0
    else 1 + Taken(toc, used + TypeLength(ss[0].logType % 0x10), free - 1, ss[1..])
  }

  function Report(toc: Toc, used: nat, free: nat, ss: seq<Setting>): Code
    requires AllSupported(ss)
    decreases |ss|
  {
    if ss == [] then Ok
    else if !Fits(used, ss[0]) then E2Big
    else if free == 0 then ENoMem
    else if !InToc(toc, ss[0]) then ENoEnt
    else Report(toc, used + TypeLength(ss[0].logType % 0x10), free - 1, ss[1..])
  }

  /** Bytes that the first settings take. */
  function Asked(ss: seq<Setting>): nat
    requires AllSupported(ss)
  {
    if ss == [] then 0 else TypeLength(ss[0].logType % 0x10) + Asked(ss[1..])
  }

  /** All of the first `n` settings can be taken. */
  ghost predicate Takable(toc: Toc, used: nat, free: nat, ss: seq<Setting>, n: nat)
    requires n <= |ss|
    requires AllSupported(ss)
  {
    && (n > 0 ==> used + Asked(ss[..n]) <= 26)
    && n <= free
    && forall i :: 0 <= i < n ==> InToc(toc, ss[i])
  }

  /** What is taken is the longest prefix of the settings that can be. */
  lemma {:induction false} TakenIsLongest(toc: Toc, used: nat, free: nat, ss: seq<Setting>, n: nat)
    requires AllSupported(ss)
    requires n <= |ss|
    ensures Takable(toc, used, free, ss, n) <==> n <= Taken(toc, used, free, ss)
    decreases |ss|
  {
    if n > 0 {
      var t := TypeLength(ss[0].logType % 0x10);
      assert ss[..n][1..] == ss[1..][..n - 1];
      if Fits(used, ss[0]) && free > 0 {
        TakenIsLongest(toc, used + t, free - 1, ss[1..], n - 1);
        if Takable(toc, used, free, ss, n) {
          assert forall i :: 0 <= i < n - 1 ==> ss[1..][i] == ss[i + 1];
        }
        if n <= Taken(toc, used, free, ss) {
          forall i | 0 <= i < n ensures InToc(toc, ss[i]) {
            if i > 0 {
              assert ss[1..][i - 1] == ss[i];
            }
          }
        }
      }
    }
  }

  /** The report names the first budget that the next setting would break. */
  lemma {:induction false} ReportSaysWhy(toc: Toc, used: nat, free: nat, ss: seq<Setting>)
    requires AllSupported(ss)
    ensures var n, r := Taken(toc, used, free, ss), Report(toc, used, free, ss);
      && (r == Ok <==> n == |ss|)
      && (r == E2Big <==> n < |ss| && used + Asked(ss[..n + 1]) > 26)
      && (r == ENoMem <==> n < |ss| && used + Asked(ss[..n + 1]) <= 26 && n == free)
      && (r == ENoEnt <==> n < |ss| && used + Asked(ss[..n + 1]) <= 26 && n < free && !InToc(toc, ss[n]))
    decreases |ss|
  {
    hide InToc, TypeLength, Asked;
    if ss != [] {
      var t := TypeLength(ss[0].logType % 0x10);
      AskedFirst(ss, 0);
      if Fits(used, ss[0]) && free > 0 && InToc(toc, ss[0]) {
        ReportSaysWhy(toc, used + t, free - 1, ss[1..]);
        var n := Taken(toc, used + t, free - 1, ss[1..]);
        if n + 1 < |ss| {
          AskedFirst(ss, n + 1);
          assert ss[1..][n] == ss[n + 1];
        }
      }
    }
  }

  lemma AskedFirst(ss: seq<Setting>, n: nat)
    requires AllSupported(ss) && n < |ss|
    ensures Asked(ss[..n + 1]) == TypeLength(ss[0].logType % 0x10) + Asked(ss[1..][..n])
    ensures Asked(ss[1..][..0]) == 0
  {
    assert ss[..n + 1][1..] == ss[1..][..n];
  }
}
