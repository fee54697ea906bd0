/**
  Whole runs of the key/value store.  Seen from outside, the byte memory with
  its holes and moves is a plain map with a byte budget, across restarts.
 */
module KveRuns {
  import opened Bytes
  import opened KveFormat
  import opened KveContents
  import opened KveStorage
  import opened Kve

  datatype Op =
    | Put(key: Key, value: Value)
    | Delete(key: Key)
    | Get(key: Key, length: nat)
    | Defrag
    | Check
    | Restart

  datatype Answer = Flag(ok: bool) | Data(bytes: seq<byte>)

  /** The bounded map: the reference that the store is compared with. */
  ghost function After(m: Contents, op: Op, memorySize: nat): Contents {
    match op
    case Put(k, v) => Updated(m, k, v, memorySize)
    case Delete(k) => m - {k}
    case _ => m
  }

  ghost function AnswerTo(m: Contents, op: Op, memorySize: nat): Answer {
    match op
    case Put(k, v) => Flag(Fits(m, k, v, memorySize) || Wraps(m, k, v))
    case Delete(k) => Flag(k in m)
    case Get(k, n) => Data(if k in m then m[k][..Min(|m[k]|, n)] else [])
    case _ => Flag(true)
  }

  ghost function FinalMap(ops: seq<Op>, memorySize: nat): Contents {
    if ops == [] then map[]
    else After(FinalMap(ops[..|ops| - 1], memorySize), ops[|ops| - 1], memorySize)
  }

  ghost function Answers(ops: seq<Op>, memorySize: nat): (answers: seq<Answer>)
    ensures |answers| == |ops|
  {
    if ops == [] then []
    else
      var before := ops[..|ops| - 1];
      Answers(before, memorySize) + [AnswerTo(FinalMap(before, memorySize), ops[|ops| - 1], memorySize)]
  }

  // ---------- The same for a medium that may lack the last byte ----------

  /** What an operation does to the store, the bytes in use included. */
  ghost function Step(t: Table, op: Op, accessible: nat, memorySize: nat): Table {
    match op
    case Put(k, v) => AfterPut(t, k, v, accessible, memorySize)
    case Delete(k) => t.(contents := t.contents - {k})
    case Defrag => Table(t.contents, Used(t.contents), false)
    case Restart => if t.full then Table(map[], 0, false) else t
    case _ => t
  }

  ghost function Reply(t: Table, op: Op, memorySize: nat): Answer {
    match op
    case Put(k, v) => Flag(PutSucceeds(t, k, v, memorySize))
    case Delete(k) => Flag(k in t.contents)
    case Get(k, n) => Data(if k in t.contents then t.contents[k][..Min(|t.contents[k]|, n)] else [])
    case Check => Flag(!t.full)
    case _ => Flag(true)
  }

  ghost function FinalTable(ops: seq<Op>, accessible: nat, memorySize: nat): Table {
    if ops == [] then Table(map[], 0, false)
    else Step(FinalTable(ops[..|ops| - 1], accessible, memorySize), ops[|ops| - 1], accessible, memorySize)
  }

  ghost function Replies(ops: seq<Op>, accessible: nat, memorySize: nat): (answers: seq<Answer>)
    ensures |answers| == |ops|
  {
    if ops == [] then []
    else
      var before := ops[..|ops| - 1];
      Replies(before, accessible, memorySize)
        + [Reply(FinalTable(before, accessible, memorySize), ops[|ops| - 1], memorySize)]
  }

  ghost predicate FullAfter(ops: seq<Op>, i: nat, accessible: nat, memorySize: nat)
    requires i <= |ops|
  {
    FinalTable(ops[..i], accessible, memorySize).full
  }

  ghost predicate NeverFull(ops: seq<Op>, accessible: nat, memorySize: nat) {
    forall i :: 0 <= i <= |ops| ==> !FullAfter(ops, i, accessible, memorySize)
  }

  /** A store that is full to the last byte is not compacted from outside. */
  ghost predicate Admissible(ops: seq<Op>, accessible: nat, memorySize: nat) {
    forall i :: 0 <= i < |ops| && ops[i].Defrag? ==> !FullAfter(ops, i, accessible, memorySize)
  }

  /** On a medium with all its bytes, no store is ever full to the last byte. */
  lemma {:induction false} WholeIsNeverFull(ops: seq<Op>, size: nat)
    ensures NeverFull(ops, size, size)
  {
    forall i | 0 <= i <= |ops| ensures !FullAfter(ops, i, size, size) {
      NotFull(ops[..i], size);
    }
  }

  lemma {:induction false} NotFull(ops: seq<Op>, size: nat)
    ensures !FinalTable(ops, size, size).full
  {
    if ops != [] {
      NotFull(ops[..|ops| - 1], size);
    }
  }

  /** Every run from a freshly formatted memory answers as the reference does,
      and the memory stays readable throughout.  As long as the store is not full
      to the last byte, the reference is the bounded map. */
  method Run(store: Store, ops: seq<Op>) returns (answers: seq<Answer>)
    requires store.memory.Sized()
    requires Admissible(ops, store.memory.mem.Length, store.memory.memorySize)
    modifies store, store.memory.mem
    ensures store.Sound()
    ensures store.Seen() == FinalTable(ops, store.memory.mem.Length, store.memory.memorySize)
    ensures answers == Replies(ops, store.memory.mem.Length, store.memory.memorySize)
    ensures NeverFull(ops, store.memory.mem.Length, store.memory.memorySize) ==>
      && store.Contents() == FinalMap(ops, store.memory.memorySize)
      && answers == Answers(ops, store.memory.memorySize)
  {
    hide FinalMap, Answers, After, AnswerTo, FinalTable, Replies, Step, Reply, NeverFull, Admissible;
    ghost var accessible, size := store.memory.mem.Length, store.memory.memorySize;
    store.Format();
    answers := [];
    RunStart(accessible, size);
    FreshTable(store);
    var i := 0;
    while i < |ops|
      invariant 0 <= i <= |ops|
      invariant store.Sound()
      invariant store.Seen() == FinalTable(ops[..i], accessible, size)
      invariant answers == Replies(ops[..i], accessible, size)
      invariant NeverFull(ops, accessible, size) ==>
        store.Contents() == FinalMap(ops[..i], size) && answers == Answers(ops[..i], size)
    {
      RunStep(ops, i, accessible, size);
      var answer := Perform(store, ops[i]);
      answers := answers + [answer];
      i := i + 1;
    }
    assert ops[..i] == ops;
  }

  lemma FreshTable(store: Store)
    requires store.Valid() && store.records == []
    ensures store.Seen() == Table(map[], 0, false)
  {
    hide Written;
  }

  method Perform(store: Store, op: Op) returns (answer: Answer)
    requires store.Sound() && (op.Defrag? ==> !store.Brimful())
    modifies store, store.memory.mem
    ensures store.Sound()
    ensures store.Seen() == Step(old(store.Seen()), op, store.memory.mem.Length, store.memory.memorySize)
    ensures answer == Reply(old(store.Seen()), op, store.memory.memorySize)
    ensures !old(store.Brimful()) ==>
      && store.Contents() == After(old(store.Contents()), op, store.memory.memorySize)
      && answer == AnswerTo(old(store.Contents()), op, store.memory.memorySize)
  {
    hide IsTable, Written, GoodRecords, ContentsOf, Fits, Wraps, InPlace, Updated, AfterPut, Extent, Used;
    match op {
      case Put(k, v) =>
        var ok := store.Put(k, v);
        answer := Flag(ok);
      case Delete(k) =>
        var found := store.Delete(k);
        answer := Flag(found);
      case Get(k, n) =>
        var buffer := store.Fetch(k, n);
        answer := Data(buffer);
      case Defrag =>
        AppendBounds(store);
        store.Defrag();
        AppendBounds(store);
        answer := Flag(true);
      case Check =>
        Readable(store);
        var ok := store.Check();
        answer := Flag(ok);
      case Restart =>
        Readable(store);
        AppendBounds(store);
        ghost var full := store.Brimful();
        var pass := store.Mount();
        if full {
          FreshTable(store);
        }
        answer := Flag(pass);
    }
  }

  /** The table can be read, but for the byte that a full one lacks. */
  lemma Readable(store: Store)
    requires store.Sound()
    ensures !store.Brimful() ==> IsTable(store.memory.mem[..], store.records)
    ensures store.Brimful() ==> forall qs :: !IsTable(store.memory.mem[..], qs)
  {
    hide Written, IsTable, GoodRecords;
    if store.Brimful() {
      forall qs ensures !IsTable(store.memory.mem[..], qs) {
        BrimfulIsUnreadable(store.memory.mem[..], store.records, qs);
      }
    }
  }

  lemma RunStart(accessible: nat, size: nat)
    ensures FinalMap([], size) == map[] && Answers([], size) == []
    ensures FinalTable([], accessible, size) == Table(map[], 0, false) && Replies([], accessible, size) == []
  {
  }

  lemma RunStep(ops: seq<Op>, i: nat, accessible: nat, size: nat)
    requires i < |ops|
    ensures var t := FinalTable(ops[..i], accessible, size);
      && FinalTable(ops[..i + 1], accessible, size) == Step(t, ops[i], accessible, size)
      && Replies(ops[..i + 1], accessible, size) == Replies(ops[..i], accessible, size) + [Reply(t, ops[i], size)]
      && (NeverFull(ops, accessible, size) ==> !t.full)
      && (Admissible(ops, accessible, size) && ops[i].Defrag? ==> !t.full)
    ensures FinalMap(ops[..i + 1], size) == After(FinalMap(ops[..i], size), ops[i], size)
    ensures Answers(ops[..i + 1], size) == Answers(ops[..i], size) + [AnswerTo(FinalMap(ops[..i], size), ops[i], size)]
  {
    hide Step, Reply, After, AnswerTo;
    assert ops[..i + 1][..i] == ops[..i];
    assert NeverFull(ops, accessible, size) ==> !FullAfter(ops, i, accessible, size);
    assert Admissible(ops, accessible, size) && ops[i].Defrag? ==> !FullAfter(ops, i, accessible, size);
  }

  /** Once a store is full to the last byte it stays so, whatever is deleted, and
      the next restart erases everything. */
  lemma {:induction false} FullUntilRestart(ops: seq<Op>, more: seq<Op>, accessible: nat, size: nat)
    requires FinalTable(ops, accessible, size).full
    requires forall op :: op in more ==> !op.Restart? && !op.Defrag?
    ensures FinalTable(ops + more, accessible, size).full
    ensures FinalTable(ops + more + [Restart], accessible, size) == Table(map[], 0, false)
    decreases |more|
  {
    hide InPlace, Updated, AppendExtent, Brims;
    if more == [] {
      assert ops + more == ops;
    } else {
      var n := |more| - 1;
      FullUntilRestart(ops, more[..n], accessible, size);
      assert (ops + more)[..|ops| + n] == ops + more[..n];
      assert more[n] in more;
    }
    assert (ops + more + [Restart])[..|ops + more|] == ops + more;
  }

  /** When the medium lacks the last byte of the table, a store that succeeds
      outlives a restart, unless its item comes to end just before that byte:
      then the restart finds no table, and erases everything. */
  method PutThenRestart(store: Store, key: Key, value: Value) returns (ok: bool, pass: bool)
    requires store.Valid()
    modifies store, store.memory.mem
    ensures store.Valid() && pass
    ensures var t := old(store.Seen());
      && (ok <==> Fits(t.contents, key, value, store.memory.memorySize) || Wraps(t.contents, key, value))
      && store.Contents() ==
           if Brims(t, key, value, store.memory.mem.Length, store.memory.memorySize) then map[]
           else Updated(t.contents, key, value, store.memory.memorySize)
  {
    hide IsTable, Written, GoodRecords, ContentsOf, Fits, Wraps, Updated, Extent, Used;
    AppendBounds(store);
    ok := store.Put(key, value);
    Readable(store);
    AppendBounds(store);
    pass := store.Mount();
  }

  // ---------- What a client can rely on, from the history alone ----------

  datatype Latest = Nothing | Holding(value: Value)

  /** What a store that succeeds keeps of a value. */
  function Kept(key: seq<byte>, value: Value): Value {
    if Cost(key, value) <= 0xffff then value else Cut(value)
  }

  /** The value that the last operation on `key` left behind, read off the
      operations and the answers they got. */
  function LatestWrite(ops: seq<Op>, answers: seq<Answer>, key: seq<byte>): Latest
    requires |ops| == |answers|
  {
    if ops == [] then Nothing
    else
      var n := |ops| - 1;
      match ops[n]
      case Put(k, v) => if k != key then LatestWrite(ops[..n], answers[..n], key)
                        else if answers[n] == Flag(true) then Holding(Kept(k, v)) else Nothing
      case Delete(k) => if k != key then LatestWrite(ops[..n], answers[..n], key) else Nothing
      case _ => LatestWrite(ops[..n], answers[..n], key)
  }

  /** In every run, a key holds exactly what the last operation on it left. */
  lemma {:induction false} ReadsLatestWrite(ops: seq<Op>, size: nat, key: seq<byte>)
    requires size <= MAX_MEMORY_SIZE
    ensures LatestWrite(ops, Answers(ops, size), key)
         == var m := FinalMap(ops, size); if key in m then Holding(m[key]) else Nothing
  {
    hide Fits;
    if ops != [] {
      var n := |ops| - 1;
      FittingIsShort(FinalMap(ops[..n], size), ops[n], size);
      ReadsLatestWrite(ops[..n], size, key);
      assert Answers(ops, size)[..n] == Answers(ops[..n], size);
    }
  }

  lemma FittingIsShort(m: Contents, op: Op, size: nat)
    requires size <= MAX_MEMORY_SIZE
    ensures op.Put? && Fits(m, op.key, op.value, size) ==> Cost(op.key, op.value) <= 0xffff
  {
  }

  /** No run stores more than the memory holds: with at least four bytes, the
      version byte, all entries and the end tag always fit. */
  lemma {:induction false} NeverOverfull(ops: seq<Op>, size: nat)
    requires 4 <= size
    ensures FIRST_ITEM_ADDRESS + Used(FinalMap(ops, size)) + END_TAG_LENGTH < size
  {
    if ops != [] {
      var n := |ops| - 1;
      NeverOverfull(ops[..n], size);
      var m := FinalMap(ops[..n], size);
      match ops[n] {
        case Put(k, v) =>
          UsedInsert(m, k, v);
          UsedRemove(m, k);
          if Wraps(m, k, v) {
            CutIsOldLength(m, k, v);
            UsedInsert(m, k, Cut(v));
            UsedSplit(m, k);
          }
        case Delete(k) =>
          UsedRemove(m, k);
        case _ =>
      }
    }
  }

  lemma UsedRemove(m: Contents, k: seq<byte>)
    ensures Used(m - {k}) <= Used(m)
  {
    if k in m {
      UsedSplit(m, k);
    } else {
      assert m - {k} == m;
    }
  }
}
