/**
  The I2C transfer loop: neighbouring messages of one direction are merged into
  one transfer through a shared buffer, and what is read is handed back to the
  messages' own buffers.
 */
module I2cTransfer {
  import opened Bytes

  datatype Message = Message(buf: array<byte>, read: bool, stop: bool, restart: bool, tenBits: bool, inRam: bool)

  datatype Code = Success | NotSupported | NoSpace | Invalid | Busy | IoError

  datatype Answer = Acknowledged | Refused | Failed

  /** What the bus is asked to do; `data` is empty for a read. */
  datatype Xfer = Xfer(read: bool, length: nat, data: seq<byte>, noStop: bool)

  /** Message `i` goes into one transfer with the next one. */
  predicate Merges(msgs: seq<Message>, i: nat)
    requires i < |msgs|
  {
    && i + 1 < |msgs|
    && !msgs[i].stop
    && !msgs[i + 1].restart
    && msgs[i].read == msgs[i + 1].read
  }

  function Joined(parts: seq<seq<byte>>): seq<byte> {
    if parts == [] then [] else Joined(parts[..|parts| - 1]) + parts[|parts| - 1]
  }

  lemma JoinedStep(parts: seq<seq<byte>>, s: nat, e: nat)
    requires s <= e < |parts|
    ensures Joined(parts[s..e + 1]) == Joined(parts[s..e]) + parts[e]
  {
    assert parts[s..e + 1][..e - s] == parts[s..e];
  }

  /** Messages `s` to `e` form a maximal run of merged messages. */
  ghost predicate IsRun(msgs: seq<Message>, s: nat, e: nat) {
    && s <= e < |msgs|
    && (s == 0 || !Merges(msgs, s - 1))
    && !Merges(msgs, e)
    && forall k :: s <= k < e ==> Merges(msgs, k)
  }

  /** The start of the run that message `i` belongs to. */
  function RunStart(msgs: seq<Message>, i: nat): (s: nat)
    requires i < |msgs|
    ensures s <= i
    ensures s == 0 || !Merges(msgs, s - 1)
    ensures forall k :: s <= k < i ==> Merges(msgs, k)
  {
    if i == 0 || !Merges(msgs, i - 1) then i else RunStart(msgs, i - 1)
  }

  function XferFor(msgs: seq<Message>, content: seq<seq<byte>>, s: nat, e: nat): Xfer
    requires s <= e < |msgs| == |content|
  {
    var data := Joined(content[s..e + 1]);
    Xfer(msgs[e].read, |data|, if msgs[e].read then [] else data, !msgs[e].stop)
  }

  /** One transfer for every run among the first `n` messages, in order. */
  function Transfers(msgs: seq<Message>, content: seq<seq<byte>>, n: nat): seq<Xfer>
    requires n <= |msgs| == |content|
  {
    if n == 0 then []
    else if Merges(msgs, n - 1) then Transfers(msgs, content, n - 1)
    else Transfers(msgs, content, n - 1) + [XferFor(msgs, content, RunStart(msgs, n - 1), n - 1)]
  }

  /** What the bus returns for transfer number `index` of `length` bytes. */
  type Receiver = (nat, nat) -> seq<byte>

  ghost predicate FullLength(received: Receiver) {
    forall index: nat, length: nat :: |received(index, length)| == length
  }

  /** The bytes read for run `s..e` lie in the run's buffers, one behind the other. */
  ghost predicate Delivered(msgs: seq<Message>, before: seq<seq<byte>>, after: seq<seq<byte>>, received: Receiver,
                            s: nat, e: nat)
    requires s <= e < |msgs| == |before| == |after|
  {
    var data := received(|Transfers(msgs, before, s)|, |Joined(before[s..e + 1])|);
    forall m :: s <= m <= e ==> |after[m]| == |before[m]| && Holds(data, |Joined(before[s..m])|, after[m])
  }

  /** The buffers after the runs among the first `n` messages: reads are
      delivered, all other buffers are as before. */
  ghost predicate Scattered(msgs: seq<Message>, before: seq<seq<byte>>, after: seq<seq<byte>>, received: Receiver,
                            n: nat)
  {
    && |msgs| == |before| == |after| && n <= |msgs|
    && (forall m :: 0 <= m < |msgs| && (m >= n || !msgs[m].read) ==> after[m] == before[m])
    && (forall s: nat, e: nat :: IsRun(msgs, s, e) && e < n && msgs[e].read ==>
      Delivered(msgs, before, after, received, s, e))
  }

  /** A buffer that is read into is no other message's buffer. */
  ghost predicate Separate(msgs: seq<Message>, msgBuf: array<byte>) {
    && (forall a, b :: 0 <= a < |msgs| && 0 <= b < |msgs| && a != b && msgs[a].read ==> msgs[a].buf != msgs[b].buf)
    && (forall a :: 0 <= a < |msgs| ==> msgs[a].buf != msgBuf)
  }

  ghost predicate ContentOf(msgs: seq<Message>, content: seq<seq<byte>>)
    reads set m | m in msgs :: m.buf
  {
    && |content| == |msgs|
    && forall m :: 0 <= m < |msgs| ==> msgs[m].buf[..] == content[m]
  }

  method CopyInto(target: array<byte>, at: nat, data: seq<byte>)
    requires at + |data| <= target.Length
    modifies target
    ensures target[..] == Splice(old(target[..]), at, data)
  {
    hide Splice;
    ghost var was := target[..];
    SpliceNothing(was, at);
    assert data[..0] == [];
    var i := 0;
    while i < |data|
      invariant 0 <= i <= |data|
      invariant target[..] == Splice(was, at, data[..i])
    {
      SpliceOneMore(was, at, data, i);
      target[at + i] := data[i];
      i := i + 1;
    }
    assert data[..i] == data;
  }

  /** Replaces the content of one buffer that is read into. */
  method Fill(msgs: seq<Message>, msgBuf: array<byte>, j: nat, data: seq<byte>, ghost now: seq<seq<byte>>)
    requires Separate(msgs, msgBuf) && ContentOf(msgs, now)
    requires j < |msgs| && (msgs[j].read || |data| == 0) && |data| == msgs[j].buf.Length
    modifies msgs[j].buf
    ensures ContentOf(msgs, now[j := data])
  {
    ghost var was := msgs[j].buf[..];
    CopyInto(msgs[j].buf, 0, data);
    assert Splice(was, 0, data) == data;
    forall m | 0 <= m < |msgs| ensures msgs[m].buf[..] == now[j := data][m] {
    }
  }

  /** Of the run `s..i`, the messages behind `j` have their bytes; nothing else changed. */
  ghost predicate HandedBack(before: seq<seq<byte>>, now: seq<seq<byte>>, next: seq<seq<byte>>,
                             data: seq<byte>, s: nat, i: nat, j: int)
    requires s <= i < |before|
  {
    && |before| == |now| == |next|
    && (forall m :: 0 <= m < |before| ==> |next[m]| == |before[m]|)
    && (forall m :: 0 <= m < |before| && !(s <= m <= i && m > j) ==> next[m] == now[m])
    && (forall m :: s <= m <= i && m > j ==> Holds(data, |Joined(before[s..m])|, next[m]))
  }

  lemma HandedBackStep(before: seq<seq<byte>>, now: seq<seq<byte>>, next: seq<seq<byte>>,
                       data: seq<byte>, s: nat, i: nat, j: nat, piece: seq<byte>)
    requires s <= i < |before| && j <= i && HandedBack(before, now, next, data, s, i, j)
    requires |piece| == |before[j]|
    requires j >= s ==> Holds(data, |Joined(before[s..j])|, piece)
    requires j < s ==> |piece| == 0
    ensures HandedBack(before, now, next[j := piece], data, s, i, j - 1)
  {
    hide Holds, Joined;
    var after := next[j := piece];
    if j < s {
      assert |next[j]| == 0;
      assert next[j] == piece;
      assert after == next;
    }
    forall m | s <= m <= i && m > j - 1 ensures Holds(data, |Joined(before[s..m])|, after[m]) {
      if m > j {
        assert after[m] == next[m];
      }
    }
  }

  /** Hands the bytes in the shared buffer back to the messages of a run, from
      the last one to the first.  When all bytes are handed back it goes on over
      empty messages; `outside` tells that it arrives in front of the first
      message, where the source reads the length of a message that is not there. */
  method Scatter(msgs: seq<Message>, msgBuf: array<byte>, i: nat, used: nat,
                 ghost before: seq<seq<byte>>, ghost now: seq<seq<byte>>, ghost s: nat)
    returns (ghost next: seq<seq<byte>>, ghost outside: bool)
    requires Separate(msgs, msgBuf) && ContentOf(msgs, now) && |before| == |msgs|
    requires s <= i < |msgs| && used <= msgBuf.Length
    requires used == |Joined(before[s..i + 1])|
    requires forall m :: s <= m <= i ==> msgs[m].read
    requires forall m :: 0 <= m < |msgs| ==> |now[m]| == |before[m]|
    modifies set m | m in msgs :: m.buf
    ensures ContentOf(msgs, next)
    ensures msgBuf[..] == old(msgBuf[..])
    ensures HandedBack(before, now, next, old(msgBuf[..used]), s, i, -1)
    ensures outside <==> AllEmpty(before, s)
  {
    hide Joined, HandedBack, Holds;
    next := now;
    var msgBufUsed, j := used, i;
    ghost var bytes := msgBuf[..];
    ghost var data := bytes[..used];
    NothingHandedBack(before, now, data, s, i);
    while j >= 0 && msgBufUsed >= msgs[j].buf.Length
      invariant -1 <= j <= i
      invariant msgBuf[..] == bytes && msgBufUsed <= used
      invariant msgBufUsed == if j >= s then |Joined(before[s..j + 1])| else 0
      invariant ContentOf(msgs, next) && HandedBack(before, now, next, data, s, i, j)
      invariant forall m :: j < m < s && 0 <= m ==> |before[m]| == 0
      decreases j
    {
      if j >= s {
        JoinedStep(before, s, j);
        JoinedNone(before, s);
      }
      SameLengths(before, now, next, data, s, i, j);
      msgBufUsed := msgBufUsed - msgs[j].buf.Length;
      var piece := msgBuf[msgBufUsed..msgBufUsed + msgs[j].buf.Length];
      assert piece == msgBuf[..][msgBufUsed..msgBufUsed + |piece|];
      PieceOfData(msgBuf[..], used, msgBufUsed, |piece|);
      HandedBackStep(before, now, next, data, s, i, j, piece);
      Fill(msgs, msgBuf, j, piece, next);
      next := next[j := piece];
      j := j - 1;
    }
    if j >= 0 {
      SameLengths(before, now, next, data, s, i, j);
      if j >= s {
        JoinedStep(before, s, j);
      }
      AllHandedBack(before, now, next, data, s, i, j);
    }
    outside := j < 0;
  }

  /** The first `n` messages have no bytes. */
  ghost predicate AllEmpty(before: seq<seq<byte>>, n: nat)
    requires n <= |before|
  {
    forall m :: 0 <= m < n ==> |before[m]| == 0
  }

  /** The run `s..e` is handed back through the shared buffer, and nothing stops
      the source's loop in front of it: what a caller can tell from the messages. */
  ghost predicate ReachesOutside(msgs: seq<Message>, before: seq<seq<byte>>, s: nat, e: nat)
    requires |msgs| == |before|
  {
    && IsRun(msgs, s, e) && msgs[e].read
    && |Joined(before[s..e])| > 0 && AllEmpty(before, s)
  }

  ghost predicate OutsideUpTo(msgs: seq<Message>, before: seq<seq<byte>>, n: nat)
    requires |msgs| == |before|
  {
    exists s: nat, e: nat :: e < n && ReachesOutside(msgs, before, s, e)
  }

  lemma OutsideStep(msgs: seq<Message>, before: seq<seq<byte>>, s: nat, i: nat)
    requires |msgs| == |before| && IsRun(msgs, s, i)
    ensures OutsideUpTo(msgs, before, i + 1) <==> OutsideUpTo(msgs, before, s) || ReachesOutside(msgs, before, s, i)
  {
    hide Joined, AllEmpty;
    if a: nat, e: nat :| e < i + 1 && ReachesOutside(msgs, before, a, e) {
      if e >= s {
        SameRun(msgs, s, i, a, e);
      }
    }
  }

  /** Already the plainest merged read does it: two messages, the first not empty. */
  lemma TwoMessagesReachOutside(msgs: seq<Message>, before: seq<seq<byte>>)
    requires |msgs| == |before| == 2
    requires msgs[0].read && msgs[1].read && !msgs[0].stop && !msgs[1].restart
    requires |before[0]| > 0
    ensures OutsideUpTo(msgs, before, 2)
  {
    assert Merges(msgs, 0) && !Merges(msgs, 1);
    JoinedStep(before, 0, 0);
    assert ReachesOutside(msgs, before, 0, 1);
  }

  lemma PieceOfData(bytes: seq<byte>, used: nat, at: nat, n: nat)
    requires at + n <= used <= |bytes|
    ensures Holds(bytes[..used], at, bytes[at..at + n])
  {
  }

  lemma NothingHandedBack(before: seq<seq<byte>>, now: seq<seq<byte>>, data: seq<byte>, s: nat, i: nat)
    requires s <= i < |before| == |now| && forall m :: 0 <= m < |before| ==> |now[m]| == |before[m]|
    ensures HandedBack(before, now, now, data, s, i, i)
  {
  }

  lemma AllHandedBack(before: seq<seq<byte>>, now: seq<seq<byte>>, next: seq<seq<byte>>, data: seq<byte>, s: nat,
                      i: nat, j: int)
    requires s <= i < |before| && j < s && HandedBack(before, now, next, data, s, i, j)
    ensures HandedBack(before, now, next, data, s, i, -1)
  {
    hide Holds, Joined;
  }

  lemma SameLengths(before: seq<seq<byte>>, now: seq<seq<byte>>, next: seq<seq<byte>>, data: seq<byte>, s: nat,
                    i: nat, j: int)
    requires s <= i < |before| && HandedBack(before, now, next, data, s, i, j)
    ensures |before| == |now| == |next|
    ensures forall m :: 0 <= m < |before| ==> |next[m]| == |before[m]|
  {
  }

  lemma JoinedNone(parts: seq<seq<byte>>, s: nat)
    requires s <= |parts|
    ensures Joined(parts[s..s]) == []
  {
  }

  // ---------- Runs ----------

  lemma {:induction false} RunStartIs(msgs: seq<Message>, s: nat, i: nat)
    requires s <= i < |msgs| && (s == 0 || !Merges(msgs, s - 1))
    requires forall k :: s <= k < i ==> Merges(msgs, k)
    ensures RunStart(msgs, i) == s
    decreases i
  {
    if i > s {
      RunStartIs(msgs, s, i - 1);
    }
  }

  lemma {:induction false} NoTransferInside(msgs: seq<Message>, before: seq<seq<byte>>, s: nat, i: nat)
    requires s <= i <= |msgs| == |before| && forall k :: s <= k < i ==> Merges(msgs, k)
    ensures Transfers(msgs, before, i) == Transfers(msgs, before, s)
    decreases i
  {
    if i > s {
      NoTransferInside(msgs, before, s, i - 1);
    }
  }

  lemma {:induction false} OneDirection(msgs: seq<Message>, s: nat, i: nat)
    requires s <= i < |msgs| && forall k :: s <= k < i ==> Merges(msgs, k)
    ensures forall m :: s <= m <= i ==> msgs[m].read == msgs[i].read
    decreases i
  {
    if i > s {
      OneDirection(msgs, s, i - 1);
      assert Merges(msgs, i - 1);
    }
  }

  lemma {:induction false} TransfersGrow(msgs: seq<Message>, before: seq<seq<byte>>, i: nat, n: nat)
    requires i <= n <= |msgs| == |before|
    ensures Transfers(msgs, before, i) <= Transfers(msgs, before, n)
    decreases n
  {
    hide RunStart, XferFor, Merges;
    if i < n {
      TransfersGrow(msgs, before, i, n - 1);
    }
  }

  /** The end of a run adds its one transfer. */
  lemma RunEnds(msgs: seq<Message>, before: seq<seq<byte>>, s: nat, i: nat)
    requires |msgs| == |before| && IsRun(msgs, s, i)
    ensures Transfers(msgs, before, i + 1) == Transfers(msgs, before, s) + [XferFor(msgs, before, s, i)]
  {
    RunStartIs(msgs, s, i);
    NoTransferInside(msgs, before, s, i);
  }

  /** The buffers of a finished run, on top of those of the runs before it. */
  lemma RunScattered(msgs: seq<Message>, before: seq<seq<byte>>, now: seq<seq<byte>>, next: seq<seq<byte>>,
                     received: Receiver, s: nat, i: nat, data: seq<byte>)
    requires Scattered(msgs, before, now, received, s) && IsRun(msgs, s, i)
    requires msgs[i].read ==> data == received(|Transfers(msgs, before, s)|, |Joined(before[s..i + 1])|)
    requires if msgs[i].read then HandedBack(before, now, next, data, s, i, -1) else next == now
    ensures Scattered(msgs, before, next, received, i + 1)
  {
    hide Transfers, Joined, Holds;
    OneDirection(msgs, s, i);
    forall a: nat, e: nat | IsRun(msgs, a, e) && e < i + 1 && msgs[e].read
      ensures Delivered(msgs, before, next, received, a, e)
    {
      if e >= s {
        SameRun(msgs, s, i, a, e);
      } else {
        assert Delivered(msgs, before, now, received, a, e);
        assert forall m :: a <= m <= e ==> next[m] == now[m];
      }
    }
  }

  lemma SameRun(msgs: seq<Message>, s: nat, i: nat, a: nat, e: nat)
    requires IsRun(msgs, s, i) && IsRun(msgs, a, e) && s <= e <= i
    ensures a == s && e == i
  {
    RunStartIs(msgs, s, i);
    RunStartIs(msgs, a, i);
  }

  lemma NothingScattered(msgs: seq<Message>, before: seq<seq<byte>>, received: Receiver)
    requires |before| == |msgs|
    ensures Scattered(msgs, before, before, received, 0)
  {
  }

  // ---------- What merging means, in the flags of the messages ----------

  /** The last message of the run that message `i` belongs to. */
  function RunEnd(msgs: seq<Message>, i: nat): (e: nat)
    requires i < |msgs|
    ensures i <= e < |msgs| && !Merges(msgs, e)
    ensures forall k :: i <= k < e ==> Merges(msgs, k)
    decreases |msgs| - i
  {
    if Merges(msgs, i) then RunEnd(msgs, i + 1) else i
  }

  ghost predicate InOneRun(msgs: seq<Message>, i: nat) {
    exists s: nat, e: nat :: IsRun(msgs, s, e) && s <= i < e
  }

  /** Neighbours are in one run, and so in one transfer, exactly if the first does
      not end the bus transaction, the second does not start a new one, and both
      go in one direction. */
  lemma NeighboursInOneRunIff(msgs: seq<Message>, i: nat)
    requires i + 1 < |msgs|
    ensures InOneRun(msgs, i) <==>
      !msgs[i].stop && !msgs[i + 1].restart && (msgs[i].read <==> msgs[i + 1].read)
  {
    if Merges(msgs, i) {
      assert IsRun(msgs, RunStart(msgs, i), RunEnd(msgs, i));
    }
  }

  /** A register and the data for it, as two write messages, go out in one transfer. */
  lemma BurstWrite(msgs: seq<Message>, content: seq<seq<byte>>)
    requires |msgs| == |content| == 2
    requires !msgs[0].read && !msgs[0].stop && !msgs[1].read && !msgs[1].restart
    ensures var data := content[0] + content[1];
      Transfers(msgs, content, 2) == [Xfer(false, |data|, data, !msgs[1].stop)]
  {
    assert Merges(msgs, 0) && !Merges(msgs, 1);
    TwoParts(content);
    assert Transfers(msgs, content, 0) == [] && Transfers(msgs, content, 1) == [];
  }

  lemma TwoParts(content: seq<seq<byte>>)
    requires |content| == 2
    ensures Joined(content[0..2]) == content[0] + content[1]
  {
    JoinedNone(content, 0);
    JoinedStep(content, 0, 0);
    JoinedStep(content, 0, 1);
  }

  /** A register written and then read, with a repeated start: two transfers, and the
      bus is kept in between. */
  lemma WriteThenRead(msgs: seq<Message>, content: seq<seq<byte>>)
    requires |msgs| == |content| == 2
    requires !msgs[0].read && !msgs[0].stop && msgs[1].read && msgs[1].stop
    ensures Transfers(msgs, content, 2) ==
      [Xfer(false, |content[0]|, content[0], true), Xfer(true, |content[1]|, [], false)]
  {
    assert !Merges(msgs, 0) && !Merges(msgs, 1);
    JoinedNone(content, 0);
    JoinedNone(content, 1);
    JoinedStep(content, 0, 0);
    JoinedStep(content, 1, 1);
    assert Transfers(msgs, content, 0) == [];
    assert Transfers(msgs, content, 1) == [XferFor(msgs, content, 0, 0)];
  }

  // ---------- The transfer loop ----------

  /** The messages `s..i` belong to one run, and together are longer than `size`. */
  ghost predicate Overfull(msgs: seq<Message>, before: seq<seq<byte>>, s: nat, i: nat, size: nat) {
    && s <= i < |msgs| == |before|
    && (forall k :: s <= k < i ==> Merges(msgs, k))
    && |Joined(before[s..i + 1])| > size
  }

  /** A message that cannot be sent from where it is, and is too long to be copied. */
  predicate TooLongInFlash(m: Message, size: nat) {
    !m.read && !m.inRam && m.buf.Length > size
  }

  /** The peripheral can take the bytes from where they are: not from flash. */
  predicate SentInPlace(m: Message) {
    m.read || m.inRam || m.buf.Length == 0
  }

  /** Decides whether message `i` goes through the shared buffer, and copies it
      there if so.  The result is 0 if it need not. */
  method Load(msgs: seq<Message>, msgBuf: array<byte>, i: nat, msgBufUsed: nat, concatNext: bool,
              concatBufSize: nat, flashBufMaxSize: nat, ghost before: seq<seq<byte>>, ghost s: nat)
    returns (code: Code, used: nat)
    requires Separate(msgs, msgBuf) && |before| == |msgs| && s <= i < |msgs| && msgs[i].buf[..] == before[i]
    requires forall k :: s <= k < i ==> Merges(msgs, k)
    requires concatBufSize <= msgBuf.Length && flashBufMaxSize <= msgBuf.Length
    requires msgBufUsed == |Joined(before[s..i])|
    requires !msgs[i].read && msgBufUsed > 0 ==>
      msgBufUsed <= msgBuf.Length && msgBuf[..msgBufUsed] == Joined(before[s..i])
    modifies msgBuf
    ensures code == Success || code == NoSpace || code == Invalid
    ensures code == Success && msgs[i].read && !concatNext ==> (used == 0 <==> msgBufUsed == 0)
    ensures code == Success && used == 0 && !concatNext ==> SentInPlace(msgs[i])
    ensures code == NoSpace ==> Overfull(msgs, before, s, i, concatBufSize)
    ensures code == Invalid ==> TooLongInFlash(msgs[i], flashBufMaxSize)
    ensures code == Success ==>
      && used <= msgBuf.Length
      && (used == |Joined(before[s..i + 1])| || (used == 0 && !concatNext && msgBufUsed == 0))
      && (!msgs[i].read && used > 0 ==> msgBuf[..used] == Joined(before[s..i + 1]))
  {
    hide Joined, Splice;
    JoinedStep(before, s, i);
    var message := msgs[i];
    used := msgBufUsed;
    if concatNext || msgBufUsed != 0 {
      if msgBufUsed + message.buf.Length > concatBufSize {
        return NoSpace, used;
      }
      if !message.read {
        Collect(msgBuf, msgBufUsed, message.buf, Joined(before[s..i]));
      }
      used := msgBufUsed + message.buf.Length;
    } else if !message.read && !message.inRam {
      if message.buf.Length > flashBufMaxSize {
        return Invalid, used;
      }
      Collect(msgBuf, 0, message.buf, Joined(before[s..i]));
      used := message.buf.Length;
    }
    return Success, used;
  }

  /** The runs among the first `n` messages are done: their transfers were issued
      and acknowledged, and what was read is delivered. */
  ghost predicate Done(msgs: seq<Message>, before: seq<seq<byte>>, after: seq<seq<byte>>, received: Receiver,
                       answers: nat -> Answer, xfers: seq<Xfer>, n: nat)
  {
    && n <= |msgs| == |before|
    && Scattered(msgs, before, after, received, n)
    && xfers == Transfers(msgs, before, n)
    && forall k :: 0 <= k < |xfers| ==> answers(k) == Acknowledged
  }

  /** The same, except that one more transfer was issued if the bus failed it. */
  ghost predicate DoneUpTo(msgs: seq<Message>, before: seq<seq<byte>>, after: seq<seq<byte>>, received: Receiver,
                           answers: nat -> Answer, xfers: seq<Xfer>, code: Code, n: nat)
  {
    if code == Busy || code == IoError then
      && xfers != [] && Done(msgs, before, after, received, answers, xfers[..|xfers| - 1], n)
      && xfers <= Transfers(msgs, before, |msgs|)
      && answers(|xfers| - 1) == if code == Busy then Refused else Failed
    else Done(msgs, before, after, received, answers, xfers, n)
  }

  /** Messages `s..i` belong to one run, which starts with `s`. */
  ghost predicate InRun(msgs: seq<Message>, s: nat, i: nat) {
    && s <= i <= |msgs|
    && (s == 0 || !Merges(msgs, s - 1))
    && forall k :: s <= k < i ==> Merges(msgs, k)
  }

  /** Success: the messages were cut into the maximal runs, each made one
      transfer, each write carried its run's bytes, and each read filled its
      run's buffers in order.  Failure: so far, this holds for the first runs. */
  method Transfer(msgs: seq<Message>, msgBuf: array<byte>, concatBufSize: nat, flashBufMaxSize: nat,
                  answers: nat -> Answer, received: Receiver, ghost before: seq<seq<byte>>)
    returns (code: Code, xfers: seq<Xfer>, ghost after: seq<seq<byte>>, ghost done: nat, ghost outside: bool)
    requires Separate(msgs, msgBuf) && ContentOf(msgs, before) && FullLength(received)
    requires concatBufSize <= msgBuf.Length && flashBufMaxSize <= msgBuf.Length
    modifies msgBuf, set m | m in msgs :: m.buf
    ensures ContentOf(msgs, after)
    ensures DoneUpTo(msgs, before, after, received, answers, xfers, code, done)
    ensures outside <==> OutsideUpTo(msgs, before, done)
    ensures code == Success ==> done == |msgs| && forall k :: 0 <= k < |msgs| ==> !msgs[k].tenBits
    ensures code == NotSupported ==> exists k :: 0 <= k < |msgs| && msgs[k].tenBits
    ensures code == NoSpace ==> exists s, i :: Overfull(msgs, before, s, i, concatBufSize)
    ensures code == Invalid ==> exists k :: 0 <= k < |msgs| && TooLongInFlash(msgs[k], flashBufMaxSize)
  {
    hide Joined, Splice, SameSizes, FullLength, ContentOf, InRun, OutsideUpTo, Overfull, TooLongInFlash, Done;
    xfers, after, outside := [], before, false;
    SizesOfContent(msgs, before);
    NothingDone(msgs, before, received, answers);
    var msgBufUsed, i := 0, 0;
    ghost var s := 0;
    JoinedNone(before, 0);
    while i < |msgs|
      invariant InRun(msgs, s, i) && s <= i <= |msgs|
      invariant msgBufUsed == |Joined(before[s..i])| <= msgBuf.Length
      invariant s < i && !msgs[s].read && msgBufUsed > 0 ==> msgBuf[..msgBufUsed] == Joined(before[s..i])
      invariant ContentOf(msgs, after) && Done(msgs, before, after, received, answers, xfers, s)
      invariant outside <==> OutsideUpTo(msgs, before, s)
      invariant forall k :: 0 <= k < i ==> !msgs[k].tenBits
    {
      RunSoFar(msgs, before, s, i);
      Untouched(msgs, before, after, received, answers, xfers, s, i);
      if msgs[i].tenBits {
        return NotSupported, xfers, after, s, outside;
      }
      var concatNext := Merges(msgs, i);
      var loaded, usedBefore;
      usedBefore := msgBufUsed;
      loaded, msgBufUsed := Load(msgs, msgBuf, i, usedBefore, concatNext, concatBufSize, flashBufMaxSize, before, s);
      if loaded != Success {
        return loaded, xfers, after, s, outside;
      }
      if concatNext {
        i := i + 1;
        continue;
      }
      RunComplete(msgs, before, s, i);
      ghost var reaches;
      code, xfers, after, reaches := Issue(msgs, msgBuf, i, msgBufUsed, answers, received, xfers, before, after, s);
      if code != Success {
        return code, xfers, after, s, outside;
      }
      outside := outside || reaches;
      msgBufUsed := 0;
      i := i + 1;
      s := i;
      JoinedNone(before, s);
    }
    code, done := Success, s;
    RunSoFarAtEnd(msgs, s);
  }

  /** Performs the transfer of the run `s..i`, and takes in what was read. */
  method Issue(msgs: seq<Message>, msgBuf: array<byte>, i: nat, msgBufUsed: nat,
               answers: nat -> Answer, received: Receiver, xfers: seq<Xfer>,
               ghost before: seq<seq<byte>>, ghost now: seq<seq<byte>>, ghost s: nat)
    returns (code: Code, issued: seq<Xfer>, ghost after: seq<seq<byte>>, ghost reaches: bool)
    requires Separate(msgs, msgBuf) && ContentOf(msgs, now) && FullLength(received) && SameSizes(msgs, before)
    requires IsRun(msgs, s, i) && Done(msgs, before, now, received, answers, xfers, s)
    requires msgs[i].buf[..] == before[i] && msgBufUsed <= msgBuf.Length
    requires if msgBufUsed == 0 then |Joined(before[s..i])| == 0 else msgBufUsed == |Joined(before[s..i + 1])|
    requires msgs[i].read && msgBufUsed > 0 ==> |Joined(before[s..i])| > 0
    requires msgBufUsed == 0 ==> SentInPlace(msgs[i])
    requires !msgs[i].read && msgBufUsed > 0 ==> msgBuf[..msgBufUsed] == Joined(before[s..i + 1])
    modifies msgBuf, set m | m in msgs :: m.buf
    ensures code == Success || code == Busy || code == IoError
    ensures ContentOf(msgs, after)
    ensures if code == Success then Done(msgs, before, after, received, answers, issued, i + 1)
            else DoneUpTo(msgs, before, after, received, answers, issued, code, s)
    ensures code == Success ==> (reaches <==> ReachesOutside(msgs, before, s, i))
  {
    hide Transfers, Joined, Scattered, Splice, SameSizes, XferFor, FullLength, ContentOf, AllEmpty;
    TransfersGrow(msgs, before, i + 1, |msgs|);
    JoinedStep(before, s, i);
    RunEnds(msgs, before, s, i);
    after, reaches := now, false;
    var direct, index := msgBufUsed == 0, |xfers|;
    var xfer := Prepare(msgs, msgBuf, i, direct, msgBufUsed, before, s);
    issued := xfers + [xfer];
    assert issued[..|issued| - 1] == xfers;
    if answers(index) == Refused {
      return Busy, issued, after, reaches;
    }
    if answers(index) == Failed {
      return IoError, issued, after, reaches;
    }
    after, reaches := Finish(msgs, msgBuf, i, direct, xfer.length, received, index, before, after, s);
    code := Success;
  }

  /** Sets up the transfer of the run `s..i`. */
  method Prepare(msgs: seq<Message>, msgBuf: array<byte>, i: nat, direct: bool, msgBufUsed: nat,
                 ghost before: seq<seq<byte>>, ghost s: nat)
    returns (xfer: Xfer)
    requires s <= i < |msgs| == |before| && msgs[i].buf[..] == before[i]
    requires direct <==> msgBufUsed == 0
    requires direct ==> SentInPlace(msgs[i])
    requires msgBufUsed <= msgBuf.Length
    requires if direct then |Joined(before[s..i])| == 0 else msgBufUsed == |Joined(before[s..i + 1])|
    requires !msgs[i].read && !direct ==> msgBuf[..msgBufUsed] == Joined(before[s..i + 1])
    ensures xfer == XferFor(msgs, before, s, i) && xfer.length == |Joined(before[s..i + 1])|
  {
    hide Joined;
    JoinedStep(before, s, i);
    var message := msgs[i];
    var length := if direct then message.buf.Length else msgBufUsed;
    var data := if message.read then [] else if direct then message.buf[..] else msgBuf[..msgBufUsed];
    xfer := Xfer(message.read, length, data, !message.stop);
  }

  ghost predicate SameSizes(msgs: seq<Message>, content: seq<seq<byte>>) {
    |content| == |msgs| && forall m :: 0 <= m < |msgs| ==> |content[m]| == msgs[m].buf.Length
  }

  lemma SizesOfContent(msgs: seq<Message>, content: seq<seq<byte>>)
    requires ContentOf(msgs, content)
    ensures SameSizes(msgs, content)
  {
  }

  /** Takes in the bytes of a transfer that was a read. */
  method Finish(msgs: seq<Message>, msgBuf: array<byte>, i: nat, direct: bool, length: nat,
                received: Receiver, index: nat,
                ghost before: seq<seq<byte>>, ghost now: seq<seq<byte>>, ghost s: nat)
    returns (ghost next: seq<seq<byte>>, ghost reaches: bool)
    requires Separate(msgs, msgBuf) && ContentOf(msgs, now) && FullLength(received)
    requires SameSizes(msgs, before) && Scattered(msgs, before, now, received, s) && IsRun(msgs, s, i)
    requires length == |Joined(before[s..i + 1])| <= if direct then msgs[i].buf.Length else msgBuf.Length
    requires direct ==> length == msgs[i].buf.Length
    requires index == |Transfers(msgs, before, s)|
    requires msgs[i].read ==> (direct <==> |Joined(before[s..i])| == 0)
    modifies msgBuf, set m | m in msgs :: m.buf
    ensures ContentOf(msgs, next) && Scattered(msgs, before, next, received, i + 1)
    ensures reaches <==> ReachesOutside(msgs, before, s, i)
  {
    hide Joined, Transfers, Scattered, HandedBack, AllEmpty;
    OneDirection(msgs, s, i);
    next, reaches := now, false;
    if msgs[i].read {
      var bytes := received(index, length);
      next, reaches := Receive(msgs, msgBuf, i, direct, length, bytes, before, now, s);
      RunScattered(msgs, before, now, next, received, s, i, bytes);
    } else {
      RunScattered(msgs, before, now, next, received, s, i, []);
    }
  }

  lemma NothingDone(msgs: seq<Message>, before: seq<seq<byte>>, received: Receiver, answers: nat -> Answer)
    requires |msgs| == |before|
    ensures Done(msgs, before, before, received, answers, [], 0)
    ensures InRun(msgs, 0, 0) && !OutsideUpTo(msgs, before, 0)
  {
    NothingScattered(msgs, before, received);
  }

  lemma RunSoFar(msgs: seq<Message>, before: seq<seq<byte>>, s: nat, i: nat)
    requires |msgs| == |before| && i < |msgs| && InRun(msgs, s, i)
    ensures s <= i && forall k :: s <= k < i ==> Merges(msgs, k)
    ensures forall m :: s <= m <= i ==> msgs[m].read == msgs[i].read
    ensures Joined(before[s..i + 1]) == Joined(before[s..i]) + before[i] && Joined(before[s..s]) == []
    ensures Merges(msgs, i) ==> InRun(msgs, s, i + 1)
  {
    hide Joined;
    OneDirection(msgs, s, i);
    JoinedStep(before, s, i);
    JoinedNone(before, s);
  }

  lemma RunComplete(msgs: seq<Message>, before: seq<seq<byte>>, s: nat, i: nat)
    requires |msgs| == |before| && i < |msgs| && InRun(msgs, s, i) && !Merges(msgs, i)
    ensures IsRun(msgs, s, i) && InRun(msgs, i + 1, i + 1)
    ensures OutsideUpTo(msgs, before, i + 1) <==> OutsideUpTo(msgs, before, s) || ReachesOutside(msgs, before, s, i)
  {
    hide ReachesOutside, OutsideUpTo;
    OutsideStep(msgs, before, s, i);
  }

  lemma RunSoFarAtEnd(msgs: seq<Message>, s: nat)
    requires InRun(msgs, s, |msgs|)
    ensures s == |msgs|
  {
    LastEndsRun(msgs);
  }

  lemma LastEndsRun(msgs: seq<Message>)
    ensures |msgs| > 0 ==> !Merges(msgs, |msgs| - 1)
  {
  }

  lemma Untouched(msgs: seq<Message>, before: seq<seq<byte>>, after: seq<seq<byte>>, received: Receiver,
                  answers: nat -> Answer, xfers: seq<Xfer>, s: nat, i: nat)
    requires Done(msgs, before, after, received, answers, xfers, s) && s <= i < |msgs| && ContentOf(msgs, after)
    ensures |before| == |msgs| && msgs[i].buf[..] == before[i]
  {
    hide Transfers;
  }

  /** Puts a message's bytes behind those already in the shared buffer. */
  method Collect(msgBuf: array<byte>, used: nat, buf: array<byte>, ghost collected: seq<byte>)
    requires msgBuf != buf && used + buf.Length <= msgBuf.Length
    requires used == |collected| && (used > 0 ==> msgBuf[..used] == collected)
    modifies msgBuf
    ensures msgBuf[..used + buf.Length] == collected + buf[..]
  {
    ghost var was := msgBuf[..];
    CopyInto(msgBuf, used, buf[..]);
    SpliceHolds(was, used, buf[..]);
    assert msgBuf[..used + buf.Length] == msgBuf[..][..used] + msgBuf[..][used..used + buf.Length];
  }

  /** Takes the bytes of a read transfer in: straight into the only message's
      buffer, or through the shared buffer. */
  method Receive(msgs: seq<Message>, msgBuf: array<byte>, i: nat, direct: bool, length: nat, bytes: seq<byte>,
                 ghost before: seq<seq<byte>>, ghost now: seq<seq<byte>>, ghost s: nat)
    returns (ghost next: seq<seq<byte>>, ghost reaches: bool)
    requires Separate(msgs, msgBuf) && ContentOf(msgs, now) && |before| == |msgs|
    requires s <= i < |msgs| && |bytes| == length == |Joined(before[s..i + 1])|
    requires !direct ==> length <= msgBuf.Length
    requires direct ==> length == msgs[i].buf.Length
    requires forall m :: s <= m <= i ==> msgs[m].read
    requires forall m :: 0 <= m < |msgs| ==> |now[m]| == |before[m]|
    modifies msgBuf, set m | m in msgs :: m.buf
    ensures ContentOf(msgs, next)
    ensures HandedBack(before, now, next, bytes, s, i, -1)
    ensures reaches <==> !direct && AllEmpty(before, s)
  {
    hide AllEmpty, HandedBack, Splice, Joined, Holds;
    reaches := false;
    if direct {
      Fill(msgs, msgBuf, i, bytes, now);
      next := now[i := bytes];
      DirectRead(before, now, bytes, s, i);
    } else {
      ghost var was := msgBuf[..];
      CopyInto(msgBuf, 0, bytes);
      WrittenAtStart(was, bytes);
      assert msgBuf[..length] == msgBuf[..][..length] == bytes;
      next, reaches := Scatter(msgs, msgBuf, i, length, before, now, s);
    }
  }

  lemma WrittenAtStart(was: seq<byte>, bytes: seq<byte>)
    requires |bytes| <= |was|
    ensures Splice(was, 0, bytes)[..|bytes|] == bytes
  {
  }

  lemma DirectRead(before: seq<seq<byte>>, now: seq<seq<byte>>, bytes: seq<byte>, s: nat, i: nat)
    requires s <= i < |before| == |now| && forall m :: 0 <= m < |before| ==> |now[m]| == |before[m]|
    requires |bytes| == |Joined(before[s..i + 1])| == |before[i]|
    ensures HandedBack(before, now, now[i := bytes], bytes, s, i, -1)
  {
    hide Joined;
    JoinedStep(before, s, i);
    forall m | s <= m < i ensures |now[m]| == 0 && |Joined(before[s..m])| == 0 {
      EmptyParts(before, s, i, m);
    }
  }

  lemma {:induction false} EmptyParts(before: seq<seq<byte>>, s: nat, i: nat, m: nat)
    requires s <= m < i <= |before| && |Joined(before[s..i])| == 0
    ensures |before[m]| == 0 && |Joined(before[s..m])| == 0
    decreases i
  {
    JoinedStep(before, s, i - 1);
    if m < i - 1 {
      EmptyParts(before, s, i - 1, m);
    }
  }
}
