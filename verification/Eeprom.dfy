/**
  The EEPROM driver: it cuts a write into transactions that do not cross a page
  of the chip, and repeats a transaction that the chip does not acknowledge.
 */
module Eeprom {
  import opened Bytes

  const EEPROM_SIZE := 0x1fff
  const CHIP_SIZE := 0x2000
  const PAGE := 32
  const WRITE_RETRIES := 10
  const POLL_RETRIES := 30

  datatype Transaction = Transaction(address: nat, length: nat)

  /** What the chip does with the bytes of one transaction: the address counter
      runs in a circle inside the page. */
  function PageWrite(cells: seq<byte>, address: nat, data: seq<byte>): (r: seq<byte>)
    requires |cells| == CHIP_SIZE && address < CHIP_SIZE
    ensures |r| == |cells|
  {
    if data == [] then cells
    else
      var n := |data| - 1;
      PageWrite(cells, address, data[..n])[Wrapped(address, n) := data[n]]
  }

  /** The address of byte `n` of a transaction that starts at `address`. */
  function Wrapped(address: nat, n: nat): (a: nat)
    ensures a / PAGE == address / PAGE
  {
    address / PAGE * PAGE + (address % PAGE + n) % PAGE
  }

  predicate InOnePage(t: Transaction) {
    t.address % PAGE + t.length <= PAGE
  }

  /** A transaction that stays in its page writes where it should. */
  lemma {:induction false} PageWriteInside(cells: seq<byte>, address: nat, data: seq<byte>)
    requires |cells| == CHIP_SIZE && InOnePage(Transaction(address, |data|)) && address < CHIP_SIZE
    ensures address + |data| <= CHIP_SIZE
    ensures PageWrite(cells, address, data) == Splice(cells, address, data)
  {
    InsidePage(address, |data|);
    if data == [] {
      assert Splice(cells, address, data) == cells;
    } else {
      var n := |data| - 1;
      PageWriteInside(cells, address, data[..n]);
      InsidePage(address, n);
      SpliceLast(cells, address, data);
    }
  }

  /** Behind the last byte of a page comes its first one. */
  lemma PageIsACircle(address: nat, n: nat)
    requires address % 32 + n >= 32 && n < 32
    ensures Wrapped(address, n) == address + n - 32
  {
  }

  lemma InsidePage(address: nat, n: nat)
    requires address % PAGE + n <= PAGE && address < CHIP_SIZE
    ensures address + n <= CHIP_SIZE
    ensures address % PAGE + n < PAGE ==> Wrapped(address, n) == address + n
  {
  }

  class Chip {
    const cells: array<byte>
    /** Whether the chip acknowledges the bus access with this number. */
    const acknowledges: nat -> bool
    var accesses: nat
    ghost var transactions: seq<Transaction>

    constructor (cells: array<byte>, acknowledges: nat -> bool)
      ensures this.cells == cells && this.acknowledges == acknowledges
    {
      this.cells := cells;
      this.acknowledges := acknowledges;
      accesses := 0;
      transactions := [];
    }

    predicate Sized() {
      cells.Length == CHIP_SIZE
    }

    /** One of `n` accesses in a row is acknowledged; the first of them is number `from`. */
    predicate Answers(from: nat, n: nat)
      decreases n
    {
      n > 0 && (acknowledges(from) || Answers(from + 1, n - 1))
    }

    /** How many of the accesses are made until one is acknowledged, at most `n`. */
    function Attempts(from: nat, n: nat): (k: nat)
      ensures k <= n
      decreases n
    {
      if n == 0 then 0 else if acknowledges(from) then 1 else 1 + Attempts(from + 1, n - 1)
    }

    /** All of `pages` pages get through: each is taken at one of ten attempts, and
        then the chip is ready again at one of thirty. */
    predicate Passes(from: nat, pages: nat)
      decreases pages
    {
      pages > 0 ==>
        var ready := from + Attempts(from, 10);
        && Answers(from, 10) && Answers(ready, 30)
        && Passes(ready + Attempts(ready, 30), pages - 1)
    }

    lemma NoAnswer()
      ensures forall t: nat {:trigger Answers(t, 0)} :: !Answers(t, 0)
      ensures forall t: nat {:trigger Attempts(t, 0)} :: Attempts(t, 0) == 0
    {
    }

    lemma AnswersStep(from: nat, n: nat)
      requires n > 0
      ensures Answers(from, n) <==> acknowledges(from) || Answers(from + 1, n - 1)
      ensures Attempts(from, n) == if acknowledges(from) then 1 else 1 + Attempts(from + 1, n - 1)
    {
    }

    /** More attempts are no worse. */
    lemma {:induction false} AnswersSooner(from: nat, n: nat, m: nat)
      requires Answers(from, n) && n <= m
      ensures Answers(from, m)
      decreases n
    {
      if !acknowledges(from) {
        AnswersSooner(from + 1, n - 1, m - 1);
      }
    }

    /** A chip that never refuses ten times in a row takes any number of pages. */
    lemma {:induction false} PatientlyPasses(from: nat, pages: nat)
      requires forall t: nat :: Answers(t, 10)
      ensures Passes(from, pages)
      decreases pages
    {
      hide Answers, Attempts;
      if pages > 0 {
        var ready := from + Attempts(from, 10);
        AnswersSooner(ready, 10, 30);
        PatientlyPasses(ready + Attempts(ready, 30), pages - 1);
      }
    }

    /** One write transaction on the bus. */
    method BusWrite(address: nat, length: nat, buffer: array<byte>) returns (status: bool)
      requires Sized() && address < CHIP_SIZE && length <= buffer.Length && buffer != cells
      modifies this, cells
      ensures accesses == old(accesses) + 1 && status == acknowledges(old(accesses))
      ensures status ==> transactions == old(transactions) + [Transaction(address, length)]
      ensures status ==> cells[..] == PageWrite(old(cells[..]), address, buffer[..length])
      ensures !status ==> transactions == old(transactions) && cells[..] == old(cells[..])
    {
      status := acknowledges(accesses);
      accesses := accesses + 1;
      if status {
        transactions := transactions + [Transaction(address, length)];
        ghost var was := cells[..];
        assert buffer[..0] == [];
        var n := 0;
        while n < length
          invariant 0 <= n <= length
          invariant cells[..] == PageWrite(was, address, buffer[..n])
          modifies cells
        {
          assert buffer[..n + 1][..n] == buffer[..n];
          cells[Wrapped(address, n)] := buffer[n];
          n := n + 1;
        }
      }
    }

    /** An access that only asks for an acknowledgement. */
    method Poll() returns (status: bool)
      modifies this`accesses
      ensures accesses == old(accesses) + 1 && status == acknowledges(old(accesses))
    {
      status := acknowledges(accesses);
      accesses := accesses + 1;
    }

    method ReadBuffer(readAddr: nat, buffer: seq<byte>) returns (status: bool, data: seq<byte>)
      requires Sized()
      modifies this`accesses
      ensures status ==> readAddr + |buffer| <= 0x1fff && data == cells[readAddr..readAddr + |buffer|]
      ensures !status ==> data == buffer
      ensures status <==> readAddr + |buffer| <= 0x1fff && acknowledges(old(accesses))
      ensures accesses == old(accesses) + if readAddr + |buffer| <= 0x1fff then 1 else 0
    {
      data := buffer;
      if readAddr + |buffer| > EEPROM_SIZE {
        return false, data;
      }
      status := Poll();
      if status {
        data := cells[readAddr..readAddr + |buffer|];
      }
    }

    /** True: exactly the requested range holds the buffer.  False: of the pieces
        that the pages cut the buffer into, only the first ones were written. */
    method WriteBuffer(buffer: seq<byte>, writeAddr: nat) returns (status: bool)
      requires Sized()
      modifies this, cells
      ensures status ==> writeAddr + |buffer| <= 0x1fff && cells[..] == Splice(old(cells[..]), writeAddr, buffer)
      ensures !status ==> exists k :: 0 <= k <= |buffer| && WrittenUpTo(old(cells[..]), cells[..], buffer, writeAddr, k)
      ensures writeAddr + |buffer| > 0x1fff ==> !status && cells[..] == old(cells[..])
      ensures |buffer| == 0 ==> cells[..] == old(cells[..])
      ensures old(transactions) <= transactions
      ensures forall i :: |old(transactions)| <= i < |transactions| ==>
        transactions[i].address % 32 + transactions[i].length <= 32
      ensures |buffer| > 0 ==>
        (status <==> writeAddr + |buffer| <= 0x1fff && Passes(old(accesses), PagesTouched(writeAddr, |buffer|)))
      ensures (forall t: nat :: Answers(t, 10)) && |buffer| > 0 ==> (status <==> writeAddr + |buffer| <= 0x1fff)
    {
      hide Splice, WrittenUpTo, PageWrite, Passes, Answers, Attempts, PagesTouched;
      ghost var pages, first := PagesTouched(writeAddr, |buffer|), accesses;
      if forall t: nat :: Answers(t, 10) {
        PatientlyPasses(first, pages);
      }
      ghost var was, log := cells[..], transactions;
      NothingWritten(was, buffer, writeAddr);
      if writeAddr + |buffer| > EEPROM_SIZE {
        assert WrittenUpTo(was, cells[..], buffer, writeAddr, 0);
        return false;
      }
      var pageBuffer := new byte[PAGE](_ => 0);
      var bufferIndex, leftToWrite, currentAddress := 0, |buffer|, writeAddr;
      // The source leaves the status unset, and returns it if there is nothing to write.
      status := *;
      while leftToWrite > 0
        invariant 0 <= leftToWrite && bufferIndex == |buffer| - leftToWrite
        invariant currentAddress == writeAddr + bufferIndex
        invariant WrittenUpTo(was, cells[..], buffer, writeAddr, bufferIndex)
        invariant log <= transactions
        invariant forall i :: |log| <= i < |transactions| ==> InOnePage(transactions[i])
        invariant bufferIndex > 0 ==> status
        invariant Passes(first, pages) <==> Passes(accesses, PagesTouched(currentAddress, leftToWrite))
        invariant |buffer| == 0 ==> cells[..] == was
      {
        ghost var done, before := bufferIndex, cells[..];
        var pageAddress := currentAddress;
        var pageIndex := FillPage(buffer, bufferIndex, currentAddress, pageBuffer);
        bufferIndex, leftToWrite := bufferIndex + pageIndex, leftToWrite - pageIndex;
        currentAddress := currentAddress + pageIndex;
        assert cells[..] == before;
        OnePageLess(pageAddress, pageIndex, leftToWrite);
        PassesStep(accesses, PagesTouched(pageAddress, pageIndex + leftToWrite));
        status := WritePage(pageAddress, pageIndex, pageBuffer);
        if !status {
          assert cells[..] == before;
          assert WrittenUpTo(was, cells[..], buffer, writeAddr, done);
          return;
        }
        PieceWritten(was, before, buffer, writeAddr, done, bufferIndex);
        ghost var after := cells[..];
        assert after == Splice(before, pageAddress, pageBuffer[..pageIndex]);
        status := WaitForPage();
        assert cells[..] == after;
        if !status {
          assert WrittenUpTo(was, cells[..], buffer, writeAddr, bufferIndex);
          return;
        }
      }
      AllWritten(was, cells[..], buffer, writeAddr);
      NoPages(currentAddress, accesses);
    }

    /** Copies the bytes up to the end of the page, or of the buffer. */
    method FillPage(buffer: seq<byte>, bufferIndex: nat, currentAddress: nat, pageBuffer: array<byte>)
      returns (pageIndex: nat)
      requires bufferIndex < |buffer| && pageBuffer.Length == PAGE
      modifies pageBuffer
      ensures 0 < pageIndex && bufferIndex + pageIndex <= |buffer|
      ensures InOnePage(Transaction(currentAddress, pageIndex))
      ensures pageBuffer[..pageIndex] == buffer[bufferIndex..bufferIndex + pageIndex]
      ensures bufferIndex + pageIndex == |buffer| || (currentAddress + pageIndex) % PAGE == 0
    {
      pageIndex := 0;
      // The body runs at least once; the page ends at a multiple of its size.
      while pageIndex == 0 || (bufferIndex + pageIndex < |buffer| && (currentAddress + pageIndex) % PAGE != 0)
        invariant 0 <= pageIndex <= |buffer| - bufferIndex
        invariant InOnePage(Transaction(currentAddress, pageIndex))
        invariant pageBuffer[..pageIndex] == buffer[bufferIndex..bufferIndex + pageIndex]
        decreases |buffer| - pageIndex
      {
        pageBuffer[pageIndex] := buffer[bufferIndex + pageIndex];
        pageIndex := pageIndex + 1;
      }
    }

    /** Sends one page, again if it is not acknowledged, up to ten times. */
    method WritePage(pageAddress: nat, pageIndex: nat, pageBuffer: array<byte>) returns (status: bool)
      requires Sized() && pageAddress < CHIP_SIZE && pageIndex <= pageBuffer.Length && pageBuffer != cells
      requires InOnePage(Transaction(pageAddress, pageIndex))
      modifies this, cells
      ensures pageAddress + pageIndex <= CHIP_SIZE
      ensures status ==> cells[..] == Splice(old(cells[..]), pageAddress, pageBuffer[..pageIndex])
      ensures status ==> transactions == old(transactions) + [Transaction(pageAddress, pageIndex)]
      ensures !status ==> cells[..] == old(cells[..]) && transactions == old(transactions)
      ensures status <==> Answers(old(accesses), 10)
      ensures accesses == old(accesses) + Attempts(old(accesses), 10)
    {
      hide Answers, Attempts, PageWrite, Splice, InOnePage;
      PageWriteInside(cells[..], pageAddress, pageBuffer[..pageIndex]);
      ghost var was, log := cells[..], transactions;
      ghost var first := accesses;
      NoAnswer();
      status := false;
      var retry := 0;
      while retry < WRITE_RETRIES
        invariant 0 <= retry <= WRITE_RETRIES && !status
        invariant cells[..] == was && transactions == log
        invariant accesses == first + retry
        invariant Answers(first, 10) <==> Answers(accesses, 10 - retry)
        invariant Attempts(first, 10) == retry + Attempts(accesses, 10 - retry)
      {
        AnswersStep(accesses, 10 - retry);
        status := BusWrite(pageAddress, pageIndex, pageBuffer);
        if status {
          break;
        }
        retry := retry + 1;
      }
    }

    lemma NoPages(address: nat, from: nat)
      ensures PagesTouched(address, 0) == 0 && Passes(from, 0)
    {
    }

    lemma PassesStep(from: nat, pages: nat)
      requires pages > 0
      ensures var ready := from + Attempts(from, 10);
        Passes(from, pages) <==>
          Answers(from, 10) && Answers(ready, 30) && Passes(ready + Attempts(ready, 30), pages - 1)
    {
    }

    /** Waits until the chip is ready again; asks up to thirty times. */
    method WaitForPage() returns (status: bool)
      modifies this`accesses
      ensures status <==> Answers(old(accesses), 30)
      ensures accesses == old(accesses) + Attempts(old(accesses), 30)
    {
      hide Answers, Attempts;
      ghost var first := accesses;
      NoAnswer();
      status := false;
      var retry := 0;
      while retry < POLL_RETRIES
        invariant 0 <= retry <= POLL_RETRIES && !status
        invariant accesses == first + retry
        invariant Answers(first, 30) <==> Answers(accesses, 30 - retry)
        invariant Attempts(first, 30) == retry + Attempts(accesses, 30 - retry)
      {
        AnswersStep(accesses, 30 - retry);
        status := Poll();
        if status {
          break;
        }
        retry := retry + 1;
      }
    }
  }

  /** How many pages of the chip the `length` bytes from `address` on lie in. */
  function PagesTouched(address: nat, length: nat): nat {
    if length == 0 then 0 else (address % 32 + length - 1) / 32 + 1
  }

  /** The bytes up to the end of a page, or of the buffer, are in one page. */
  lemma OnePageLess(address: nat, n: nat, left: nat)
    requires n > 0 && address % PAGE + n <= PAGE
    requires left > 0 ==> (address + n) % PAGE == 0
    ensures PagesTouched(address, n + left) == PagesTouched(address + n, left) + 1
  {
  }

  /** The first `k` bytes of the buffer were written, and `k` is the end of a
      piece: where a page ends, or the buffer. */
  ghost predicate WrittenUpTo(was: seq<byte>, now: seq<byte>, buffer: seq<byte>, writeAddr: nat, k: nat)
    requires k <= |buffer|
  {
    if k == 0 then now == was
    else
      && writeAddr + k <= |was|
      && (k == |buffer| || (writeAddr + k) % PAGE == 0)
      && now == Splice(was, writeAddr, buffer[..k])
  }

  lemma NothingWritten(was: seq<byte>, buffer: seq<byte>, writeAddr: nat)
    ensures WrittenUpTo(was, was, buffer, writeAddr, 0)
  {
  }

  /** One more piece behind the pieces already written. */
  lemma PieceWritten(was: seq<byte>, now: seq<byte>, buffer: seq<byte>, writeAddr: nat, done: nat, end: nat)
    requires done < end <= |buffer| && writeAddr + end <= |was| == |now|
    requires WrittenUpTo(was, now, buffer, writeAddr, done)
    requires end == |buffer| || (writeAddr + end) % PAGE == 0
    ensures WrittenUpTo(was, Splice(now, writeAddr + done, buffer[done..end]), buffer, writeAddr, end)
  {
    if done == 0 {
      assert buffer[0..end] == buffer[..end];
    } else {
      SpliceTwice(was, writeAddr, buffer[..done], buffer[done..end]);
      assert buffer[..done] + buffer[done..end] == buffer[..end];
    }
  }

  lemma AllWritten(was: seq<byte>, now: seq<byte>, buffer: seq<byte>, writeAddr: nat)
    requires writeAddr + |buffer| <= |was| && WrittenUpTo(was, now, buffer, writeAddr, |buffer|)
    ensures now == Splice(was, writeAddr, buffer)
  {
    assert buffer[..|buffer|] == buffer;
  }
}
