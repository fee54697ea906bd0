/**
  The medium of the key/value store: a partition of the EEPROM, whose last byte
  lies behind the end of what the driver gives access to.
 */
module Storage {
  import opened Bytes
  import opened Eeprom
  import opened KveFormat
  import opened KveContents
  import opened KveStorage
  import opened Kve
  import KveRuns

  const PARTITION_START := 1024
  const PARTITION_LENGTH := 7 * 1024

  /** The bytes of the partition that the driver can access: all but the last. */
  const ACCESSIBLE := EEPROM_SIZE - PARTITION_START

  /** Addresses that do not overflow the driver's 16-bit addresses. */
  predicate Addressable(address: nat) {
    PARTITION_START + address < 0x1_0000
  }

  class Partition {
    const chip: Chip

    constructor (chip: Chip)
      ensures this.chip == chip
    {
      this.chip := chip;
    }

    ghost predicate Working() {
      chip.Sized() && forall t :: chip.acknowledges(t)
    }

    /** The chip never refuses ten times in a row; enough for all writes. */
    ghost predicate Patient() {
      chip.Sized() && forall t: nat :: chip.Answers(t, 10)
    }

    lemma WorkingIsPatient()
      requires Working()
      ensures Patient()
    {
    }

    ghost function Window(): (w: seq<byte>)
      requires chip.Sized()
      reads chip.cells
      ensures |w| == ACCESSIBLE
    {
      WindowOf(chip.cells[..])
    }

    /** Reads as `Memory.Read` does on the accessible bytes. */
    method ReadEeprom(address: nat, buffer: seq<byte>, length: nat) returns (count: nat, data: seq<byte>)
      requires Working() && length <= |buffer|
      modifies chip`accesses
      ensures |data| == |buffer| && data[length..] == buffer[length..]
      ensures Addressable(address) && length < 0x1_0000 ==>
        && data[..length] == (if address + length <= ACCESSIBLE then Window()[address..address + length]
            else buffer[..length])
        && count == if address + length <= ACCESSIBLE then length else 0
    {
      hide WindowOf;
      if length == 0 {
        assert buffer[..0] == [];
        return 0, buffer;
      }
      var n := length % 0x1_0000;
      var success, read := chip.ReadBuffer((PARTITION_START + address) % 0x1_0000, buffer[..n]);
      data := read + buffer[n..];
      count := if success then length else 0;
      if Addressable(address) && length < 0x1_0000 {
        ReadThrough(chip.cells[..], address, buffer, length, read);
      }
    }

    /** Writes as `Memory.Write` does on the accessible bytes, and nowhere else. */
    method WriteEeprom(address: nat, data: seq<byte>) returns (count: nat)
      requires Patient()
      modifies chip, chip.cells
      ensures Addressable(address) ==>
        && Window() == (if address + |Cut(data)| <= ACCESSIBLE then Splice(old(Window()), address, Cut(data))
            else old(Window()))
        && SameOutside(old(chip.cells[..]), chip.cells[..])
      ensures Addressable(address) && |data| < 0x1_0000 ==>
        count == if address + |data| <= ACCESSIBLE then |data| else 0
    {
      hide Splice, WrittenUpTo, Cut, WindowOf, SameOutside;
      CutOfShort(data);
      ghost var was, buffer := chip.cells[..], Cut(data);
      WriteThrough(was, address, buffer);
      if |data| == 0 {
        assert buffer == [] by {
          CutOfNothing(data);
        }
        return 0;
      }
      var success := chip.WriteBuffer(Cut(data), (PARTITION_START + address) % 0x1_0000);
      count := if success then |data| else 0;
    }
  }

  function WindowOf(cells: seq<byte>): (w: seq<byte>)
    requires |cells| == CHIP_SIZE
    ensures |w| == ACCESSIBLE
  {
    cells[PARTITION_START..EEPROM_SIZE]
  }

  ghost predicate SameOutside(a: seq<byte>, b: seq<byte>)
    requires |a| == |b| == CHIP_SIZE
  {
    a[..PARTITION_START] == b[..PARTITION_START] && a[EEPROM_SIZE..] == b[EEPROM_SIZE..]
  }

  lemma ReadThrough(cells: seq<byte>, address: nat, buffer: seq<byte>, length: nat, read: seq<byte>)
    requires |cells| == CHIP_SIZE && length <= |buffer|
    requires var from := PARTITION_START + address;
      read == if from + length <= EEPROM_SIZE then cells[from..from + length] else buffer[..length]
    ensures var data := read + buffer[length..];
      && data[length..] == buffer[length..]
      && data[..length] == if address + length <= ACCESSIBLE then WindowOf(cells)[address..address + length]
          else buffer[..length]
  {
    var from := PARTITION_START + address;
    if address + length <= ACCESSIBLE {
      forall i | 0 <= i < length ensures read[i] == WindowOf(cells)[address..address + length][i] {
        assert WindowOf(cells)[address + i] == cells[from + i];
      }
    }
  }

  lemma CutOfNothing(data: seq<byte>)
    requires |data| == 0
    ensures Cut(data) == []
  {
  }

  /** A write into the partition is a write into the window, and outside of it
      nothing happens; writing no bytes changes nothing. */
  lemma WriteThrough(cells: seq<byte>, address: nat, data: seq<byte>)
    requires |cells| == CHIP_SIZE
    ensures SameOutside(cells, cells)
    ensures address + |data| <= ACCESSIBLE ==>
      && WindowOf(Splice(cells, PARTITION_START + address, data)) == Splice(WindowOf(cells), address, data)
      && SameOutside(cells, Splice(cells, PARTITION_START + address, data))
      && (data == [] ==> Splice(cells, PARTITION_START + address, data) == cells)
  {
    if address + |data| <= ACCESSIBLE {
      SpliceInWindow(cells, address, data);
      if data == [] {
        SpliceNothing(cells, PARTITION_START + address);
      }
    }
  }

  /** Where the partition lies: 1024 bytes into the chip, up to its last but one byte. */
  lemma WindowIs(cells: seq<byte>)
    requires |cells| == CHIP_SIZE
    ensures |cells| == 8192 && WindowOf(cells) == cells[1024..8191]
    ensures PARTITION_LENGTH == 7168 == |WindowOf(cells)| + 1
  {
  }

  /** A write into the partition is a write into the window. */
  lemma SpliceInWindow(cells: seq<byte>, address: nat, data: seq<byte>)
    requires |cells| == CHIP_SIZE && address + |data| <= ACCESSIBLE
    ensures var now := Splice(cells, PARTITION_START + address, data);
      && now[PARTITION_START..EEPROM_SIZE] == Splice(cells[PARTITION_START..EEPROM_SIZE], address, data)
      && now[..PARTITION_START] == cells[..PARTITION_START]
      && now[EEPROM_SIZE..] == cells[EEPROM_SIZE..]
  {
    SpliceAt(cells, PARTITION_START + address, data);
    SpliceAt(cells[PARTITION_START..EEPROM_SIZE], address, data);
  }

  datatype Access = Reading(address: nat, length: nat) | Writing(address: nat, data: seq<byte>)

  /** Accesses that the 16-bit parameters of the driver can express. */
  predicate Expressible(a: Access) {
    Addressable(a.address) && (a.Reading? ==> a.length < 0x1_0000)
  }

  /** Whatever a client reads and writes, on the partition it reads the same and
      leaves the same as on a memory of the accessible bytes. */
  method Mirror(memory: Memory, partition: Partition, accesses: seq<Access>)
    returns (fromMemory: seq<seq<byte>>, fromPartition: seq<seq<byte>>)
    requires partition.Working() && memory.mem != partition.chip.cells
    requires memory.mem[..] == partition.Window()
    requires forall a :: a in accesses ==> Expressible(a)
    modifies memory.mem, partition.chip, partition.chip.cells
    ensures fromMemory == fromPartition && |fromMemory| == |accesses|
    ensures memory.mem[..] == partition.Window()
  {
    hide Splice, Cut, Expressible;
    fromMemory, fromPartition := [], [];
    var i := 0;
    while i < |accesses|
      invariant 0 <= i <= |accesses|
      invariant fromMemory == fromPartition && |fromMemory| == i
      invariant memory.mem[..] == partition.Window()
    {
      assert Expressible(accesses[i]);
      var a, b := MirrorOne(memory, partition, accesses[i]);
      fromMemory, fromPartition := fromMemory + [a], fromPartition + [b];
      i := i + 1;
    }
  }

  method MirrorOne(memory: Memory, partition: Partition, access: Access)
    returns (fromMemory: seq<byte>, fromPartition: seq<byte>)
    requires partition.Working() && memory.mem != partition.chip.cells
    requires memory.mem[..] == partition.Window() && Expressible(access)
    modifies memory.mem, partition.chip, partition.chip.cells
    ensures fromMemory == fromPartition
    ensures memory.mem[..] == partition.Window()
  {
    hide Splice, Cut;
    partition.WorkingIsPatient();
    ghost var was := memory.mem[..];
    assert memory.mem.Length == |was| == ACCESSIBLE;
    fromMemory, fromPartition := [], [];
    match access {
      case Reading(address, length) =>
        var buffer := seq(length, _ => 0);
        fromMemory := memory.Read(address, buffer, length);
        var count;
        count, fromPartition := partition.ReadEeprom(address, buffer, length);
        assert memory.mem[..] == was;
        if address + length <= ACCESSIBLE {
          assert memory.mem[address..address + length] == was[address..address + length];
        }
        assert fromMemory == fromMemory[..length] && fromPartition == fromPartition[..length];
      case Writing(address, data) =>
        memory.Write(address, data);
        var count := partition.WriteEeprom(address, data);
    }
  }

  // ---------- What the missing byte does to the store ----------

  /** An item that fills a fresh partition to the last byte is stored, but lost
      with the next restart. */
  method FillAndRestart(memory: Memory, key: Key, value: Value) returns (ok: bool, pass: bool, store: Store)
    requires memory.mem.Length == ACCESSIBLE && memory.memorySize == PARTITION_LENGTH
    requires Cost(key, value) == PARTITION_LENGTH - 4
    modifies memory.mem
    ensures ok && pass && store.Valid() && store.Contents() == map[]
  {
    store := new Store(memory);
    store.Format();
    ghost var none: Contents := map[];
    assert none - {key} == none;
    KveRuns.FreshTable(store);
    ok, pass := KveRuns.PutThenRestart(store, key, value);
  }
}
