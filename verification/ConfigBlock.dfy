/**
  The configuration block at the start of the EEPROM: checked when the system
  starts, brought up to the current version, or replaced by the defaults.
 */
module ConfigBlock {
  import opened Bytes
  import opened Eeprom

  const SIZE_V0 := 16
  const SIZE_V1 := 21
  const VERSION: byte := 1
  const HEADER_SIZE := 5
  const OVERHEAD_SIZE := 6
  const MAGIC: seq<byte> := [0x30, 0x78, 0x42, 0x43]

  const RADIO_CHANNEL: byte := 80
  const RADIO_ADDRESS := 0xe7_e7e7_e7e7

  // Places of the fields; version 0 lacks the address.
  const VERSION_AT := 4
  const CHANNEL_AT := 5
  const ADDRESS_AT := 15

  type Image = b: seq<byte> | |b| == SIZE_V1 witness seq(SIZE_V1, _ => 0)

  /** The defaults; the last byte, the checksum, is not set yet. */
  function Default(dataRate: byte): Image {
    MAGIC + [VERSION, RADIO_CHANNEL, dataRate] + [0, 0, 0, 0] + [0, 0, 0, 0] + [0xe7, 0xe7, 0xe7, 0xe7, 0xe7] + [0]
  }

  function Sum(s: seq<byte>): nat {
    if s == [] then 0 else Sum(s[..|s| - 1]) + s[|s| - 1]
  }

  function Checksum(s: seq<byte>): byte {
    Sum(s) % 0x100
  }

  method CalculateCksum(data: seq<byte>) returns (cksum: byte)
    ensures cksum == Checksum(data)
  {
    cksum := 0;
    var i := 0;
    assert data[..0] == [];
    while i < |data|
      invariant 0 <= i <= |data| && cksum == Checksum(data[..i])
    {
      assert data[..i + 1][..i] == data[..i];
      cksum := (cksum + data[i]) % 0x100;
      i := i + 1;
    }
    assert data[..i] == data;
  }

  predicate HasMagic(b: Image) {
    b[..4] == MAGIC
  }

  /** A block of the current version that needs no change. */
  predicate IsCurrent(b: Image) {
    HasMagic(b) && b[VERSION_AT] == VERSION && b[SIZE_V1 - 1] == Checksum(b[..SIZE_V1 - 1])
  }

  /** A sound block of version 0, which is shorter. */
  predicate IsVersion0(b: Image) {
    HasMagic(b) && b[VERSION_AT] == 0 && b[SIZE_V0 - 1] == Checksum(b[..SIZE_V0 - 1])
  }

  function Sealed(b: Image): Image {
    b[SIZE_V1 - 1 := Checksum(b[..SIZE_V1 - 1])]
  }

  /** The defaults with the content of a version 0 block put in. */
  function Upgraded(b: Image, default: Image): Image {
    Splice(default, HEADER_SIZE, b[HEADER_SIZE..SIZE_V0 - 1])
  }

  /** What a start-up leaves in the EEPROM. */
  function Booted(b: Image, dataRate: byte): Image {
    if IsCurrent(b) then b
    else if IsVersion0(b) then Sealed(Upgraded(b, Default(dataRate)))
    else Sealed(Default(dataRate))
  }

  lemma SealedIsCurrent(b: Image)
    requires HasMagic(b) && b[VERSION_AT] == VERSION
    ensures IsCurrent(Sealed(b))
  {
    assert Sealed(b)[..SIZE_V1 - 1] == b[..SIZE_V1 - 1];
    assert Sealed(b)[..4] == b[..4];
  }

  /** Whatever was in the EEPROM, a start-up leaves a sound block of the current
      version; the next start-up leaves it alone.  A version 0 block keeps its
      fields, and gets the default address. */
  lemma BootedIsCurrent(b: Image, dataRate: byte)
    ensures IsCurrent(Booted(b, dataRate))
    ensures Booted(Booted(b, dataRate), dataRate) == Booted(b, dataRate)
    ensures IsCurrent(b) ==> Booted(b, dataRate) == b
    ensures IsVersion0(b) && !IsCurrent(b) ==>
      && Booted(b, dataRate)[CHANNEL_AT..ADDRESS_AT] == b[CHANNEL_AT..ADDRESS_AT]
      && Address(Booted(b, dataRate)) == RADIO_ADDRESS
  {
    var d := Default(dataRate);
    var u := Upgraded(b, d);
    assert d[..4] == MAGIC;
    assert u[..4] == MAGIC;
    SealedIsCurrent(d);
    SealedIsCurrent(u);
    assert Sealed(u)[CHANNEL_AT..ADDRESS_AT] == u[CHANNEL_AT..ADDRESS_AT] == b[CHANNEL_AT..ADDRESS_AT];
  }

  /** The blocks that are recognised, by their bytes: the magic number is stored
      lowest byte first, and the checksum is the last byte of the block. */
  lemma RecognisedIs(b: Image)
    ensures var magic := b[0] as int + 0x100 * b[1] as int + 0x1_0000 * b[2] as int + 0x100_0000 * b[3] as int;
      && (IsCurrent(b) <==> magic == 0x4342_7830 && b[4] == 1 && b[20] == Sum(b[..20]) % 256)
      && (IsVersion0(b) <==> magic == 0x4342_7830 && b[4] == 0 && b[15] == Sum(b[..15]) % 256)
  {
    assert b[..4] == [b[0], b[1], b[2], b[3]];
  }

  /** What a start-up leaves in an EEPROM without a block, byte by byte: magic
      number, version, channel 80, data rate, no calibration, address, checksum. */
  lemma FreshBlockIs(b: Image, dataRate: byte)
    requires !IsCurrent(b) && !IsVersion0(b)
    ensures Booted(b, dataRate) ==
      [0x30, 0x78, 0x42, 0x43, 1, 80, dataRate, 0, 0, 0, 0, 0, 0, 0, 0,
       0xe7, 0xe7, 0xe7, 0xe7, 0xe7, (1 + dataRate) % 256]
  {
    hide Default, Sum;
    var d := Default(dataRate);
    DefaultIs(dataRate);
    FreshSum(dataRate);
    assert Sealed(d) == d[..SIZE_V1 - 1] + [Checksum(d[..SIZE_V1 - 1])];
  }

  lemma FreshSum(dataRate: byte)
    ensures Sum(Default(dataRate)[..20]) == 1537 + dataRate as int
  {
    hide Default, Sum;
    var fields: seq<byte> := [0x30, 0x78, 0x42, 0x43, 1, 80, dataRate];
    var zeros: seq<byte> := [0, 0, 0, 0, 0, 0, 0, 0];
    var address: seq<byte> := [0xe7, 0xe7, 0xe7, 0xe7, 0xe7];
    DefaultIs(dataRate);
    SumConcat(fields + zeros, address);
    SumConcat(fields, zeros);
    SumOfSeven(fields);
    SumOfEight(zeros);
    SumOfFive(address);
  }

  lemma DefaultIs(dataRate: byte)
    ensures Default(dataRate)[..20]
         == [0x30, 0x78, 0x42, 0x43, 1, 80, dataRate] + [0, 0, 0, 0, 0, 0, 0, 0] + [0xe7, 0xe7, 0xe7, 0xe7, 0xe7]
  {
  }

  lemma {:induction false} SumConcat(a: seq<byte>, b: seq<byte>)
    ensures Sum(a + b) == Sum(a) + Sum(b)
    decreases |b|
  {
    if b == [] {
      assert a + b == a;
    } else {
      var n := |b| - 1;
      SumConcat(a, b[..n]);
      assert (a + b)[..|a| + n] == a + b[..n];
    }
  }

  lemma SumOfFive(s: seq<byte>)
    requires |s| == 5
    ensures Sum(s) == s[0] as int + s[1] as int + s[2] as int + s[3] as int + s[4] as int
  {
    hide Sum;
    SumStep(s, 1);
    SumStep(s, 2);
    SumStep(s, 3);
    SumStep(s, 4);
    SumStep(s, 5);
  }

  lemma SumOfSeven(s: seq<byte>)
    requires |s| == 7
    ensures Sum(s) == s[0] as int + s[1] as int + s[2] as int + s[3] as int + s[4] as int + s[5] as int + s[6] as int
  {
    hide Sum;
    SumOfFive(s[..5]);
    SumStep(s, 6);
    SumStep(s, 7);
  }

  lemma SumOfEight(s: seq<byte>)
    requires |s| == 8
    ensures Sum(s) == s[0] as int + s[1] as int + s[2] as int + s[3] as int + s[4] as int
                       + s[5] as int + s[6] as int + s[7] as int
  {
    hide Sum;
    SumOfSeven(s[..7]);
    SumStep(s, 8);
  }

  lemma SumStep(s: seq<byte>, n: nat)
    requires 0 < n <= |s|
    ensures Sum(s[..n]) == Sum(s[..n - 1]) + s[n - 1]
    ensures Sum(s[..0]) == 0 && s[..|s|] == s
  {
    assert s[..n][..n - 1] == s[..n - 1];
  }

  /** What a start-up makes of a version 0 block: channel, data rate and calibration
      stay, version and address are new. */
  lemma UpgradedBlockIs(b: Image, dataRate: byte)
    requires IsVersion0(b)
    ensures var u := Booted(b, dataRate);
      && u[..20] == [0x30, 0x78, 0x42, 0x43, 1] + b[5..15] + [0xe7, 0xe7, 0xe7, 0xe7, 0xe7]
      && u[20] == Sum(u[..20]) % 256
  {
    var u := Upgraded(b, Default(dataRate));
    assert Default(dataRate)[..5] == [0x30, 0x78, 0x42, 0x43, 1];
    assert Default(dataRate)[15..20] == [0xe7, 0xe7, 0xe7, 0xe7, 0xe7];
    assert u[..20] == Default(dataRate)[..5] + b[5..15] + Default(dataRate)[15..20];
    assert Sealed(u)[..20] == u[..20];
  }

  /** The 40-bit radio address: a byte, and 32 bits stored lowest byte first. */
  function Address(b: Image): int {
    Shifted(b[15]) + Word(b[16], b[17], b[18], b[19])
  }

  function Shifted(upper: int): int {
    0x1_0000_0000 * upper
  }

  function Word(b0: int, b1: int, b2: int, b3: int): int {
    b0 + 0x100 * b1 + 0x1_0000 * b2 + 0x100_0000 * b3
  }

  /** Two contents of the EEPROM that differ in the block at most. */
  ghost predicate SameBehind(a: seq<byte>, b: seq<byte>) {
    |a| == |b| == CHIP_SIZE && a[SIZE_V1..] == b[SIZE_V1..]
  }

  lemma SameBehindSelf(a: seq<byte>)
    requires |a| == CHIP_SIZE
    ensures SameBehind(a, a)
  {
  }

  lemma SameBehindTransitive(a: seq<byte>, b: seq<byte>, c: seq<byte>)
    requires SameBehind(a, b) && SameBehind(b, c)
    ensures SameBehind(a, c)
  {
  }

  lemma SameTail(a: seq<byte>, b: seq<byte>)
    requires SameBehind(a, b)
    ensures |a| == |b| == CHIP_SIZE && a[SIZE_V1..] == b[SIZE_V1..]
  {
  }

  lemma SpliceOverBlock(a: seq<byte>, b: seq<byte>, block: Image)
    requires SameBehind(a, b)
    ensures Splice(a, 0, block) == Splice(b, 0, block)
  {
    assert Splice(a, 0, block) == block + a[SIZE_V1..];
    assert Splice(b, 0, block) == block + b[SIZE_V1..];
  }

  lemma PartlyWritten(was: seq<byte>, now: seq<byte>, block: Image, k: nat)
    requires |was| == CHIP_SIZE && k <= SIZE_V1 && WrittenUpTo(was, now, block, 0, k)
    ensures SameBehind(was, now)
  {
    if k > 0 {
      SpliceHolds(was, 0, block[..k]);
      assert now[SIZE_V1..] == now[k..][SIZE_V1 - k..];
      assert was[SIZE_V1..] == was[k..][SIZE_V1 - k..];
    }
  }

  lemma SealedBlockAgrees(was: seq<byte>, block: Image)
    requires |was| == CHIP_SIZE
    ensures Splice(was, 0, Sealed(block))[..SIZE_V1 - 1] == block[..SIZE_V1 - 1]
    ensures Sealed(block)[..SIZE_V1 - 1] == block[..SIZE_V1 - 1]
  {
    assert Splice(was, 0, Sealed(block))[..SIZE_V1] == Sealed(block);
  }

  lemma AlreadyThere(was: seq<byte>, image: Image)
    requires |was| == CHIP_SIZE && was[..SIZE_V1] == image
    ensures Splice(was, 0, image) == was
    ensures was[..SIZE_V1 - 1] == image[..SIZE_V1 - 1]
  {
    assert was == was[..SIZE_V1] + was[SIZE_V1..];
  }

  /** Two blocks that differ in the checksum at most. */
  predicate SameFields(a: Image, b: Image) {
    a[..SIZE_V1 - 1] == b[..SIZE_V1 - 1]
  }

  lemma SealedAlike(a: Image, b: Image)
    requires SameFields(a, b)
    ensures Sealed(a) == Sealed(b)
  {
    assert a == a[..SIZE_V1 - 1] + [a[SIZE_V1 - 1]];
    assert b == b[..SIZE_V1 - 1] + [b[SIZE_V1 - 1]];
    assert Sealed(a) == a[..SIZE_V1 - 1] + [Checksum(a[..SIZE_V1 - 1])];
    assert Sealed(b) == b[..SIZE_V1 - 1] + [Checksum(b[..SIZE_V1 - 1])];
  }

  lemma SealedKeepsFields(a: Image, b: Image)
    requires SameFields(a, b)
    ensures SameFields(Sealed(a), b)
  {
  }

  lemma UpgradedAlike(image: Image, a: Image, b: Image)
    requires SameFields(a, b)
    ensures SameFields(Upgraded(image, a), Upgraded(image, b))
  {
    assert Upgraded(image, a)[..SIZE_V1 - 1]
        == a[..SIZE_V1 - 1][..HEADER_SIZE] + image[HEADER_SIZE..SIZE_V0 - 1] + a[..SIZE_V1 - 1][SIZE_V0 - 1..];
    assert Upgraded(image, b)[..SIZE_V1 - 1]
        == b[..SIZE_V1 - 1][..HEADER_SIZE] + image[HEADER_SIZE..SIZE_V0 - 1] + b[..SIZE_V1 - 1][SIZE_V0 - 1..];
  }

  lemma UpgradeIs(image: Image, block: Image, default: Image)
    requires image[VERSION_AT] == 0 ==> block == Splice(default, HEADER_SIZE, image[HEADER_SIZE..SIZE_V0 - 1])
    ensures image[VERSION_AT] == 0 ==> block == Upgraded(image, default)
  {
  }

  class Config {
    const chip: Chip
    const dataRate: byte
    var configblock: Image
    var configblockDefault: Image
    var isInit: bool
    var cbOk: bool

    /** The state after power-up. */
    constructor (chip: Chip, dataRate: byte)
      ensures this.chip == chip && this.dataRate == dataRate
      ensures configblockDefault == Default(dataRate) && !isInit && !cbOk
    {
      this.chip := chip;
      this.dataRate := dataRate;
      configblock := seq(SIZE_V1, _ => 0);
      configblockDefault := Default(dataRate);
      isInit, cbOk := false, false;
    }

    /** Apart from the checksum, memory and EEPROM hold the same block. */
    ghost predicate Agrees()
      reads this, chip, chip.cells
      requires chip.Sized()
    {
      cbOk && configblock[..SIZE_V1 - 1] == chip.cells[..SIZE_V1 - 1]
    }

    /** From access `from` on, the chip acknowledges the second connection test and
        the read of a start-up, and never refuses ten times in a row. */
    ghost predicate Responsive(from: nat) {
      chip.acknowledges(from + 1) && chip.acknowledges(from + 2) && forall t: nat :: chip.Answers(t, 10)
    }

    lemma WritesPass(from: nat)
      ensures Responsive(from) ==> forall t: nat :: chip.Passes(t, 1)
    {
      if Responsive(from) {
        forall t: nat ensures chip.Passes(t, 1) {
          chip.PatientlyPasses(t, 1);
        }
      }
    }

    /** Before a start-up, also after one that failed, the defaults are in place;
        their checksum may have been set. */
    predicate Startable()
      reads this
    {
      !isInit ==> !cbOk && SameFields(configblockDefault, Default(dataRate))
    }

    /** Sets the checksum of `block` and writes it to the EEPROM. */
    method Write(block: Image) returns (status: bool, sealed: Image)
      requires chip.Sized()
      modifies chip, chip.cells
      ensures sealed == Sealed(block)
      ensures status ==> chip.cells[..] == Splice(old(chip.cells[..]), 0, sealed)
      ensures !status ==>
        exists k :: 0 <= k <= SIZE_V1 && WrittenUpTo(old(chip.cells[..]), chip.cells[..], sealed, 0, k)
      ensures SameBehind(old(chip.cells[..]), chip.cells[..])
      ensures status <==> chip.Passes(old(chip.accesses), 1)
    {
      ghost var was := chip.cells[..];
      var cksum := CalculateCksum(block[..SIZE_V1 - 1]);
      sealed := block[SIZE_V1 - 1 := cksum];
      status := chip.WriteBuffer(sealed, 0);
      if status {
        SpliceHolds(was, 0, sealed);
      } else {
        ghost var k :| 0 <= k <= SIZE_V1 && WrittenUpTo(was, chip.cells[..], sealed, 0, k);
        PartlyWritten(was, chip.cells[..], sealed, k);
      }
    }

    method CheckDataIntegrity(data: Image, version: byte) returns (status: bool)
      ensures version == 0 ==> (status <==> data[SIZE_V0 - 1] == Checksum(data[..SIZE_V0 - 1]))
      ensures version == 1 ==> (status <==> data[SIZE_V1 - 1] == Checksum(data[..SIZE_V1 - 1]))
      ensures version > 1 ==> !status
    {
      status := false;
      if version == 0 {
        var cksum := CalculateCksum(data[..SIZE_V0 - 1]);
        status := data[SIZE_V0 - 1] == cksum;
      } else if version == 1 {
        var cksum := CalculateCksum(data[..SIZE_V1 - 1]);
        status := data[SIZE_V1 - 1] == cksum;
      }
    }

    method CopyToNewVersion(saved: Image, new_: Image) returns (status: bool, result: Image)
      ensures status <==> saved[VERSION_AT] <= VERSION
      ensures result == if !status then saved
                        else var end := if saved[VERSION_AT] == 0 then SIZE_V0 - 1 else SIZE_V1 - 1;
                             Splice(new_, HEADER_SIZE, saved[HEADER_SIZE..end])
    {
      var sizes := [SIZE_V0, SIZE_V1];
      result := saved;
      if saved[VERSION_AT] <= VERSION && SIZE_V1 >= sizes[saved[VERSION_AT]] {
        var length := sizes[saved[VERSION_AT]] - OVERHEAD_SIZE;
        var tmp := new_;
        tmp := Splice(tmp, HEADER_SIZE, saved[HEADER_SIZE..HEADER_SIZE + length]);
        result := tmp;
        status := true;
      } else {
        status := false;
      }
    }

    /** Starts the configuration up.  Over a working bus the EEPROM then holds
        `Booted` of what it held; over any bus, success leaves that or the
        sealed defaults, and nothing behind the block changes. */
    method Init() returns (result: int)
      requires chip.Sized()
      requires Startable()
      modifies this, chip, chip.cells
      ensures Startable()
      ensures old(isInit) ==> result == 0 && unchanged(this) && unchanged(chip.cells)
      ensures result == 0 || result == -1
      ensures result == 0 <==> isInit
      ensures !old(isInit) && result == 0 ==> Agrees()
      ensures !old(isInit) && result == 0 ==>
        || chip.cells[..] == Splice(old(chip.cells[..]), 0, Booted(old(chip.cells[..SIZE_V1]), dataRate))
        || chip.cells[..] == Splice(old(chip.cells[..]), 0, Sealed(Default(dataRate)))
      ensures chip.cells[SIZE_V1..] == old(chip.cells[SIZE_V1..])
      ensures !old(isInit) && Responsive(old(chip.accesses)) ==>
        && result == 0
        && chip.cells[..] == Splice(old(chip.cells[..]), 0, Booted(old(chip.cells[..SIZE_V1]), dataRate))
    {
      if isInit {
        return 0;
      }
      hide Splice, Booted, Sealed, SameBehind, WrittenUpTo, Default, SameFields, Responsive;
      WritesPass(chip.accesses);
      ghost var was := chip.cells[..];
      SealedAlike(configblockDefault, Default(dataRate));
      SealedKeepsFields(configblockDefault, Default(dataRate));
      LoadSaved();
      if !cbOk {
        ghost var now := chip.cells[..];
        SpliceOverBlock(was, now, Sealed(configblockDefault));
        // The copy in memory is made before the checksum is set.
        configblock := configblockDefault;
        var written, sealed := Write(configblockDefault);
        SameBehindTransitive(was, now, chip.cells[..]);
        configblockDefault := sealed;
        if written {
          SealedBlockAgrees(now, configblock);
          cbOk := true;
        } else {
          SameTail(was, chip.cells[..]);
          return -1;
        }
      }
      SameTail(was, chip.cells[..]);
      isInit := true;
      return 0;
    }

    /** The part of the start-up that looks for a saved block. */
    method LoadSaved()
      requires chip.Sized() && !isInit && Startable()
      modifies this`configblock, this`cbOk, chip, chip.cells
      ensures SameBehind(old(chip.cells[..]), chip.cells[..])
      ensures cbOk ==> Agrees()
      ensures cbOk ==> chip.cells[..] == Splice(old(chip.cells[..]), 0, Booted(old(chip.cells[..SIZE_V1]), dataRate))
      ensures Responsive(old(chip.accesses)) && !cbOk ==>
        Booted(old(chip.cells[..SIZE_V1]), dataRate) == Sealed(Default(dataRate))
    {
      hide Splice, Sealed, SameBehind, WrittenUpTo, Default, Checksum, Upgraded, SameFields;
      WritesPass(chip.accesses);
      ghost var was, image := chip.cells[..], chip.cells[..SIZE_V1];
      SameBehindSelf(was);
      // The first access is made for its side effects on the bus only.
      var connected := chip.Poll();
      connected := chip.Poll();
      if connected {
        var read, data := chip.ReadBuffer(0, configblock);
        configblock := data;
        if read {
          assert data == image;
          if configblock[..4] == MAGIC {
            if configblock[VERSION_AT] == VERSION {
              var cksum := CalculateCksum(configblock[..SIZE_V1 - 1]);
              cbOk := configblock[SIZE_V1 - 1] == cksum;
              AlreadyThere(was, image);
            } else {
              var intact := CheckDataIntegrity(configblock, configblock[VERSION_AT]);
              if configblock[VERSION_AT] <= VERSION && intact {
                var copied, block := CopyToNewVersion(configblock, configblockDefault);
                UpgradeIs(image, block, configblockDefault);
                UpgradedAlike(image, configblockDefault, Default(dataRate));
                if image[VERSION_AT] == 0 {
                  SealedAlike(block, Upgraded(image, Default(dataRate)));
                }
                configblock := block;
                if copied {
                  var written, sealed := Write(configblock);
                  configblock := sealed;
                  if written {
                    SealedBlockAgrees(was, block);
                    cbOk := true;
                  }
                }
              } else {
                cbOk := false;
              }
            }
          }
        }
      }
      assert chip.cells[..SIZE_V1 - 1] == chip.cells[..][..SIZE_V1 - 1];
    }

    method GetRadioChannel() returns (channel: byte)
      requires chip.Sized()
      ensures channel == if cbOk then configblock[5] else 80
      ensures Agrees() ==> channel == chip.cells[5]
    {
      if cbOk {
        FieldsAgree();
        channel := configblock[CHANNEL_AT];
      } else {
        channel := RADIO_CHANNEL;
      }
    }

    method GetRadioAddress() returns (address: int)
      requires chip.Sized()
      ensures !cbOk ==> address == 0xe7_e7e7_e7e7
      ensures cbOk ==>
        var b := configblock;
        address == b[16] as int + 0x100 * b[17] as int + 0x1_0000 * b[18] as int + 0x100_0000 * b[19] as int
                     + 0x1_0000_0000 * b[15] as int
      ensures Agrees() ==> address == Address(chip.cells[..SIZE_V1])
    {
      if cbOk {
        FieldsAgree();
        var upper, lower := configblock[15], Word(configblock[16], configblock[17], configblock[18], configblock[19]);
        address := Shifted(upper) + lower;
      } else {
        address := RADIO_ADDRESS;
      }
    }

    lemma FieldsAgree()
      requires chip.Sized()
      ensures Agrees() ==> forall i :: 0 <= i < SIZE_V1 - 1 ==> configblock[i] == chip.cells[i]
    {
      if Agrees() {
        forall i | 0 <= i < SIZE_V1 - 1 ensures configblock[i] == chip.cells[i] {
          assert configblock[..SIZE_V1 - 1][i] == chip.cells[..SIZE_V1 - 1][i];
        }
      }
    }
  }
}
