/** Command and status wrappers (src/usb_mass_storage/usb_host_msc/src/msc_scsi_bot.c; sections 5.1
    and 5.2 of USB Mass Storage Class Bulk-Only Transport 1.0). */
module Cbw {
  import opened Words

  const CBW_SIZE: nat := 31
  const CBW_SIGNATURE: u32 := 0x43425355
  const CSW_SIGNATURE: u32 := 0x53425355
  const SENSE_SIZE: nat := 18
  const INQUIRY_SIZE: nat := 36
  const CAPACITY_SIZE: nat := 8

  /** The SCSI commands the driver sends. */
  datatype Cdb =
    | TestUnitReady
    | RequestSense(alloc: byte)
    | Inquiry(alloc: byte)
    | ReadCapacity
    | Read10(lba: u32, count: u16)
    | Write10(lba: u32, count: u16)

  datatype Cbw = Cbw(tag: u32, dataLength: u32, dirIn: bool, cdb: Cdb)

  datatype Csw = Csw(signature: u32, tag: u32, residue: u32, status: byte)

  /** The packed command block, with the multi-byte fields byte-swapped to big-endian. */
  function CdbBytes(cdb: Cdb): (b: seq<byte>)
    ensures 10 <= |b| <= 12
  {
    match cdb
    case TestUnitReady => [0, 0] + [0, 0, 0, 0, 0, 0, 0, 0, 0, 0]
    case RequestSense(alloc) => [0x03, 0, 0, 0, alloc] + [0, 0, 0, 0, 0, 0, 0]
    case Inquiry(alloc) => [0x12, 0, 0, 0, alloc] + [0, 0, 0, 0, 0, 0, 0]
    case ReadCapacity => [0x25, 0, 0, 0, 0, 0] + [0, 0, 0, 0, 0, 0]
    case Read10(lba, count) => [0x28, 0] + Be32(lba) + [0] + Be16(count) + [0, 0, 0]
    case Write10(lba, count) => [0x2A, 0] + Be32(lba) + [0] + Be16(count) + [0]
  }

  /** The 31 bytes that go out: the wrapper, the command block, and whatever follows it in memory. */
  function Encode(c: Cbw, memory: seq<byte>): (b: seq<byte>)
    requires |memory| == 6
    ensures |b| == CBW_SIZE
  {
    var block := CdbBytes(c.cdb);
    Le32(CBW_SIGNATURE) + Le32(c.tag) + Le32(c.dataLength) + [if c.dirIn then 0x80 else 0, 0, |block|]
    + block + memory[..16 - |block|]
  }

  /** How a device with one logical unit reads them: only `bCBWCBLength` bytes of the command block mean anything. */
  function Decode(b: seq<byte>): Option<Cbw> {
    if |b| != CBW_SIZE || FromLe32(b[..4]) != CBW_SIGNATURE || b[13] != 0 || b[14] < 10 then None
    else
      var cdb := DecodeCdb(b[15..]);
      if cdb.None? then None else Some(Cbw(FromLe32(b[4..8]), FromLe32(b[8..12]), b[12] >= 0x80, cdb.value))
  }

  function DecodeCdb(b: seq<byte>): Option<Cdb>
    requires |b| == 16
  {
    if b[0] == 0x00 then Some(TestUnitReady)
    else if b[0] == 0x03 then Some(RequestSense(b[4]))
    else if b[0] == 0x12 then Some(Inquiry(b[4]))
    else if b[0] == 0x25 then Some(ReadCapacity)
    else if b[0] == 0x28 then Some(Read10(FromBe32(b[2..6]), FromBe16(b[7..9])))
    else if b[0] == 0x2A then Some(Write10(FromBe32(b[2..6]), FromBe16(b[7..9])))
    else None
  }

  lemma CdbRoundTrip(cdb: Cdb, rest: seq<byte>)
    requires |CdbBytes(cdb)| + |rest| == 16
    ensures DecodeCdb(CdbBytes(cdb) + rest) == Some(cdb)
  {
    var b := CdbBytes(cdb) + rest;
    if cdb.Read10? || cdb.Write10? {
      AddressBytes(if cdb.Read10? then 0x28 else 0x2A, Be32(cdb.lba), Be16(cdb.count), b[9..]);
      assert b == [if cdb.Read10? then 0x28 else 0x2A, 0] + Be32(cdb.lba) + [0] + Be16(cdb.count) + b[9..];
      Be32RoundTrip(cdb.lba);
      Be16RoundTrip(cdb.count);
    }
  }

  lemma AddressBytes(opcode: byte, address: seq<byte>, length: seq<byte>, rest: seq<byte>)
    requires |address| == 4 && |length| == 2
    ensures var b := [opcode, 0] + address + [0] + length + rest;
            b[0] == opcode && b[2..6] == address && b[7..9] == length
  {
  }

  /** The device decodes exactly the command the driver meant, whatever the padding holds. */
  lemma CbwRoundTrip(c: Cbw, memory: seq<byte>)
    requires |memory| == 6
    ensures Decode(Encode(c, memory)) == Some(c)
  {
    var b := Encode(c, memory);
    var block := CdbBytes(c.cdb);
    assert b[..4] == Le32(CBW_SIGNATURE) && b[4..8] == Le32(c.tag) && b[8..12] == Le32(c.dataLength);
    assert b[15..] == block + memory[..16 - |block|];
    Le32RoundTrip(CBW_SIGNATURE);
    Le32RoundTrip(c.tag);
    Le32RoundTrip(c.dataLength);
    CdbRoundTrip(c.cdb, memory[..16 - |block|]);
  }

  predicate OpcodeIs(cdb: Cdb, code: byte) {
    match cdb
    case TestUnitReady => code == 0x00
    case RequestSense(_) => code == 0x03
    case Inquiry(_) => code == 0x12
    case ReadCapacity => code == 0x25
    case Read10(_, _) => code == 0x28
    case Write10(_, _) => code == 0x2A
  }

  /** The bytes of a command block that hold an argument. */
  predicate IsArgument(cdb: Cdb, i: nat) {
    match cdb
    case RequestSense(_) => i == 4
    case Inquiry(_) => i == 4
    case Read10(_, _) => 2 <= i <= 5 || i == 7 || i == 8
    case Write10(_, _) => 2 <= i <= 5 || i == 7 || i == 8
    case _ => false
  }

  /** The bytes that are the same for every command of a kind: signature, direction, logical unit, length of the
      command block, opcode, and zeros but for the arguments. */
  lemma WrapperBytes(c: Cbw, memory: seq<byte>)
    requires |memory| == 6
    ensures var b := Encode(c, memory);
            && |b| == 31 && b[..4] == [0x55, 0x53, 0x42, 0x43] && b[12] == (if c.dirIn then 0x80 else 0x00)
            && b[13] == 0 && b[14] == (if c.cdb.Write10? then 10 else 12) && OpcodeIs(c.cdb, b[15])
            && (forall i: nat :: 1 <= i < b[14] && !IsArgument(c.cdb, i) ==> b[15 + i] == 0)
            && b[15 + b[14]..] == memory[..16 - b[14]]
  {
    var b := Encode(c, memory);
    var block := CdbBytes(c.cdb);
    assert Le32(CBW_SIGNATURE) == [0x55, 0x53, 0x42, 0x43];
    Layout(Le32(CBW_SIGNATURE) + Le32(c.tag) + Le32(c.dataLength), [b[12], b[13], b[14]], block,
           memory[..16 - |block|], b);
    BlockBytes(c.cdb);
    forall i: nat | 1 <= i < |block| ensures b[15 + i] == block[i] {
      assert b[15 + i] == b[15..15 + |block|][i];
    }
  }

  lemma BlockBytes(cdb: Cdb)
    ensures var b := CdbBytes(cdb);
            && |b| == (if cdb.Write10? then 10 else 12) && OpcodeIs(cdb, b[0])
            && forall i: nat :: 1 <= i < |b| && !IsArgument(cdb, i) ==> b[i] == 0
  {
  }

  lemma Layout(words: seq<byte>, flags: seq<byte>, block: seq<byte>, rest: seq<byte>, b: seq<byte>)
    requires |words| == 12 && |flags| == 3 && |block| > 0 && b == words + flags + block + rest
    ensures b[..12] == words && b[12..15] == flags && b[15] == block[0]
    ensures b[15..15 + |block|] == block && b[15 + |block|..] == rest
  {
  }

  predicate GoodStatus(csw: Csw) {
    csw.signature == CSW_SIGNATURE && csw.residue == 0 && csw.status == 0
  }

  /** `check_csw`. */
  function CheckCsw(csw: Csw, tag: u32): EspErr {
    if csw.signature == CSW_SIGNATURE && csw.tag == tag && csw.residue == 0 && csw.status == 0
    then ESP_OK else ESP_FAIL
  }
}
