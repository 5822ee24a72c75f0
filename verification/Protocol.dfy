/** The frames of the SPI link (src/spi_link/protocol.rs) and the responses the slave stages
    (src/spi_link/transport.rs). */
module Protocol {
  import opened Words
  import Crc

  type Magic = m: seq<byte> | |m| == 2 witness [0, 0]

  const MAGIC: Magic := [0x42, 0x4B]
  const VERSION: byte := 1
  const RESP_FLAG: nat := 0x80
  const MAX_PAYLOAD: nat := 8192
  const HDR_LEN: nat := 16
  const RX_LEN: nat := HDR_LEN + MAX_PAYLOAD + Crc.CRC_LEN

  /** Bytes in `k` full payloads. */
  function PayloadBytes(k: nat): nat {
    8192 * k
  }

  datatype Cmd = GetStatus | GetCapacity | Read | Write | Flush

  datatype Header = Header(magic: Magic, version: byte, cmd: byte, seqNo: u16, reserved: u16, arg0: u32, arg1: u32) {
    predicate IsValid() {
      magic == MAGIC && version == VERSION
    }

    predicate IsResponse() {
      cmd >= RESP_FLAG
    }

    function CmdBase(): byte {
      cmd % RESP_FLAG
    }

    function CmdEnum(): Option<Cmd> {
      FromU8(CmdBase())
    }

    /** The packed little-endian image of the header. */
    function Encode(): (b: seq<byte>)
      ensures |b| == HDR_LEN
    {
      magic + [version, cmd] + Le16(seqNo) + Le16(reserved) + Le32(arg0) + Le32(arg1)
    }
  }

  function FromU8(v: byte): Option<Cmd> {
    if v == 1 then Some(GetStatus)
    else if v == 2 then Some(GetCapacity)
    else if v == 3 then Some(Read)
    else if v == 4 then Some(Write)
    else if v == 5 then Some(Flush)
    else None
  }

  function DecodeHeader(b: seq<byte>): Header
    requires |b| == HDR_LEN
  {
    Header(b[..2], b[2], b[3], FromLe16(b[4..6]), FromLe16(b[6..8]), FromLe32(b[8..12]), FromLe32(b[12..16]))
  }

  /** Bytes 1 to 5 are the commands, with or without the response flag; all others are none. */
  predicate MeansCommand(code: byte, cmd: Option<Cmd>) {
    match cmd
    case Some(GetStatus) => code == 0x01 || code == 0x81
    case Some(GetCapacity) => code == 0x02 || code == 0x82
    case Some(Read) => code == 0x03 || code == 0x83
    case Some(Write) => code == 0x04 || code == 0x84
    case Some(Flush) => code == 0x05 || code == 0x85
    case None => code == 0 || 0x05 < code <= 0x80 || 0x85 < code
  }

  /** The word in four bytes, low byte first. */
  function WordIn(b: seq<byte>): nat
    requires |b| == 4
  {
    b[0] as nat + 0x100 * b[1] as nat + 0x10000 * b[2] as nat + 0x1000000 * b[3] as nat
  }

  /** The bytes of a header, one by one. */
  predicate Spells(b: seq<byte>, h: Header)
    requires |b| == 16
  {
    && b[0] == 0x42 && b[1] == 0x4B && b[2] == 1 && MeansCommand(b[3], h.CmdEnum())
    && h.seqNo == b[4] as nat + 0x100 * b[5] as nat && h.reserved == b[6] as nat + 0x100 * b[7] as nat
    && h.arg0 == WordIn(b[8..12]) && h.arg1 == WordIn(b[12..16])
  }

  /** Sixteen bytes are a request exactly if they begin with the magic and the version, and then they spell it. */
  lemma RequestBytes(b: seq<byte>)
    requires |b| == 16
    ensures DecodeHeader(b).IsValid() <==> b[0] == 0x42 && b[1] == 0x4B && b[2] == 1
    ensures DecodeHeader(b).IsValid() ==> Spells(b, DecodeHeader(b))
  {
    assert b[..2] == [b[0], b[1]];
    assert FromLe32(b[8..12]) == WordIn(b[8..12]) && FromLe32(b[12..16]) == WordIn(b[12..16]);
  }

  lemma HeaderRoundTrip(h: Header)
    ensures DecodeHeader(h.Encode()) == h
  {
    var b := h.Encode();
    Le16RoundTrip(h.seqNo);
    Le16RoundTrip(h.reserved);
    Le32RoundTrip(h.arg0);
    Le32RoundTrip(h.arg1);
    assert b[..2] == h.magic && b[4..6] == Le16(h.seqNo) && b[6..8] == Le16(h.reserved);
    assert b[8..12] == Le32(h.arg0) && b[12..16] == Le32(h.arg1);
  }

  /** `Header::response_for`. */
  function ResponseFor(req: Header, status: EspErr): Header {
    Header(MAGIC, VERSION, req.CmdBase() + RESP_FLAG, req.seqNo, 0, StatusWord(status), 0)
  }

  function EncodeCapacity(blockSize: u32, blockCount: u32): (b: seq<byte>)
    ensures |b| == 8
  {
    Le32(blockSize) + Le32(blockCount)
  }

  lemma CapacityRoundTrip(blockSize: u32, blockCount: u32)
    ensures FromLe32(EncodeCapacity(blockSize, blockCount)[..4]) == blockSize
    ensures FromLe32(EncodeCapacity(blockSize, blockCount)[4..]) == blockCount
  {
    Le32RoundTrip(blockSize);
    Le32RoundTrip(blockCount);
    assert EncodeCapacity(blockSize, blockCount)[..4] == Le32(blockSize);
    assert EncodeCapacity(blockSize, blockCount)[4..] == Le32(blockCount);
  }

  // ----- Response frames -----

  function ResponseHeader(req: Header, status: EspErr, arg1: u32): Header {
    ResponseFor(req, status).(reserved := req.reserved, arg1 := arg1)
  }

  /** What `arm_response_with_arg1` stages. */
  function InlineFrame(req: Header, status: EspErr, arg1: u32, payload: seq<byte>): (f: seq<byte>)
    ensures HDR_LEN <= |f| <= RX_LEN
  {
    ResponseHeader(req, status, arg1).Encode() + payload[..Min(|payload|, RX_LEN - HDR_LEN)]
  }

  /** What `arm_response_from_block_buf` stages. */
  function ReadFrame(req: Header, status: EspErr, arg1: u32, data: seq<byte>): (f: seq<byte>)
    ensures HDR_LEN <= |f| <= RX_LEN
  {
    var kept := data[..Min(|data|, MAX_PAYLOAD)];
    ResponseHeader(req, status, arg1).Encode() + (if kept == [] then [] else kept + Crc.Trailer(kept))
  }

  lemma ReadFrameIs(req: Header, status: EspErr, arg1: u32, data: seq<byte>)
    requires |data| <= MAX_PAYLOAD
    ensures ReadFrame(req, status, arg1, data)
         == ResponseHeader(req, status, arg1).Encode() + (if data == [] then [] else data + Crc.Trailer(data))
  {
    assert data[..Min(|data|, MAX_PAYLOAD)] == data;
  }

  // ----- The master's view of a response -----

  function StatusIn(frame: seq<byte>): EspErr
    requires |frame| >= HDR_LEN
  {
    StatusOf(DecodeHeader(frame[..HDR_LEN]).arg0)
  }

  function ArgIn(frame: seq<byte>): u32
    requires |frame| >= HDR_LEN
  {
    DecodeHeader(frame[..HDR_LEN]).arg1
  }

  /** The response belongs to the request: flagged, same command, same sequence number and chunk. */
  ghost predicate Answers(frame: seq<byte>, req: Header) {
    && |frame| >= HDR_LEN
    && var h := DecodeHeader(frame[..HDR_LEN]);
    && h.IsValid() && h.IsResponse()
    && h.CmdBase() == req.CmdBase() && h.seqNo == req.seqNo && h.reserved == req.reserved
  }

  lemma FrameHeader(req: Header, status: EspErr, arg1: u32, frame: seq<byte>)
    requires |frame| >= HDR_LEN && frame[..HDR_LEN] == ResponseHeader(req, status, arg1).Encode()
    ensures Answers(frame, req) && StatusIn(frame) == status && ArgIn(frame) == arg1
  {
    HeaderRoundTrip(ResponseHeader(req, status, arg1));
    StatusRoundTrip(status);
  }

  lemma InlineFrameRoundTrip(req: Header, status: EspErr, arg1: u32, payload: seq<byte>)
    ensures var f := InlineFrame(req, status, arg1, payload);
            && Answers(f, req) && StatusIn(f) == status && ArgIn(f) == arg1
            && (|payload| <= RX_LEN - HDR_LEN ==> f[HDR_LEN..] == payload)
  {
    var f := InlineFrame(req, status, arg1, payload);
    assert f[..HDR_LEN] == ResponseHeader(req, status, arg1).Encode();
    FrameHeader(req, status, arg1, f);
  }

  lemma ReadFrameRoundTrip(req: Header, status: EspErr, arg1: u32, data: seq<byte>)
    requires 0 < |data| <= MAX_PAYLOAD
    ensures var f := ReadFrame(req, status, arg1, data);
            && Answers(f, req) && StatusIn(f) == status && ArgIn(f) == arg1
            && |f| == HDR_LEN + |data| + Crc.CRC_LEN
            && f[HDR_LEN..HDR_LEN + |data|] == data
            && Crc.Accepts(f[HDR_LEN..])
  {
    var f := ReadFrame(req, status, arg1, data);
    var h := ResponseHeader(req, status, arg1).Encode();
    assert data[..Min(|data|, MAX_PAYLOAD)] == data;
    FrameParts(h, data, Crc.Trailer(data), f);
    FrameHeader(req, status, arg1, f);
    Crc.IntactFrameAccepted(data);
  }

  lemma FrameParts(h: seq<byte>, data: seq<byte>, trailer: seq<byte>, f: seq<byte>)
    requires |h| == HDR_LEN && f == h + (data + trailer)
    ensures f[..HDR_LEN] == h && f[HDR_LEN..] == data + trailer && f[HDR_LEN..HDR_LEN + |data|] == data
  {
  }
}
