/** The SPI slave: one command at a time, header, optional payload, response
    (src/spi_link/transport.rs). */
module SpiLinks {
  import opened Chunking
  import opened Commands
  import opened Disk
  import opened Driver
  import opened Protocol
  import opened Words
  import Crc

  datatype Phase = HeaderPhase | PayloadPhase | ResponsePhase

  /** What happens on the wire: the READY line, and transfers with the bytes the slave clocks out. */
  datatype SpiEvent = ReadyLine(high: bool) | Transfer(phase: Phase, len: nat, sent: seq<byte>, ok: bool)

  /** The same without contents and outcomes. */
  datatype Mark = High | Low | Xfer(phase: Phase)

  function MarkOf(e: SpiEvent): Mark {
    match e
    case ReadyLine(high) => if high then High else Low
    case Transfer(phase, _, _, _) => Xfer(phase)
  }

  function Marks(wire: seq<SpiEvent>): seq<Mark> {
    if wire == [] then [] else Marks(wire[..|wire| - 1]) + [MarkOf(wire[|wire| - 1])]
  }

  lemma {:induction false} MarksConcat(a: seq<SpiEvent>, b: seq<SpiEvent>)
    ensures Marks(a + b) == Marks(a) + Marks(b)
  {
    if b == [] {
      assert a + b == a;
    } else {
      MarksConcat(a, b[..|b| - 1]);
      assert (a + b)[..|a + b| - 1] == a + b[..|b| - 1];
    }
  }

  /** One high period of READY, around exactly one transfer. */
  function Pulse(phase: Phase): seq<Mark> {
    [High, Xfer(phase), Low]
  }

  lemma PulseMarks(before: seq<SpiEvent>, e: SpiEvent)
    requires e.Transfer?
    ensures Marks(before + [ReadyLine(true), e, ReadyLine(false)]) == Marks(before) + Pulse(e.phase)
  {
    var tail := [ReadyLine(true), e, ReadyLine(false)];
    MarksConcat(before, tail);
    assert tail[..2] == [ReadyLine(true), e] && tail[..2][..1] == [ReadyLine(true)];
    assert Marks([ReadyLine(true)]) == [High];
    assert Marks(tail[..2]) == [High, Xfer(e.phase)];
  }

  /** What the master does around one header: the bytes it clocks out in each transfer, and whether
      the transfer goes through. */
  datatype Exchange = Exchange(headerOk: bool, header: seq<byte>, payloadOk: bool, payload: seq<byte>,
                               responseOk: bool, filler: seq<byte>)

  /** The master clocks each transfer in full. */
  type FullExchange = x: Exchange | |x.header| == HDR_LEN && |x.payload| == MAX_PAYLOAD + Crc.CRC_LEN
    witness Exchange(false, seq(HDR_LEN, i => 0), false, seq(MAX_PAYLOAD + Crc.CRC_LEN, i => 0), false, [])

  /** The request the slave sees, if it sees one. */
  function RequestIn(x: FullExchange): Option<Header> {
    if x.headerOk && DecodeHeader(x.header).IsValid() then Some(DecodeHeader(x.header)) else None
  }

  /** In raw bytes: which headers are requests, and what they say. */
  lemma RequestIsSpelled(x: FullExchange)
    ensures RequestIn(x).Some? <==> x.headerOk && x.header[0] == 0x42 && x.header[1] == 0x4B && x.header[2] == 1
    ensures RequestIn(x).Some? ==> Spells(x.header, RequestIn(x).value)
  {
    RequestBytes(x.header);
  }

  /** The bytes of a response frame, one by one: the header bytes of the request come back, with the response flag, and
      the status and the second argument take the place of its arguments. */
  predicate Replies(frame: seq<byte>, header: seq<byte>, r: Response)
    requires |header| == 16
  {
    && |frame| >= 16 && frame[0] == 0x42 && frame[1] == 0x4B && frame[2] == 1 && frame[3] == 0x80 + header[3] % 0x80
    && frame[4] == header[4] && frame[5] == header[5] && frame[6] == header[6] && frame[7] == header[7]
    && WordIn(frame[8..12]) == (if r.status < 0 then r.status + 0x1_0000_0000 else r.status)
    && WordIn(frame[12..16]) == r.arg1 && frame[16..] == r.body
  }

  lemma ResponseBytes(frame: seq<byte>, header: seq<byte>, r: Response)
    requires |header| == 16 && DecodeHeader(header).IsValid()
    requires DecodeResponse(frame, DecodeHeader(header)) == Some(r)
    ensures Replies(frame, header, r)
  {
    var b := frame[..16];
    RequestBytes(header);
    RequestBytes(b);
    assert b[8..12] == frame[8..12] && b[12..16] == frame[12..16];
    LowHigh(b[4], b[5], header[4], header[5]);
    LowHigh(b[6], b[7], header[6], header[7]);
  }

  lemma LowHigh(a: byte, b: byte, c: byte, d: byte)
    requires a as nat + 0x100 * b as nat == c as nat + 0x100 * d as nat
    ensures a == c && b == d
  {
  }

  /** The transfers after the header of a request. */
  function Tail(req: Header, answered: bool): seq<Mark> {
    PayloadPart(req) + if answered then Pulse(ResponsePhase) else []
  }

  function PayloadPart(req: Header): seq<Mark> {
    if req.CmdEnum() == Some(Write) then Pulse(PayloadPhase) else []
  }

  lemma TailParts(before: seq<Mark>, req: Header)
    ensures before + Tail(req, false) == before + PayloadPart(req)
    ensures before + Tail(req, true) == before + PayloadPart(req) + Pulse(ResponsePhase)
  {
  }

  lemma TailJoined(before: seq<Mark>, req: Header, answered: bool)
    ensures before + PayloadPart(req) + (if answered then Pulse(ResponsePhase) else []) == before + Tail(req, answered)
  {
  }

  lemma ExchangedParts(before: seq<Mark>, req: Option<Header>, answered: bool)
    ensures before + Exchanged(req, answered)
         == before + [Xfer(HeaderPhase)] + (if req.None? then [] else Tail(req.value, answered))
  {
  }

  function Exchanged(req: Option<Header>, answered: bool): seq<Mark> {
    [Xfer(HeaderPhase)] + if req.None? then [] else Tail(req.value, answered)
  }

  /** What the slave sees of each exchange. */
  type Requests = seq<Option<Header>>

  /** Responses are only ever given to requests. */
  ghost predicate Proper(reqs: Requests, responses: seq<Option<Response>>) {
    && |responses| <= |reqs|
    && (responses == [] ||
        var n := |responses| - 1;
        (responses[n].Some? ==> reqs[n].Some?) && Proper(reqs, responses[..n]))
  }

  /** All the transfers of a conversation. */
  function Dialogue(reqs: Requests, responses: seq<Option<Response>>): seq<Mark>
    requires |responses| <= |reqs|
  {
    if responses == [] then []
    else
      var n := |responses| - 1;
      Dialogue(reqs, responses[..n]) + Exchanged(reqs[n], responses[n].Some?)
  }

  /** The transfers of the first `n` exchanges, as the master expects them from the headers alone. */
  function Schedule(reqs: Requests, n: nat): seq<Mark>
    requires n <= |reqs|
  {
    if n == 0 then [] else Schedule(reqs, n - 1) + Exchanged(reqs[n - 1], reqs[n - 1].Some?)
  }

  /** Requests that were not answered. */
  function Unanswered(reqs: Requests, responses: seq<Option<Response>>): nat
    requires |responses| <= |reqs|
  {
    if responses == [] then 0
    else
      var n := |responses| - 1;
      Unanswered(reqs, responses[..n]) + if reqs[n].Some? && responses[n].None? then 1 else 0
  }

  /** Each lost response leaves the conversation short of one READY pulse. */
  lemma {:induction false} LostIsShorter(reqs: Requests, responses: seq<Option<Response>>)
    requires Proper(reqs, responses)
    ensures |Schedule(reqs, |responses|)| == |Dialogue(reqs, responses)| + 3 * Unanswered(reqs, responses)
    decreases |responses|
  {
    if responses != [] {
      var n := |responses| - 1;
      LostIsShorter(reqs, responses[..n]);
      ExchangeLength(reqs[n], responses[n].Some?);
      ExchangeLength(reqs[n], reqs[n].Some?);
    }
  }

  lemma {:induction false} MoreRequests(reqs: Requests, req: Option<Header>, responses: seq<Option<Response>>)
    requires Proper(reqs, responses)
    ensures Proper(reqs + [req], responses)
    ensures Dialogue(reqs + [req], responses) == Dialogue(reqs, responses)
    ensures Unanswered(reqs + [req], responses) == Unanswered(reqs, responses)
    decreases |responses|
  {
    if responses != [] {
      MoreRequests(reqs, req, responses[..|responses| - 1]);
    }
  }

  lemma OneMoreExchange(reqs: Requests, responses: seq<Option<Response>>, req: Option<Header>,
                        response: Option<Response>)
    requires Proper(reqs, responses) && |responses| == |reqs| && (response.Some? ==> req.Some?)
    ensures Proper(reqs + [req], responses + [response])
    ensures Dialogue(reqs + [req], responses + [response]) == Dialogue(reqs, responses) + Exchanged(req, response.Some?)
    ensures Unanswered(reqs + [req], responses + [response])
         == Unanswered(reqs, responses) + if req.Some? && response.None? then 1 else 0
  {
    MoreRequests(reqs, req, responses);
    assert (responses + [response])[..|responses|] == responses;
  }

  lemma ExchangeLength(req: Option<Header>, answered: bool)
    requires answered ==> req.Some?
    ensures |Exchanged(req, answered)| == |Exchanged(req, false)| + if answered then 3 else 0
  {
  }

  lemma {:induction false} NothingLost(reqs: Requests, responses: seq<Option<Response>>)
    requires Proper(reqs, responses) && Unanswered(reqs, responses) == 0
    ensures Dialogue(reqs, responses) == Schedule(reqs, |responses|)
    decreases |responses|
  {
    if responses != [] {
      var n := |responses| - 1;
      NothingLost(reqs, responses[..n]);
      assert responses[n].Some? == reqs[n].Some?;
      assert Dialogue(reqs, responses) == Dialogue(reqs, responses[..n]) + Exchanged(reqs[n], reqs[n].Some?);
    }
  }

  /** The transfers are those the headers call for exactly when every request has been answered. */
  lemma InPhaseIffNothingLost(reqs: Requests, responses: seq<Option<Response>>)
    requires Proper(reqs, responses)
    ensures Dialogue(reqs, responses) == Schedule(reqs, |responses|) <==> Unanswered(reqs, responses) == 0
  {
    LostIsShorter(reqs, responses);
    if Unanswered(reqs, responses) == 0 {
      NothingLost(reqs, responses);
    }
  }

  /** One missing response is enough. */
  lemma LostPayloadOutOfPhase(h: Header)
    requires h.CmdEnum() == Some(Write)
    ensures Dialogue([Some(h)], [None]) == [Xfer(HeaderPhase)] + Pulse(PayloadPhase)
    ensures Dialogue([Some(h)], [None]) != Schedule([Some(h)], 1)
  {
    assert Dialogue([Some(h)], []) == [];
    LostIsShorter([Some(h)], [None]);
  }

  lemma OneExchange(req: Option<Header>, response: Option<Response>)
    ensures Dialogue([req], [response]) == Exchanged(req, response.Some?)
  {
    assert [response][..0] == [] && Dialogue([req], []) == [];
  }

  // ----- What the slave does about a script -----

  function RequestsIn(script: seq<FullExchange>): (r: Requests)
    ensures |r| == |script|
  {
    seq(|script|, i requires 0 <= i < |script| => RequestIn(script[i]))
  }

  /** A request has a response unless it is a Write whose chunk was accepted, by the capacity known at that
      time, and whose payload transfer failed. */
  ghost predicate Answered(reqs: Requests, script: seq<FullExchange>, caps: seq<Capacity>,
                           responses: seq<Option<Response>>) {
    && |caps| == |responses| <= |script| == |reqs|
    && (responses == [] ||
        var n := |responses| - 1;
        && (responses[n].Some? <==>
              reqs[n].Some? && !LosesPayloadBy(reqs[n], script[n].payloadOk, caps[n]))
        && Answered(reqs, script, caps[..n], responses[..n]))
  }

  /** One capacity was in force throughout. */
  predicate AllAre(caps: seq<Capacity>, cap: Capacity) {
    forall i :: 0 <= i < |caps| ==> caps[i] == cap
  }

  lemma AllAreStep(caps: seq<Capacity>, cap: Capacity)
    ensures AllAre(caps, cap) ==> AllAre(caps + [cap], cap)
  {
  }

  /** No accepted Write lost its payload. */
  ghost predicate NoneLost(reqs: Requests, script: seq<FullExchange>, caps: seq<Capacity>)
    requires |caps| <= |script| == |reqs|
  {
    forall i :: 0 <= i < |caps| ==> !LosesPayloadBy(reqs[i], script[i].payloadOk, caps[i])
  }

  lemma {:induction false} LostIffPayloadLost(reqs: Requests, script: seq<FullExchange>, caps: seq<Capacity>,
                                              responses: seq<Option<Response>>)
    requires Answered(reqs, script, caps, responses)
    ensures Proper(reqs, responses)
    ensures Unanswered(reqs, responses) == 0 <==> NoneLost(reqs, script, caps)
    decreases |responses|
  {
    if responses != [] {
      var n := |responses| - 1;
      LostIffPayloadLost(reqs, script, caps[..n], responses[..n]);
      assert caps == caps[..n] + [caps[n]];
      NoneLostStep(reqs, script, caps[..n], caps[n]);
    }
  }

  lemma NoneLostStep(reqs: Requests, script: seq<FullExchange>, caps: seq<Capacity>, cap: Capacity)
    requires |caps| < |script| == |reqs|
    ensures NoneLost(reqs, script, caps + [cap])
       <==> NoneLost(reqs, script, caps) && !LosesPayloadBy(reqs[|caps|], script[|caps|].payloadOk, cap)
  {
    var all := caps + [cap];
    assert all[|caps|] == cap && all[..|caps|] == caps;
    if NoneLost(reqs, script, all) {
      forall i | 0 <= i < |caps| ensures !LosesPayloadBy(reqs[i], script[i].payloadOk, caps[i]) {
        assert all[i] == caps[i];
      }
    }
  }

  /** Master and slave are in phase exactly when no accepted Write has lost its payload. */
  lemma InPhaseIffNoPayloadLost(reqs: Requests, script: seq<FullExchange>, caps: seq<Capacity>,
                                responses: seq<Option<Response>>)
    requires Answered(reqs, script, caps, responses)
    ensures Dialogue(reqs, responses) == Schedule(reqs, |responses|) <==> NoneLost(reqs, script, caps)
  {
    LostIffPayloadLost(reqs, script, caps, responses);
    InPhaseIffNothingLost(reqs, responses);
  }

  /** Nothing is lost as long as no payload transfer of a Write fails, whatever the drive, the capacity and the
      trailers are like. */
  lemma InPhase(reqs: Requests, script: seq<FullExchange>, caps: seq<Capacity>, responses: seq<Option<Response>>)
    requires Answered(reqs, script, caps, responses)
    requires forall i :: 0 <= i < |script| ==> script[i].payloadOk || !IsWrite(reqs[i])
    ensures Unanswered(reqs, responses) == 0
  {
    LostIffPayloadLost(reqs, script, caps, responses);
  }

  /** On an empty bus every Write is refused, so nothing is lost. */
  lemma EmptyBusInPhase(reqs: Requests, script: seq<FullExchange>, caps: seq<Capacity>,
                        responses: seq<Option<Response>>)
    requires Answered(reqs, script, caps, responses)
    requires AllAre(caps, Capacity(0, 0))
    ensures Unanswered(reqs, responses) == 0
  {
    LostIffPayloadLost(reqs, script, caps, responses);
  }

  // ----- The READY line -----

  datatype Line = LineLow | LineHigh | LineUsed | LineBroken

  /** Headers are clocked in while READY is low; every other transfer has a high period to itself. */
  function LineStep(s: Line, m: Mark): Line {
    match (s, m)
    case (LineLow, Xfer(HeaderPhase)) => LineLow
    case (LineLow, High) => LineHigh
    case (LineHigh, Xfer(PayloadPhase)) => LineUsed
    case (LineHigh, Xfer(ResponsePhase)) => LineUsed
    case (LineUsed, Low) => LineLow
    case _ => LineBroken
  }

  function LineAfter(m: seq<Mark>): Line {
    if m == [] then LineLow else LineStep(LineAfter(m[..|m| - 1]), m[|m| - 1])
  }

  lemma LineOneMore(m: seq<Mark>, e: Mark)
    ensures LineAfter(m + [e]) == LineStep(LineAfter(m), e)
  {
    assert (m + [e])[..|m|] == m;
  }

  lemma PulseKeepsLow(m: seq<Mark>, phase: Phase)
    requires LineAfter(m) == LineLow && !phase.HeaderPhase?
    ensures LineAfter(m + Pulse(phase)) == LineLow
  {
    LineOneMore(m, High);
    LineOneMore(m + [High], Xfer(phase));
    LineOneMore(m + [High] + [Xfer(phase)], Low);
    assert m + Pulse(phase) == m + [High] + [Xfer(phase)] + [Low];
  }

  /** After every exchange, complete or not, READY is low again. */
  lemma ExchangeKeepsLow(m: seq<Mark>, req: Option<Header>, answered: bool)
    requires LineAfter(m) == LineLow
    ensures LineAfter(m + Exchanged(req, answered)) == LineLow
  {
    ExchangedParts(m, req, answered);
    LineOneMore(m, Xfer(HeaderPhase));
    var headed := m + [Xfer(HeaderPhase)];
    assert headed + [] == headed;
    if req.Some? {
      TailParts(headed, req.value);
      if req.value.CmdEnum() == Some(Write) {
        PulseKeepsLow(headed, PayloadPhase);
      }
      if answered {
        PulseKeepsLow(headed + PayloadPart(req.value), ResponsePhase);
      }
    }
  }

  lemma Grouping(a: seq<Mark>, b: seq<Mark>, c: seq<Mark>)
    ensures a + (b + c) == a + b + c
  {
  }

  /** Every header finds READY low, and every other transfer has a high period to itself, throughout. */
  lemma {:induction false} DialogueKeepsLow(before: seq<Mark>, reqs: Requests, responses: seq<Option<Response>>)
    requires |responses| <= |reqs| && LineAfter(before) == LineLow
    ensures LineAfter(before + Dialogue(reqs, responses)) == LineLow
  {
    if responses == [] {
      assert before + [] == before;
    } else {
      var n := |responses| - 1;
      DialogueKeepsLow(before, reqs, responses[..n]);
      ExchangeKeepsLow(before + Dialogue(reqs, responses[..n]), reqs[n], responses[n].Some?);
      Grouping(before, Dialogue(reqs, responses[..n]), Exchanged(reqs[n], responses[n].Some?));
    }
  }

  lemma DialogueStep(before: seq<Mark>, reqs: Requests, script: seq<FullExchange>, caps: seq<Capacity>,
                     responses: seq<Option<Response>>, cap: Capacity, response: Option<Response>)
    requires Answered(reqs, script, caps, responses) && |responses| < |script|
    requires var n := |responses|;
             response.Some? <==> reqs[n].Some? && !LosesPayloadBy(reqs[n], script[n].payloadOk, cap)
    ensures before + Dialogue(reqs, responses + [response])
         == before + Dialogue(reqs, responses) + Exchanged(reqs[|responses|], response.Some?)
    ensures Answered(reqs, script, caps + [cap], responses + [response])
  {
    assert (responses + [response])[..|responses|] == responses && (caps + [cap])[..|caps|] == caps;
    Grouping(before, Dialogue(reqs, responses), Exchanged(reqs[|responses|], response.Some?));
  }

  lemma SameTail(before: seq<Mark>, a: seq<Mark>, b: seq<Mark>)
    ensures before + a == before + b <==> a == b
  {
    if before + a == before + b {
      assert a == (before + a)[|before|..] == (before + b)[|before|..] == b;
    }
  }

  /** What is known at the end of a script. */
  lemma ScriptIsOver(before: seq<Mark>, reqs: Requests, script: seq<FullExchange>, caps: seq<Capacity>,
                     responses: seq<Option<Response>>)
    requires Answered(reqs, script, caps, responses) && |responses| == |script|
    ensures before + Dialogue(reqs, responses) == before + Schedule(reqs, |script|) <==> NoneLost(reqs, script, caps)
    ensures AllAre(caps, Capacity(0, 0)) ==> Unanswered(reqs, responses) == 0
  {
    InPhaseIffNoPayloadLost(reqs, script, caps, responses);
    SameTail(before, Dialogue(reqs, responses), Schedule(reqs, |script|));
    if AllAre(caps, Capacity(0, 0)) {
      EmptyBusInPhase(reqs, script, caps, responses);
    }
  }

  /** What a command has to say: an inline payload, or a chunk that is in the block buffer. */
  datatype Answer = Inline(status: EspErr, arg1: u32, payload: seq<byte>) | FromBlockBuf(len: u32)

  predicate Stageable(a: Answer) {
    match a
    case Inline(_, _, payload) => |payload| <= MAX_PAYLOAD
    case FromBlockBuf(len) => 0 < len <= MAX_PAYLOAD
  }

  /** The slave has nothing to say: so many zeros on the wire. */
  ghost predicate Silent(sent: seq<byte>, n: nat) {
    |sent| == n && forall i :: 0 <= i < n ==> sent[i] == 0
  }

  /** Bytes clocked in for a Write: the chunk and its trailer, or a full payload with one if the chunk is refused. */
  function PayloadLength(r: Result<Chunk>): nat {
    match r
    case Ok(c) => c.len + 4
    case Err(_) => 8196
  }

  /** How the master decodes the answer, when `buffer` is in the block buffer. */
  function Meaning(a: Answer, buffer: seq<byte>): Response
    requires a.FromBlockBuf? ==> a.len <= |buffer|
  {
    match a
    case Inline(status, arg1, payload) => Response(status, arg1, payload)
    case FromBlockBuf(len) => Response(ESP_OK, len, buffer[..len] + Crc.Trailer(buffer[..len]))
  }

  function Meant(a: Option<Answer>, buffer: seq<byte>): Option<Response>
    requires a.Some? && a.value.FromBlockBuf? ==> a.value.len <= |buffer|
  {
    if a.Some? then Some(Meaning(a.value, buffer)) else None
  }

  /** The command of an exchange has been carried out between these two situations. */
  ghost predicate Did(t: Turn, req: Header, x: Exchange, was: Situation, now: Situation) {
    Done(t, req, x.payload, x.payloadOk, was, now)
  }

  /** Decoding a staged chunk. */
  lemma ChunkFrame(req: Header, frame: seq<byte>, data: seq<byte>)
    requires 0 < |data| <= MAX_PAYLOAD && frame == ReadFrame(req, ESP_OK, |data|, data)
    ensures DecodeResponse(frame, req) == Some(Response(ESP_OK, |data|, data + Crc.Trailer(data)))
  {
    ReadFrameRoundTrip(req, ESP_OK, |data|, data);
    assert data[..Min(|data|, MAX_PAYLOAD)] == data;
  }

  class SpiLink {
    const respBuf: array<byte>
    const blockBuf: array<byte>
    const rxDma: array<byte>
    const txDma: array<byte>
    var respLen: nat
    ghost var wire: seq<SpiEvent>

    ghost predicate Buffers()
      reads this
    {
      && respBuf.Length == RX_LEN && blockBuf.Length == MAX_PAYLOAD && rxDma.Length == RX_LEN && txDma.Length == RX_LEN
      && respBuf != blockBuf && respBuf != rxDma && respBuf != txDma
      && blockBuf != rxDma && blockBuf != txDma && rxDma != txDma
    }

    constructor ()
      ensures Buffers() && wire == []
      ensures fresh(respBuf) && fresh(blockBuf) && fresh(rxDma) && fresh(txDma)
    {
      respBuf := new byte[RX_LEN](i => 0);
      blockBuf := new byte[MAX_PAYLOAD](i => 0);
      rxDma := new byte[RX_LEN](i => 0);
      txDma := new byte[RX_LEN](i => 0);
      respLen := 0;
      wire := [];
    }

    // ----- Transfers -----

    /** `spi_slave_xfer`. */
    method SlaveTransfer(ghost phase: Phase, nbytes: nat, incoming: seq<byte>, ok: bool)
      requires Buffers() && nbytes <= RX_LEN
      modifies rxDma, this`wire
      ensures wire == old(wire) + [Transfer(phase, nbytes, txDma[..nbytes], ok)]
      ensures |incoming| >= nbytes ==> rxDma[..nbytes] == incoming[..nbytes]
    {
      var k := Min(|incoming|, nbytes);
      forall i | 0 <= i < k {
        rxDma[i] := incoming[i];
      }
      wire := wire + [Transfer(phase, nbytes, txDma[..nbytes], ok)];
    }

    /** READY high, one transfer, READY low. */
    method Pulsed(ghost phase: Phase, nbytes: nat, incoming: seq<byte>, ok: bool)
      requires Buffers() && nbytes <= RX_LEN
      modifies rxDma, this`wire
      ensures wire == old(wire) + [ReadyLine(true), Transfer(phase, nbytes, txDma[..nbytes], ok), ReadyLine(false)]
      ensures Marks(wire) == Marks(old(wire)) + Pulse(phase)
      ensures |incoming| >= nbytes ==> rxDma[..nbytes] == incoming[..nbytes]
    {
      wire := wire + [ReadyLine(true)];
      SlaveTransfer(phase, nbytes, incoming, ok);
      wire := wire + [ReadyLine(false)];
      PulseMarks(old(wire), Transfer(phase, nbytes, txDma[..nbytes], ok));
    }

    /** `copy_from_slice` into the staged response. */
    method Stage(at: nat, bytes: seq<byte>)
      requires at + |bytes| <= respBuf.Length
      modifies respBuf
      ensures respBuf[..at + |bytes|] == old(respBuf[..at]) + bytes
    {
      forall i | 0 <= i < |bytes| {
        respBuf[at + i] := bytes[i];
      }
    }

    /** `arm_response_with_arg1`. */
    method ArmResponse(req: Header, status: EspErr, arg1: u32, payload: seq<byte>)
      requires Buffers()
      modifies respBuf, this`respLen
      ensures respLen <= RX_LEN && respBuf[..respLen] == InlineFrame(req, status, arg1, payload)
    {
      Stage(0, ResponseHeader(req, status, arg1).Encode());
      var n := Min(|payload|, RX_LEN - HDR_LEN);
      Stage(HDR_LEN, payload[..n]);
      respLen := HDR_LEN + n;
    }

    /** `arm_response_from_block_buf`. */
    method ArmFromBlockBuf(req: Header, status: EspErr, arg1: u32, len: nat)
      requires Buffers() && len <= MAX_PAYLOAD
      modifies respBuf, this`respLen
      ensures respLen <= RX_LEN && respBuf[..respLen] == ReadFrame(req, status, arg1, blockBuf[..len])
    {
      ghost var header := ResponseHeader(req, status, arg1).Encode();
      Stage(0, ResponseHeader(req, status, arg1).Encode());
      assert respBuf[..HDR_LEN] == header;
      var data := blockBuf[..len];
      if len > 0 {
        var crc := Crc.SpiCrc32(data);
        StageBoth(data, Le32(crc));
        assert respBuf[..respLen] == header + (data + Crc.Trailer(data));
      } else {
        respLen := HDR_LEN;
        assert respBuf[..respLen] == header + [];
      }
      ReadFrameIs(req, status, arg1, data);
    }

    /** A payload and its trailer, after the header. */
    method StageBoth(data: seq<byte>, trailer: seq<byte>)
      requires Buffers() && HDR_LEN + |data| + |trailer| <= RX_LEN
      modifies respBuf, this`respLen
      ensures respLen == HDR_LEN + |data| + |trailer|
      ensures respBuf[..respLen] == old(respBuf[..HDR_LEN]) + (data + trailer)
    {
      Stage(HDR_LEN, data);
      Stage(HDR_LEN + |data|, trailer);
      respLen := HDR_LEN + |data| + |trailer|;
    }

    /** `send_response`. */
    method SendResponse(x: FullExchange) returns (frame: seq<byte>)
      requires Buffers() && respLen <= RX_LEN
      modifies txDma, rxDma, this`wire
      ensures frame == respBuf[..respLen]
      ensures Marks(wire) == Marks(old(wire)) + Pulse(ResponsePhase) && Extended(old(wire))
      ensures wire[|wire| - 2] == Transfer(ResponsePhase, |frame|, frame, x.responseOk)
    {
      forall i | 0 <= i < respLen {
        txDma[i] := respBuf[i];
      }
      frame := respBuf[..respLen];
      assert txDma[..respLen] == frame;
      Pulsed(ResponsePhase, respLen, x.filler, x.responseOk);
    }

    /** One pulse has been added to the wire. */
    ghost predicate Extended(before: seq<SpiEvent>)
      reads this
    {
      |wire| == |before| + 3 && before <= wire
    }

    /** Stages the answer to a request. */
    method Arm(req: Header, a: Answer) returns (ghost r: Response)
      requires Buffers() && Stageable(a)
      modifies respBuf, this`respLen
      ensures respLen <= RX_LEN && r == Meaning(a, blockBuf[..]) && DecodeResponse(respBuf[..respLen], req) == Some(r)
    {
      r := Meaning(a, blockBuf[..]);
      match a {
        case Inline(status, arg1, payload) =>
          ArmResponse(req, status, arg1, payload);
          InlineFrameRoundTrip(req, status, arg1, payload);
        case FromBlockBuf(len) =>
          ArmFromBlockBuf(req, ESP_OK, len, len);
          ChunkFrame(req, respBuf[..respLen], blockBuf[..len]);
          assert blockBuf[..][..len] == blockBuf[..len];
      }
    }

    /** Stages the answer, sends it, and gives the response the master decodes. */
    method Respond(req: Header, a: Answer, x: FullExchange) returns (r: Response)
      requires Buffers() && Stageable(a)
      modifies respBuf, this`respLen, txDma, rxDma, this`wire
      ensures r == Meaning(a, blockBuf[..]) && Received(req, x) == Some(r)
      ensures Marks(wire) == Marks(old(wire)) + Pulse(ResponsePhase) && Extended(old(wire))
    {
      ghost var meant := Arm(req, a);
      var frame := SendResponse(x);
      r := Response(StatusIn(frame), ArgIn(frame), frame[HDR_LEN..]);
    }

    /** What the master decodes from the last transfer, if that went out as a response to its request. */
    ghost function Received(req: Header, x: Exchange): Option<Response>
      reads this
    {
      if |wire| < 2 then None
      else
        match wire[|wire| - 2]
        case Transfer(ResponsePhase, n, sent, ok) =>
          if n == |sent| && ok == x.responseOk then DecodeResponse(sent, req) else None
        case _ => None
    }

    /** The last transfer was a response with this meaning, byte by byte. */
    ghost predicate Sent(x: FullExchange, r: Response)
      reads this
    {
      && |wire| >= 2 && wire[|wire| - 2].Transfer? && wire[|wire| - 2].phase == ResponsePhase
      && wire[|wire| - 2].len == |wire[|wire| - 2].sent| && wire[|wire| - 2].ok == x.responseOk
      && Replies(wire[|wire| - 2].sent, x.header, r)
    }

    lemma ReceivedIsSent(x: FullExchange, r: Response)
      requires RequestIn(x).Some? && Received(RequestIn(x).value, x) == Some(r)
      ensures Sent(x, r)
    {
      ResponseBytes(wire[|wire| - 2].sent, x.header, r);
    }

    // ----- Commands -----

    /** `ensure_capacity_known`. */
    method EnsureCapacityKnown(usb: UsbMassStorage)
      requires usb.Working()
      modifies usb`blockSize, usb`blockCount, usb.host`cbwTag, usb.host`issued, usb.OpenDrive()
      ensures old(usb.Known()) ==> unchanged(usb) && unchanged(usb.host) && usb.Now() == old(usb.Now())
      ensures old(usb.Known()) && usb.OpenDrive() != null ==> unchanged(usb.OpenDrive())
      ensures old(!usb.Known()) && usb.handle != null ==> usb.host.issued > old(usb.host.issued)
      ensures Looked(old(usb.Now()), usb.Now())
    {
      if usb.blockSize == 0 || usb.blockCount == 0 {
        var ignored := AskCapacity(usb);
        RefreshedIsLooked(ignored, old(usb.Now()), usb.Now());
      } else {
        usb.KnownIsCurrent();
      }
    }

    method ServeStatus(usb: UsbMassStorage, req: Header) returns (a: Answer)
      requires usb.Working() && req.CmdEnum() == Some(GetStatus)
      modifies usb.host`cbwTag, usb.host`issued, usb.OpenDrive()
      ensures usb.host.issued >= old(usb.host.issued)
      ensures usb.Working() && usb.Medium() == old(usb.Medium())
      ensures a.Inline? && |a.payload| <= 1
      ensures a.payload == [2] ==> usb.handle != null && usb.host.JustReady(usb.OpenDrive())
      ensures old(usb.Readiness()) == Some(true) && usb.Known() ==> a.payload == [2]
      ensures old(usb.Readiness()) == Some(false) ==> a.payload == [1]
      ensures SuitsOther(Meaning(a, []), req, usb.blockSize, usb.blockCount, usb.handle != null)
    {
      var status := usb.BdStatus();
      var code: byte := match status case NotPresent => 0 case NotReady => 1 case Ready => 2;
      a := Inline(ESP_OK, 0, [code]);
    }

    method AskCapacity(usb: UsbMassStorage) returns (r: Result<(u32, u32)>)
      requires usb.Working()
      modifies usb`blockSize, usb`blockCount, usb.host`cbwTag, usb.host`issued, usb.OpenDrive()
      ensures usb.handle != null ==> usb.host.issued > old(usb.host.issued)
      ensures Refreshed(r, old(usb.Now()), usb.Now())
    {
      r := usb.BdRefreshCapacity();
    }

    method ServeCapacity(usb: UsbMassStorage, req: Header, ghost x: FullExchange)
      returns (a: Option<Answer>, ghost t: Turn)
      requires Buffers() && usb.Working() && req.CmdEnum() == Some(GetCapacity)
      modifies usb`blockSize, usb`blockCount, usb.host`cbwTag, usb.host`issued, usb.OpenDrive()
      ensures a.Some? && Stageable(a.value) && t.response == Meant(a, blockBuf[..])
      ensures Did(t, req, x, old(usb.Now()), usb.Now())
      ensures Serviced(t, x.payloadOk, old(usb.Now()), usb.Now())
    {
      var r := AskCapacity(usb);
      match r {
        case Ok((bs, bc)) => a := Some(Inline(ESP_OK, |EncodeCapacity(bs, bc)|, EncodeCapacity(bs, bc)));
        case Err(e) => a := Some(Inline(e, 0, []));
      }
      t := Turn(req, Asked(req, usb.blockSize, usb.blockCount), Meant(a, []), x.payload,
                old(usb.Medium()), usb.Medium(), usb.Size());
      CapacityIsServed(t, r, x.payloadOk, old(usb.Now()), usb.Now());
    }

    /** An accepted chunk, into the block buffer. */
    method ReadChunk(usb: UsbMassStorage, c: Chunk, req: Header) returns (err: EspErr)
      requires Buffers() && usb.Working() && Asked(req, usb.blockSize, usb.blockCount) == Ok(c) && c.len <= MAX_PAYLOAD
      modifies blockBuf, usb.host`cbwTag, usb.host`issued, usb.OpenDrive()
      ensures Brought(c, blockBuf[..c.len], err, old(usb.Now()), usb.Now())
    {
      AcceptedChunk(usb.blockSize, usb.blockCount, req);
      err := usb.BdReadBlocks(c.lba, c.nblocks, blockBuf, c.len);
    }

    /** The chunk asked for, into the block buffer. */
    method FetchChunk(usb: UsbMassStorage, req: Header)
      returns (r: Result<Chunk>, asked: Result<Chunk>, ghost data: seq<byte>)
      requires Buffers() && usb.Working()
      modifies blockBuf
      modifies usb`blockSize, usb`blockCount, usb.host`cbwTag, usb.host`issued, usb.OpenDrive()
      ensures Fetched(r, asked, req, data, old(usb.Now()), usb.Now())
      ensures r.Ok? ==> 0 < r.value.len <= MAX_PAYLOAD && data == blockBuf[..r.value.len]
    {
      EnsureCapacityKnown(usb);
      asked := Asked(req, usb.blockSize, usb.blockCount);
      r, data := asked, [];
      if asked.Ok? {
        ghost var mid := usb.Now();
        AcceptedChunk(usb.blockSize, usb.blockCount, req);
        var err := ReadChunk(usb, asked.value, req);
        data := blockBuf[..asked.value.len];
        if err != ESP_OK {
          r := Err(err);
        }
        FetchedFrom(asked.value, err, req, data, old(usb.Now()), mid, usb.Now());
      }
    }

    method ServeRead(usb: UsbMassStorage, req: Header, ghost x: FullExchange) returns (a: Option<Answer>, ghost t: Turn)
      requires Buffers() && usb.Working() && req.CmdEnum() == Some(Read)
      modifies blockBuf
      modifies usb`blockSize, usb`blockCount, usb.host`cbwTag, usb.host`issued, usb.OpenDrive()
      ensures a.Some? && Stageable(a.value) && t.response == Meant(a, blockBuf[..])
      ensures Did(t, req, x, old(usb.Now()), usb.Now())
      ensures Serviced(t, x.payloadOk, old(usb.Now()), usb.Now())
    {
      var r, asked, data := FetchChunk(usb, req);
      match r {
        case Err(e) => a := Some(Inline(e, 0, []));
        case Ok(c) => a := Some(FromBlockBuf(c.len));
      }
      assert r.Ok? ==> blockBuf[..][..r.value.len] == data;
      t := Turn(req, asked, Meant(a, blockBuf[..]), x.payload, old(usb.Medium()), usb.Medium(), usb.Size());
      ReadIsServed(t, r, asked, data, x.payloadOk, old(usb.Now()), usb.Now());
    }

    /** Event `k` was a payload of this length, clocked in against silence. */
    ghost predicate PayloadAt(k: nat, n: nat, x: Exchange)
      reads this
    {
      && k < |wire| && wire[k].Transfer? && wire[k].phase == PayloadPhase && wire[k].len == n
      && wire[k].ok == x.payloadOk && Silent(wire[k].sent, n)
    }

    /** The slave sends zeros while the master clocks `n` payload bytes in. */
    method TakePayload(n: nat, x: FullExchange)
      requires Buffers() && n <= MAX_PAYLOAD + Crc.CRC_LEN
      modifies txDma, rxDma, this`wire
      ensures rxDma[..n] == x.payload[..n]
      ensures Marks(wire) == Marks(old(wire)) + Pulse(PayloadPhase) && Extended(old(wire))
      ensures PayloadAt(|old(wire)| + 1, n, x)
    {
      forall i | 0 <= i < RX_LEN {
        txDma[i] := 0;
      }
      assert Silent(txDma[..n], n);
      Pulsed(PayloadPhase, n, x.payload, x.payloadOk);
    }

    method CheckTrailer(len: nat, ghost frame: seq<byte>) returns (intact: bool)
      requires Buffers() && len <= MAX_PAYLOAD && frame == rxDma[..len + Crc.CRC_LEN]
      ensures intact == Crc.Accepts(frame)
    {
      var received := FromLe32(rxDma[len..len + Crc.CRC_LEN]);
      var computed := Crc.SpiCrc32(rxDma[..len]);
      assert frame[..len] == rxDma[..len] && frame[len..] == rxDma[len..len + Crc.CRC_LEN];
      return received == computed;
    }

    lemma ReceivedPrefix(payload: seq<byte>, m: nat, n: nat)
      requires m <= n <= |payload| && n <= rxDma.Length && rxDma[..n] == payload[..n]
      ensures rxDma[..m] == payload[..m]
    {
      assert rxDma[..m] == rxDma[..n][..m] == payload[..n][..m];
    }

    /** The payload in the receive buffer goes to the drive. */
    method WriteChunk(usb: UsbMassStorage, c: Chunk, req: Header, ghost data: seq<byte>) returns (status: EspErr)
      requires Buffers() && usb.Working() && Asked(req, usb.blockSize, usb.blockCount) == Ok(c)
      requires c.len <= MAX_PAYLOAD && rxDma[..c.len] == data
      modifies rxDma, usb.host`cbwTag, usb.host`issued, usb.OpenDrive()
      ensures Written(c, data, status, old(usb.Now()), usb.Now())
    {
      AcceptedChunk(usb.blockSize, usb.blockCount, req);
      status := usb.BdWriteBlocks(c.lba, c.nblocks, rxDma, c.len);
    }

    /** The same, if it matches its trailer. */
    method StoreChunk(usb: UsbMassStorage, c: Chunk, req: Header, ghost payload: seq<byte>)
      returns (status: EspErr, intact: bool)
      requires Buffers() && usb.Working() && Asked(req, usb.blockSize, usb.blockCount) == Ok(c)
      requires c.len + Crc.CRC_LEN <= |payload| && c.len <= MAX_PAYLOAD
      requires rxDma[..c.len + Crc.CRC_LEN] == payload[..c.len + Crc.CRC_LEN]
      modifies rxDma, usb.host`cbwTag, usb.host`issued, usb.OpenDrive()
      ensures intact == Crc.Accepts(payload[..c.len + Crc.CRC_LEN])
      ensures Stored(c, payload[..c.len], intact, status, old(usb.Now()), usb.Now())
    {
      ReceivedPrefix(payload, c.len, c.len + Crc.CRC_LEN);
      intact := CheckTrailer(c.len, payload[..c.len + Crc.CRC_LEN]);
      status := ESP_ERR_INVALID_CRC;
      if intact {
        status := WriteChunk(usb, c, req, payload[..c.len]);
      }
    }

    /** The answer to an accepted Write whose payload is in the receive buffer. */
    method StoreAnswer(usb: UsbMassStorage, c: Chunk, req: Header, ghost x: FullExchange)
      returns (a: Option<Answer>, ghost t: Turn)
      requires Buffers() && usb.Working() && req.CmdEnum() == Some(Write) && x.payloadOk
      requires Asked(req, usb.blockSize, usb.blockCount) == Ok(c)
      requires c.len <= MAX_PAYLOAD && rxDma[..c.len + Crc.CRC_LEN] == x.payload[..c.len + Crc.CRC_LEN]
      modifies rxDma, usb.host`cbwTag, usb.host`issued, usb.OpenDrive()
      ensures a.Some? && Stageable(a.value) && t.response == Meant(a, blockBuf[..])
      ensures Did(t, req, x, old(usb.Now()), usb.Now())
      ensures Obliged(t, x.payloadOk, old(usb.Now()), usb.Now())
    {
      var status, intact := StoreChunk(usb, c, req, x.payload);
      a := Some(Inline(status, if status == ESP_OK then c.len else 0, []));
      t := Turn(req, Ok(c), Meant(a, []), x.payload, old(usb.Medium()), usb.Medium(), usb.Size());
      StoreIsDone(t, c, intact, status, old(usb.Now()), usb.Now());
    }

    /** The answer to a Write once its payload transfer is over. */
    method AnswerPayload(usb: UsbMassStorage, asked: Result<Chunk>, req: Header, x: FullExchange)
      returns (a: Option<Answer>, ghost t: Turn)
      requires Buffers() && usb.Working() && req.CmdEnum() == Some(Write)
      requires asked == Asked(req, usb.blockSize, usb.blockCount) && (asked.Err? ==> asked.error != ESP_OK)
      requires asked.Ok? ==>
                 && asked.value.len <= MAX_PAYLOAD
                 && rxDma[..asked.value.len + Crc.CRC_LEN] == x.payload[..asked.value.len + Crc.CRC_LEN]
      modifies rxDma, usb.host`cbwTag, usb.host`issued, usb.OpenDrive()
      ensures (a.Some? ==> Stageable(a.value)) && t.response == Meant(a, blockBuf[..])
      ensures Did(t, req, x, old(usb.Now()), usb.Now())
      ensures Obliged(t, x.payloadOk, old(usb.Now()), usb.Now())
    {
      if asked.Err? {
        a := Some(Inline(asked.error, 0, []));
        t := Turn(req, asked, Some(Response(asked.error, 0, [])), x.payload, usb.Medium(), usb.Medium(), usb.Size());
        FailureIsSound(t, asked.error, x.payloadOk, usb.Now());
      } else if !x.payloadOk {
        a := None;
        t := Turn(req, asked, None, x.payload, usb.Medium(), usb.Medium(), usb.Size());
        LossIsSound(t, usb.Now());
      } else {
        a, t := StoreAnswer(usb, asked.value, req, x);
      }
    }

    /** The payload of a Write: at the length of the chunk, or in full if the chunk is refused. */
    method ReceivePayload(bs: u32, bc: u32, req: Header, x: FullExchange) returns (asked: Result<Chunk>)
      requires Buffers()
      modifies txDma, rxDma, this`wire
      ensures asked == Asked(req, bs, bc) && (asked.Err? ==> asked.error != ESP_OK)
      ensures asked.Ok? ==>
                && asked.value.len <= MAX_PAYLOAD
                && rxDma[..asked.value.len + Crc.CRC_LEN] == x.payload[..asked.value.len + Crc.CRC_LEN]
      ensures Marks(wire) == Marks(old(wire)) + Pulse(PayloadPhase) && old(wire) <= wire
      ensures PayloadAt(|old(wire)| + 1, PayloadLength(asked), x)
    {
      asked := Asked(req, bs, bc);
      if asked.Ok? {
        AcceptedChunk(bs, bc, req);
      }
      TakePayload((if asked.Ok? then asked.value.len else MAX_PAYLOAD) + Crc.CRC_LEN, x);
    }

    /** A Write from its payload to its answer. */
    method ReceiveChunk(usb: UsbMassStorage, req: Header, x: FullExchange) returns (a: Option<Answer>, ghost t: Turn)
      requires Buffers() && usb.Working() && req.CmdEnum() == Some(Write)
      modifies txDma, rxDma, this`wire
      modifies usb.host`cbwTag, usb.host`issued, usb.OpenDrive()
      ensures (a.Some? ==> Stageable(a.value)) && t.response == Meant(a, blockBuf[..])
      ensures Did(t, req, x, old(usb.Now()), usb.Now())
      ensures Marks(wire) == Marks(old(wire)) + Pulse(PayloadPhase) && old(wire) <= wire
      ensures PayloadAt(|old(wire)| + 1, PayloadLength(t.asked), x)
      ensures Obliged(t, x.payloadOk, old(usb.Now()), usb.Now()) && SameDrive(old(usb.Now()), usb.Now())
    {
      var asked := ReceivePayload(usb.blockSize, usb.blockCount, req, x);
      assert usb.Now() == old(usb.Now());
      a, t := AnswerPayload(usb, asked, req, x);
    }

    method ServeWrite(usb: UsbMassStorage, req: Header, x: FullExchange) returns (a: Option<Answer>, ghost t: Turn)
      requires Buffers() && usb.Working() && req.CmdEnum() == Some(Write)
      modifies txDma, rxDma, this`wire
      modifies usb`blockSize, usb`blockCount, usb.host`cbwTag, usb.host`issued, usb.OpenDrive()
      ensures (a.Some? ==> Stageable(a.value)) && t.response == Meant(a, blockBuf[..])
      ensures Did(t, req, x, old(usb.Now()), usb.Now())
      ensures Marks(wire) == Marks(old(wire)) + Pulse(PayloadPhase) && old(wire) <= wire
      ensures PayloadAt(|old(wire)| + 1, PayloadLength(t.asked), x)
      ensures Serviced(t, x.payloadOk, old(usb.Now()), usb.Now())
    {
      EnsureCapacityKnown(usb);
      ghost var mid := usb.Now();
      a, t := ReceiveChunk(usb, req, x);
      AfterLooking(t, x.payloadOk, old(usb.Now()), mid, usb.Now());
    }

    // ----- The loop -----

    /** Event `k` was a header. */
    ghost predicate HeaderAt(k: nat, x: Exchange)
      reads this
    {
      && k < |wire| && wire[k].Transfer? && wire[k].phase == HeaderPhase && wire[k].len == 16
      && wire[k].ok == x.headerOk
    }

    /** The header transfer. */
    method ReceiveHeader(x: FullExchange) returns (req: Option<Header>)
      requires Buffers()
      modifies rxDma, this`wire
      ensures req == RequestIn(x)
      ensures Marks(wire) == Marks(old(wire)) + [Xfer(HeaderPhase)] && |wire| == |old(wire)| + 1
      ensures HeaderAt(|old(wire)|, x)
    {
      SlaveTransfer(HeaderPhase, HDR_LEN, x.header, x.headerOk);
      MarksConcat(old(wire), [Transfer(HeaderPhase, HDR_LEN, txDma[..HDR_LEN], x.headerOk)]);
      if !x.headerOk {
        return None;
      }
      assert rxDma[..HDR_LEN] == x.header;
      var h := DecodeHeader(rxDma[..HDR_LEN]);
      return if h.IsValid() then Some(h) else None;
    }

    /** The commands that transfer no blocks. */
    method ServeOther(usb: UsbMassStorage, req: Header, ghost x: FullExchange)
      returns (a: Option<Answer>, ghost t: Turn)
      requires Buffers() && usb.Working() && !NeedsCapacity(req)
      modifies usb.host`cbwTag, usb.host`issued, usb.OpenDrive()
      ensures a.Some? && Stageable(a.value) && t.response == Meant(a, blockBuf[..])
      ensures Did(t, req, x, old(usb.Now()), usb.Now())
      ensures Serviced(t, x.payloadOk, old(usb.Now()), usb.Now())
    {
      var s;
      match req.CmdEnum() {
        case None => s := Inline(ESP_ERR_INVALID_ARG, 0, []);
        case Some(GetStatus) => s := ServeStatus(usb, req);
        case Some(Flush) => s := Inline(ESP_OK, 0, []);
      }
      a := Some(s);
      t := Turn(req, Asked(req, usb.blockSize, usb.blockCount), Some(Meaning(s, [])), x.payload,
                usb.Medium(), usb.Medium(), usb.Size());
      OtherIsSound(t, x.payloadOk, usb.Now());
    }

    /** The commands without a payload transfer. */
    method ServeQuiet(usb: UsbMassStorage, req: Header, ghost x: FullExchange)
      returns (a: Option<Answer>, ghost t: Turn)
      requires Buffers() && usb.Working() && req.CmdEnum() != Some(Write)
      modifies blockBuf
      modifies usb`blockSize, usb`blockCount, usb.host`cbwTag, usb.host`issued, usb.OpenDrive()
      ensures (a.Some? ==> Stageable(a.value)) && t.response == Meant(a, blockBuf[..])
      ensures wire == old(wire)
      ensures Did(t, req, x, old(usb.Now()), usb.Now())
      ensures Serviced(t, x.payloadOk, old(usb.Now()), usb.Now())
    {
      if req.CmdEnum() == Some(Read) {
        a, t := ServeRead(usb, req, x);
      } else if req.CmdEnum() == Some(GetCapacity) {
        a, t := ServeCapacity(usb, req, x);
      } else {
        a, t := ServeOther(usb, req, x);
      }
    }

    /** The dispatch on the command, up to the response. */
    method Serve(usb: UsbMassStorage, req: Header, x: FullExchange) returns (a: Option<Answer>, ghost t: Turn)
      requires Buffers() && usb.Working()
      modifies blockBuf, txDma, rxDma, this`wire
      modifies usb`blockSize, usb`blockCount, usb.host`cbwTag, usb.host`issued, usb.OpenDrive()
      ensures (a.Some? ==> Stageable(a.value)) && t.response == Meant(a, blockBuf[..])
      ensures Did(t, req, x, old(usb.Now()), usb.Now())
      ensures Marks(wire) == Marks(old(wire)) + PayloadPart(req) && old(wire) <= wire
      ensures IsWrite(Some(req)) ==> PayloadAt(|old(wire)| + 1, PayloadLength(t.asked), x)
      ensures Serviced(t, x.payloadOk, old(usb.Now()), usb.Now())
    {
      assert Marks(wire) + [] == Marks(wire);
      match req.CmdEnum() {
        case Some(Write) => a, t := ServeWrite(usb, req, x);
        case _ => a, t := ServeQuiet(usb, req, x);
      }
    }

    /** A valid header's command, carried out and answered. */
    method Handle(usb: UsbMassStorage, req: Header, x: FullExchange) returns (response: Option<Response>, ghost t: Turn)
      requires Buffers() && usb.Working()
      modifies respBuf, this`respLen, blockBuf, txDma, rxDma, this`wire
      modifies usb`blockSize, usb`blockCount, usb.host`cbwTag, usb.host`issued, usb.OpenDrive()
      ensures t.response == response && (response.Some? ==> Received(req, x) == response)
      ensures Did(t, req, x, old(usb.Now()), usb.Now())
      ensures Marks(wire) == Marks(old(wire)) + Tail(req, response.Some?) && old(wire) <= wire
      ensures IsWrite(Some(req)) ==> PayloadAt(|old(wire)| + 1, PayloadLength(t.asked), x)
      ensures Serviced(t, x.payloadOk, old(usb.Now()), usb.Now())
    {
      var a;
      a, t := Serve(usb, req, x);
      response := Conclude(req, a, x, usb);
      TailJoined(Marks(old(wire)), req, a.Some?);
    }

    /** The response, if there is to be one. */
    method Conclude(req: Header, a: Option<Answer>, x: FullExchange, ghost usb: UsbMassStorage)
      returns (response: Option<Response>)
      requires Buffers() && (a.Some? ==> Stageable(a.value))
      modifies respBuf, this`respLen, txDma, rxDma, this`wire
      ensures usb.Now() == old(usb.Now())
      ensures response == Meant(a, blockBuf[..]) && (response.Some? ==> Received(req, x) == response)
      ensures Marks(wire) == Marks(old(wire)) + (if a.Some? then Pulse(ResponsePhase) else []) && old(wire) <= wire
    {
      response := None;
      assert Marks(wire) == Marks(wire) + [];
      if a.Some? {
        var r := Respond(req, a.value, x);
        response := Some(r);
      }
    }

    /** One turn of the loop of `run`, with the global driver set. `turn` is the command carried out, if a valid
        header came. */
    method Step(usb: UsbMassStorage, x: FullExchange) returns (response: Option<Response>, ghost turn: Option<Turn>)
      requires Buffers() && usb.Working()
      modifies respBuf, this`respLen, blockBuf, txDma, rxDma, this`wire
      modifies usb`blockSize, usb`blockCount, usb.host`cbwTag, usb.host`issued, usb.OpenDrive()
      ensures turn.Some? <==> RequestIn(x).Some?
      ensures turn.Some? <==> x.headerOk && x.header[0] == 0x42 && x.header[1] == 0x4B && x.header[2] == 1
      ensures turn.Some? ==> Spells(x.header, RequestIn(x).value)
      ensures turn.None? ==> response.None? && usb.Now() == old(usb.Now())
      ensures turn.Some? ==>
                && turn.value.response == response
                && Did(turn.value, RequestIn(x).value, x, old(usb.Now()), usb.Now())
                && Serviced(turn.value, x.payloadOk, old(usb.Now()), usb.Now())
      ensures response.Some? ==> Sent(x, response.value)
      ensures Marks(wire) == Marks(old(wire)) + Exchanged(RequestIn(x), response.Some?)
      ensures HeaderAt(|old(wire)|, x)
      ensures IsWrite(RequestIn(x)) ==> PayloadAt(|old(wire)| + 2, PayloadLength(turn.value.asked), x)
    {
      var req := ReceiveHeader(x);
      assert usb.Now() == old(usb.Now());
      response, turn := None, None;
      if req.Some? {
        ghost var t;
        response, t := Handle(usb, req.value, x);
        turn := Some(t);
        if response.Some? {
          ReceivedIsSent(x, response.value);
        }
      }
      RequestIsSpelled(x);
      ExchangedParts(Marks(old(wire)), req, response.Some?);
    }

    /** One turn of the loop before the global driver has been set: the master sees an empty bus, and the
        transfers are no different. */
    method StepUnattached(x: FullExchange) returns (req: Option<Header>, response: Option<Response>)
      requires Buffers()
      modifies respBuf, this`respLen, txDma, rxDma, this`wire
      ensures req == RequestIn(x)
      ensures response.Some? <==> req.Some?
      ensures req.Some? ==>
                && Spells(x.header, req.value) && Sent(x, response.value)
                && Suits(response.value, req.value, Err(ESP_ERR_INVALID_STATE), 0, 0, false)
      ensures Marks(wire) == Marks(old(wire)) + Exchanged(req, req.Some?)
    {
      req := ReceiveHeader(x);
      response := None;
      if req.Some? {
        var r := HandleUnattached(req.value, x);
        response := Some(r);
        ReceivedIsSent(x, r);
      }
      RequestIsSpelled(x);
      ExchangedParts(Marks(old(wire)), req, req.Some?);
    }

    method HandleUnattached(req: Header, x: FullExchange) returns (r: Response)
      requires Buffers()
      modifies respBuf, this`respLen, txDma, rxDma, this`wire
      ensures Suits(r, req, Err(ESP_ERR_INVALID_STATE), 0, 0, false) && Received(req, x) == Some(r)
      ensures Marks(wire) == Marks(old(wire)) + Tail(req, true)
    {
      TailParts(Marks(wire), req);
      var a := Unserved(req);
      if req.CmdEnum() == Some(Write) {
        TakePayload(MAX_PAYLOAD + Crc.CRC_LEN, x);
      }
      r := Respond(req, a, x);
    }

    /** The answer of each command when there is no driver. */
    method Unserved(req: Header) returns (a: Answer)
      ensures a.Inline? && Stageable(a) && Suits(Meaning(a, []), req, Err(ESP_ERR_INVALID_STATE), 0, 0, false)
    {
      match req.CmdEnum() {
        case None => a := Inline(ESP_ERR_INVALID_ARG, 0, []);
        case Some(GetStatus) => a := Inline(ESP_OK, 0, [0]);
        case Some(GetCapacity) => a := Inline(ESP_ERR_INVALID_STATE, 0, []);
        case Some(Read) => a := Inline(ESP_ERR_INVALID_STATE, 0, []);
        case Some(Write) => a := Inline(ESP_ERR_INVALID_STATE, 0, []);
        case Some(Flush) => a := Inline(ESP_OK, 0, []);
      }
    }

    /** What a turn of the loop means for the transfers alone. */
    method Converse(usb: UsbMassStorage, x: FullExchange) returns (response: Option<Response>, ghost cap: Capacity)
      requires Buffers() && usb.Working()
      modifies respBuf, this`respLen, blockBuf, txDma, rxDma, this`wire
      modifies usb`blockSize, usb`blockCount, usb.host`cbwTag, usb.host`issued, usb.OpenDrive()
      ensures usb.Working() && usb.host.issued >= old(usb.host.issued)
      ensures cap == usb.Cached() && (usb.handle == null ==> cap == Capacity(0, 0))
      ensures old(usb.Known()) && usb.host.issued < U32 ==> cap == old(usb.Cached())
      ensures response.Some? <==> RequestIn(x).Some? && !LosesPayloadBy(RequestIn(x), x.payloadOk, cap)
      ensures Marks(wire) == Marks(old(wire)) + Exchanged(RequestIn(x), response.Some?)
    {
      ghost var turn;
      response, turn := Step(usb, x);
      cap := usb.Cached();
    }

    /** The next turn of a script. */
    method ConverseNext(usb: UsbMassStorage, script: seq<FullExchange>, ghost reqs: Requests, ghost before: seq<Mark>,
                        responses: seq<Option<Response>>, ghost caps: seq<Capacity>, ghost cap: Capacity)
      returns (next: seq<Option<Response>>, ghost inForce: seq<Capacity>)
      requires Buffers() && usb.Working() && |responses| < |script| && reqs == RequestsIn(script)
      requires Answered(reqs, script, caps, responses) && Marks(wire) == before + Dialogue(reqs, responses)
      requires InForce(usb, caps, cap)
      modifies respBuf, this`respLen, blockBuf, txDma, rxDma, this`wire
      modifies usb`blockSize, usb`blockCount, usb.host`cbwTag, usb.host`issued, usb.OpenDrive()
      ensures usb.Working() == old(usb.Working())
      ensures InForce(usb, inForce, cap)
      ensures |next| == |responses| + 1 && Answered(reqs, script, inForce, next)
      ensures Marks(wire) == before + Dialogue(reqs, next)
    {
      var x := script[|responses|];
      var response, now := Converse(usb, x);
      DialogueStep(before, reqs, script, caps, responses, now, response);
      next, inForce := responses + [response], caps + [now];
      AllAreStep(caps, now);
    }

    /** These capacities were in force one after the other, if `cap` was cached at the start: none without a drive,
        and always the same one once it is known. */
    ghost predicate InForce(usb: UsbMassStorage, caps: seq<Capacity>, cap: Capacity)
      reads usb, usb.host
    {
      && (usb.handle == null ==> AllAre(caps, Capacity(0, 0)))
      && (cap.Known() && usb.host.issued < U32 ==> AllAre(caps, cap) && usb.Cached() == cap)
    }

    /** A Write that the known capacity accepts and whose payload transfer fails: the slave goes back to waiting for
        a header, while the master waits for a response. */
    method LoseOne(usb: UsbMassStorage, x: FullExchange) returns (response: Option<Response>)
      requires Buffers() && usb.Working() && usb.Known()
      requires LosesPayloadBy(RequestIn(x), x.payloadOk, usb.Cached())
      modifies respBuf, this`respLen, blockBuf, txDma, rxDma, this`wire
      modifies usb`blockSize, usb`blockCount, usb.host`cbwTag, usb.host`issued, usb.OpenDrive()
      ensures response.None?
      ensures Marks(wire) == Marks(old(wire)) + Dialogue([RequestIn(x)], [None])
      ensures Marks(wire) != Marks(old(wire)) + Schedule([RequestIn(x)], 1)
    {
      ghost var turn;
      response, turn := Step(usb, x);
      LostPayloadOutOfPhase(RequestIn(x).value);
      OneExchange(RequestIn(x), None);
      SameTail(Marks(old(wire)), Dialogue([RequestIn(x)], [None]), Schedule([RequestIn(x)], 1));
    }

    /** `run`, for as many turns of its loop as the script has. `caps` are the capacities in force. */
    method Run(usb: UsbMassStorage, script: seq<FullExchange>)
      returns (responses: seq<Option<Response>>, ghost caps: seq<Capacity>)
      requires Buffers() && usb.Working()
      modifies respBuf, this`respLen, blockBuf, txDma, rxDma, this`wire
      modifies usb`blockSize, usb`blockCount, usb.host`cbwTag, usb.host`issued, usb.OpenDrive()
      ensures usb.Working()
      ensures |responses| == |caps| == |script|
      ensures old(usb.Known()) && usb.host.issued < U32 ==> AllAre(caps, old(usb.Cached()))
      ensures usb.handle == null ==> Unanswered(RequestsIn(script), responses) == 0
      ensures Answered(RequestsIn(script), script, caps, responses)
      ensures Marks(wire) == Marks(old(wire)) + Dialogue(RequestsIn(script), responses)
      ensures Marks(wire) == Marks(old(wire)) + Schedule(RequestsIn(script), |script|)
         <==> NoneLost(RequestsIn(script), script, caps)
    {
      responses, caps := [], [];
      ghost var reqs := RequestsIn(script);
      ghost var before, cap := Marks(wire), usb.Cached();
      assert before == before + [];
      while |responses| < |script|
        invariant |responses| <= |script|
        invariant usb.Working() == old(usb.Working())
        invariant InForce(usb, caps, cap)
        invariant Answered(reqs, script, caps, responses)
        invariant Marks(wire) == before + Dialogue(reqs, responses)
      {
        responses, caps := ConverseNext(usb, script, reqs, before, responses, caps, cap);
      }
      ScriptIsOver(before, reqs, script, caps, responses);
    }
  }
}
