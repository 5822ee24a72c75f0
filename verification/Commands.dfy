/** What one SPI command may do to the medium, and what its answer tells (src/spi_link/transport.rs). */
module Commands {
  import opened Chunking
  import opened Disk
  import opened Driver
  import opened Protocol
  import opened Words
  import Arithmetic
  import Crc

  /** A response frame, decoded. */
  datatype Response = Response(status: EspErr, arg1: u32, body: seq<byte>)

  /** How the master decodes a frame that belongs to its request. */
  ghost function DecodeResponse(frame: seq<byte>, req: Header): Option<Response> {
    if Answers(frame, req) then Some(Response(StatusIn(frame), ArgIn(frame), frame[HDR_LEN..])) else None
  }

  /** A Write of this many bytes has been acknowledged. */
  predicate Acknowledges(response: Option<Response>, len: nat) {
    response.Some? && response.value.status == ESP_OK && response.value.arg1 == len && response.value.body == []
  }

  /** One command carried out: the request, the chunk it was found to ask for, the response if there was one,
      the payload clocked in, the medium of the open drive before and after, and its block size. */
  datatype Turn = Turn(req: Header, asked: Result<Chunk>, response: Option<Response>, payload: seq<byte>,
                       before: seq<Block>, after: seq<Block>, size: u32)
  {
    predicate Says(status: EspErr) {
      response.Some? && response.value.status == status
    }

    predicate Writes() {
      req.CmdEnum() == Some(Write)
    }

    predicate Reads() {
      req.CmdEnum() == Some(Read)
    }
  }

  /** The chunk a Read or Write asks for. */
  function Asked(req: Header, bs: u32, bc: u32): Result<Chunk> {
    ComputeChunk(bs, bc, req.arg0, req.arg1, req.reserved)
  }

  predicate IsWrite(req: Option<Header>) {
    req.Some? && req.value.CmdEnum() == Some(Write)
  }

  /** The one case in which a request gets no response: the payload transfer of an accepted Write fails. */
  predicate LosesPayload(req: Option<Header>, payloadOk: bool, asked: Result<Chunk>) {
    IsWrite(req) && !payloadOk && asked.Ok?
  }

  /** The same, by the capacity known at that time. */
  predicate LosesPayloadBy(req: Option<Header>, payloadOk: bool, cap: Capacity) {
    req.Some? && LosesPayload(req, payloadOk, Asked(req.value, cap.bs, cap.bc))
  }

  /** The commands that need the capacity. */
  predicate NeedsCapacity(req: Header) {
    req.CmdEnum() == Some(GetCapacity) || req.CmdEnum() == Some(Read) || req.CmdEnum() == Some(Write)
  }

  predicate AsksCapacity(req: Option<Header>) {
    req.Some? && req.value.CmdEnum() == Some(GetCapacity)
  }

  /** The link has done its part for one of these commands. */
  ghost predicate Deserves(t: Turn, payloadOk: bool) {
    match t.req.CmdEnum()
    case Some(GetCapacity) => true
    case Some(Read) => t.asked.Ok?
    case Some(Write) =>
      && t.asked.Ok? && payloadOk && t.asked.value.len + Crc.CRC_LEN <= |t.payload|
      && Crc.Accepts(t.payload[..t.asked.value.len + Crc.CRC_LEN])
    case _ => false
  }

  /** What a command makes of what could be counted on before it: a known capacity stays, unless tags have wrapped
      around and the drive was asked for it; a drive that helps lets it be known; such a drive serves every command
      that deserves it, with one command of three transfers if the capacity was known; and if its replies settle an
      error, the answer is that error. */
  ghost predicate Serviced(t: Turn, payloadOk: bool, was: Situation, now: Situation) {
    && (was.cap.Known() && (now.TagsFresh() || !AsksCapacity(Some(t.req))) ==> now.cap == was.cap)
    && (was.promising && NeedsCapacity(t.req) && now.TagsFresh() ==> now.Current())
    && (was.promising && Deserves(t, payloadOk) ==>
          t.Says(ESP_OK) && (was.cap.Known() ==> now.spent == was.spent.Plus(1, 3)))
    && (was.failing.Some? && Deserves(t, payloadOk) && (was.cap.Known() || AsksCapacity(Some(t.req))) ==>
          t.Says(was.failing.value))
    && (t.req.CmdEnum() == Some(GetStatus) ==> Ready(t, was))
  }

  /** A status request tells what TEST UNIT READY comes to: 2 for a success, if the capacity is known; 1 for a
      failure. */
  ghost predicate Ready(t: Turn, was: Situation) {
    && (was.ready == Some(true) && was.cap.Known() ==> t.response.Some? && t.response.value.body == [2])
    && (was.ready == Some(false) ==> t.response.Some? && t.response.value.body == [1])
  }

  /** A drive that helps with one command serves a Write that deserves it; or that gets the drive's error. */
  ghost predicate Obliged(t: Turn, payloadOk: bool, was: Situation, now: Situation) {
    && (was.obliging && Deserves(t, payloadOk) ==> t.Says(ESP_OK) && now.spent == was.spent.Plus(1, 3))
    && (was.failing.Some? && Deserves(t, payloadOk) ==> t.Says(was.failing.value))
  }

  /** Same open drive, same medium, and the driver still works. */
  predicate Onward(was: Situation, now: Situation) {
    && now.working && now.open == was.open && now.size == was.size && now.medium == was.medium
    && was.spent.commands <= now.spent.commands
  }

  /** The capacity has been asked for: what is cached is the drive's answer, its geometry, or what was there before
      if it gave none; so a known capacity stays. A drive that helps does answer. */
  predicate Refreshed(r: Result<(u32, u32)>, was: Situation, now: Situation) {
    && Onward(was, now)
    && (!was.open ==> r == Err(ESP_ERR_INVALID_STATE))
    && (r.Ok? ==> now.cap == Capacity(r.value.0, r.value.1) && (now.TagsFresh() ==> now.Current()))
    && (r.Err? ==> r.error != ESP_OK && now.cap == was.cap)
    && (was.cap.Known() && now.TagsFresh() ==> now.cap == was.cap)
    && (was.obliging ==> r.Ok? && now.spent == was.spent.Plus(1, 3))
    && (was.promising && !was.cap.Known() ==> now.obliging)
    && (was.failing.Some? ==> r == Err(was.failing.value))
  }

  /** The capacity has been asked for if it was not known. */
  ghost predicate Looked(was: Situation, now: Situation) {
    && Onward(was, now) && (was.cap.Known() ==> now == was)
    && ((was.cap.Known() || was.obliging) && now.TagsFresh() ==> now.Current())
    && (was.promising ==> now.obliging)
  }

  lemma RefreshedIsLooked(r: Result<(u32, u32)>, was: Situation, now: Situation)
    requires Refreshed(r, was, now) && !was.cap.Known()
    ensures Looked(was, now)
  {
  }

  /** A chunk has been read, or not. */
  ghost predicate Brought(c: Chunk, data: seq<byte>, err: EspErr, was: Situation, now: Situation) {
    && Onward(was, now) && now.cap == was.cap
    && (err == ESP_OK && now.TagsFresh() ==>
          && c.lba + c.nblocks <= |now.medium| && Sized(now.medium, now.size)
          && |data| == c.len && data == ReadRange(now.medium, c.lba, c.nblocks, now.size))
    && (was.obliging ==> err == ESP_OK && now.spent == was.spent.Plus(1, 3))
    && (was.failing.Some? ==> err == was.failing.value != ESP_OK)
  }

  /** The chunk asked for has been read, or why not. */
  ghost predicate Fetched(r: Result<Chunk>, asked: Result<Chunk>, req: Header, data: seq<byte>,
                          was: Situation, now: Situation) {
    && Onward(was, now) && asked == Asked(req, now.cap.bs, now.cap.bc)
    && (r.Err? ==> r.error != ESP_OK) && (r.Ok? || asked.Err? || was.promising ==> r == asked)
    && (was.cap.Known() ==> now.cap == was.cap) && (was.promising && now.TagsFresh() ==> now.Current())
    && (was.promising && was.cap.Known() && asked.Ok? ==> now.spent == was.spent.Plus(1, 3))
    && (was.failing.Some? && was.cap.Known() && asked.Ok? ==> r == Err(was.failing.value))
    && (r.Ok? && now.TagsFresh() ==>
          var c := r.value;
          && c.lba + c.nblocks <= |now.medium| && Sized(now.medium, now.size)
          && |data| == c.len && data == ReadRange(now.medium, c.lba, c.nblocks, now.size))
  }

  /** An accepted chunk, read or not, once the capacity has been looked up. */
  lemma FetchedFrom(c: Chunk, err: EspErr, req: Header, data: seq<byte>, was: Situation, mid: Situation, now: Situation)
    requires Looked(was, mid) && (was.promising ==> was.obliging) && Asked(req, mid.cap.bs, mid.cap.bc) == Ok(c)
    requires Brought(c, data, err, mid, now)
    ensures Fetched(if err == ESP_OK then Ok(c) else Err(err), Ok(c), req, data, was, now)
  {
  }

  /** Answering with what has been read. */
  lemma ReadIsServed(t: Turn, r: Result<Chunk>, asked: Result<Chunk>, data: seq<byte>, payloadOk: bool,
                     was: Situation, now: Situation)
    requires t.Reads() && Fetched(r, asked, t.req, data, was, now)
    requires t == Turn(t.req, asked, t.response, t.payload, was.medium, now.medium, now.size)
    requires r.Ok? ==> |data| == r.value.len < U32
    requires t.response
          == Some(if r.Ok? then Response(ESP_OK, |data|, data + Crc.Trailer(data)) else Response(r.error, 0, []))
    ensures Done(t, t.req, t.payload, payloadOk, was, now) && Serviced(t, payloadOk, was, now)
  {
    if r.Ok? {
      FetchIsSound(t, data, payloadOk, now);
    } else {
      FailureIsSound(t, r.error, payloadOk, now);
    }
  }

  /** Answering with the capacity. */
  lemma CapacityIsServed(t: Turn, r: Result<(u32, u32)>, payloadOk: bool, was: Situation, now: Situation)
    requires AsksCapacity(Some(t.req)) && Refreshed(r, was, now)
    requires t == Turn(t.req, Asked(t.req, now.cap.bs, now.cap.bc), t.response, t.payload,
                       was.medium, now.medium, now.size)
    requires t.response
          == Some(if r.Ok? then Response(ESP_OK, 8, EncodeCapacity(r.value.0, r.value.1))
                  else Response(r.error, 0, []))
    requires was.promising ==> was.obliging
    ensures Done(t, t.req, t.payload, payloadOk, was, now) && Serviced(t, payloadOk, was, now)
  {
    OtherIsSound(t, payloadOk, now);
  }

  /** The data went to the blocks of the chunk, as far as the drive took it. */
  ghost predicate Written(c: Chunk, data: seq<byte>, status: EspErr, was: Situation, now: Situation) {
    && now.working && SameDrive(was, now) && was.spent.commands <= now.spent.commands
    && Torn(was.medium, now.medium, c.lba, c.nblocks, data, now.size)
    && (status == ESP_OK && now.TagsFresh() ==>
          c.lba + c.nblocks <= |was.medium|
          && now.medium == Overwrite(was.medium, c.lba, c.nblocks, data, now.size))
    && (was.obliging ==> status == ESP_OK && now.spent == was.spent.Plus(1, 3))
    && (was.failing.Some? ==> status == was.failing.value)
  }

  /** An `intact` payload went to the drive; any other has changed nothing. */
  ghost predicate Stored(c: Chunk, data: seq<byte>, intact: bool, status: EspErr, was: Situation, now: Situation) {
    if intact then Written(c, data, status, was, now) else status == ESP_ERR_INVALID_CRC && now == was
  }

  /** Answering with what became of it. */
  lemma StoreIsDone(t: Turn, c: Chunk, intact: bool, status: EspErr, was: Situation, now: Situation)
    requires t.Writes() && c.len + Crc.CRC_LEN <= |t.payload| && now.working
    requires Stored(c, t.payload[..c.len], intact, status, was, now)
    requires intact == Crc.Accepts(t.payload[..c.len + Crc.CRC_LEN])
    requires Asked(t.req, now.cap.bs, now.cap.bc) == Ok(c)
    requires t.response == Some(Response(status, if status == ESP_OK then c.len else 0, []))
    requires t == Turn(t.req, Ok(c), t.response, t.payload, was.medium, now.medium, now.size)
    ensures Done(t, t.req, t.payload, true, was, now) && Obliged(t, true, was, now)
  {
    assert Sound(t, true, now) by {
      if intact {
        assert Written(c, t.payload[..c.len], status, was, now);
      }
      StoreIsSound(t, intact, now);
    }
  }

  /** The same handle, with the same capacity. */
  predicate SameDrive(was: Situation, now: Situation) {
    now.cap == was.cap && now.size == was.size && now.open == was.open
  }

  /** A Write carried out after that. */
  lemma AfterLooking(t: Turn, payloadOk: bool, was: Situation, mid: Situation, now: Situation)
    requires t.Writes() && Done(t, t.req, t.payload, payloadOk, mid, now) && Obliged(t, payloadOk, mid, now)
    requires Looked(was, mid) && SameDrive(mid, now) && (was.promising ==> was.obliging)
    ensures Done(t, t.req, t.payload, payloadOk, was, now) && Serviced(t, payloadOk, was, now)
  {
    EffectKeepsCount(t, now.TagsFresh());
  }

  lemma EffectKeepsCount(t: Turn, tagsFresh: bool)
    requires Effect(t, tagsFresh)
    ensures |t.after| == |t.before|
  {
  }

  /** A capacity told with ESP_OK is the geometry of the medium. */
  ghost predicate CapacityTold(t: Turn) {
    AsksCapacity(Some(t.req)) && t.Says(ESP_OK) ==>
      0 < |t.after| <= U32 && t.response.value.body == EncodeCapacity(t.size, |t.after| - 1)
  }

  /** The drive got the chunk to write: nothing changes if the payload transfer failed or the payload does not
      match its trailer; otherwise only blocks of the chunk change, to the data sent. */
  ghost predicate ChunkContained(t: Turn, c: Chunk) {
    if t.response.None? then t.after == t.before
    else if |t.payload| < c.len + Crc.CRC_LEN then false
    else if !Crc.Accepts(t.payload[..c.len + Crc.CRC_LEN]) then t.after == t.before && t.Says(ESP_ERR_INVALID_CRC)
    else Torn(t.before, t.after, c.lba, c.nblocks, t.payload[..c.len], t.size)
  }

  /** The whole chunk is on the medium. */
  ghost predicate ChunkWritten(t: Turn, c: Chunk) {
    && c.len <= |t.payload| && c.lba + c.nblocks <= |t.before|
    && t.after == Overwrite(t.before, c.lba, c.nblocks, t.payload[..c.len], t.size)
  }

  /** The response brings exactly the blocks of the chunk, with a matching trailer. */
  ghost predicate ChunkRead(t: Turn, c: Chunk) {
    && t.response.Some? && Sized(t.before, t.size) && c.lba + c.nblocks <= |t.before|
    && var body := t.response.value.body;
    && |body| == c.len + Crc.CRC_LEN
    && body[..c.len] == ReadRange(t.before, c.lba, c.nblocks, t.size)
    && Crc.Accepts(body)
  }

  /** A Write whose chunk is refused changes nothing. */
  ghost predicate WriteContained(t: Turn) {
    match t.asked
    case Err(e) => t.after == t.before && t.Says(e)
    case Ok(c) => ChunkContained(t, c)
  }

  /** A Write that answers ESP_OK has written its whole chunk. */
  ghost predicate WriteDone(t: Turn) {
    t.Says(ESP_OK) ==>
      t.asked.Ok? && ChunkWritten(t, t.asked.value)
  }

  /** A Read that answers ESP_OK brings its whole chunk. */
  ghost predicate ReadDone(t: Turn) {
    t.Says(ESP_OK) ==>
      t.asked.Ok? && ChunkRead(t, t.asked.value)
  }

  /** The response suits the command: `open` says that a drive is open. */
  ghost predicate Suits(r: Response, req: Header, asked: Result<Chunk>, bs: u32, bc: u32, open: bool) {
    match req.CmdEnum()
    case Some(Read) => SuitsChunk(r, asked) && (r.status != ESP_OK ==> r.body == [])
    case Some(Write) => SuitsChunk(r, asked) && r.body == []
    case _ => SuitsOther(r, req, bs, bc, open)
  }

  /** A refused chunk has its own error; the second argument is the length of a chunk that went through, or 0. */
  predicate SuitsChunk(r: Response, asked: Result<Chunk>) {
    match asked
    case Err(e) => r == Response(e, 0, [])
    case Ok(c) => r.arg1 == if r.status == ESP_OK then c.len else 0
  }

  /** The same for the commands that transfer no blocks. */
  ghost predicate SuitsOther(r: Response, req: Header, bs: u32, bc: u32, open: bool) {
    match req.CmdEnum()
    case None => r == Response(ESP_ERR_INVALID_ARG, 0, [])
    case Some(GetStatus) =>
      if !open then r == Response(ESP_OK, 0, [0])
      else if bs == 0 || bc == 0 then r == Response(ESP_OK, 0, [1])
      else r == Response(ESP_OK, 0, [1]) || r == Response(ESP_OK, 0, [2])
    case Some(GetCapacity) =>
      if !open then r == Response(ESP_ERR_INVALID_STATE, 0, [])
      else if r.status == ESP_OK then r == Response(ESP_OK, 8, EncodeCapacity(bs, bc))
      else r == Response(r.status, 0, [])
    case Some(Flush) => r == Response(ESP_OK, 0, [])
    case _ => false
  }

  /** What a Write does, whatever the drive and the link do; and what its answer is worth as long as
      `tagsFresh`, that is, fewer than 2^32 commands have gone to drives. */
  ghost predicate WriteEffect(t: Turn, tagsFresh: bool) {
    WriteContained(t) && (tagsFresh ==> WriteDone(t))
  }

  /** The same for any command. */
  ghost predicate Effect(t: Turn, tagsFresh: bool) {
    if t.Writes() then WriteEffect(t, tagsFresh)
    else t.after == t.before && (tagsFresh && t.Reads() ==> ReadDone(t))
  }

  /** Everything a command comes to: a response unless a payload is lost, one that suits the command, and the
      effect on the medium. */
  ghost predicate Sound(t: Turn, payloadOk: bool, now: Situation) {
    && (t.response.None? <==> LosesPayload(Some(t.req), payloadOk, t.asked))
    && (t.response.Some? ==> Suits(t.response.value, t.req, t.asked, now.cap.bs, now.cap.bc, now.open))
    && Effect(t, now.TagsFresh()) && (now.TagsFresh() ==> CapacityTold(t))
  }

  /** The command has been carried out between these two situations, soundly, and the driver still works. */
  ghost predicate Done(t: Turn, req: Header, payload: seq<byte>, payloadOk: bool, was: Situation, now: Situation) {
    && t == Turn(req, Asked(req, now.cap.bs, now.cap.bc), t.response, payload, was.medium, now.medium, now.size)
    && now.working && was.spent.commands <= now.spent.commands && Sound(t, payloadOk, now)
  }

  /** A Read that failed, or a Write that was refused. */
  lemma FailureIsSound(t: Turn, e: EspErr, payloadOk: bool, now: Situation)
    requires t.response == Some(Response(e, 0, [])) && e != ESP_OK && t.after == t.before
    requires t.asked.Err? ==> t.asked.error == e
    requires t.Reads() || (t.Writes() && t.asked.Err?)
    ensures Sound(t, payloadOk, now)
  {
  }

  /** A Read that brought its chunk. */
  lemma FetchIsSound(t: Turn, data: seq<byte>, payloadOk: bool, now: Situation)
    requires t.Reads() && t.asked.Ok? && t.asked.value.len < U32 && t.after == t.before
    requires t.response == Some(Response(ESP_OK, t.asked.value.len, data + Crc.Trailer(data)))
    requires now.TagsFresh() ==> FromMedium(t, data)
    ensures Sound(t, payloadOk, now)
  {
    if now.TagsFresh() {
      Crc.IntactFrameAccepted(data);
      assert (data + Crc.Trailer(data))[..t.asked.value.len] == data;
    }
  }

  ghost predicate FromMedium(t: Turn, data: seq<byte>)
    requires t.asked.Ok?
  {
    var c := t.asked.value;
    && Sized(t.before, t.size) && c.lba + c.nblocks <= |t.before| && |data| == c.len
    && data == ReadRange(t.before, c.lba, c.nblocks, t.size)
  }

  /** A Write whose payload did not come through. */
  lemma LossIsSound(t: Turn, now: Situation)
    requires t.Writes() && t.asked.Ok? && t.response.None? && t.after == t.before
    ensures Sound(t, false, now)
  {
  }

  /** A Write whose payload was refused for its trailer, or went to the drive. */
  lemma StoreIsSound(t: Turn, intact: bool, now: Situation)
    requires t.Writes() && t.asked.Ok? && t.response.Some?
    requires var r := t.response.value; r.body == [] && r.arg1 == if r.status == ESP_OK then t.asked.value.len else 0
    requires var c := t.asked.value;
             && c.len + Crc.CRC_LEN <= |t.payload|
             && intact == Crc.Accepts(t.payload[..c.len + Crc.CRC_LEN])
             && (!intact ==> t.after == t.before && t.Says(ESP_ERR_INVALID_CRC))
             && (intact ==> Torn(t.before, t.after, c.lba, c.nblocks, t.payload[..c.len], t.size))
             && (intact && now.TagsFresh() && t.Says(ESP_OK) ==> ChunkWritten(t, c))
    ensures Sound(t, true, now)
  {
  }

  /** A command that transfers no blocks. */
  lemma OtherIsSound(t: Turn, payloadOk: bool, now: Situation)
    requires !t.Reads() && !t.Writes() && t.after == t.before && t.response.Some?
    requires SuitsOther(t.response.value, t.req, now.cap.bs, now.cap.bc, now.open)
    requires now.TagsFresh() ==> CapacityTold(t)
    ensures Sound(t, payloadOk, now)
  {
  }

  /** The layers agree on an accepted chunk: it is a whole, positive number of blocks, small enough for the
      16-bit count of a command block and for the buffers, and ends inside the cached capacity. */
  lemma AcceptedChunk(bs: u32, bc: u32, req: Header)
    requires Asked(req, bs, bc).Ok?
    ensures var c := Asked(req, bs, bc).value;
            && 0 < c.nblocks < U16 && 0 < c.len <= MAX_PAYLOAD
            && c.len == Extent(c.nblocks, bs) == Wrap32(Extent(c.nblocks, bs))
            && c.lba + c.nblocks <= bc && Wrap16(c.nblocks) == c.nblocks
  {
    var n, k := req.arg1, req.reserved;
    ComputeChunkInBlocks(bs, bc, req.arg0, n, k);
    AnswerBounded(n * bs >= U32, bs, bc, Wrap32(req.arg0 + k * PerChunk(bs)), BlocksIn(bs, n, k), PerChunk(bs));
  }

  lemma AnswerBounded(tooBig: bool, bs: nat, bc: u32, at: u32, have: nat, p: nat)
    requires InBlocksAnswer(tooBig, bs, bc, at, have).Ok? && have <= p && p * bs == MAX_PAYLOAD
    ensures var c := InBlocksAnswer(tooBig, bs, bc, at, have).value;
            && 0 < c.nblocks < U16 && 0 < c.len <= MAX_PAYLOAD
            && c.len == Extent(c.nblocks, bs) == Wrap32(Extent(c.nblocks, bs))
            && c.lba + c.nblocks <= bc && Wrap16(c.nblocks) == c.nblocks
  {
    ExtentIs(have, bs);
    BlocksBounded(bs, p, have);
  }

  lemma BlocksBounded(bs: nat, p: nat, n: nat)
    requires p * bs == MAX_PAYLOAD && 0 < n <= p
    ensures 0 < bs && n <= n * bs <= MAX_PAYLOAD && n <= MAX_PAYLOAD
  {
    Arithmetic.MulGe(bs, n);
    Arithmetic.MulGe(n, bs);
    Arithmetic.MulLess(p, n, bs);
  }

  // ----- The last block -----

  predicate Covers(r: Result<Chunk>, b: nat) {
    r.Ok? && r.value.lba <= b < r.value.lba + r.value.nblocks
  }

  /** Some Read or Write reaches block `b`, judged by this cached capacity. */
  ghost predicate Reachable(bs: u32, bc: u32, b: nat) {
    exists req: Header :: Covers(Asked(req, bs, bc), b)
  }

  /** The cached count is the address of the last block, so on a medium of `count` blocks every block can be
      reached but the last; on a medium of one block, none. */
  lemma ReachableIffNotLast(bs: u32, count: nat, b: nat)
    requires Usable(bs) && 0 < count <= U32 && b < count
    ensures Reachable(bs, count - 1, b) <==> b != count - 1
  {
    if Reachable(bs, count - 1, b) {
      var req: Header :| Covers(Asked(req, bs, count - 1), b);
      AcceptedChunk(bs, count - 1, req);
    }
    if b != count - 1 {
      OneBlockAccepted(bs, count - 1, b);
      assert Covers(Asked(Header(MAGIC, VERSION, 3, 0, 0, b, 1), bs, count - 1), b);
    }
  }

  lemma OneBlockAccepted(bs: u32, bc: u32, b: u32)
    requires Usable(bs) && b < bc
    ensures Covers(ComputeChunk(bs, bc, b, 1, 0), b)
  {
    Tiling(bs, bc, b, 1, 0);
    ChunksAbut(bs, 1, 0);
  }
}
