/** What a whole conversation about one range of blocks amounts to: the medium ends up holding exactly the
    data sent, and reading it back gives that data. */
module EndToEnd {
  import opened Chunking
  import opened Commands
  import opened Disk
  import opened Driver
  import opened Protocol
  import opened SpiLinks
  import opened Words
  import Crc

  /** The master's request to store `data` in `n` blocks from `lba` on, on a drive with this cached capacity. */
  datatype Job = Job(bs: u32, bc: u32, lba: u32, n: u32, data: seq<byte>) {
    ghost predicate Fair() {
      Usable(bs) && Fits(bs, bc, lba, n) && |data| == Extent(n, bs)
    }

    function Count(): nat
      requires Usable(bs)
    {
      ChunkCount(bs, n)
    }

    /** The first block of chunk `k`, counted from the start of the range, and the number of its blocks. */
    function First(k: nat): nat
      requires Usable(bs)
    {
      k * PerChunk(bs)
    }

    function Blocks(k: nat): nat
      requires Usable(bs)
    {
      BlocksIn(bs, n, k)
    }

    /** The bytes of chunk `k`. */
    ghost function Piece(k: nat): (p: seq<byte>)
      requires Fair()
      ensures |p| == Extent(Blocks(k), bs)
    {
      if Blocks(k) == 0 then []
      else
        PieceInside(this, k);
        data[Extent(First(k), bs)..Extent(First(k), bs) + Extent(Blocks(k), bs)]
    }
  }

  lemma PieceInside(job: Job, k: nat)
    requires job.Fair() && job.Blocks(k) > 0
    ensures Extent(job.First(k), job.bs) + Extent(job.Blocks(k), job.bs) <= |job.data|
  {
    var end := job.First(k) + job.Blocks(k);
    ExtentSum(job.First(k), job.Blocks(k), job.bs);
    ExtentSum(end, job.n - end, job.bs);
  }

  /** The slave accepts exactly the job's chunks, each at its place. */
  lemma AskedIs(job: Job, req: Header)
    requires job.Fair() && req.arg0 == job.lba && req.arg1 == job.n
    ensures req.reserved < job.Count() ==> IsPiece(Asked(req, job.bs, job.bc), job.bs, job.lba, job.n, req.reserved)
    ensures req.reserved < job.Count() ==> Asked(req, job.bs, job.bc).value.len == |job.Piece(req.reserved)|
    ensures req.reserved >= job.Count() ==> Asked(req, job.bs, job.bc) == Err(ESP_ERR_INVALID_ARG)
  {
    Tiling(job.bs, job.bc, job.lba, job.n, req.reserved);
    if req.reserved < job.Count() {
      ChunksAbut(job.bs, job.n, req.reserved);
      ExtentIs(job.Blocks(req.reserved), job.bs);
    }
  }

  /** Block `i` of a piece is the block of the data at its place. */
  lemma PieceBlock(job: Job, k: nat, i: nat)
    requires job.Fair() && i < job.Blocks(k)
    ensures BlockOf(job.Piece(k), job.bs, i) == BlockOf(job.data, job.bs, job.First(k) + i)
  {
    PieceInside(job, k);
    ExtentBelow(i, job.Blocks(k), job.bs);
    BlockOfSlice(job.data, job.bs, job.First(k), Extent(job.Blocks(k), job.bs), i);
  }

  // ----- Writing -----

  /** A payload is the chunk's data, or is damaged in a way the trailer shows. */
  ghost predicate HonestPayload(job: Job, k: nat, payload: seq<byte>)
    requires job.Fair()
  {
    var len := |job.Piece(k)|;
    && |payload| >= len + Crc.CRC_LEN
    && (payload[..len] == job.Piece(k) || !Crc.Accepts(payload[..len + Crc.CRC_LEN]))
  }

  /** The command is not a Write, or is a Write for a chunk of this job. */
  ghost predicate Honest(job: Job, req: Header, payload: seq<byte>)
    requires job.Fair()
  {
    req.CmdEnum() == Some(Write) ==>
      req.arg0 == job.lba && req.arg1 == job.n && HonestPayload(job, req.reserved, payload)
  }

  /** A damaged frame is honest if the damage is confined to 32 consecutive bits of data and trailer. */
  lemma BurstIsHonest(job: Job, k: nat, payload: seq<byte>, i: nat)
    requires job.Fair() && |payload| >= |job.Piece(k)| + Crc.CRC_LEN
    requires var sent := job.Piece(k) + Crc.Trailer(job.Piece(k));
             Crc.DifferWithin(Crc.MessageBits(sent), Crc.MessageBits(payload[..|sent|]), i)
    ensures HonestPayload(job, k, payload)
  {
    var data := job.Piece(k);
    var sent := data + Crc.Trailer(data);
    Crc.IntactFrameAccepted(data);
    Crc.BurstOrSame(sent, payload[..|sent|], i);
    if payload[..|sent|] == sent {
      PayloadPrefix(payload, data, Crc.Trailer(data));
    }
  }

  lemma PayloadPrefix(payload: seq<byte>, data: seq<byte>, trailer: seq<byte>)
    requires |data| + |trailer| <= |payload| && payload[..|data| + |trailer|] == data + trailer
    ensures payload[..|data|] == data
  {
    assert payload[..|data|] == (data + trailer)[..|data|];
  }

  predicate InJob(job: Job, b: nat) {
    job.lba <= b < job.lba + job.n
  }

  /** Every block of the medium is as it was or holds the job's data; and it holds the job's data if its
      chunk has been acknowledged. */
  ghost predicate Progress(job: Job, was: seq<Block>, now: seq<Block>, acked: set<nat>)
    requires Usable(job.bs)
  {
    && |now| == |was|
    && (forall b: nat :: b < |was| ==>
          now[b] == was[b] || (InJob(job, b) && now[b] == BlockOf(job.data, job.bs, b - job.lba)))
    && (forall b: nat :: b < |was| && InJob(job, b) && ChunkOf(job.bs, b - job.lba) in acked ==>
          now[b] == BlockOf(job.data, job.bs, b - job.lba))
  }

  /** The cached capacity is the job's, or is not known. */
  predicate Judged(t: Turn, job: Job) {
    t.size == job.bs && (t.asked == Err(ESP_ERR_INVALID_STATE) || t.asked == Asked(t.req, job.bs, job.bc))
  }

  /** The chunk a command has acknowledged. */
  function Acked(req: Header, response: Option<Response>): set<nat> {
    if req.CmdEnum() == Some(Write) && response.Some? && response.value.status == ESP_OK then {req.reserved} else {}
  }

  /** Chunk `k` of the job, as the slave computes it: its blocks are the right blocks of the medium, and
      its bytes the right bytes of the data. */
  ghost predicate Placed(job: Job, k: nat, c: Chunk)
    requires job.Fair()
  {
    && c.len == |job.Piece(k)| == Extent(c.nblocks, job.bs)
    && (forall b: nat :: c.lba <= b < c.lba + c.nblocks ==>
          && InJob(job, b) && ChunkOf(job.bs, b - job.lba) == k
          && BlockOf(job.Piece(k), job.bs, b - c.lba) == BlockOf(job.data, job.bs, b - job.lba))
    && (forall b: nat :: InJob(job, b) && ChunkOf(job.bs, b - job.lba) == k ==> c.lba <= b < c.lba + c.nblocks)
  }

  lemma PieceIsPlaced(job: Job, k: nat, c: Chunk)
    requires job.Fair() && k < job.Count() && c.len == |job.Piece(k)|
    requires IsPiece(Ok(c), job.bs, job.lba, job.n, k)
    ensures Placed(job, k, c)
  {
    forall b: nat | c.lba <= b < c.lba + c.nblocks
      ensures InJob(job, b) && ChunkOf(job.bs, b - job.lba) == k
      ensures BlockOf(job.Piece(k), job.bs, b - c.lba) == BlockOf(job.data, job.bs, b - job.lba)
    {
      PieceHolds(job, k, c, b);
    }
    forall b: nat | InJob(job, b) && ChunkOf(job.bs, b - job.lba) == k
      ensures c.lba <= b < c.lba + c.nblocks
    {
      ChunksPartition(job.bs, job.n, k, b - job.lba);
    }
  }

  lemma PieceHolds(job: Job, k: nat, c: Chunk, b: nat)
    requires job.Fair() && k < job.Count() && IsPiece(Ok(c), job.bs, job.lba, job.n, k)
    requires c.lba <= b < c.lba + c.nblocks
    ensures InJob(job, b) && ChunkOf(job.bs, b - job.lba) == k
    ensures BlockOf(job.Piece(k), job.bs, b - c.lba) == BlockOf(job.data, job.bs, b - job.lba)
  {
    var first, j := k * PerChunk(job.bs), b - c.lba;
    assert b - job.lba == first + j;
    ChunksAbut(job.bs, job.n, k);
    ComputeInside(first, BlocksIn(job.bs, job.n, k), job.n, j);
    ChunksPartition(job.bs, job.n, k, first + j);
    PieceBlock(job, k, j);
  }

  lemma ComputeInside(first: nat, have: nat, n: nat, j: nat)
    requires j < have && first + have <= n
    ensures first + j < n
  {
  }

  /** What the slave makes of a Read or Write of this job. */
  lemma JudgedAsked(job: Job, t: Turn)
    requires job.Fair() && Judged(t, job) && t.req.arg0 == job.lba && t.req.arg1 == job.n
    ensures match t.asked
            case Err(e) => e != ESP_OK
            case Ok(c) => Placed(job, t.req.reserved, c)
  {
    if t.asked != Err(ESP_ERR_INVALID_STATE) {
      AskedIs(job, t.req);
      if t.req.reserved < job.Count() {
        PieceIsPlaced(job, t.req.reserved, t.asked.value);
      }
    }
  }

  lemma TurnKeepsProgress(job: Job, was: seq<Block>, acked: set<nat>, t: Turn)
    requires job.Fair() && Judged(t, job) && Effect(t, true) && Honest(job, t.req, t.payload)
    requires Progress(job, was, t.before, acked)
    ensures Progress(job, was, t.after, acked + Acked(t.req, t.response))
  {
    if t.Writes() {
      JudgedAsked(job, t);
      match t.asked {
        case Err(e) =>
        case Ok(c) => ChunkKeepsProgress(job, was, acked, t, c);
      }
    }
  }

  lemma ChunkKeepsProgress(job: Job, was: seq<Block>, acked: set<nat>, t: Turn, c: Chunk)
    requires job.Fair() && t.size == job.bs && t.Writes() && Progress(job, was, t.before, acked)
    requires Placed(job, t.req.reserved, c) && HonestPayload(job, t.req.reserved, t.payload)
    requires ChunkContained(t, c) && (t.Says(ESP_OK) ==> ChunkWritten(t, c))
    ensures Progress(job, was, t.after, acked + Acked(t.req, t.response))
  {
    var k, whole := t.req.reserved, t.Says(ESP_OK);
    if t.after != t.before || whole {
      PieceStored(job, k, t, c);
      WrittenKeepsProgress(job, was, acked, t.before, t.after, k, c, whole);
    }
    assert Acked(t.req, t.response) == if whole then {k} else {};
  }

  lemma PieceStored(job: Job, k: nat, t: Turn, c: Chunk)
    requires job.Fair() && t.size == job.bs && c.len == |job.Piece(k)| && HonestPayload(job, k, t.payload)
    requires ChunkContained(t, c) && (t.Says(ESP_OK) ==> ChunkWritten(t, c))
    requires t.after != t.before || t.Says(ESP_OK)
    ensures Torn(t.before, t.after, c.lba, c.nblocks, job.Piece(k), job.bs)
    ensures t.Says(ESP_OK) ==> t.after == Overwrite(t.before, c.lba, c.nblocks, job.Piece(k), job.bs)
  {
    assert t.payload[..c.len] == job.Piece(k);
  }

  lemma WrittenKeepsProgress(job: Job, was: seq<Block>, acked: set<nat>, before: seq<Block>, after: seq<Block>,
                             k: nat, c: Chunk, whole: bool)
    requires job.Fair() && Progress(job, was, before, acked) && Placed(job, k, c)
    requires if whole then after == Overwrite(before, c.lba, c.nblocks, job.Piece(k), job.bs)
             else Torn(before, after, c.lba, c.nblocks, job.Piece(k), job.bs)
    ensures Progress(job, was, after, acked + if whole then {k} else {})
  {
    forall b: nat | b < |was|
      ensures after[b] == was[b] || (InJob(job, b) && after[b] == BlockOf(job.data, job.bs, b - job.lba))
      ensures InJob(job, b)
              && (ChunkOf(job.bs, b - job.lba) in acked || (whole && ChunkOf(job.bs, b - job.lba) == k)) ==>
                after[b] == BlockOf(job.data, job.bs, b - job.lba)
    {
      if c.lba <= b < c.lba + c.nblocks {
        assert InJob(job, b) && ChunkOf(job.bs, b - job.lba) == k;
        assert BlockOf(job.Piece(k), job.bs, b - c.lba) == BlockOf(job.data, job.bs, b - job.lba);
      } else {
        assert after[b] == before[b];
      }
    }
  }

  /** Once every chunk has been acknowledged, the medium is the old one with exactly the range overwritten. */
  lemma AllAcked(job: Job, was: seq<Block>, now: seq<Block>, acked: set<nat>)
    requires job.Fair() && Progress(job, was, now, acked)
    requires forall k: nat :: k < job.Count() ==> k in acked
    ensures now == Overwrite(was, job.lba, job.n, job.data, job.bs)
  {
    forall b: nat | b < |was| && InJob(job, b)
      ensures now[b] == BlockOf(job.data, job.bs, b - job.lba)
    {
      ChunksPartition(job.bs, job.n, ChunkOf(job.bs, b - job.lba), b - job.lba);
    }
  }

  // ----- Reading back -----

  /** A Read of an acknowledged chunk that answers ESP_OK brings that chunk's data. */
  ghost predicate Returns(job: Job, req: Header, response: Option<Response>, acked: set<nat>)
    requires job.Fair()
  {
    req.CmdEnum() == Some(Read) && response.Some? && response.value.status == ESP_OK
    && req.arg0 == job.lba && req.arg1 == job.n && req.reserved in acked ==>
      response.value.body == job.Piece(req.reserved) + Crc.Trailer(job.Piece(req.reserved))
  }

  lemma ReadReturns(job: Job, was: seq<Block>, acked: set<nat>, t: Turn)
    requires job.Fair() && Judged(t, job) && Effect(t, true)
    requires Progress(job, was, t.before, acked)
    ensures Returns(job, t.req, t.response, acked)
  {
    if t.Reads() && t.Says(ESP_OK) && t.req.arg0 == job.lba && t.req.arg1 == job.n && t.req.reserved in acked {
      JudgedAsked(job, t);
      ChunkReturned(job, was, acked, t, t.asked.value);
    }
  }

  lemma ChunkReturned(job: Job, was: seq<Block>, acked: set<nat>, t: Turn, c: Chunk)
    requires job.Fair() && t.size == job.bs && Placed(job, t.req.reserved, c)
    requires ChunkRead(t, c) && Progress(job, was, t.before, acked) && t.req.reserved in acked
    ensures t.response.value.body == job.Piece(t.req.reserved) + Crc.Trailer(job.Piece(t.req.reserved))
  {
    PieceRead(job, was, acked, t.before, t.req.reserved, c);
    AcceptedBody(t.response.value.body, job.Piece(t.req.reserved));
  }

  lemma PieceRead(job: Job, was: seq<Block>, acked: set<nat>, now: seq<Block>, k: nat, c: Chunk)
    requires job.Fair() && Progress(job, was, now, acked) && k in acked && Placed(job, k, c)
    requires Sized(now, job.bs) && c.lba + c.nblocks <= |now|
    ensures ReadRange(now, c.lba, c.nblocks, job.bs) == job.Piece(k)
  {
    var got := ReadRange(now, c.lba, c.nblocks, job.bs);
    forall i: nat | i < c.nblocks ensures BlockOf(got, job.bs, i) == BlockOf(job.Piece(k), job.bs, i) {
      BlockOfRead(now, c.lba, c.nblocks, job.bs, i);
      var b := c.lba + i;
      assert InJob(job, b) && now[b] == BlockOf(job.data, job.bs, b - job.lba);
    }
    SameBlocks(got, job.Piece(k), c.nblocks, job.bs);
  }

  /** A frame the trailer accepts is its data and the data's trailer. */
  lemma AcceptedBody(body: seq<byte>, data: seq<byte>)
    requires Crc.Accepts(body) && |body| == |data| + Crc.CRC_LEN && body[..|data|] == data
    ensures body == data + Crc.Trailer(data)
  {
    var t := body[|data|..];
    Le32OfFrom(t);
    assert body == data + t;
  }

  lemma Le32OfFrom(t: seq<byte>)
    requires |t| == 4
    ensures Le32(FromLe32(t)) == t
  {
    var low: nat, high: nat := FromLe16(t[..2]), FromLe16(t[2..]);
    assert FromLe32(t) as nat == low + 0x1_0000 * high;
    assert FromLe32(t) % 0x1_0000 == low && FromLe32(t) / 0x1_0000 == high;
  }

  // ----- Whole conversations -----

  /** What happened to one drive: its commands in order, and `None` wherever something else went on. */
  type History = seq<Option<Turn>>

  /** The history leads the medium from `was` to `now`; nothing else changes it. */
  ghost predicate Leads(h: History, was: seq<Block>, now: seq<Block>) {
    if h == [] then now == was
    else
      var last := h[|h| - 1];
      if last.None? then Leads(h[..|h| - 1], was, now)
      else last.value.after == now && Leads(h[..|h| - 1], was, last.value.before)
  }

  /** The chunks acknowledged so far. */
  function AckedIn(h: History): set<nat> {
    if h == [] then {}
    else
      var last := h[|h| - 1];
      AckedIn(h[..|h| - 1]) + if last.None? then {} else Acked(last.value.req, last.value.response)
  }

  ghost predicate AboutJob(job: Job, o: Option<Turn>)
    requires job.Fair()
  {
    o.Some? ==> Judged(o.value, job) && Effect(o.value, true) && Honest(job, o.value.req, o.value.payload)
  }

  /** The turn keeps the progress made, whatever it is, and adds what it acknowledges. */
  ghost predicate Helps(job: Job, t: Turn)
    requires job.Fair()
  {
    forall was, acked | Progress(job, was, t.before, acked) ::
      Progress(job, was, t.after, acked + Acked(t.req, t.response))
  }

  lemma AboutJobHelps(job: Job, t: Turn)
    requires job.Fair() && AboutJob(job, Some(t))
    ensures Helps(job, t)
  {
    forall was, acked | Progress(job, was, t.before, acked)
      ensures Progress(job, was, t.after, acked + Acked(t.req, t.response))
    {
      TurnKeepsProgress(job, was, acked, t);
    }
  }

  lemma {:induction false} ProgressIsMade(job: Job, h: History, was: seq<Block>, now: seq<Block>)
    requires job.Fair() && Leads(h, was, now) && forall i :: 0 <= i < |h| && h[i].Some? ==> Helps(job, h[i].value)
    ensures Progress(job, was, now, AckedIn(h))
    decreases |h|
  {
    if h != [] {
      var front, last := h[..|h| - 1], h[|h| - 1];
      ProgressIsMade(job, front, was, if last.None? then now else last.value.before);
    }
  }

  lemma {:induction false} LeadsTo(h: History, was: seq<Block>, now: seq<Block>, i: nat)
    requires Leads(h, was, now) && i < |h| && h[i].Some?
    ensures Leads(h[..i], was, h[i].value.before)
    decreases |h|
  {
    if i < |h| - 1 {
      var front, last := h[..|h| - 1], h[|h| - 1];
      LeadsTo(front, was, if last.None? then now else last.value.before, i);
      assert front[..i] == h[..i];
    }
  }

  /** Any number of the job's Writes, in any order, repeated, damaged or failing, among any other commands
      that are not Writes: whatever has been acknowledged is on the medium and is what Reads bring, and
      nothing outside the range has changed. */
  lemma Conversation(job: Job, h: History, was: seq<Block>, now: seq<Block>)
    requires job.Fair() && Leads(h, was, now) && forall i :: 0 <= i < |h| ==> AboutJob(job, h[i])
    ensures Progress(job, was, now, AckedIn(h))
    ensures forall i :: 0 <= i < |h| && h[i].Some? ==>
              Returns(job, h[i].value.req, h[i].value.response, AckedIn(h[..i]))
  {
    forall i | 0 <= i < |h| && h[i].Some? ensures Helps(job, h[i].value) {
      AboutJobHelps(job, h[i].value);
    }
    ProgressIsMade(job, h, was, now);
    forall i | 0 <= i < |h| && h[i].Some?
      ensures Returns(job, h[i].value.req, h[i].value.response, AckedIn(h[..i]))
    {
      LeadsTo(h, was, now, i);
      ProgressIsMade(job, h[..i], was, h[i].value.before);
      ReadReturns(job, was, AckedIn(h[..i]), h[i].value);
    }
  }

  /** Once every chunk has had its ESP_OK, exactly the range is overwritten, with exactly the data. */
  lemma StoredOnceAcknowledged(job: Job, h: History, was: seq<Block>, now: seq<Block>)
    requires job.Fair() && Leads(h, was, now) && forall i :: 0 <= i < |h| ==> AboutJob(job, h[i])
    requires forall k: nat :: k < job.Count() ==> k in AckedIn(h)
    ensures now == Overwrite(was, job.lba, job.n, job.data, job.bs)
  {
    Conversation(job, h, was, now);
    AllAcked(job, was, now, AckedIn(h));
  }

  // ----- A chunk sent intact -----

  /** The exchange is a Write of chunk `k` of the job, with its data and trailer, and all goes well on the wire. */
  ghost predicate Sends(job: Job, k: nat, x: FullExchange)
    requires job.Fair()
  {
    && RequestIn(x).Some? && x.payloadOk
    && var req, sent := RequestIn(x).value, job.Piece(k) + Crc.Trailer(job.Piece(k));
       && req.CmdEnum() == Some(Write) && req.arg0 == job.lba && req.arg1 == job.n && req.reserved == k < job.Count()
       && |sent| <= |x.payload| && x.payload[..|sent|] == sent
  }

  lemma SendsIsHonest(job: Job, k: nat, x: FullExchange)
    requires job.Fair() && Sends(job, k, x)
    ensures Crc.Accepts(x.payload[..|job.Piece(k)| + Crc.CRC_LEN]) && HonestPayload(job, k, x.payload)
  {
    Crc.IntactFrameAccepted(job.Piece(k));
    PayloadPrefix(x.payload, job.Piece(k), Crc.Trailer(job.Piece(k)));
  }

  /** The link has done its part for such a Write once the capacity is known. */
  lemma IntactDeserves(job: Job, k: nat, x: FullExchange, t: Turn)
    requires job.Fair() && Sends(job, k, x) && t.req == RequestIn(x).value && t.payload == x.payload
    requires t.asked == Asked(t.req, job.bs, job.bc)
    ensures Deserves(t, x.payloadOk)
  {
    AskedIs(job, t.req);
    SendsIsHonest(job, k, x);
  }

  /** The first `n` chunks. */
  function FirstChunks(n: nat): (s: set<nat>)
    ensures forall k: nat :: k in s <==> k < n
  {
    if n == 0 then {} else FirstChunks(n - 1) + {n - 1}
  }

  /** A drive that helps acknowledges it, and has it stored then, with all that was there before. */
  lemma IntactStored(job: Job, medium: seq<Block>, k: nat, x: FullExchange, t: Turn, was: Situation, now: Situation)
    requires job.Fair() && Sends(job, k, x) && Progress(job, medium, was.medium, FirstChunks(k))
    requires Did(t, RequestIn(x).value, x, was, now) && Serviced(t, x.payloadOk, was, now)
    requires was.promising && was.cap.Known() && was.cap == Capacity(job.bs, job.bc) && now.size == job.bs
    requires was.spent.commands + 1 < U32
    ensures Acknowledges(t.response, |job.Piece(k)|) && now.cap == was.cap && now.spent == was.spent.Plus(1, 3)
    ensures |now.medium| == |was.medium| && Progress(job, medium, now.medium, FirstChunks(k + 1))
  {
    IntactServed(job, k, x, t, was, now);
    SendsIsHonest(job, k, x);
    EffectKeepsCount(t, true);
    TurnKeepsProgress(job, medium, FirstChunks(k), t);
  }

  lemma IntactServed(job: Job, k: nat, x: FullExchange, t: Turn, was: Situation, now: Situation)
    requires job.Fair() && Sends(job, k, x)
    requires Did(t, RequestIn(x).value, x, was, now) && Serviced(t, x.payloadOk, was, now)
    requires was.promising && was.cap.Known() && was.cap == Capacity(job.bs, job.bc)
    ensures Acknowledges(t.response, |job.Piece(k)|) && now.cap == was.cap && now.spent == was.spent.Plus(1, 3)
  {
    IntactDeserves(job, k, x, t);
    AskedIs(job, t.req);
  }

  // ----- Putting the pieces together -----

  /** The first `k` pieces, one after the other. */
  ghost function Pieces(job: Job, k: nat): seq<byte>
    requires job.Fair()
  {
    if k == 0 then [] else Pieces(job, k - 1) + job.Piece(k - 1)
  }

  /** Where chunk `k` starts, and the last chunk ends. */
  function Start(job: Job, k: nat): nat
    requires Usable(job.bs)
  {
    if k < job.Count() then job.First(k) else job.n
  }

  lemma {:induction false} PiecesArePrefix(job: Job, k: nat)
    requires job.Fair() && k <= job.Count()
    ensures Extent(Start(job, k), job.bs) <= |job.data|
    ensures Pieces(job, k) == job.data[..Extent(Start(job, k), job.bs)]
  {
    if k > 0 {
      PiecesArePrefix(job, k - 1);
      ChunksAbut(job.bs, job.n, k - 1);
      PieceInside(job, k - 1);
      ExtentSum(job.First(k - 1), job.Blocks(k - 1), job.bs);
      NextPiece(job.data, Extent(job.First(k - 1), job.bs), Extent(job.Blocks(k - 1), job.bs));
    } else {
      BelowCount(job.bs, job.n, 0);
    }
  }

  lemma NextPiece(data: seq<byte>, at: nat, len: nat)
    requires at + len <= |data|
    ensures data[..at] + data[at..at + len] == data[..at + len]
  {
  }

  /** The pieces of a job, read back in order, are its data. */
  lemma PiecesAreData(job: Job)
    requires job.Fair()
    ensures Pieces(job, job.Count()) == job.data
  {
    PiecesArePrefix(job, job.Count());
  }

  /** The bodies of Read responses, each without its trailer, one after the other. */
  function Joined(bodies: seq<seq<byte>>): seq<byte> {
    if bodies == [] then []
    else
      var last := bodies[|bodies| - 1];
      Joined(bodies[..|bodies| - 1]) + if |last| < Crc.CRC_LEN then [] else last[..|last| - Crc.CRC_LEN]
  }

  lemma {:induction false} JoinedIsPieces(job: Job, bodies: seq<seq<byte>>)
    requires job.Fair()
    requires forall k :: 0 <= k < |bodies| ==> bodies[k] == job.Piece(k) + Crc.Trailer(job.Piece(k))
    ensures Joined(bodies) == Pieces(job, |bodies|)
  {
    if bodies != [] {
      var n := |bodies| - 1;
      JoinedIsPieces(job, bodies[..n]);
      assert bodies[n][..|bodies[n]| - Crc.CRC_LEN] == job.Piece(n);
    }
  }

  /** What the slave sends for the chunks of a job, in order, is the job's data. */
  lemma BodiesAreData(job: Job, bodies: seq<seq<byte>>)
    requires job.Fair() && |bodies| == job.Count()
    requires forall k :: 0 <= k < |bodies| ==> bodies[k] == job.Piece(k) + Crc.Trailer(job.Piece(k))
    ensures Joined(bodies) == job.data
  {
    JoinedIsPieces(job, bodies);
    PiecesAreData(job);
  }
}
