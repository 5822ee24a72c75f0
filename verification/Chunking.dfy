/** How one request for a range of blocks is cut into 8192-byte chunks (src/spi_link/transport.rs).

    `usize` is 32 bits on the target; the `u32` addition of the chunk's offset to the start
    address is unchecked in the source and wraps, as it does in the release profile. */
module Chunking {
  import opened Arithmetic
  import opened Words
  import opened Protocol

  datatype Chunk = Chunk(lba: u32, nblocks: nat, len: nat)

  /** `compute_chunk`, over the cached block size and block count. */
  function ComputeChunk(bs: u32, bc: u32, lbaStart: u32, n: u32, idx: u16): Result<Chunk> {
    if bs == 0 then Err(ESP_ERR_INVALID_STATE)
    else if bs > MAX_PAYLOAD then Err(ESP_ERR_INVALID_SIZE)
    else if MAX_PAYLOAD % bs != 0 then Err(ESP_ERR_INVALID_STATE)
    else if n * bs >= U32 then Err(ESP_ERR_INVALID_SIZE)
    else if PayloadBytes(idx) >= U32 then Err(ESP_ERR_INVALID_SIZE)
    else ChunkAt(bs, bc, lbaStart, n * bs, PayloadBytes(idx))
  }

  /** The rest of it: the chunk at this byte offset of a request for `total` bytes. */
  function ChunkAt(bs: u32, bc: u32, lbaStart: u32, total: nat, offset: nat): Result<Chunk>
    requires bs > 0
  {
    if offset >= total then Err(ESP_ERR_INVALID_ARG)
    else
      var len := Min(MAX_PAYLOAD, total - offset);
      if len % bs != 0 then Err(ESP_ERR_INVALID_SIZE)
      else
        var lba, nblocks := Wrap32(lbaStart + offset / bs), len / bs;
        if bc == 0 then Err(ESP_ERR_INVALID_STATE)
        else if lba + nblocks >= U32 || lba + nblocks > bc then Err(ESP_ERR_INVALID_ARG)
        else Ok(Chunk(lba, nblocks, len))
  }

  predicate Usable(bs: nat) {
    0 < bs <= MAX_PAYLOAD && MAX_PAYLOAD % bs == 0
  }

  /** Blocks in a full chunk. */
  function PerChunk(bs: nat): (p: nat)
    requires Usable(bs)
    ensures p * bs == 8192 && p > 0
  {
    MAX_PAYLOAD / bs
  }

  /** Blocks in chunk `k` of an `n`-block request. */
  function BlocksIn(bs: nat, n: nat, k: nat): nat
    requires Usable(bs)
  {
    var p := PerChunk(bs);
    if k * p >= n then 0 else Min(p, n - k * p)
  }

  /** The byte arithmetic of the source, in blocks. */
  lemma InBlocks(bs: nat, n: nat, k: nat)
    requires Usable(bs)
    ensures var p := PerChunk(bs);
            && (PayloadBytes(k) >= n * bs <==> k * p >= n)
            && (PayloadBytes(k)) / bs == k * p
            && (k * p < n ==> Min(MAX_PAYLOAD, n * bs - PayloadBytes(k)) == BlocksIn(bs, n, k) * bs)
  {
    var p := PerChunk(bs);
    assert PayloadBytes(k) == (k * p) * bs;
    MulLess(k * p, n, bs);
    DivMultiple(k * p, bs);
    if k * p < n {
      assert n * bs - PayloadBytes(k) == (n - k * p) * bs;
      MulLess(n - k * p, p, bs);
    }
  }

  /** The answer in terms of blocks: `at` is where chunk `k` of an `n`-block request starts, `have` the
      blocks in it, and `tooBig` says that the request is 4 GiB or more. */
  function InBlocksAnswer(tooBig: bool, bs: nat, bc: u32, at: u32, have: nat): Result<Chunk> {
    if tooBig then Err(ESP_ERR_INVALID_SIZE)
    else if have == 0 then Err(ESP_ERR_INVALID_ARG)
    else if bc == 0 then Err(ESP_ERR_INVALID_STATE)
    else if at + have > bc then Err(ESP_ERR_INVALID_ARG)
    else Ok(Chunk(at, have, have * bs))
  }

  /** In particular the source's check that the chunk length is a whole number of blocks never
      fails. */
  lemma ComputeChunkInBlocks(bs: u32, bc: u32, lba: u32, n: u32, k: u16)
    requires Usable(bs)
    ensures ComputeChunk(bs, bc, lba, n, k)
         == InBlocksAnswer(n * bs >= U32, bs, bc, Wrap32(lba + k * PerChunk(bs)), BlocksIn(bs, n, k))
    ensures BlocksIn(bs, n, k) > 0 <==> k * PerChunk(bs) < n
    ensures k * PerChunk(bs) + BlocksIn(bs, n, k) <= Max(n, k * PerChunk(bs))
  {
    InBlocks(bs, n, k);
    DivMultiple(BlocksIn(bs, n, k), bs);
  }

  /** The code of every refusal. A block size the link cannot use is refused whatever the range is: none cached, or not
      a divisor of 8192, is INVALID_STATE, too large is INVALID_SIZE. With a usable one, a request of 2^32 bytes or
      more comes first, then a chunk behind its end, then an unknown capacity, then a range past the last block. */
  lemma RefusalCodes(bs: u32, bc: u32, lba: u32, n: u32, k: u16)
    ensures !Usable(bs) ==> ComputeChunk(bs, bc, lba, n, k) == Err(if bs > 8192 then 0x104 else 0x103)
    ensures Usable(bs) && n * bs >= 0x1_0000_0000 ==> ComputeChunk(bs, bc, lba, n, k) == Err(0x104)
    ensures Usable(bs) && n * bs < 0x1_0000_0000 && 8192 * k >= n * bs ==> ComputeChunk(bs, bc, lba, n, k) == Err(0x102)
    ensures Usable(bs) && 8192 * k < n * bs < 0x1_0000_0000 && bc == 0 ==>
              ComputeChunk(bs, bc, lba, n, k) == Err(0x103)
    ensures Usable(bs) && 8192 * k < n * bs < 0x1_0000_0000 && bc != 0 && ComputeChunk(bs, bc, lba, n, k).Err? ==>
              ComputeChunk(bs, bc, lba, n, k) == Err(0x102)
  {
    if Usable(bs) {
      ComputeChunkInBlocks(bs, bc, lba, n, k);
    }
  }

  /** The request lies inside the cached capacity, and its chunks can all be numbered by a `u16`.
      A caller can check both before sending anything. */
  predicate Fits(bs: nat, bc: nat, lba: nat, n: nat) {
    lba + n <= bc && n * bs <= PayloadBytes(U16)
  }

  /** The number of chunks, rounded up. */
  function ChunkCount(bs: nat, n: nat): nat
    requires Usable(bs)
  {
    (n * bs + 8191) / 8192
  }

  lemma BelowCount(bs: nat, n: nat, k: nat)
    requires Usable(bs)
    ensures k < ChunkCount(bs, n) <==> k * PerChunk(bs) < n
  {
    InBlocks(bs, n, k);
  }

  /** Chunk `k` of a request is accepted as the `k`-th full run of blocks, the last one cut short. */
  predicate IsPiece(r: Result<Chunk>, bs: nat, lba: nat, n: nat, k: nat)
    requires Usable(bs)
  {
    && r.Ok?
    && r.value.lba == lba + k * PerChunk(bs)
    && r.value.nblocks == BlocksIn(bs, n, k)
    && r.value.len == BlocksIn(bs, n, k) * bs
  }

  /** Of a request that fits, exactly the first `ChunkCount` chunks are accepted. */
  lemma Tiling(bs: u32, bc: u32, lba: u32, n: u32, k: u16)
    requires Usable(bs) && Fits(bs, bc, lba, n)
    ensures k < ChunkCount(bs, n) ==> IsPiece(ComputeChunk(bs, bc, lba, n, k), bs, lba, n, k)
    ensures k >= ChunkCount(bs, n) ==> ComputeChunk(bs, bc, lba, n, k) == Err(ESP_ERR_INVALID_ARG)
  {
    ComputeChunkInBlocks(bs, bc, lba, n, k);
    BelowCount(bs, n, k);
    var before, have := k * PerChunk(bs), BlocksIn(bs, n, k);
    TilingAnswer(bs, bc, lba, n, before, have, n * bs);
    assert ComputeChunk(bs, bc, lba, n, k)
        == if have == 0 then Err(ESP_ERR_INVALID_ARG) else Ok(Chunk(lba + before, have, have * bs));
  }

  lemma TilingAnswer(bs: nat, bc: u32, lba: u32, n: u32, before: nat, have: nat, total: nat)
    requires lba + n <= bc && total <= PayloadBytes(U16)
    requires have > 0 <==> before < n
    requires before + have <= Max(n, before)
    ensures InBlocksAnswer(total >= U32, bs, bc, Wrap32(lba + before), have)
         == if have == 0 then Err(ESP_ERR_INVALID_ARG) else Ok(Chunk(lba + before, have, have * bs))
  {
  }

  /** A `u16` can number them all. */
  lemma CountFits(bs: nat, n: nat)
    requires Usable(bs) && n * bs <= PayloadBytes(U16)
    ensures ChunkCount(bs, n) <= U16
  {
  }

  /** The chunks lie end to end, from the first block of the request to its last. */
  lemma ChunksAbut(bs: nat, n: nat, k: nat)
    requires Usable(bs) && k < ChunkCount(bs, n)
    ensures 0 < BlocksIn(bs, n, k) <= PerChunk(bs)
    ensures k + 1 < ChunkCount(bs, n) ==> k * PerChunk(bs) + BlocksIn(bs, n, k) == (k + 1) * PerChunk(bs)
    ensures k + 1 == ChunkCount(bs, n) ==> k * PerChunk(bs) + BlocksIn(bs, n, k) == n
  {
    BelowCount(bs, n, k);
    BelowCount(bs, n, k + 1);
    assert (k + 1) * PerChunk(bs) == k * PerChunk(bs) + PerChunk(bs);
  }

  /** Block `j` of a request lies in chunk `k`. */
  predicate InChunk(bs: nat, n: nat, k: nat, j: nat)
    requires Usable(bs)
  {
    k * PerChunk(bs) <= j < k * PerChunk(bs) + BlocksIn(bs, n, k)
  }

  function ChunkOf(bs: nat, j: nat): nat
    requires Usable(bs)
  {
    j / PerChunk(bs)
  }

  /** Every block of a request lies in exactly one chunk. */
  lemma ChunksPartition(bs: nat, n: nat, k: nat, j: nat)
    requires Usable(bs) && j < n
    ensures InChunk(bs, n, k, j) <==> k == ChunkOf(bs, j)
    ensures ChunkOf(bs, j) < ChunkCount(bs, n)
  {
    var p := PerChunk(bs);
    var c := ChunkOf(bs, j);
    assert j == c * p + j % p;
    if InChunk(bs, n, k, j) {
      DivUnique(j, p, k, j - k * p);
    }
    BelowCount(bs, n, c);
  }

  function BytesBelow(bs: nat, n: nat, k: nat): nat
    requires Usable(bs)
  {
    if k == 0 then 0 else BytesBelow(bs, n, k - 1) + BlocksIn(bs, n, k - 1) * bs
  }

  lemma {:induction false} BytesBelowIs(bs: nat, n: nat, k: nat)
    requires Usable(bs)
    ensures BytesBelow(bs, n, k) == Min(k * PerChunk(bs), n) * bs
  {
    if k > 0 {
      BytesBelowIs(bs, n, k - 1);
      Distribute(k - 1, 1, PerChunk(bs));
      BlocksBelow(PerChunk(bs), n, (k - 1) * PerChunk(bs), BlocksIn(bs, n, k - 1));
      Distribute(Min((k - 1) * PerChunk(bs), n), BlocksIn(bs, n, k - 1), bs);
    }
  }

  lemma BlocksBelow(p: nat, n: nat, before: nat, have: nat)
    requires have == if before >= n then 0 else Min(p, n - before)
    ensures Min(before + p, n) == Min(before, n) + have
  {
  }

  /** The chunks of a request carry all of its bytes, none twice. */
  lemma ChunkBytes(bs: nat, n: nat)
    requires Usable(bs)
    ensures BytesBelow(bs, n, ChunkCount(bs, n)) == n * bs
  {
    BytesBelowIs(bs, n, ChunkCount(bs, n));
    BelowCount(bs, n, ChunkCount(bs, n));
  }

  /** Block `j` of the request can be reached: the chunk that should hold it is accepted, and puts
      it at its own address. */
  ghost predicate Served(bs: u32, bc: u32, lba: u32, n: u32, j: nat)
    requires Usable(bs)
  {
    exists k: u16 ::
      && ComputeChunk(bs, bc, lba, n, k).Ok?
      && InChunk(bs, n, k, j)
      && ComputeChunk(bs, bc, lba, n, k).value.lba == lba + k * PerChunk(bs)
  }

  /** A whole request can be served exactly when it fits. */
  lemma ServedIffFits(bs: u32, bc: u32, lba: u32, n: u32)
    requires Usable(bs) && n > 0
    ensures (forall j: nat :: j < n ==> Served(bs, bc, lba, n, j)) <==> Fits(bs, bc, lba, n)
  {
    if Fits(bs, bc, lba, n) {
      forall j: nat | j < n ensures Served(bs, bc, lba, n, j) {
        ChunksPartition(bs, n, ChunkOf(bs, j), j);
        CountFits(bs, n);
        Tiling(bs, bc, lba, n, ChunkOf(bs, j));
      }
    }
    if forall j: nat :: j < n ==> Served(bs, bc, lba, n, j) {
      LastServedFits(bs, bc, lba, n);
    }
  }

  lemma LastServedFits(bs: u32, bc: u32, lba: u32, n: u32)
    requires Usable(bs) && n > 0 && Served(bs, bc, lba, n, n - 1)
    ensures Fits(bs, bc, lba, n)
  {
    var p := PerChunk(bs);
    var k: u16 :|
      && ComputeChunk(bs, bc, lba, n, k).Ok?
      && InChunk(bs, n, k, n - 1)
      && ComputeChunk(bs, bc, lba, n, k).value.lba == lba + k * p;
    ComputeChunkInBlocks(bs, bc, lba, n, k);
    assert n * bs < U32;
    InBlocks(bs, n, k);
    InBlocks(bs, n, k + 1);
    assert n <= k * p + p == (k + 1) * p;
    assert n * bs <= PayloadBytes(k + 1);
  }

  // ----- The unchecked addition -----

  /** An accepted chunk is at its own place exactly when the start address plus the chunk's offset
      stays below 2^32. */
  lemma AcceptedInPlaceIffNoWrap(bs: u32, bc: u32, lba: u32, n: u32, k: u16)
    requires Usable(bs) && ComputeChunk(bs, bc, lba, n, k).Ok?
    ensures ComputeChunk(bs, bc, lba, n, k).value.lba == lba + k * PerChunk(bs)
       <==> lba + k * PerChunk(bs) < U32
  {
    ComputeChunkInBlocks(bs, bc, lba, n, k);
  }

  /** It does not always: the second chunk of a request that starts sixteen 512-byte blocks below
      2^32 is accepted, at block 0. */
  lemma WrappedChunkAccepted()
    ensures ComputeChunk(512, 1000, 0xFFFF_FFF0, 32, 1) == Ok(Chunk(0, 16, 8192))
    ensures !Fits(512, 1000, 0xFFFF_FFF0, 32)
  {
  }
}
