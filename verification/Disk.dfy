/** A medium as a sequence of blocks: reading and overwriting a range, and what an interrupted
    write may leave behind. */
module Disk {
  import opened Arithmetic
  import opened Words

  type Block = seq<byte>

  /** A block size and a block count, as the driver caches them. */
  datatype Capacity = Capacity(bs: u32, bc: u32) {
    predicate Known() {
      bs != 0 && bc != 0
    }
  }

  /** Bytes in `n` blocks. Adding up keeps products out of the proofs about transfers. */
  function Extent(n: nat, bs: nat): nat {
    if n == 0 then 0 else bs + Extent(n - 1, bs)
  }

  lemma {:induction false} ExtentIs(n: nat, bs: nat)
    ensures Extent(n, bs) == n * bs
  {
    if n > 0 {
      ExtentIs(n - 1, bs);
      Distribute(n - 1, 1, bs);
    }
  }

  lemma {:induction false} ExtentSum(a: nat, b: nat, bs: nat)
    ensures Extent(a + b, bs) == Extent(a, bs) + Extent(b, bs)
  {
    if b > 0 {
      ExtentSum(a, b - 1, bs);
    }
  }

  predicate Sized(blocks: seq<Block>, bs: nat) {
    forall b :: 0 <= b < |blocks| ==> |blocks[b]| == bs
  }

  /** Block `i` of a run of bytes. */
  function BlockOf(data: seq<byte>, bs: nat, i: nat): (b: Block)
    ensures |b| == bs
  {
    seq(bs, j requires 0 <= j < bs => if Extent(i, bs) + j < |data| then data[Extent(i, bs) + j] else 0)
  }

  function Overwrite(blocks: seq<Block>, lba: nat, n: nat, data: seq<byte>, bs: nat): (r: seq<Block>)
    ensures |r| == |blocks|
    ensures forall b :: 0 <= b < |r| ==> r[b] == if lba <= b < lba + n then BlockOf(data, bs, b - lba) else blocks[b]
    ensures Sized(blocks, bs) ==> Sized(r, bs)
  {
    seq(|blocks|, b requires 0 <= b < |blocks| => if lba <= b < lba + n then BlockOf(data, bs, b - lba) else blocks[b])
  }

  /** Every block is as before, or is an addressed block holding its new content. */
  predicate Torn(before: seq<Block>, after: seq<Block>, lba: nat, n: nat, data: seq<byte>, bs: nat) {
    && |after| == |before|
    && forall b :: 0 <= b < |before| ==>
         after[b] == before[b] || (lba <= b < lba + n && after[b] == BlockOf(data, bs, b - lba))
  }

  /** An interrupted overwrite: only the blocks in `kept` made it. */
  function Tear(blocks: seq<Block>, lba: nat, n: nat, data: seq<byte>, bs: nat, kept: set<nat>): (r: seq<Block>)
    ensures Torn(blocks, r, lba, n, data, bs)
    ensures Sized(blocks, bs) ==> Sized(r, bs)
  {
    var all := Overwrite(blocks, lba, n, data, bs);
    seq(|blocks|, b requires 0 <= b < |blocks| => if b in kept then all[b] else blocks[b])
  }

  function ReadRange(blocks: seq<Block>, lba: nat, n: nat, bs: nat): (d: seq<byte>)
    requires lba + n <= |blocks| && Sized(blocks, bs)
    ensures |d| == Extent(n, bs)
  {
    if n == 0 then [] else ReadRange(blocks, lba, n - 1, bs) + blocks[lba + n - 1]
  }

  lemma {:induction false} ExtentBelow(i: nat, n: nat, bs: nat)
    requires i < n
    ensures Extent(i, bs) + bs <= Extent(n, bs)
  {
    if i < n - 1 {
      ExtentBelow(i, n - 1, bs);
    }
  }

  lemma {:induction false} BlockOfRead(blocks: seq<Block>, lba: nat, n: nat, bs: nat, i: nat)
    requires lba + n <= |blocks| && Sized(blocks, bs) && i < n
    ensures BlockOf(ReadRange(blocks, lba, n, bs), bs, i) == blocks[lba + i]
    decreases n
  {
    var d, front := ReadRange(blocks, lba, n, bs), ReadRange(blocks, lba, n - 1, bs);
    if i < n - 1 {
      BlockOfRead(blocks, lba, n - 1, bs, i);
      ExtentBelow(i, n - 1, bs);
      assert BlockOf(d, bs, i) == BlockOf(front, bs, i);
    } else {
      assert BlockOf(d, bs, i) == blocks[lba + i];
    }
  }

  lemma QuotientBelow(i: nat, n: nat, bs: nat)
    requires bs > 0 && i < n * bs
    ensures i / bs < n
  {
    assert i == (i / bs) * bs + i % bs;
    if i / bs >= n {
      MulLess(n, i / bs + 1, bs);
      Distribute(i / bs - n, n, bs);
    }
  }

  lemma ByteOfBlock(d: seq<byte>, n: nat, bs: nat, k: nat)
    requires bs > 0 && k < |d| == n * bs
    ensures k / bs < n && d[k] == BlockOf(d, bs, k / bs)[k % bs]
  {
    QuotientBelow(k, n, bs);
    var i, j := k / bs, k % bs;
    assert k == i * bs + j;
    ExtentIs(i, bs);
  }

  /** A run of bytes is determined by its blocks. */
  lemma SameBlocks(d: seq<byte>, e: seq<byte>, n: nat, bs: nat)
    requires bs > 0 && |d| == |e| == Extent(n, bs)
    requires forall i: nat :: i < n ==> BlockOf(d, bs, i) == BlockOf(e, bs, i)
    ensures d == e
  {
    ExtentIs(n, bs);
    forall k | 0 <= k < n * bs ensures d[k] == e[k] {
      ByteOfBlock(d, n, bs, k);
      ByteOfBlock(e, n, bs, k);
    }
  }

  /** Blocks of a slice that starts on a block boundary. */
  lemma BlockOfSlice(data: seq<byte>, bs: nat, first: nat, len: nat, i: nat)
    requires Extent(first, bs) + len <= |data| && Extent(i + 1, bs) <= len
    ensures BlockOf(data[Extent(first, bs)..Extent(first, bs) + len], bs, i) == BlockOf(data, bs, first + i)
  {
    ExtentIs(first, bs);
    ExtentIs(i, bs);
    ExtentIs(first + i, bs);
    Distribute(first, i, bs);
    var slice := data[Extent(first, bs)..Extent(first, bs) + len];
    assert Extent(i + 1, bs) == bs + Extent(i, bs);
    forall j | 0 <= j < bs ensures BlockOf(slice, bs, i)[j] == BlockOf(data, bs, first + i)[j] {
    }
  }
}
