/**
 What a reply is made of, and what that says about the original file: verified blocks, out
 of which pieces are cut and put one behind the other.
 */
module Replies {
  import opened ByteStrings
  import opened Merkle
  import opened Trees
  import opened Stitching
  import opened Metadata
  import opened InodeTable
  import opened FileHandles

  /** The entry's leaves are those of `file`, hashed without a salt. */
  ghost predicate Describes(hash: Hash, info: FileVerityInfo, file: Bytes) {
    var c := Config(hash, info.descriptor.BlockSize(), []);
    c.Valid() && info.leaves == BlockHashes(c, file)
  }

  /** Inside the file, what is found is that block, and it passes verification. */
  lemma HonestBlock(hash: Hash, info: FileVerityInfo, file: Bytes, i: nat)
    requires Describes(hash, info, file) && i < |info.leaves|
    ensures var bs := info.descriptor.BlockSize();
            Times(i, bs) < |file| && VerifyDataBlock(hash, info.leaves, i, bs, BlockAt(bs, file, i))
  {
    OriginalBlocksVerify(Config(hash, info.descriptor.BlockSize(), []), file, i);
  }

  // ---------- what a reply is made of ----------

  /** The blocks pass verification, one for each block the range touches. */
  ghost predicate AllVerify(hash: Hash, e: FsEntry, first: nat, blocks: seq<Bytes>) {
    forall j :: 0 <= j < |blocks| ==> EntryVerifies(hash, e, first + j, blocks[j])
  }

  /** What a reply is copied from: the number of the first block and the blocks. */
  datatype Evidence = Evidence(first: nat, blocks: seq<Bytes>)

  /**
   The output is copied from blocks each of which hashes to its leaf. Nothing is said here
   about collisions, or about what the file once was.
   */
  ghost predicate Backed(hash: Hash, e: FsEntry, offset: nat, end: nat, output: Bytes, why: Evidence) {
    match e.kind
    case VerityEnabled(info) =>
      var bs := info.descriptor.BlockSize();
      && Spans(bs, why.first, |why.blocks|, offset, end)
      && AllVerify(hash, e, why.first, why.blocks)
      && output == Copied(bs, why.first, why.blocks, offset, end)
    case Directory(_) => false
  }

  /** The blocks are data at hand: each was put together from results of `pread` up to call `to`. */
  ghost predicate AllDelivered(kernel: Kernel, ino: nat, bs: nat, why: Evidence, to: nat) {
    forall j :: 0 <= j < |why.blocks| ==> DeliveredBlock(kernel, ino, bs, why.first + j, to, why.blocks[j])
  }

  lemma AllDeliveredLater(kernel: Kernel, ino: nat, bs: nat, why: Evidence, to: nat, later: nat)
    requires AllDelivered(kernel, ino, bs, why, to) && to <= later
    ensures AllDelivered(kernel, ino, bs, why, later)
  {
    forall j | 0 <= j < |why.blocks|
      ensures DeliveredBlock(kernel, ino, bs, why.first + j, later, why.blocks[j])
    {
      DeliveredLater(kernel, ino, Times(why.first + j, bs), bs, to, later, why.blocks[j]);
    }
  }

  lemma AllDeliveredNext(kernel: Kernel, ino: nat, bs: nat, why: Evidence, to: nat, i: nat, block: Bytes)
    requires AllDelivered(kernel, ino, bs, why, to)
    requires i == why.first + |why.blocks| && DeliveredBlock(kernel, ino, bs, i, to, block)
    ensures AllDelivered(kernel, ino, bs, why.(blocks := why.blocks + [block]), to)
  {
  }

  // ---------- against the original file ----------

  /** The original file, zero-padded to the end of its last block. */
  ghost function PaddedFile(info: FileVerityInfo, file: Bytes): Bytes {
    file + Zeros(Max(0, Times(|info.leaves|, info.descriptor.BlockSize()) - |file|))
  }

  /** The pair to look at when `block` has passed verification as block i of `file`. */
  ghost function BlockPair(bs: nat, file: Bytes, i: nat, block: Bytes): (Bytes, Bytes) {
    if |block| <= bs then (Pad(block, bs), Pad(BlockAt(bs, file, i), bs)) else ([], [])
  }

  lemma PaddedBlock(info: FileVerityInfo, file: Bytes, i: nat)
    requires var bs := info.descriptor.BlockSize(); i < |info.leaves| && Times(i, bs) < |file|
    ensures var bs, x := info.descriptor.BlockSize(), PaddedFile(info, file);
            Times(i, bs) + bs <= |x| && Pad(BlockAt(bs, file, i), bs) == BlockAt(bs, x, i)
  {
    var bs, x := info.descriptor.BlockSize(), PaddedFile(info, file);
    TimesMonotone(i + 1, |info.leaves|, bs);
    PadInPlace(bs, file, Times(i, bs), |x| - |file|);
  }

  /** Cutting a block and padding it, or padding the file and cutting the block. */
  lemma PadInPlace(bs: nat, file: Bytes, at: nat, padding: nat)
    requires at < |file| && at + bs <= |file| + padding
    ensures |Slice(file, at, at + bs)| <= bs
    ensures Pad(Slice(file, at, at + bs), bs) == Slice(file + Zeros(padding), at, at + bs)
  {
    var a, b := Pad(Slice(file, at, at + bs), bs), Slice(file + Zeros(padding), at, at + bs);
    assert |a| == |b| && forall k :: 0 <= k < bs ==> a[k] == b[k];
  }

  /** A block that passes verification is the original one but for zeros at its end, or collides with it. */
  lemma VerifiedBlock(hash: Hash, e: FsEntry, file: Bytes, i: nat, block: Bytes)
    requires e.kind.VerityEnabled? && Describes(hash, e.kind.info, file) && EntryVerifies(hash, e, i, block)
    ensures var bs, x := e.kind.info.descriptor.BlockSize(), PaddedFile(e.kind.info, file);
            && Times(i, bs) + bs <= |x|
            && (IsCollision(hash, BlockPair(bs, file, i, block)) || BlockAt(bs, x, i) == Pad(block, bs))
  {
    var info := e.kind.info;
    var bs, x := info.descriptor.BlockSize(), PaddedFile(info, file);
    HonestBlock(hash, info, file, i);
    PaddedBlock(info, file, i);
    if !IsCollision(hash, BlockPair(bs, file, i, block)) {
      assert Pad(block, bs) == Pad(BlockAt(bs, file, i), bs);
    }
  }

  /** A piece is the original part but for zeros at its end, or its block collides with the original one. */
  ghost predicate SafePiece(hash: Hash, bs: nat, x: Bytes, file: Bytes, i: nat, block: Bytes, offset: nat, end: nat) {
    || IsCollision(hash, BlockPair(bs, file, i, block))
    || ZeroTail(PieceAt(bs, i, block, offset, end), SliceAt(bs, i, x, offset, end))
  }

  /** Every piece copied from the blocks, the first of which is block `first`, is safe. */
  ghost predicate SafeBlocks(hash: Hash, info: FileVerityInfo, file: Bytes, first: nat, blocks: seq<Bytes>,
                             offset: nat, end: nat)
  {
    forall j :: 0 <= j < |blocks| ==>
      SafePiece(hash, info.descriptor.BlockSize(), PaddedFile(info, file), file, first + j, blocks[j], offset, end)
  }

  lemma BlockSafe(hash: Hash, e: FsEntry, file: Bytes, i: nat, block: Bytes, offset: nat, end: nat)
    requires e.kind.VerityEnabled? && Describes(hash, e.kind.info, file) && offset < end
    requires EntryVerifies(hash, e, i, block)
    ensures SafePiece(hash, e.kind.info.descriptor.BlockSize(), PaddedFile(e.kind.info, file), file, i, block,
                      offset, end)
  {
    var bs, x := e.kind.info.descriptor.BlockSize(), PaddedFile(e.kind.info, file);
    VerifiedBlock(hash, e, file, i, block);
    if !IsCollision(hash, BlockPair(bs, file, i, block)) {
      PieceOfPadded(bs, Times(i, bs), x, block, offset, end);
    }
  }

  /** Safety: what is copied from verified blocks is what the original file has there, or the block collides. */
  lemma VerifiedSafe(hash: Hash, e: FsEntry, file: Bytes, first: nat, blocks: seq<Bytes>, offset: nat, end: nat)
    requires e.kind.VerityEnabled? && Describes(hash, e.kind.info, file) && offset < end
    requires AllVerify(hash, e, first, blocks)
    ensures SafeBlocks(hash, e.kind.info, file, first, blocks, offset, end)
  {
    forall j | 0 <= j < |blocks|
      ensures SafePiece(hash, e.kind.info.descriptor.BlockSize(), PaddedFile(e.kind.info, file), file, first + j,
                        blocks[j], offset, end)
    {
      BlockSafe(hash, e, file, first + j, blocks[j], offset, end);
    }
  }

  /** None of the blocks collides with the original one. */
  ghost predicate NoCollision(hash: Hash, info: FileVerityInfo, file: Bytes, first: nat, blocks: seq<Bytes>) {
    forall j :: 0 <= j < |blocks| ==>
      !IsCollision(hash, BlockPair(info.descriptor.BlockSize(), file, first + j, blocks[j]))
  }

  lemma SafeInPlace(hash: Hash, info: FileVerityInfo, file: Bytes, first: nat, blocks: seq<Bytes>, offset: nat,
                    end: nat)
    requires SafeBlocks(hash, info, file, first, blocks, offset, end) && NoCollision(hash, info, file, first, blocks)
    requires Spans(info.descriptor.BlockSize(), first, |blocks|, offset, end)
    requires Times(first + (|blocks| - 1), info.descriptor.BlockSize()) <= |PaddedFile(info, file)|
    ensures InPlaceExactly(info.descriptor.BlockSize(), first, blocks, PaddedFile(info, file), offset, end)
  {
    var bs, x := info.descriptor.BlockSize(), PaddedFile(info, file);
    SafeLackZeros(hash, info, file, first, blocks, offset, end);
    CopiedInPlace(bs, first, blocks, x, offset, end);
  }

  lemma SafeLackZeros(hash: Hash, info: FileVerityInfo, file: Bytes, first: nat, blocks: seq<Bytes>, offset: nat,
                      end: nat)
    requires SafeBlocks(hash, info, file, first, blocks, offset, end) && NoCollision(hash, info, file, first, blocks)
    ensures PiecesLackZeros(info.descriptor.BlockSize(), first, blocks, PaddedFile(info, file), offset, end)
  {
    var bs, x := info.descriptor.BlockSize(), PaddedFile(info, file);
    forall j | 0 <= j < |blocks|
      ensures ZeroTail(PieceAt(bs, first + j, blocks[j], offset, end), SliceAt(bs, first + j, x, offset, end))
    {
      assert SafePiece(hash, bs, x, file, first + j, blocks[j], offset, end);
    }
  }

  /** What may be said of a reply copied from the given blocks when the file was `file` originally. */
  ghost predicate SafeReply(hash: Hash, info: FileVerityInfo, file: Bytes, offset: nat, end: nat, why: Evidence) {
    && SafeBlocks(hash, info, file, why.first, why.blocks, offset, end)
    && (NoCollision(hash, info, file, why.first, why.blocks) ==>
          InPlaceExactly(info.descriptor.BlockSize(), why.first, why.blocks, PaddedFile(info, file), offset, end))
  }

  /**
   What a backed reply says about the original file: every piece is what it has there but
   for zeros at the end, or that block collides; and where the bytes land: short of a
   collision, the reply is a prefix of the range of the padded original exactly if no block
   that lacks zeros is followed by another byte, it is never longer than the range, and it
   is all of the range if it is as long.
   */
  lemma BackedSafe(hash: Hash, e: FsEntry, file: Bytes, offset: nat, end: nat, output: Bytes, why: Evidence)
    requires e.kind.VerityEnabled? && Describes(hash, e.kind.info, file) && offset < end
    requires Backed(hash, e, offset, end, output, why)
    ensures SafeReply(hash, e.kind.info, file, offset, end, why)
  {
    var n := |why.blocks|;
    VerifiedSafe(hash, e, file, why.first, why.blocks, offset, end);
    VerifiedBlock(hash, e, file, why.first + (n - 1), why.blocks[n - 1]);
    if NoCollision(hash, e.kind.info, file, why.first, why.blocks) {
      SafeInPlace(hash, e.kind.info, file, why.first, why.blocks, offset, end);
    }
  }

  /** The blocks are those found in `file`, or were cached before. */
  ghost predicate Origins(cache: map<BlockKey, Bytes>, ino: nat, bs: nat, file: Bytes, first: nat, blocks: seq<Bytes>) {
    forall j :: 0 <= j < |blocks| ==>
      blocks[j] == BlockAt(bs, file, first + j) || WasCached(cache, ino, first + j, blocks[j])
  }

  lemma HonestPiece(hash: Hash, e: FsEntry, file: Bytes, i: nat, block: Bytes, offset: nat, end: nat)
    requires e.kind.VerityEnabled? && Describes(hash, e.kind.info, file) && offset < end
    requires EntryVerifies(hash, e, i, block) && block == BlockAt(e.kind.info.descriptor.BlockSize(), file, i)
    ensures var bs := e.kind.info.descriptor.BlockSize();
            Times(i, bs) <= |file| && PieceAt(bs, i, block, offset, end) == SliceAt(bs, i, file, offset, end)
  {
    HonestBlock(hash, e.kind.info, file, i);
    PieceIsSlice(e.kind.info.descriptor.BlockSize(), Times(i, e.kind.info.descriptor.BlockSize()), file, offset, end);
  }

  /** The blocks are those of `file`. */
  ghost predicate AllFound(bs: nat, file: Bytes, first: nat, blocks: seq<Bytes>) {
    forall j :: 0 <= j < |blocks| ==> blocks[j] == BlockAt(bs, file, first + j)
  }

  lemma FoundPieces(hash: Hash, e: FsEntry, file: Bytes, first: nat, blocks: seq<Bytes>, offset: nat, end: nat)
    requires e.kind.VerityEnabled? && Describes(hash, e.kind.info, file) && offset < end
    requires AllVerify(hash, e, first, blocks)
    requires AllFound(e.kind.info.descriptor.BlockSize(), file, first, blocks)
    ensures PiecesExact(e.kind.info.descriptor.BlockSize(), first, blocks, file, offset, end)
  {
    var bs := e.kind.info.descriptor.BlockSize();
    forall j | 0 <= j < |blocks|
      ensures PieceAt(bs, first + j, blocks[j], offset, end) == SliceAt(bs, first + j, file, offset, end)
    {
      HonestPiece(hash, e, file, first + j, blocks[j], offset, end);
    }
  }

  lemma OriginsFound(cache: map<BlockKey, Bytes>, ino: nat, bs: nat, file: Bytes, first: nat, blocks: seq<Bytes>)
    requires CacheServes(cache, ino, bs, file) && Origins(cache, ino, bs, file, first, blocks)
    ensures AllFound(bs, file, first, blocks)
  {
  }

  /** Refinement: from blocks of an unchanged file, the reply is the plain slice of the file. */
  lemma ExactReply(hash: Hash, e: FsEntry, cache: map<BlockKey, Bytes>, file: Bytes, offset: nat, end: nat,
                   output: Bytes,
                   why: Evidence)
    requires e.kind.VerityEnabled? && Describes(hash, e.kind.info, file) && offset < end
    requires Backed(hash, e, offset, end, output, why)
    requires var bs := e.kind.info.descriptor.BlockSize();
             CacheServes(cache, e.ino, bs, file) && Origins(cache, e.ino, bs, file, why.first, why.blocks)
    ensures output == Slice(file, offset, end)
  {
    var bs := e.kind.info.descriptor.BlockSize();
    OriginsFound(cache, e.ino, bs, file, why.first, why.blocks);
    FoundPieces(hash, e, file, why.first, why.blocks, offset, end);
    HonestBlock(hash, e.kind.info, file, why.first + (|why.blocks| - 1));
    CopiedExact(bs, why.first, why.blocks, file, offset, end);
  }

  // ---------- what can be seen of the cache beforehand ----------

  /** No cached block of the range is shorter than the block of the file. */
  ghost predicate LongEnough(cache: map<BlockKey, Bytes>, ino: nat, bs: nat, file: Bytes, first: nat, n: nat) {
    forall i :: first <= i < first + n && BlockKey(ino, i) in cache ==>
      |BlockAt(bs, file, i)| <= |cache[BlockKey(ino, i)]|
  }

  /** Every cached block of the range is as long as the block of the file. */
  ghost predicate RightLength(cache: map<BlockKey, Bytes>, ino: nat, bs: nat, file: Bytes, first: nat, n: nat) {
    forall i :: first <= i < first + n && BlockKey(ino, i) in cache ==>
      |BlockAt(bs, file, i)| == |cache[BlockKey(ino, i)]|
  }

  /** How many zeros the last block has more than that of the file. */
  ghost function Extra(bs: nat, file: Bytes, why: Evidence): int
    requires why.blocks != []
  {
    var n := |why.blocks| - 1;
    |why.blocks[n]| - |BlockAt(bs, file, why.first + n)|
  }

  lemma PadSame(a: Bytes, b: Bytes, bs: nat)
    requires |a| <= |b| <= bs && Pad(a, bs) == Pad(b, bs)
    ensures b == a + Zeros(|b| - |a|)
  {
    var p := Pad(a, bs);
    assert forall i :: 0 <= i < |a| ==> a[i] == p[i];
    assert forall i :: 0 <= i < |b| ==> b[i] == p[i];
  }

  /** A verified block that is not shorter is the block of the file with zeros behind it. */
  lemma LongBlock(hash: Hash, e: FsEntry, file: Bytes, i: nat, block: Bytes)
    requires e.kind.VerityEnabled? && Describes(hash, e.kind.info, file) && EntryVerifies(hash, e, i, block)
    requires var bs := e.kind.info.descriptor.BlockSize();
             !IsCollision(hash, BlockPair(bs, file, i, block)) && |BlockAt(bs, file, i)| <= |block|
    ensures var a := BlockAt(e.kind.info.descriptor.BlockSize(), file, i); block == a + Zeros(|block| - |a|)
    ensures Times(i, e.kind.info.descriptor.BlockSize()) < |file| && |block| <= e.kind.info.descriptor.BlockSize()
  {
    var bs := e.kind.info.descriptor.BlockSize();
    HonestBlock(hash, e.kind.info, file, i);
    assert Pad(BlockAt(bs, file, i), bs) == Pad(block, bs);
    PadSame(BlockAt(bs, file, i), block, bs);
  }

  /** Zeros appended to the file go into its last block. */
  lemma AppendedBlock(bs: nat, file: Bytes, i: nat, extra: nat, block: Bytes)
    requires Times(i, bs) < |file| && block == BlockAt(bs, file, i) + Zeros(extra) && |block| <= bs
    ensures BlockAt(bs, file + Zeros(extra), i) == block
  {
    var a, b := BlockAt(bs, file + Zeros(extra), i), block;
    assert |a| == |b| && forall k :: 0 <= k < |a| ==> a[k] == b[k];
  }

  /** A block in front of another one is full, appended zeros or not. */
  lemma InnerBlock(bs: nat, file: Bytes, i: nat, extra: nat)
    requires Times(i + 1, bs) < |file|
    ensures |BlockAt(bs, file, i)| == bs && BlockAt(bs, file + Zeros(extra), i) == BlockAt(bs, file, i)
  {
    assert Times(i + 1, bs) == Times(i, bs) + bs;
    var a, b := BlockAt(bs, file + Zeros(extra), i), BlockAt(bs, file, i);
    assert |a| == |b| && forall k :: 0 <= k < |a| ==> a[k] == b[k];
  }

  /** The blocks used are not shorter than those of the file. */
  ghost predicate AllLong(bs: nat, file: Bytes, first: nat, blocks: seq<Bytes>) {
    forall j :: 0 <= j < |blocks| ==> |BlockAt(bs, file, first + j)| <= |blocks[j]|
  }

  lemma OriginsLong(cache: map<BlockKey, Bytes>, ino: nat, bs: nat, file: Bytes, first: nat, blocks: seq<Bytes>)
    requires Origins(cache, ino, bs, file, first, blocks) && LongEnough(cache, ino, bs, file, first, |blocks|)
    ensures AllLong(bs, file, first, blocks)
  {
  }

  /** So they are those of the file with `Extra` zeros appended. */
  lemma LongFound(hash: Hash, e: FsEntry, file: Bytes, why: Evidence)
    requires e.kind.VerityEnabled? && Describes(hash, e.kind.info, file) && why.blocks != []
    requires AllVerify(hash, e, why.first, why.blocks) && NoCollision(hash, e.kind.info, file, why.first, why.blocks)
    requires AllLong(e.kind.info.descriptor.BlockSize(), file, why.first, why.blocks)
    ensures var bs := e.kind.info.descriptor.BlockSize();
            && Extra(bs, file, why) >= 0 && Times(why.first + (|why.blocks| - 1), bs) < |file|
            && AllFound(bs, file + Zeros(Extra(bs, file, why)), why.first, why.blocks)
  {
    var bs := e.kind.info.descriptor.BlockSize();
    var x := file + Zeros(Extra(bs, file, why));
    LongLast(hash, e, file, why);
    LongInners(hash, e, file, why, Extra(bs, file, why));
    FoundBefore(bs, x, why.first, why.blocks);
  }

  lemma FoundBefore(bs: nat, x: Bytes, first: nat, blocks: seq<Bytes>)
    requires blocks != [] && AllFound(bs, x, first, blocks[..|blocks| - 1])
    requires blocks[|blocks| - 1] == BlockAt(bs, x, first + (|blocks| - 1))
    ensures AllFound(bs, x, first, blocks)
  {
    forall j | 0 <= j < |blocks|
      ensures blocks[j] == BlockAt(bs, x, first + j)
    {
      assert j < |blocks| - 1 ==> blocks[j] == blocks[..|blocks| - 1][j];
    }
  }

  lemma LongInners(hash: Hash, e: FsEntry, file: Bytes, why: Evidence, extra: nat)
    requires e.kind.VerityEnabled? && Describes(hash, e.kind.info, file) && why.blocks != []
    requires AllVerify(hash, e, why.first, why.blocks) && NoCollision(hash, e.kind.info, file, why.first, why.blocks)
    requires AllLong(e.kind.info.descriptor.BlockSize(), file, why.first, why.blocks)
    ensures AllFound(e.kind.info.descriptor.BlockSize(), file + Zeros(extra), why.first, why.blocks[..|why.blocks| - 1])
  {
    var bs, inner := e.kind.info.descriptor.BlockSize(), why.blocks[..|why.blocks| - 1];
    forall j | 0 <= j < |inner|
      ensures inner[j] == BlockAt(bs, file + Zeros(extra), why.first + j)
    {
      LongInner(hash, e, file, why, j, extra);
    }
  }

  lemma LongLast(hash: Hash, e: FsEntry, file: Bytes, why: Evidence)
    requires e.kind.VerityEnabled? && Describes(hash, e.kind.info, file) && why.blocks != []
    requires AllVerify(hash, e, why.first, why.blocks) && NoCollision(hash, e.kind.info, file, why.first, why.blocks)
    requires AllLong(e.kind.info.descriptor.BlockSize(), file, why.first, why.blocks)
    ensures var bs, n := e.kind.info.descriptor.BlockSize(), |why.blocks| - 1;
            && Extra(bs, file, why) >= 0 && Times(why.first + n, bs) < |file|
            && why.blocks[n] == BlockAt(bs, file + Zeros(Extra(bs, file, why)), why.first + n)
  {
    var bs, n := e.kind.info.descriptor.BlockSize(), |why.blocks| - 1;
    assert |BlockAt(bs, file, why.first + n)| <= |why.blocks[n]|;
    LongBlock(hash, e, file, why.first + n, why.blocks[n]);
    AppendedBlock(bs, file, why.first + n, Extra(bs, file, why), why.blocks[n]);
  }

  lemma LongInner(hash: Hash, e: FsEntry, file: Bytes, why: Evidence, j: nat, extra: nat)
    requires e.kind.VerityEnabled? && Describes(hash, e.kind.info, file) && j < |why.blocks| - 1
    requires AllVerify(hash, e, why.first, why.blocks) && NoCollision(hash, e.kind.info, file, why.first, why.blocks)
    requires AllLong(e.kind.info.descriptor.BlockSize(), file, why.first, why.blocks)
    ensures why.blocks[j] == BlockAt(e.kind.info.descriptor.BlockSize(), file + Zeros(extra), why.first + j)
  {
    var bs, i := e.kind.info.descriptor.BlockSize(), why.first + j;
    assert EntryVerifies(hash, e, why.first + (j + 1), why.blocks[j + 1]);
    HonestBlock(hash, e.kind.info, file, i + 1);
    InnerBlock(bs, file, i, extra);
    assert |BlockAt(bs, file, i)| <= |why.blocks[j]|;
    LongBlock(hash, e, file, i, why.blocks[j]);
  }

  lemma FoundExact(bs: nat, x: Bytes, first: nat, blocks: seq<Bytes>, offset: nat, end: nat)
    requires Spans(bs, first, |blocks|, offset, end) && AllFound(bs, x, first, blocks)
    requires Times(first + (|blocks| - 1), bs) <= |x|
    ensures Copied(bs, first, blocks, offset, end) == Slice(x, offset, end)
  {
    AllFoundExact(bs, x, first, blocks, offset, end);
    CopiedExact(bs, first, blocks, x, offset, end);
  }

  lemma AllFoundExact(bs: nat, x: Bytes, first: nat, blocks: seq<Bytes>, offset: nat, end: nat)
    requires offset <= end && AllFound(bs, x, first, blocks)
    requires blocks != [] ==> Times(first + (|blocks| - 1), bs) <= |x|
    ensures PiecesExact(bs, first, blocks, x, offset, end)
  {
    forall j | 0 <= j < |blocks|
      ensures PieceAt(bs, first + j, blocks[j], offset, end) == SliceAt(bs, first + j, x, offset, end)
    {
      TimesMonotone(first + j, first + (|blocks| - 1), bs);
      FoundPiece(bs, x, first + j, blocks[j], offset, end);
    }
  }

  lemma FoundPiece(bs: nat, x: Bytes, i: nat, block: Bytes, offset: nat, end: nat)
    requires offset <= end && Times(i, bs) <= |x| && block == BlockAt(bs, x, i)
    ensures PieceAt(bs, i, block, offset, end) == SliceAt(bs, i, x, offset, end)
  {
    PieceIsSlice(bs, Times(i, bs), x, offset, end);
  }

  /**
   A condition that can be checked before the call, for a file that is unchanged during it
   and whatever else is cached: if no cached block of the range is shorter than that of the
   file, the reply is the slice of the file with zeros appended, by as many as the last
   block is longer; none, if the cached blocks have the right length. Unless a block collides.
   */
  lemma LongCacheReply(hash: Hash, e: FsEntry, cache: map<BlockKey, Bytes>, file: Bytes, offset: nat, end: nat,
                       output: Bytes, why: Evidence)
    requires e.kind.VerityEnabled? && Describes(hash, e.kind.info, file) && Backed(hash, e, offset, end, output, why)
    requires var bs := e.kind.info.descriptor.BlockSize();
             && Origins(cache, e.ino, bs, file, why.first, why.blocks)
             && LongEnough(cache, e.ino, bs, file, why.first, |why.blocks|)
    requires NoCollision(hash, e.kind.info, file, why.first, why.blocks)
    ensures var bs := e.kind.info.descriptor.BlockSize();
            && why.blocks != [] && Extra(bs, file, why) >= 0
            && output == Slice(file + Zeros(Extra(bs, file, why)), offset, end)
            && (RightLength(cache, e.ino, bs, file, why.first, |why.blocks|) ==> output == Slice(file, offset, end))
  {
    var bs, n := e.kind.info.descriptor.BlockSize(), |why.blocks|;
    OriginsLong(cache, e.ino, bs, file, why.first, why.blocks);
    LongFound(hash, e, file, why);
    var extra := Extra(bs, file, why);
    FoundExact(bs, file + Zeros(extra), why.first, why.blocks, offset, end);
    if RightLength(cache, e.ino, bs, file, why.first, n) {
      NoExtra(cache, e.ino, bs, file, why);
      assert file + Zeros(0) == file;
    }
  }

  lemma NoExtra(cache: map<BlockKey, Bytes>, ino: nat, bs: nat, file: Bytes, why: Evidence)
    requires why.blocks != [] && Origins(cache, ino, bs, file, why.first, why.blocks)
    requires RightLength(cache, ino, bs, file, why.first, |why.blocks|)
    ensures Extra(bs, file, why) == 0
  {
    var n := |why.blocks| - 1;
    assert why.blocks[n] == BlockAt(bs, file, why.first + n) || WasCached(cache, ino, why.first + n, why.blocks[n]);
  }

  /** What is returned when everything is as the original file has it. */
  ghost predicate HonestReply(info: FileVerityInfo, file: Bytes, offset: nat, end: nat, r: Result<Bytes>) {
    && (r.Ok? <==> end <= Times(|info.leaves|, info.descriptor.BlockSize()))
    && r == if r.Ok? then Ok(Slice(file, offset, end)) else Err(EIO)
  }
}
