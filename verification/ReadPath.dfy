/**
 `read_file` and the `read` callback: the loop over the blocks of a range with the cache of
 verified blocks, and whole runs of it.
 */
module ReadPath {
  import opened ByteStrings
  import opened Merkle
  import opened Trees
  import opened Stitching
  import opened InodeTable
  import opened FileHandles
  import opened Replies

  /** Cutting the requested part out of a block; a block that is in the range always overlaps it. */
  method CutPiece(bs: nat, blockOffset: nat, block: Bytes, offset: nat, end: nat) returns (piece: Bytes)
    requires offset < end && bs > 0 && blockOffset < end && offset < blockOffset + bs
    ensures piece == Piece(bs, blockOffset, block, offset, end)
  {
    var blockEnd := blockOffset + bs;
    var copyStart, copyEnd := Max(offset, blockOffset), Min(end, blockEnd);
    assert copyStart < copyEnd;
    var srcStart := copyStart - blockOffset;
    var srcEnd := Min(copyEnd - blockOffset, |block|);
    if srcStart >= srcEnd {
      return [];
    }
    piece := block[srcStart..srcEnd];
  }

  /** The checks at the beginning of `read_file`: what it returns at once, if anything. */
  method CheckArguments(e: FsEntry, offset: int, size: nat) returns (refusal: Option<Result<Bytes>>)
    ensures refusal == if ProperRead(e, offset, size) then None else Some(Refused(e, offset, size))
    ensures offset < 0 ==> refusal == Some(Err(22))
    ensures offset >= 0 && size == 0 ==> refusal == Some(Ok([]))
    ensures offset >= 0 && size > 0 && e.kind.Directory? ==> refusal == Some(Err(21))
    ensures refusal.None? ==> BlockSizeOf(e) > 0
  {
    if offset < 0 {
      return Some(Err(EINVAL));
    }
    if size == 0 {
      return Some(Ok([]));
    }
    var blockSize := EntryBlockSize(e);
    if blockSize.None? {
      return Some(Err(EISDIR));
    }
    BlockSizeIn32Bits(e.kind.info.descriptor);
    if blockSize.value == 0 {
      return Some(Err(EINVAL));
    }
    refusal := None;
  }

  datatype Request = Request(ino: nat, offset: int, size: nat) {
    /** The types of the callback's arguments. */
    predicate Typed() {
      offset < 0x8000_0000_0000_0000 && size < U32
    }

    predicate Proper(files: map<nat, FsEntry>) {
      ino in files && ProperRead(files[ino], offset, size)
    }
  }

  /** A read that `read_file` does not refuse for its arguments. */
  predicate ProperRead(e: FsEntry, offset: int, size: nat) {
    offset >= 0 && size > 0 && e.kind.VerityEnabled? && EntryBlockSize(e) != Some(0)
  }

  /** Those are exactly the reads of files whose block size fits in 32 bits, from any offset on that is not negative. */
  lemma ProperExactly(e: FsEntry, offset: int, size: nat)
    ensures ProperRead(e, offset, size) <==>
              && offset >= 0 && size > 0
              && e.kind.VerityEnabled? && e.kind.info.descriptor.BlockSize() < 0x1_0000_0000
  {
    if e.kind.VerityEnabled? {
      BlockSizeIn32Bits(e.kind.info.descriptor);
    }
  }

  /** What it returns if it refuses, or if nothing is asked for. */
  function Refused(e: FsEntry, offset: int, size: nat): Result<Bytes> {
    if offset < 0 then Err(EINVAL)
    else if size == 0 then Ok([])
    else if e.kind.Directory? then Err(EISDIR)
    else Err(EINVAL)
  }

  function Refusal(files: map<nat, FsEntry>, q: Request): Result<Bytes> {
    if q.ino in files then Refused(files[q.ino], q.offset, q.size) else Err(EINVAL)
  }

  /** A request is refused, or answered from verified blocks. */
  ghost predicate BackedReply(hash: Hash, files: map<nat, FsEntry>, q: Request, reply: Result<Bytes>, why: Evidence) {
    if !q.Proper(files) then reply == Refusal(files, q)
    else
      match reply
      case Ok(output) => Backed(hash, files[q.ino], q.offset, q.offset + q.size, output, why)
      case Err(_) => true
  }

  /** The reply is safe with respect to the original of its file, if that is known and described by the leaves. */
  ghost predicate SafeAgainst(hash: Hash, files: map<nat, FsEntry>, originals: map<nat, Bytes>, q: Request,
                              reply: Result<Bytes>, why: Evidence)
  {
    q.Proper(files) && reply.Ok? && q.ino in originals && Describes(hash, files[q.ino].kind.info, originals[q.ino]) ==>
      SafeReply(hash, files[q.ino].kind.info, originals[q.ino], q.offset, q.offset + q.size, why)
  }

  /** The leaves describe the originals. */
  ghost predicate AllDescribed(hash: Hash, files: map<nat, FsEntry>, originals: map<nat, Bytes>) {
    forall n :: n in originals ==>
      n in files && files[n].kind.VerityEnabled? && Describes(hash, files[n].kind.info, originals[n])
  }

  /** Every cached block of an original is that block of it. */
  ghost predicate CacheServesAll(files: map<nat, FsEntry>, cache: map<BlockKey, Bytes>, originals: map<nat, Bytes>) {
    forall n :: n in originals && n in files && files[n].kind.VerityEnabled? ==>
      CacheServes(cache, n, files[n].kind.info.descriptor.BlockSize(), originals[n])
  }

  /** The kernel serves the originals for a while. */
  ghost predicate ServesAll(kernel: Kernel, originals: map<nat, Bytes>, from: nat, to: nat) {
    forall n :: n in originals ==> kernel.Serves(n, originals[n], from, to)
  }

  lemma ServesWithin(kernel: Kernel, originals: map<nat, Bytes>, a: nat, b: nat, c: nat)
    requires a <= b <= c && ServesAll(kernel, originals, a, c)
    ensures ServesAll(kernel, originals, a, b) && ServesAll(kernel, originals, b, c)
  {
  }

  /** A cache that serves all originals keeps doing so while they are unchanged. */
  lemma ServesAllKept(files: map<nat, FsEntry>, originals: map<nat, Bytes>, before: map<BlockKey, Bytes>,
                      after: map<BlockKey, Bytes>,
                      ino: nat, lo: nat, hi: nat, bs: nat, file: Bytes, served: bool)
    requires CacheServesAll(files, before, originals) && Grown(before, after, ino, lo, hi, bs, file, served)
    requires ino in originals && ino in files && files[ino].kind.VerityEnabled? ==>
               served && file == originals[ino] && bs == files[ino].kind.info.descriptor.BlockSize()
    ensures CacheServesAll(files, after, originals)
  {
    forall n | n in originals && n in files && files[n].kind.VerityEnabled?
      ensures CacheServes(after, n, files[n].kind.info.descriptor.BlockSize(), originals[n])
    {
      GrownServes(before, after, ino, lo, hi, bs, file, served, n, files[n].kind.info.descriptor.BlockSize(),
                  originals[n]);
    }
  }

  /** Whatever is cached, a read of an unchanged file succeeds exactly if it ends within the leaves. */
  ghost predicate DecidedReply(files: map<nat, FsEntry>, originals: map<nat, Bytes>, q: Request, reply: Result<Bytes>) {
    q.Proper(files) && q.ino in originals ==>
      var info := files[q.ino].kind.info;
      (reply.Ok? <==> q.offset + q.size <= Times(|info.leaves|, info.descriptor.BlockSize()))
  }

  ghost predicate ExactlyReplied(files: map<nat, FsEntry>, originals: map<nat, Bytes>, q: Request, reply: Result<Bytes>)
  {
    q.Proper(files) && q.ino in originals ==>
      HonestReply(files[q.ino].kind.info, originals[q.ino], q.offset, q.offset + q.size, reply)
  }

  /** A first block that was cached is used as it was, and the last one is cached afterwards. */
  ghost predicate Anchored(ino: nat, first: nat, blocks: seq<Bytes>, before: map<BlockKey, Bytes>,
                           after: map<BlockKey, Bytes>)
  {
    && blocks != []
    && (BlockKey(ino, first) in before ==> blocks[0] == before[BlockKey(ino, first)])
    && WasCached(after, ino, first + |blocks| - 1, blocks[|blocks| - 1])
  }

  /** The output has been copied from verified blocks. */
  ghost predicate Gathered(hash: Hash, e: FsEntry, bs: nat, offset: nat, end: nat, output: Bytes, why: Evidence) {
    AllVerify(hash, e, why.first, why.blocks) && output == Copied(bs, why.first, why.blocks, offset, end)
  }

  /** One block was taken from the cache, or found in `file` if the kernel served it, and is cached now. */
  ghost predicate OneFetched(ino: nat, bs: nat, file: Bytes, i: nat, block: Bytes,
                             before: map<BlockKey, Bytes>, after: map<BlockKey, Bytes>, served: bool)
  {
    && WasCached(after, ino, i, block) && Grown(before, after, ino, i, i + 1, bs, file, served)
    && (BlockKey(ino, i) in before ==> block == before[BlockKey(ino, i)])
    && (BlockKey(ino, i) !in before && served ==> block == BlockAt(bs, file, i))
  }

  /** No block was fetched: if the kernel served `file`, what is there does not pass verification. */
  ghost predicate NoneFetched(hash: Hash, e: FsEntry, bs: nat, file: Bytes, i: nat, errno: int,
                              before: map<BlockKey, Bytes>, after: map<BlockKey, Bytes>, served: bool)
  {
    && Grown(before, after, e.ino, i, i + 1, bs, file, served) && BlockKey(e.ino, i) !in before
    && (served ==> errno == EIO && !EntryVerifies(hash, e, i, BlockAt(bs, file, i)))
  }

  /** What getting the blocks did to the cache, and where they came from if the kernel served `file`. */
  ghost predicate Fetched(ino: nat, bs: nat, file: Bytes, why: Evidence,
                          before: map<BlockKey, Bytes>, after: map<BlockKey, Bytes>, served: bool)
  {
    && Grown(before, after, ino, why.first, why.first + |why.blocks|, bs, file, served)
    && (served ==> Origins(before, ino, bs, file, why.first, why.blocks))
    && if why.blocks == [] then after == before else Anchored(ino, why.first, why.blocks, before, after)
  }

  /** What is found in `file` in the place of these blocks passes verification. */
  ghost predicate AllPass(hash: Hash, e: FsEntry, bs: nat, file: Bytes, lo: nat, hi: nat) {
    forall i: nat :: lo <= i < hi ==> EntryVerifies(hash, e, i, BlockAt(bs, file, i))
  }

  /**
   What a read does: its reply is copied from verified blocks. If the kernel serves `file`
   meanwhile: the blocks are found in it or
   were cached before; if the leaves describe it, success depends on the range alone.
   In any case only blocks of the range are added to the cache.
   */
  ghost predicate Effect(hash: Hash, e: FsEntry, file: Bytes, offset: nat, end: nat, r: Result<Bytes>, why: Evidence,
                         before: map<BlockKey, Bytes>, after: map<BlockKey, Bytes>, served: bool)
    requires e.kind.VerityEnabled?
  {
    match r
    case Ok(output) =>
      var bs := e.kind.info.descriptor.BlockSize();
      && bs > 0 && Backed(hash, e, offset, end, output, why) && why.first == Quot(offset, bs)
      && Grown(before, after, e.ino, Quot(offset, bs), DivCeil(end, bs), bs, file, served)
      && (served ==> Origins(before, e.ino, bs, file, why.first, why.blocks))
      && (served && Describes(hash, e.kind.info, file) ==> end <= Times(|e.kind.info.leaves|, bs))
      && Anchored(e.ino, why.first, why.blocks, before, after)
    case Err(errno) =>
      var bs := e.kind.info.descriptor.BlockSize();
      && bs > 0 && Grown(before, after, e.ino, Quot(offset, bs), DivCeil(end, bs), bs, file, served)
      && (served ==> errno == EIO && !AllPass(hash, e, bs, file, Quot(offset, bs), DivCeil(end, bs)))
      && (served && Describes(hash, e.kind.info, file) ==> Times(|e.kind.info.leaves|, bs) < end)
  }

  lemma GatheredNext(hash: Hash, e: FsEntry, bs: nat, offset: nat, end: nat, output: Bytes, why: Evidence, i: nat,
                     block: Bytes)
    requires i == why.first + |why.blocks|
    requires Gathered(hash, e, bs, offset, end, output, why) && EntryVerifies(hash, e, i, block)
    ensures Gathered(hash, e, bs, offset, end, output + PieceAt(bs, i, block, offset, end),
                     why.(blocks := why.blocks + [block]))
  {
    CopiedNext(bs, why.first, why.blocks, block, offset, end);
    AllVerifyNext(hash, e, why.first, why.blocks, block);
  }

  /** One more block has been fetched: from the cache, or as it is in `file` if that was served. */
  lemma FetchedNext(ino: nat, bs: nat, file: Bytes, why: Evidence, before: map<BlockKey, Bytes>,
                    now: map<BlockKey, Bytes>,
                    after: map<BlockKey, Bytes>, served: bool, again: bool, i: nat, block: Bytes)
    requires i == why.first + |why.blocks| && Fetched(ino, bs, file, why, before, now, served)
    requires OneFetched(ino, bs, file, i, block, now, after, again)
    ensures Fetched(ino, bs, file, why.(blocks := why.blocks + [block]), before, after, served && again)
  {
    GrownTwice(before, now, after, ino, why.first, i, i + 1, bs, file, served, again);
    GrownOrigin(before, now, ino, why.first, i, bs, file, served);
    OriginNext(ino, bs, file, why, before, now, served && again, i, block);
    AnchoredNext(ino, why.first, why.blocks, block, before, now, after);
  }

  lemma AllVerifyNext(hash: Hash, e: FsEntry, first: nat, blocks: seq<Bytes>, block: Bytes)
    requires AllVerify(hash, e, first, blocks) && EntryVerifies(hash, e, first + |blocks|, block)
    ensures AllVerify(hash, e, first, blocks + [block])
  {
  }

  lemma OriginsNext(cache: map<BlockKey, Bytes>, ino: nat, bs: nat, file: Bytes, first: nat, blocks: seq<Bytes>,
                    block: Bytes)
    requires Origins(cache, ino, bs, file, first, blocks)
    requires block == BlockAt(bs, file, first + |blocks|) || WasCached(cache, ino, first + |blocks|, block)
    ensures Origins(cache, ino, bs, file, first, blocks + [block])
  {
  }

  lemma OriginNext(ino: nat, bs: nat, file: Bytes, why: Evidence, before: map<BlockKey, Bytes>,
                   now: map<BlockKey, Bytes>,
                   served: bool, i: nat, block: Bytes)
    requires i == why.first + |why.blocks| && (served ==> Origins(before, ino, bs, file, why.first, why.blocks))
    requires BlockKey(ino, i) in now ==> block == now[BlockKey(ino, i)] && WasCached(before, ino, i, block)
    requires BlockKey(ino, i) !in now && served ==> block == BlockAt(bs, file, i)
    ensures served ==> Origins(before, ino, bs, file, why.first, why.blocks + [block])
  {
    if served {
      OriginsNext(before, ino, bs, file, why.first, why.blocks, block);
    }
  }

  lemma AnchoredNext(ino: nat, first: nat, blocks: seq<Bytes>, block: Bytes,
                     before: map<BlockKey, Bytes>, now: map<BlockKey, Bytes>, after: map<BlockKey, Bytes>)
    requires if blocks == [] then now == before else Anchored(ino, first, blocks, before, now)
    requires BlockKey(ino, first + |blocks|) in now ==> block == now[BlockKey(ino, first + |blocks|)]
    requires WasCached(after, ino, first + |blocks|, block)
    ensures Anchored(ino, first, blocks + [block], before, after)
  {
  }

  /** A block beyond those that were read is in the cache only if it was there before, as it was. */
  lemma GrownOrigin(before: map<BlockKey, Bytes>, after: map<BlockKey, Bytes>, ino: nat, lo: nat, hi: nat,
                    bs: nat, file: Bytes, served: bool)
    requires Grown(before, after, ino, lo, hi, bs, file, served)
    ensures BlockKey(ino, hi) in after ==> WasCached(before, ino, hi, after[BlockKey(ino, hi)])
  {
  }

  /** All blocks of the range have been fetched. */
  lemma ReadDone(hash: Hash, e: FsEntry, file: Bytes, offset: nat, end: nat, output: Bytes, why: Evidence,
                 before: map<BlockKey, Bytes>, after: map<BlockKey, Bytes>, served: bool)
    requires e.kind.VerityEnabled? && e.kind.info.descriptor.BlockSize() > 0 && offset < end
    requires var bs := e.kind.info.descriptor.BlockSize();
             && Gathered(hash, e, bs, offset, end, output, why) && Fetched(e.ino, bs, file, why, before, after, served)
             && why.first == Quot(offset, bs) && why.first + |why.blocks| == DivCeil(end, bs)
    ensures Effect(hash, e, file, offset, end, Ok(output), why, before, after, served)
  {
    var bs, n := e.kind.info.descriptor.BlockSize(), |why.blocks|;
    RangeSpans(bs, offset, end);
    assert EntryVerifies(hash, e, why.first + (n - 1), why.blocks[n - 1]);
    DivCeilFits(end, bs, |e.kind.info.leaves|);
  }

  /** Block i could not be fetched: if the kernel served `file`, what is there does not pass verification. */
  ghost predicate Stuck(hash: Hash, e: FsEntry, bs: nat, file: Bytes, first: nat, i: nat, errno: int,
                        before: map<BlockKey, Bytes>, after: map<BlockKey, Bytes>, served: bool)
  {
    && Grown(before, after, e.ino, first, i + 1, bs, file, served)
    && (served ==> errno == EIO && !EntryVerifies(hash, e, i, BlockAt(bs, file, i)))
  }

  lemma ReadFailed(hash: Hash, e: FsEntry, file: Bytes, offset: nat, end: nat, why: Evidence, i: nat, errno: int,
                   before: map<BlockKey, Bytes>, after: map<BlockKey, Bytes>, served: bool)
    requires e.kind.VerityEnabled? && e.kind.info.descriptor.BlockSize() > 0 && offset < end
    requires var bs := e.kind.info.descriptor.BlockSize();
             && Quot(offset, bs) <= i < DivCeil(end, bs)
             && Stuck(hash, e, bs, file, Quot(offset, bs), i, errno, before, after, served)
    ensures Effect(hash, e, file, offset, end, Err(errno), why, before, after, served)
  {
    var bs := e.kind.info.descriptor.BlockSize();
    DivCeilFits(end, bs, |e.kind.info.leaves|);
    if i < |e.kind.info.leaves| && Describes(hash, e.kind.info, file) {
      HonestBlock(hash, e.kind.info, file, i);
    }
  }

  // ---------- replies over a run ----------

  /**
   All that is promised of a reply; the last part while the originals are unchanged, and from
   a cache that serves them.
   */
  ghost predicate Replied(hash: Hash, files: map<nat, FsEntry>, originals: map<nat, Bytes>, q: Request,
                          reply: Result<Bytes>,
                          why: Evidence, faithful: bool, exact: bool)
  {
    && BackedReply(hash, files, q, reply, why) && SafeAgainst(hash, files, originals, q, reply, why)
    && (faithful ==> DecidedReply(files, originals, q, reply))
    && (exact ==> ExactlyReplied(files, originals, q, reply))
  }

  ghost predicate AllReplied(hash: Hash, files: map<nat, FsEntry>, originals: map<nat, Bytes>, requests: seq<Request>,
                             replies: seq<Result<Bytes>>, whys: seq<Evidence>, faithful: bool, exact: bool)
  {
    && |replies| == |whys| == |requests|
    && forall k :: 0 <= k < |requests| ==>
         Replied(hash, files, originals, requests[k], replies[k], whys[k], faithful, exact)
  }

  lemma RepliedNext(hash: Hash, files: map<nat, FsEntry>, originals: map<nat, Bytes>, requests: seq<Request>,
                    replies: seq<Result<Bytes>>, whys: seq<Evidence>, was: bool, still: bool, exact: bool,
                    q: Request, reply: Result<Bytes>, why: Evidence)
    requires (still ==> was) && AllReplied(hash, files, originals, requests, replies, whys, was, was && exact)
    requires Replied(hash, files, originals, q, reply, why, still, still && exact)
    ensures AllReplied(hash, files, originals, requests + [q], replies + [reply], whys + [why], still, still && exact)
  {
    forall k | 0 <= k < |requests|
      ensures Replied(hash, files, originals, requests[k], replies[k], whys[k], still, still && exact)
    {
      assert Replied(hash, files, originals, requests[k], replies[k], whys[k], was, was && exact);
    }
  }

  /** The blocks a reply is copied from were read from the kernel up to call `to`. */
  ghost predicate AtHand(kernel: Kernel, files: map<nat, FsEntry>, q: Request, reply: Result<Bytes>, why: Evidence,
                         to: nat)
  {
    q.Proper(files) && reply.Ok? ==> AllDelivered(kernel, files[q.ino].ino, BlockSizeOf(files[q.ino]), why, to)
  }

  ghost predicate AllAtHand(kernel: Kernel, files: map<nat, FsEntry>, requests: seq<Request>,
                            replies: seq<Result<Bytes>>,
                            whys: seq<Evidence>, to: nat)
  {
    && |replies| == |whys| == |requests|
    && forall k :: 0 <= k < |requests| ==> AtHand(kernel, files, requests[k], replies[k], whys[k], to)
  }

  lemma AtHandNext(kernel: Kernel, files: map<nat, FsEntry>, requests: seq<Request>, replies: seq<Result<Bytes>>,
                   whys: seq<Evidence>, to: nat, later: nat, q: Request, reply: Result<Bytes>, why: Evidence)
    requires AllAtHand(kernel, files, requests, replies, whys, to) && to <= later
    requires AtHand(kernel, files, q, reply, why, later)
    ensures AllAtHand(kernel, files, requests + [q], replies + [reply], whys + [why], later)
  {
    forall k | 0 <= k < |requests|
      ensures AtHand(kernel, files, requests[k], replies[k], whys[k], later)
    {
      if requests[k].Proper(files) && replies[k].Ok? {
        var e := files[requests[k].ino];
        AllDeliveredLater(kernel, e.ino, BlockSizeOf(e), whys[k], to, later);
      }
    }
  }

  /** What the effect of a read that is not refused says about its reply. */
  lemma PerformedReplies(hash: Hash, files: map<nat, FsEntry>, originals: map<nat, Bytes>, original: Bytes, q: Request,
                         reply: Result<Bytes>, why: Evidence, before: map<BlockKey, Bytes>, after: map<BlockKey, Bytes>,
                         served: bool, faithful: bool, exact: bool)
    requires q.Proper(files) && files[q.ino].ino == q.ino
    requires q.ino in originals ==> original == originals[q.ino]
    requires Effect(hash, files[q.ino], original, q.offset, q.offset + q.size, reply, why, before, after, served)
    requires faithful ==> AllDescribed(hash, files, originals) && (q.ino in originals ==> served)
    requires exact ==> faithful && CacheServesAll(files, before, originals)
    ensures Replied(hash, files, originals, q, reply, why, faithful, exact)
    ensures exact ==> CacheServesAll(files, after, originals)
  {
    EffectBacked(hash, files, originals, original, q, reply, why, before, after, served);
    if faithful {
      EffectDecided(hash, files, originals, original, q, reply, why, before, after, served);
    }
    if exact {
      EffectExact(hash, files, originals, original, q, reply, why, before, after, served);
    }
  }

  lemma EffectBacked(hash: Hash, files: map<nat, FsEntry>, originals: map<nat, Bytes>, original: Bytes, q: Request,
                     reply: Result<Bytes>, why: Evidence, before: map<BlockKey, Bytes>, after: map<BlockKey, Bytes>,
                     served: bool)
    requires q.Proper(files) && (q.ino in originals ==> original == originals[q.ino])
    requires Effect(hash, files[q.ino], original, q.offset, q.offset + q.size, reply, why, before, after, served)
    ensures BackedReply(hash, files, q, reply, why) && SafeAgainst(hash, files, originals, q, reply, why)
  {
    if q.ino in originals && Describes(hash, files[q.ino].kind.info, original) && reply.Ok? {
      BackedSafe(hash, files[q.ino], original, q.offset, q.offset + q.size, reply.value, why);
    }
  }

  lemma EffectDecides(hash: Hash, e: FsEntry, file: Bytes, offset: nat, end: nat, r: Result<Bytes>, why: Evidence,
                      before: map<BlockKey, Bytes>, after: map<BlockKey, Bytes>, served: bool)
    requires e.kind.VerityEnabled? && Effect(hash, e, file, offset, end, r, why, before, after, served)
    requires served && Describes(hash, e.kind.info, file)
    ensures r.Ok? <==> end <= Times(|e.kind.info.leaves|, e.kind.info.descriptor.BlockSize())
    ensures r.Err? ==> r.errno == EIO
  {
  }

  lemma EffectDecided(hash: Hash, files: map<nat, FsEntry>, originals: map<nat, Bytes>, original: Bytes, q: Request,
                      reply: Result<Bytes>, why: Evidence, before: map<BlockKey, Bytes>, after: map<BlockKey, Bytes>,
                      served: bool)
    requires q.Proper(files) && (q.ino in originals ==> original == originals[q.ino] && served)
    requires Effect(hash, files[q.ino], original, q.offset, q.offset + q.size, reply, why, before, after, served)
    requires AllDescribed(hash, files, originals)
    ensures DecidedReply(files, originals, q, reply)
  {
    if q.ino in originals {
      EffectDecides(hash, files[q.ino], original, q.offset, q.offset + q.size, reply, why, before, after, served);
    }
  }

  lemma EffectExact(hash: Hash, files: map<nat, FsEntry>, originals: map<nat, Bytes>, original: Bytes, q: Request,
                    reply: Result<Bytes>, why: Evidence, before: map<BlockKey, Bytes>, after: map<BlockKey, Bytes>,
                    served: bool)
    requires q.Proper(files) && files[q.ino].ino == q.ino
    requires q.ino in originals ==> original == originals[q.ino] && served
    requires Effect(hash, files[q.ino], original, q.offset, q.offset + q.size, reply, why, before, after, served)
    requires AllDescribed(hash, files, originals) && CacheServesAll(files, before, originals)
    ensures ExactlyReplied(files, originals, q, reply) && CacheServesAll(files, after, originals)
  {
    var e, end := files[q.ino], q.offset + q.size;
    var bs := e.kind.info.descriptor.BlockSize();
    ServesAllKept(files, originals, before, after, q.ino, Quot(q.offset, bs), DivCeil(end, bs), bs, original, served);
    if q.ino in originals {
      EffectDecides(hash, e, original, q.offset, end, reply, why, before, after, served);
      if reply.Ok? {
        ExactReply(hash, e, before, original, q.offset, end, reply.value, why);
      }
    }
  }

  /** The condition on the cached blocks, for a read that succeeds while the file is unchanged. */
  lemma EffectOfLongCache(hash: Hash, e: FsEntry, file: Bytes, offset: nat, end: nat, r: Result<Bytes>, why: Evidence,
                          before: map<BlockKey, Bytes>, after: map<BlockKey, Bytes>, served: bool)
    requires e.kind.VerityEnabled? && Effect(hash, e, file, offset, end, r, why, before, after, served)
    requires served && r.Ok? && Describes(hash, e.kind.info, file)
    requires LongEnough(before, e.ino, BlockSizeOf(e), file, why.first, |why.blocks|)
    ensures || !NoCollision(hash, e.kind.info, file, why.first, why.blocks)
            || (&& why.blocks != [] && Extra(BlockSizeOf(e), file, why) >= 0
                && r.value == Slice(file + Zeros(Extra(BlockSizeOf(e), file, why)), offset, end)
                && (RightLength(before, e.ino, BlockSizeOf(e), file, why.first, |why.blocks|) ==>
                      r.value == Slice(file, offset, end)))
  {
    if NoCollision(hash, e.kind.info, file, why.first, why.blocks) {
      LongCacheReply(hash, e, before, file, offset, end, r.value, why);
    }
  }

  /** A request that is refused. */
  lemma RefusedReplies(hash: Hash, files: map<nat, FsEntry>, originals: map<nat, Bytes>, q: Request, why: Evidence,
                       faithful: bool, exact: bool)
    requires !q.Proper(files)
    ensures Replied(hash, files, originals, q, Refusal(files, q), why, faithful, exact)
  {
  }

  /** What is answered without reading anything, in terms of the request and the entry alone. */
  ghost predicate PlainRefusal(files: map<nat, FsEntry>, q: Request, reply: Result<Bytes>) {
    && (q.ino !in files ==> reply == Err(22))
    && (q.ino in files ==>
          var kind := files[q.ino].kind;
          && (q.offset < 0 ==> reply == Err(22))
          && (q.offset >= 0 && q.size == 0 ==> reply == Ok([]))
          && (q.offset >= 0 && q.size > 0 && kind.Directory? ==> reply == Err(21))
          && (q.offset >= 0 && q.size > 0 && kind.VerityEnabled? ==>
                kind.info.descriptor.BlockSize() >= 0x1_0000_0000 ==> reply == Err(22)))
  }

  lemma RefusedPlainly(hash: Hash, files: map<nat, FsEntry>, originals: map<nat, Bytes>, q: Request,
                       reply: Result<Bytes>, why: Evidence, faithful: bool, exact: bool)
    requires Replied(hash, files, originals, q, reply, why, faithful, exact)
    ensures PlainRefusal(files, q, reply)
  {
    if q.ino in files {
      ProperExactly(files[q.ino], q.offset, q.size);
    }
  }

  /**
   The reply to a read of an unchanged file whose block size fits in 32 bits, in terms of the
   request, the entry and the file alone: the slice if it ends within the leaves, else an error.
   */
  ghost predicate PlainRead(files: map<nat, FsEntry>, originals: map<nat, Bytes>, q: Request, reply: Result<Bytes>) {
    q.ino in originals && q.ino in files && files[q.ino].kind.VerityEnabled? && q.offset >= 0 && q.size > 0 ==>
      var info := files[q.ino].kind.info;
      info.descriptor.BlockSize() < 0x1_0000_0000 ==>
        reply == if q.offset + q.size <= |info.leaves| * info.descriptor.BlockSize()
                 then Ok(Slice(originals[q.ino], q.offset, q.offset + q.size)) else Err(5)
  }

  lemma RepliedPlainly(hash: Hash, files: map<nat, FsEntry>, originals: map<nat, Bytes>, q: Request,
                       reply: Result<Bytes>, why: Evidence)
    requires Replied(hash, files, originals, q, reply, why, true, true)
    ensures PlainRead(files, originals, q, reply)
  {
    if q.ino in originals && q.ino in files && files[q.ino].kind.VerityEnabled? {
      var info := files[q.ino].kind.info;
      ProperExactly(files[q.ino], q.offset, q.size);
      TimesIs(|info.leaves|, info.descriptor.BlockSize());
    }
  }

  lemma AllPlainly(hash: Hash, files: map<nat, FsEntry>, originals: map<nat, Bytes>, requests: seq<Request>,
                   replies: seq<Result<Bytes>>, whys: seq<Evidence>, faithful: bool, exact: bool)
    requires AllReplied(hash, files, originals, requests, replies, whys, faithful, faithful && exact)
    ensures forall k :: 0 <= k < |requests| ==> PlainRefusal(files, requests[k], replies[k])
    ensures faithful && exact ==>
              forall k :: 0 <= k < |requests| ==> PlainRead(files, originals, requests[k], replies[k])
  {
    forall k | 0 <= k < |requests|
      ensures PlainRefusal(files, requests[k], replies[k])
      ensures faithful && exact ==> PlainRead(files, originals, requests[k], replies[k])
    {
      RefusedPlainly(hash, files, originals, requests[k], replies[k], whys[k], faithful, faithful && exact);
      if faithful && exact {
        RepliedPlainly(hash, files, originals, requests[k], replies[k], whys[k]);
      }
    }
  }

  class VerityFS {
    const hash: Hash
    const kernel: Kernel
    const files: map<nat, FsEntry>
    var calls: nat
    var cache: map<BlockKey, Bytes>

    ghost predicate Valid()
      reads this
    {
      && kernel.Sane()
      && (forall n :: n in files ==> files[n].ino == n)
      && CacheSafe(hash, files, cache)
      && CacheDelivered(kernel, files, cache, calls)
    }

    constructor (hash: Hash, kernel: Kernel, files: map<nat, FsEntry>)
      requires kernel.Sane() && forall n :: n in files ==> files[n].ino == n
      ensures Valid() && cache == map[] && calls == 0
      ensures this.hash == hash && this.kernel == kernel && this.files == files
    {
      this.hash, this.kernel, this.files := hash, kernel, files;
      calls, cache := 0, map[];
    }

    /** An entry for a file, as `lookup_by_ino` gives it. */
    ghost predicate IsFile(e: FsEntry) {
      e.ino in files && files[e.ino] == e && e.kind.VerityEnabled?
    }

    /**
     One block: from the cache, or read, verified and put into the cache. `file` is any
     candidate for what the kernel serves meanwhile, the original or not.
     */
    method GetBlock(e: FsEntry, i: nat, ghost file: Bytes) returns (r: Result<Bytes>)
      requires Valid() && IsFile(e)
      modifies this`calls, this`cache
      ensures Valid() && old(calls) <= calls
      ensures var bs, served := e.kind.info.descriptor.BlockSize(), kernel.Serves(e.ino, file, old(calls), calls);
              match r
              case Ok(block) =>
                EntryVerifies(hash, e, i, block) && OneFetched(e.ino, bs, file, i, block, old(cache), cache, served)
              case Err(errno) =>
                NoneFetched(hash, e, bs, file, i, errno, old(cache), cache, served)
    {
      var key, bs := BlockKey(e.ino, i), e.kind.info.descriptor.BlockSize();
      if key in cache {
        return Ok(cache[key]);
      }
      var raw;
      ghost var since := calls;
      raw, calls := PreadFileData(kernel, calls, e.ino, Times(i, bs), bs, file);
      CacheDeliveredLater(kernel, files, cache, since, calls);
      if raw.Err? {
        return raw;
      }
      if !EntryVerifies(hash, e, i, raw.value) {
        return Err(EIO);
      }
      CacheDeliveredPut(kernel, files, cache, calls, kernel.evict(calls), key, raw.value);
      cache := (cache - kernel.evict(calls))[key := raw.value];
      r := raw;
    }

    /** One turn of the loop of `read_file`: the part of block i that was asked for, and the block it is copied from. */
    method CopyBlock(e: FsEntry, i: nat, offset: nat, end: nat, ghost file: Bytes)
      returns (r: Result<Bytes>, ghost block: Bytes)
      requires Valid() && IsFile(e)
      requires offset < end && Overlaps(i, e.kind.info.descriptor.BlockSize(), offset, end)
      modifies this`calls, this`cache
      ensures Valid() && old(calls) <= calls
      ensures var bs, served := e.kind.info.descriptor.BlockSize(), kernel.Serves(e.ino, file, old(calls), calls);
              match r
              case Ok(piece) =>
                && EntryVerifies(hash, e, i, block) && piece == PieceAt(bs, i, block, offset, end)
                && OneFetched(e.ino, bs, file, i, block, old(cache), cache, served)
              case Err(errno) =>
                NoneFetched(hash, e, bs, file, i, errno, old(cache), cache, served)
    {
      var bs := e.kind.info.descriptor.BlockSize();
      var got := GetBlock(e, i, file);
      block := [];
      if got.Err? {
        return got, block;
      }
      block := got.value;
      var piece := CutPiece(bs, Times(i, bs), got.value, offset, end);
      r := Ok(piece);
    }

    /** The same as part of the loop, with what it has copied and fetched since call `since`. */
    method CopyNext(e: FsEntry, i: nat, offset: nat, end: nat, output: Bytes, ghost file: Bytes, ghost why: Evidence,
                    ghost before: map<BlockKey, Bytes>, ghost since: nat)
      returns (r: Result<Bytes>, ghost more: Evidence)
      requires Valid() && IsFile(e) && since <= calls && i == why.first + |why.blocks|
      requires var bs := e.kind.info.descriptor.BlockSize();
               && offset < end && Overlaps(i, bs, offset, end) && Gathered(hash, e, bs, offset, end, output, why)
               && Fetched(e.ino, bs, file, why, before, cache, kernel.Serves(e.ino, file, since, calls))
               && AllDelivered(kernel, e.ino, bs, why, calls)
      modifies this`calls, this`cache
      ensures Valid() && old(calls) <= calls
      ensures var bs, served := e.kind.info.descriptor.BlockSize(), kernel.Serves(e.ino, file, since, calls);
              match r
              case Ok(copied) =>
                && more.first == why.first && |more.blocks| == |why.blocks| + 1
                && Gathered(hash, e, bs, offset, end, copied, more)
                && Fetched(e.ino, bs, file, more, before, cache, served)
                && AllDelivered(kernel, e.ino, bs, more, calls)
              case Err(errno) =>
                Stuck(hash, e, bs, file, why.first, i, errno, before, cache, served)
    {
      var bs := e.kind.info.descriptor.BlockSize();
      ghost var now, midway := cache, calls;
      var piece, block := CopyBlock(e, i, offset, end, file);
      ghost var served, again := kernel.Serves(e.ino, file, since, midway), kernel.Serves(e.ino, file, midway, calls);
      assert kernel.Serves(e.ino, file, since, calls) ==> served && again;
      more := why;
      if piece.Err? {
        GrownTwice(before, now, cache, e.ino, why.first, i, i + 1, bs, file, served, again);
        return piece, more;
      }
      GatheredNext(hash, e, bs, offset, end, output, why, i, block);
      FetchedNext(e.ino, bs, file, why, before, now, cache, served, again, i, block);
      AllDeliveredLater(kernel, e.ino, bs, why, midway, calls);
      AllDeliveredNext(kernel, e.ino, bs, why, calls, i, block);
      more := why.(blocks := why.blocks + [block]);
      r := Ok(output + piece.value);
    }

    /**
     The loop of `read_file`. What it returns is copied from verified blocks. If the
     kernel serves `file` meanwhile, those are found in it or were cached; and if that is
     the file the leaves describe, success depends on the range alone.
     */
    method ReadBlocks(e: FsEntry, offset: nat, end: nat, ghost file: Bytes)
      returns (r: Result<Bytes>, ghost why: Evidence)
      requires Valid() && IsFile(e)
      requires offset < end && BlockSizeOf(e) > 0
      modifies this`calls, this`cache
      ensures Valid() && old(calls) <= calls
      ensures Effect(hash, e, file, offset, end, r, why, old(cache), cache,
                     kernel.Serves(e.ino, file, old(calls), calls))
      ensures r.Ok? ==> AllDelivered(kernel, e.ino, BlockSizeOf(e), why, calls)
    {
      var bs := e.kind.info.descriptor.BlockSize();
      var startBlock, endBlock := Quot(offset, bs), DivCeil(end, bs);
      BlockRange(offset, end, bs);
      var output: Bytes := [];
      why := Evidence(startBlock, []);
      for i := startBlock to endBlock
        invariant Valid() && old(calls) <= calls
        invariant why.first == startBlock && startBlock + |why.blocks| == i
        invariant Gathered(hash, e, bs, offset, end, output, why)
        invariant Fetched(e.ino, bs, file, why, old(cache), cache, kernel.Serves(e.ino, file, old(calls), calls))
        invariant AllDelivered(kernel, e.ino, bs, why, calls)
      {
        assert Overlaps(i, bs, offset, end);
        r, why := CopyNext(e, i, offset, end, output, file, why, old(cache), old(calls));
        if r.Err? {
          ReadFailed(hash, e, file, offset, end, why, i, r.errno, old(cache), cache,
                     kernel.Serves(e.ino, file, old(calls), calls));
          return;
        }
        output := r.value;
      }
      ReadDone(hash, e, file, offset, end, output, why, old(cache), cache,
               kernel.Serves(e.ino, file, old(calls), calls));
      r := Ok(output);
    }

    /** The part of `read_file` behind the checks of its arguments. */
    method OpenAndRead(e: FsEntry, offset: nat, end: nat, ghost file: Bytes)
      returns (r: Result<Bytes>, ghost why: Evidence)
      requires Valid() && IsFile(e)
      requires offset < end && BlockSizeOf(e) > 0
      modifies this`calls, this`cache
      ensures Valid() && old(calls) <= calls
      ensures Effect(hash, e, file, offset, end, r, why, old(cache), cache,
                     kernel.Serves(e.ino, file, old(calls), calls))
      ensures r.Ok? ==> AllDelivered(kernel, e.ino, BlockSizeOf(e), why, calls)
    {
      var openError := kernel.open(calls, e.ino);
      CacheDeliveredLater(kernel, files, cache, calls, calls + 1);
      calls := calls + 1;
      if openError.Some? {
        return Err(openError.value), Evidence(Quot(offset, e.kind.info.descriptor.BlockSize()), []);
      }
      r, why := ReadBlocks(e, offset, end, file);
    }

    /**
     `read_file`. A request that is not refused is answered from verified blocks, whatever
     the kernel does; `Effect` says what happens if it serves `file` meanwhile.
     */
    method ReadFile(e: FsEntry, offset: int, size: nat, ghost file: Bytes)
      returns (r: Result<Bytes>, ghost why: Evidence)
      requires Valid() && e.ino in files && files[e.ino] == e
      requires offset < 0x8000_0000_0000_0000 && size < U32
      modifies this`calls, this`cache
      ensures Valid() && old(calls) <= calls
      ensures ProperRead(e, offset, size) ==>
                Effect(hash, e, file, offset, offset + size, r, why, old(cache), cache,
                       kernel.Serves(e.ino, file, old(calls), calls))
      ensures !ProperRead(e, offset, size) ==> r == Refused(e, offset, size) && cache == old(cache)
      ensures ProperRead(e, offset, size) && r.Ok? ==> AllDelivered(kernel, e.ino, BlockSizeOf(e), why, calls)
    {
      var refusal := CheckArguments(e, offset, size);
      if refusal.Some? {
        return refusal.value, Evidence(0, []);
      }
      r, why := OpenAndRead(e, offset, offset + size, file);
    }

    /** The `read` callback: looks up the inode and reads. */
    method Read(q: Request, ghost file: Bytes) returns (reply: Result<Bytes>, ghost why: Evidence)
      requires Valid() && q.Typed()
      modifies this`calls, this`cache
      ensures Valid() && old(calls) <= calls
      ensures q.Proper(files) ==>
                Effect(hash, files[q.ino], file, q.offset, q.offset + q.size, reply, why, old(cache), cache,
                       kernel.Serves(files[q.ino].ino, file, old(calls), calls))
      ensures !q.Proper(files) ==> reply == Refusal(files, q) && cache == old(cache)
      ensures AtHand(kernel, files, q, reply, why, calls)
    {
      if q.ino !in files {
        return Err(EINVAL), Evidence(0, []);
      }
      var e := files[q.ino];
      reply, why := ReadFile(e, q.offset, q.size, file);
    }

    /** Every original is described by its leaves and unchanged from one call to another. */
    ghost predicate Faithful(originals: map<nat, Bytes>, from: nat, to: nat) {
      AllDescribed(hash, files, originals) && ServesAll(kernel, originals, from, to)
    }

    /**
     The `read` callback: answered from verified blocks and safe against every original,
     whatever the kernel does. While the originals are unchanged, whatever is cached, success
     depends on the range alone; and if the cache serves them, the reply is the plain slice
     and the cache goes on serving all of them.
     */
    method ServeOne(q: Request, ghost originals: map<nat, Bytes>) returns (reply: Result<Bytes>, ghost why: Evidence)
      requires Valid() && q.Typed()
      modifies this`calls, this`cache
      ensures Valid() && old(calls) <= calls
      ensures var faithful := Faithful(originals, old(calls), calls);
              var exact := old(CacheServesAll(files, cache, originals));
              && Replied(hash, files, originals, q, reply, why, faithful, faithful && exact)
              && (faithful && exact ==> CacheServesAll(files, cache, originals))
      ensures AtHand(kernel, files, q, reply, why, calls)
      ensures PlainRefusal(files, q, reply)
      ensures Faithful(originals, old(calls), calls) && old(CacheServesAll(files, cache, originals)) ==>
                PlainRead(files, originals, q, reply)
    {
      ghost var original := if q.ino in originals then originals[q.ino] else [];
      ghost var exact := CacheServesAll(files, cache, originals);
      reply, why := Read(q, original);
      ghost var faithful := Faithful(originals, old(calls), calls);
      if q.Proper(files) {
        PerformedReplies(hash, files, originals, original, q, reply, why, old(cache), cache,
                         kernel.Serves(files[q.ino].ino, original, old(calls), calls), faithful, faithful && exact);
      } else {
        RefusedReplies(hash, files, originals, q, why, faithful, faithful && exact);
      }
      RefusedPlainly(hash, files, originals, q, reply, why, faithful, faithful && exact);
      if faithful && exact {
        RepliedPlainly(hash, files, originals, q, reply, why);
      }
    }

    /**
     Any run of the `read` callback, with the backing files and the cache changing
     arbitrarily in between: every reply is answered from verified blocks and safe. And
     over every run in which the originals are unchanged: every read that ends within the
     leaves succeeds, every other fails, and from a cache that serves the originals, such
     as an empty one, every reply is the plain slice.
     */
    method Serve(requests: seq<Request>, ghost originals: map<nat, Bytes>)
      returns (replies: seq<Result<Bytes>>, ghost whys: seq<Evidence>)
      requires Valid() && forall q :: q in requests ==> q.Typed()
      modifies this`calls, this`cache
      ensures Valid() && old(calls) <= calls
      ensures var faithful := Faithful(originals, old(calls), calls);
              var exact := old(CacheServesAll(files, cache, originals));
              && AllReplied(hash, files, originals, requests, replies, whys, faithful, faithful && exact)
              && (faithful && exact ==> CacheServesAll(files, cache, originals))
      ensures AllAtHand(kernel, files, requests, replies, whys, calls)
      ensures forall k :: 0 <= k < |requests| ==> PlainRefusal(files, requests[k], replies[k])
      ensures Faithful(originals, old(calls), calls) && old(CacheServesAll(files, cache, originals)) ==>
                forall k :: 0 <= k < |requests| ==> PlainRead(files, originals, requests[k], replies[k])
    {
      replies, whys := [], [];
      ghost var exact := CacheServesAll(files, cache, originals);
      for k := 0 to |requests|
        invariant Valid() && old(calls) <= calls
        invariant var faithful := Faithful(originals, old(calls), calls);
                  && AllReplied(hash, files, originals, requests[..k], replies, whys, faithful, faithful && exact)
                  && (faithful && exact ==> CacheServesAll(files, cache, originals))
        invariant AllAtHand(kernel, files, requests[..k], replies, whys, calls)
      {
        ghost var since, was := calls, Faithful(originals, old(calls), calls);
        var reply, why := ServeOne(requests[k], originals);
        ghost var still := Faithful(originals, old(calls), calls);
        if still {
          ServesWithin(kernel, originals, old(calls), since, calls);
        }
        RepliedNext(hash, files, originals, requests[..k], replies, whys, was, still, exact, requests[k], reply, why);
        AtHandNext(kernel, files, requests[..k], replies, whys, since, calls, requests[k], reply, why);
        assert requests[..k + 1] == requests[..k] + [requests[k]];
        replies, whys := replies + [reply], whys + [why];
      }
      assert requests[..|requests|] == requests;
      AllPlainly(hash, files, originals, requests, replies, whys, Faithful(originals, old(calls), calls), exact);
    }
  }
}
