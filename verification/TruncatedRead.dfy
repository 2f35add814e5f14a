/**
 A run in which the read path puts bytes in the wrong place. A block that ends in zeros
 also passes verification without them, is cached short, and the next block is appended
 to it directly.
 */
module TruncatedRead {
  import opened ByteStrings
  import opened Merkle
  import opened Trees
  import opened Stitching
  import opened InodeTable
  import opened FileHandles
  import opened Replies
  import opened ReadPath

  /** A one, zeros to the end of the first block, and another one. */
  function TwoOnes(bs: nat): Bytes
    requires bs > 0
  {
    [1] + Zeros(bs - 1) + [1]
  }

  lemma TwoOnesBlocks(bs: nat)
    requires bs > 1
    ensures BlockAt(bs, TwoOnes(bs), 0) == [1] + Zeros(bs - 1) && BlockAt(bs, TwoOnes(bs), 1) == [1]
    ensures BlockAt(bs, [1], 0) == [1] && Pad([1], bs) == Pad([1] + Zeros(bs - 1), bs)
  {
    var file := TwoOnes(bs);
    assert Times(1, bs) == bs;
    assert file[..bs] == [1] + Zeros(bs - 1);
    assert file[bs..] == [1];
  }

  lemma OnesApart(bs: nat)
    requires bs > 1
    ensures !([1, 1] <= Slice(TwoOnes(bs), 0, bs + 1))
  {
    var range := Slice(TwoOnes(bs), 0, bs + 1);
    assert range[1] == TwoOnes(bs)[1] == 0;
  }

  /** The first block passes verification without its zeros. */
  lemma ShortBlockPasses(hash: Hash, e: FsEntry, bs: nat)
    requires e.kind.VerityEnabled? && e.kind.info.descriptor.BlockSize() == bs > 1
    requires Describes(hash, e.kind.info, TwoOnes(bs))
    ensures |e.kind.info.leaves| == 2 && EntryVerifies(hash, e, 0, [1])
  {
    var c := Config(hash, bs, []);
    TwoOnesBlocks(bs);
    BlockCount(c, TwoOnes(bs));
    DivUnique(|TwoOnes(bs)| + bs - 1, bs, 2, 0);
    HonestBlock(hash, e.kind.info, TwoOnes(bs), 0);
  }

  lemma OneBlockRange(bs: nat)
    requires bs > 1
    ensures Quot(0, bs) == 0 && DivCeil(1, bs) == 1 && DivCeil(bs + 1, bs) == 2
  {
    assert Quot(1 + bs - 1, bs) == 1 + Quot(0, bs);
    assert Quot(bs + 1 + bs - 1, bs) == 1 + Quot(bs, bs) == 2 + Quot(0, bs);
  }

  lemma OnePiece(bs: nat, end: nat)
    requires bs > 1 && end > 0
    ensures Copied(bs, 0, [[1]], 0, end) == [1]
  {
    CopiedNext(bs, 0, [], [1], 0, end);
    assert [] + [[1 as Byte]] == [[1]];
    assert PieceAt(bs, 0, [1], 0, end) == [1];
  }

  lemma TwoPieces(bs: nat)
    requires bs > 1
    ensures Copied(bs, 0, [[1], [1]], 0, bs + 1) == [1, 1]
  {
    assert Times(1, bs) == bs;
    OnePiece(bs, bs + 1);
    CopiedNext(bs, 0, [[1]], [1], 0, bs + 1);
    assert [[1 as Byte]] + [[1]] == [[1], [1]];
    assert PieceAt(bs, 1, [1], 0, bs + 1) == [1];
  }

  /** Reading one byte of the truncated file from an empty cache leaves the short block in it, and nothing else. */
  lemma FirstRead(hash: Hash, e: FsEntry, bs: nat, r: Result<Bytes>, why: Evidence, after: map<BlockKey, Bytes>,
                  served: bool)
    requires e.kind.VerityEnabled? && e.kind.info.descriptor.BlockSize() == bs > 1
    requires Describes(hash, e.kind.info, TwoOnes(bs))
    requires served && Effect(hash, e, [1], 0, 1, r, why, map[], after, served)
    ensures r == Ok([1]) && ShortCached(e.ino, after)
  {
    OneBlockRange(bs);
    ShortBlockPasses(hash, e, bs);
    TwoOnesBlocks(bs);
    assert AllPass(hash, e, bs, [1], 0, 1);
    assert why.blocks == [[1]];
    OnePiece(bs, 1);
  }

  ghost predicate ShortCached(ino: nat, cache: map<BlockKey, Bytes>) {
    WasCached(cache, ino, 0, [1]) && BlockKey(ino, 1) !in cache
  }

  lemma SecondRead(hash: Hash, e: FsEntry, bs: nat, end: nat, file: Bytes, r: Result<Bytes>, why: Evidence,
                   before: map<BlockKey, Bytes>, after: map<BlockKey, Bytes>, served: bool)
    requires e.kind.VerityEnabled? && e.kind.info.descriptor.BlockSize() == bs > 1
    requires Describes(hash, e.kind.info, TwoOnes(bs))
    requires end == bs + 1 && file == TwoOnes(bs)
    requires served && Effect(hash, e, file, 0, end, r, why, before, after, served) && ShortCached(e.ino, before)
    ensures r == Ok([1, 1])
  {
    OneBlockRange(bs);
    ShortBlockPasses(hash, e, bs);
    SpansTwo(bs, |why.blocks|);
    TwoOnesBlocks(bs);
    assert why.blocks == [[1], [1]];
    TwoPieces(bs);
  }

  lemma SpansTwo(bs: nat, n: nat)
    requires bs > 1
    ensures Spans(bs, 0, n, 0, bs + 1) ==> n == 2
  {
    assert Times(1, bs) == bs && Times(2, bs) == 2 * bs;
    if n > 2 {
      TimesMonotone(2, n - 1, bs);
    }
  }

  /** The mounted file, with two ones in it. */
  ghost predicate Holds(fs: VerityFS, e: FsEntry, bs: nat) {
    && fs.IsFile(e) && e.kind.info.descriptor.BlockSize() == bs > 1 && bs + 1 < U32
    && Describes(fs.hash, e.kind.info, TwoOnes(bs))
  }

  /** A read that is not refused. */
  method ReadAt(fs: VerityFS, e: FsEntry, offset: nat, size: nat, ghost file: Bytes)
    returns (r: Result<Bytes>, ghost why: Evidence)
    requires fs.Valid() && fs.IsFile(e) && ProperRead(e, offset, size)
    requires offset < 0x8000_0000_0000_0000 && size < U32
    modifies fs`calls, fs`cache
    ensures fs.Valid() && old(fs.calls) <= fs.calls
    ensures Effect(fs.hash, e, file, offset, offset + size, r, why, old(fs.cache), fs.cache,
                   fs.kernel.Serves(e.ino, file, old(fs.calls), fs.calls))
  {
    r, why := fs.ReadFile(e, offset, size, file);
  }

  method ReadTruncated(fs: VerityFS, e: FsEntry, bs: nat) returns (r: Result<Bytes>)
    requires fs.Valid() && fs.cache == map[] && Holds(fs, e, bs)
    modifies fs`calls, fs`cache
    ensures fs.Valid() && old(fs.calls) <= fs.calls
    ensures fs.kernel.Serves(e.ino, [1], old(fs.calls), fs.calls) ==> r == Ok([1]) && ShortCached(e.ino, fs.cache)
  {
    ghost var why;
    r, why := ReadAt(fs, e, 0, 1, [1]);
    if fs.kernel.Serves(e.ino, [1], old(fs.calls), fs.calls) {
      FirstRead(fs.hash, e, bs, r, why, fs.cache, fs.kernel.Serves(e.ino, [1], old(fs.calls), fs.calls));
    }
  }

  method ReadWhole(fs: VerityFS, e: FsEntry, bs: nat) returns (r: Result<Bytes>)
    requires fs.Valid() && Holds(fs, e, bs)
    modifies fs`calls, fs`cache
    ensures fs.Valid() && old(fs.calls) <= fs.calls
    ensures fs.kernel.Serves(e.ino, TwoOnes(bs), old(fs.calls), fs.calls) && ShortCached(e.ino, old(fs.cache)) ==>
              r == Ok([1, 1])
  {
    ghost var why;
    var size := bs + 1;
    ghost var file := TwoOnes(bs);
    r, why := ReadAt(fs, e, 0, size, file);
    if fs.kernel.Serves(e.ino, file, old(fs.calls), fs.calls) && ShortCached(e.ino, old(fs.cache)) {
      SecondRead(fs.hash, e, bs, size, file, r, why, old(fs.cache), fs.cache,
                 fs.kernel.Serves(e.ino, file, old(fs.calls), fs.calls));
    }
  }

  /**
   If the backing file is cut off behind its first byte during the first read and is whole
   again during the second, the second returns the two ones next to each other. They are
   bs bytes apart in the file, and no collision is involved.
   */
  method ReadTruncatedThenWhole(fs: VerityFS, e: FsEntry, bs: nat)
    returns (first: Result<Bytes>, second: Result<Bytes>, ghost between: nat)
    requires fs.Valid() && fs.cache == map[] && Holds(fs, e, bs)
    modifies fs`calls, fs`cache
    ensures (&& fs.kernel.Serves(e.ino, [1], old(fs.calls), between)
             && fs.kernel.Serves(e.ino, TwoOnes(bs), between, fs.calls)) ==>
              first == Ok([1]) && second == Ok([1, 1])
    ensures !([1, 1] <= Slice(TwoOnes(bs), 0, bs + 1))
  {
    OnesApart(bs);
    first := ReadTruncated(fs, e, bs);
    between := fs.calls;
    second := ReadWhole(fs, e, bs);
  }
}
