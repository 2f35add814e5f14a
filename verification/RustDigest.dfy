/**
 The Rust streaming hasher (verity-core). A panic is a result: `ok == false`.
 */
module RustDigest {
  import opened ByteStrings
  import opened Merkle
  import opened Odometer
  import opened Descriptors

  const ZEROES: nat := 128

  /** `update_zeroes`: the remainder first, then whole 128-byte pieces. */
  function ZeroWrites(amount: nat): (z: Bytes)
    ensures z == Zeros(amount)
  {
    Zeros(amount % ZEROES) + ZeroPieces(amount / ZEROES)
  }

  function ZeroPieces(n: nat): (z: Bytes)
    ensures z == Zeros(n * ZEROES)
  {
    if n == 0 then [] else Zeros(ZEROES) + ZeroPieces(n - 1)
  }

  /** `fill_to_end` followed by the hash's own finalization. */
  function Finish(c: Config, b: FixedSizeBlock): Bytes
    requires b.remaining >= 0
  {
    c.hash.h(b.inner + ZeroWrites(b.remaining))
  }

  lemma FinishFlushes(c: Config, level: FixedSizeBlock, overflow: Bytes)
    requires |overflow| <= level.remaining
    ensures Finish(c, level.Append(overflow)) == FlushLevel(c, level, overflow)
  {
  }

  /**
   The body of the loop over the levels in `update`. Its three panics - an overflowing
   append, the assertion that nothing is left over, and the append after the reset -
   are excluded by the preconditions and the asserts.
   */
  function VisitLevel(c: Config, level: FixedSizeBlock, overflow: Bytes, keepSpaceForOneDigest: bool): Visit
    requires c.Sane() && |overflow| <= c.blockSize && level.remaining >= 0
    requires keepSpaceForOneDigest ==> |overflow| <= level.remaining
  {
    var (level', rest) := level.OverflowingAppend(overflow);
    if keepSpaceForOneDigest && level'.remaining >= c.hash.size then
      assert rest == [];
      Visit(level', rest, true)
    else if !keepSpaceForOneDigest && rest == [] then
      Visit(level', rest, true)
    else
      assert |rest| <= NewBlock(c).remaining;
      Visit(NewBlock(c).Append(rest), Finish(c, level'), false)
  }

  lemma VisitLevel0(c: Config, input: Bytes, chunk: Bytes)
    requires c.Valid() && input != [] && 0 < |chunk| <= c.blockSize
    ensures VisitsLevel0(c, input, chunk, VisitLevel(c, Holding(c, LastBlock(c, input)), chunk, false))
  {
    var last := LastBlock(c, input);
    var k := Min(c.blockSize - |last|, |chunk|);
    PushBytes(c, input, chunk);
    HoldingOverflow(c, last, chunk);
    if |last| + |chunk| <= c.blockSize {
      assert chunk[..k] == chunk;
    } else {
      assert (last + chunk)[..c.blockSize] == last + chunk[..k];
      assert (last + chunk)[c.blockSize..] == chunk[k..];
      HoldingHash(c, last + chunk[..k]);
    }
  }

  lemma VisitUpper(c: Config, hs: seq<Bytes>, d: Bytes)
    requires c.Valid() && Digests(c, hs) && |d| == c.hash.size && hs != []
    ensures |d| <= Upper(c, hs)[0].remaining
    ensures VisitsUpper(c, hs, d, VisitLevel(c, Upper(c, hs)[0], d, true))
  {
    PushUpper(c, hs, d);
    VisitHolding(c, Concat(Waiting(c, hs)), d);
  }

  lemma VisitHolding(c: Config, held: Bytes, d: Bytes)
    requires c.Sane() && |held + d| <= c.blockSize
    ensures |d| <= Holding(c, held).remaining
    ensures VisitLevel(c, Holding(c, held), d, true)
         == if |held + d| + c.hash.size <= c.blockSize then Visit(Holding(c, held + d), [], true)
            else Visit(NewBlock(c), c.BlockHash(held + d), false)
  {
    HoldingOverflow(c, held, d);
    assert d[..|d|] == d && d[|d|..] == [];
    HoldingHash(c, held + d);
    assert NewBlock(c).Append([]) == NewBlock(c);
  }

  /** One turn of the loop over the levels: no append can overflow, and the update gets one level further. */
  lemma CarryTurn(c: Config, input: Bytes, chunk: Bytes, i: nat, levels: seq<FixedSizeBlock>,
                  hs: seq<Bytes>, overflow: Bytes)
    requires c.Valid() && input != [] && 0 < |chunk| <= c.blockSize
    requires Midway(c, input, chunk, i, levels, hs, overflow) && i < |levels|
    ensures |overflow| <= c.blockSize && levels[i].remaining >= 0 && (i > 0 ==> |overflow| <= levels[i].remaining)
    ensures Turned(c, input, chunk, i, levels, hs, VisitLevel(c, levels[i], overflow, i > 0))
  {
    MidwayHead(c, input, chunk, i, levels, hs, overflow);
    if i == 0 {
      VisitLevel0(c, input, chunk);
    } else {
      VisitUpper(c, hs, overflow);
    }
    MidwayStep(c, input, chunk, i, levels, hs, overflow, VisitLevel(c, levels[i], overflow, i > 0));
  }

  class FsVerityDigest {
    const config: Config
    var levels: seq<FixedSizeBlock>
    var merkleTree: seq<Bytes>
    /** Everything written so far. */
    ghost var input: Bytes

    ghost predicate Valid()
      reads this
    {
      && config.Valid()
      && levels == LevelsFor(config, input)
      && merkleTree == Completed(config, input)
      && |levels| <= MAX_LEVELS
    }

    constructor (config: Config)
      requires config.Valid()
      ensures Valid() && input == [] && this.config == config
    {
      this.config := config;
      levels, merkleTree, input := [], [], [];
    }

    /**
     The loop over the levels for one chunk. What it returns is what overflows the
     topmost level, if anything.
     */
    method CarryUp(chunk: Bytes) returns (overflow: Bytes)
      requires Valid() && 0 < |chunk| <= config.blockSize
      modifies this`levels, this`merkleTree
      ensures merkleTree == Completed(config, input + chunk) && |levels| == |old(levels)|
      ensures |overflow| <= config.blockSize
      ensures LevelsFor(config, input + chunk) == levels + if overflow == [] then [] else [Holding(config, overflow)]
    {
      var keepSpaceForOneDigest := false;
      overflow := chunk;
      ghost var hs: seq<Bytes> := [];
      for i := 0 to |levels|
        invariant |levels| == |old(levels)|
        invariant keepSpaceForOneDigest == (i > 0)
        invariant Midway(config, input, chunk, i, levels, hs, overflow)
        invariant merkleTree == Completed(config, if i == 0 then input else input + chunk)
      {
        CarryTurn(config, input, chunk, i, levels, hs, overflow);
        var v := VisitLevel(config, levels[i], overflow, keepSpaceForOneDigest);
        levels := levels[i := v.level];
        if v.done {
          return [];
        }
        if i == 0 {
          merkleTree := merkleTree + [v.overflow];
        }
        overflow := v.overflow;
        keepSpaceForOneDigest := true;
        hs := if i == 0 then Completed(config, input) else Carried(config, hs);
      }
      MidwayTop(config, input, chunk, levels, hs, overflow);
    }

    /** One iteration of the outer loop of `update`: a chunk of at most one block. */
    method AbsorbChunk(chunk: Bytes) returns (ok: bool)
      requires Valid() && 0 < |chunk| <= config.blockSize
      modifies this
      ensures ok <==> |old(input)| + |chunk| <= Capacity(config)
      ensures ok ==> Valid() && input == old(input) + chunk
    {
      LevelLimit(config, input + chunk);
      var overflow := CarryUp(chunk);
      if overflow != [] {
        if !(|levels| < MAX_LEVELS) {
          return false;
        }
        assert |overflow| <= NewBlock(config).remaining;
        levels := levels + [NewBlock(config).Append(overflow)];
      }
      input := input + chunk;
      ok := true;
    }

    /** `update`: any amount of data, cut into chunks of one block. */
    method Update(data: Bytes) returns (ok: bool)
      requires Valid()
      modifies this
      ensures ok <==> |old(input)| + |data| <= Capacity(config)
      ensures ok ==> Valid() && input == old(input) + data
    {
      var start := 0;
      LevelLimit(config, input);
      while start < |data|
        invariant start <= |data| && Valid() && input == old(input) + data[..start]
        invariant |input| <= Capacity(config)
      {
        var end := Min(start + config.blockSize, |data|);
        ok := AbsorbChunk(data[start..end]);
        if !ok {
          return;
        }
        TakeMore(old(input), data, start, end);
        start := end;
      }
      assert data[..start] == data;
      ok := true;
    }

    /**
     `finalize_into_fs_verity_stuffs`: flushes a copy of the levels. Sizes are 64-bit words, as
     in a build without overflow checks.
     */
    method FinalizeIntoFsVerityStuffs() returns (descriptor: Descriptor, tree: seq<Bytes>)
      requires Valid()
      ensures descriptor == DescriptorOf(config, input)
      ensures descriptor.version == 1 && descriptor.hashAlgorithm == (if config.hash.size == 32 then 1 else 2)
      ensures descriptor.dataSize == |input| % 0x1_0000_0000_0000_0000 && descriptor.salt == config.salt
      ensures descriptor.rootHash == MerkleRoot(config, input)
      ensures exists k: nat :: && config.blockSize % Pow2(k) == 0 && config.blockSize / Pow2(k) % 2 == 1
                               && descriptor.logBlockSize as int == k % 256
      ensures tree == BlockHashes(config, input)
    {
      var compressionFactor := config.blockSize / config.hash.size;
      var totalSize, scale := 0, 1;
      var lastDigest := Zeros(config.hash.size);
      var overflow := [];
      tree := merkleTree;
      WordStarts(config, input);
      for i := 0 to |levels|
        invariant WordState(config, input, i, scale, totalSize)
        invariant FlushState(config, input, levels, i, lastDigest, overflow, tree)
      {
        FlushTurn(config, input, levels, i, lastDigest, overflow, tree);
        var fill := config.blockSize - levels[i].remaining;
        WordTurn(config, input, i, scale, totalSize, fill);
        totalSize := AddWord(totalSize, scale, fill);
        assert |overflow| <= levels[i].remaining;
        FinishFlushes(config, levels[i], overflow);
        lastDigest := Finish(config, levels[i].Append(overflow));
        if i == 0 {
          tree := tree + [lastDigest];
        }
        overflow := lastDigest;
        scale := MulWord(scale, compressionFactor);
      }
      WordEnds(config, input, scale, totalSize);
      FlushEnds(config, input, levels, lastDigest, overflow, tree);
      TrailingZerosSplit(config.blockSize);
      descriptor := Descriptor(1, config.hash.id, LogByte(config.blockSize), totalSize, lastDigest, config.salt);
    }

    /** `reset`: blank, with the same parameters. */
    method Reset()
      requires Valid()
      modifies this
      ensures Valid() && input == []
    {
      levels, merkleTree, input := [], [], [];
    }
  }
}
