/**
 The Go streaming hasher (verity-go), which tests fullness differently and has no
 level limit, proved against the same state function and the same results.
 */
module GoDigest {
  import opened ByteStrings
  import opened Merkle
  import opened Odometer
  import opened Descriptors
  import RustDigest

  /** What the hash of a block has absorbed after `fillToEnd`: zeros only if there is room left. */
  function Filled(b: FixedSizeBlock): Bytes {
    b.inner + if b.remaining > 0 then Zeros(b.remaining) else []
  }

  function Finish(c: Config, b: FixedSizeBlock): Bytes {
    c.hash.h(Filled(b))
  }

  lemma FinishFlushes(c: Config, level: FixedSizeBlock, overflow: Bytes)
    requires |overflow| <= level.remaining
    ensures Finish(c, level.Append(overflow)) == FlushLevel(c, level, overflow)
  {
    assert Zeros(0) == [];
  }

  /** The body of the loop over the levels in `update`; `append` checks nothing. */
  function VisitLevel(c: Config, level: FixedSizeBlock, overflow: Bytes, keepSpace: bool): Visit
    requires c.Sane() && level.remaining >= 0
  {
    var (level', rest) := level.OverflowingAppend(overflow);
    if keepSpace && level'.remaining >= c.hash.size && rest == [] then
      Visit(level', rest, true)
    else if !keepSpace && rest == [] then
      Visit(level', rest, true)
    else
      Visit(NewBlock(c).Append(rest), Finish(c, level'), false)
  }

  /** Wherever the Rust loop body cannot panic, the Go loop body does the same. */
  lemma VisitsAgree(c: Config, level: FixedSizeBlock, overflow: Bytes, keepSpace: bool)
    requires c.Valid() && |overflow| <= c.blockSize && level.remaining >= 0
    requires keepSpace ==> |overflow| <= level.remaining
    ensures VisitLevel(c, level, overflow, keepSpace) == RustDigest.VisitLevel(c, level, overflow, keepSpace)
  {
    var (level', rest) := level.OverflowingAppend(overflow);
    assert level'.remaining >= 0;
    assert Zeros(0) == [];
  }

  /**
   What the levels look like after `Finalize`: the flushed copies share their hash
   objects, so those have absorbed a full block, while `remaining` tells the old fill.
   */
  function SpentLevels(c: Config, levels: seq<FixedSizeBlock>, overflow: Bytes): seq<FixedSizeBlock> {
    if levels == [] then []
    else
      var b := levels[0].Append(overflow);
      [FixedSizeBlock(Filled(b), levels[0].remaining)] + SpentLevels(c, levels[1..], Finish(c, b))
  }

  /** `trailingZeros`. */
  method CountTrailingZeros(n: nat) returns (count: nat)
    ensures count == TrailingZeros(n)
  {
    if n == 0 {
      return 0;
    }
    count := 0;
    var m := n;
    while m % 2 == 0
      invariant m > 0 && count + TrailingZeros(m) == TrailingZeros(n)
      decreases m
    {
      count, m := count + 1, m / 2;
    }
  }

  class FsVerityDigest {
    const config: Config
    var levels: seq<FixedSizeBlock>
    var level1: seq<Bytes>
    /** Everything written so far. */
    ghost var input: Bytes

    ghost predicate Valid()
      reads this
    {
      config.Valid() && levels == LevelsFor(config, input) && level1 == Completed(config, input)
    }

    constructor (config: Config)
      requires config.Valid()
      ensures Valid() && input == [] && this.config == config
    {
      this.config := config;
      levels, level1, input := [], [], [];
    }

    method CarryUp(chunk: Bytes) returns (overflow: Bytes)
      requires Valid() && 0 < |chunk| <= config.blockSize
      modifies this`levels, this`level1
      ensures level1 == Completed(config, input + chunk)
      ensures LevelsFor(config, input + chunk) == levels + if overflow == [] then [] else [Holding(config, overflow)]
    {
      var keepSpace := false;
      overflow := chunk;
      ghost var hs: seq<Bytes> := [];
      for i := 0 to |levels|
        invariant |levels| == |old(levels)|
        invariant keepSpace == (i > 0)
        invariant Midway(config, input, chunk, i, levels, hs, overflow)
        invariant level1 == Completed(config, if i == 0 then input else input + chunk)
      {
        RustDigest.CarryTurn(config, input, chunk, i, levels, hs, overflow);
        VisitsAgree(config, levels[i], overflow, keepSpace);
        var v := VisitLevel(config, levels[i], overflow, keepSpace);
        levels := levels[i := v.level];
        if v.done {
          return [];
        }
        if i == 0 {
          level1 := level1 + [v.overflow];
        }
        overflow := v.overflow;
        keepSpace := true;
        hs := if i == 0 then Completed(config, input) else Carried(config, hs);
      }
      MidwayTop(config, input, chunk, levels, hs, overflow);
    }

    /** One iteration of the outer loop of `update`. */
    method AbsorbChunk(chunk: Bytes)
      requires Valid() && 0 < |chunk| <= config.blockSize
      modifies this
      ensures Valid() && input == old(input) + chunk
    {
      var overflow := CarryUp(chunk);
      if |overflow| > 0 {
        levels := levels + [NewBlock(config).Append(overflow)];
      }
      input := input + chunk;
    }

    method Update(data: Bytes)
      requires Valid()
      modifies this
      ensures Valid() && input == old(input) + data
    {
      var chunkStart := 0;
      while chunkStart < |data|
        invariant Valid() && input == old(input) + data[..Min(chunkStart, |data|)]
      {
        var chunkEnd := chunkStart + config.blockSize;
        if chunkEnd > |data| {
          chunkEnd := |data|;
        }
        AbsorbChunk(data[chunkStart..chunkEnd]);
        TakeMore(old(input), data, chunkStart, chunkEnd);
        chunkStart := chunkStart + config.blockSize;
      }
      assert data[..|data|] == data;
    }

    /** The loop of `Finalize`. A 64-bit `int` wraps around, and is converted to `uint64` at the end. */
    method FlushLevels() returns (totalSize: nat, lastHash: Option<Bytes>, tree: seq<Bytes>)
      requires Valid()
      ensures totalSize == |input| % U64 && tree == BlockHashes(config, input)
      ensures lastHash == if input == [] then None else Some(MerkleRoot(config, input))
    {
      var compressionFactor := config.blockSize / config.hash.size;
      var size, scale := 0, 1;
      var overflow := [];
      lastHash, tree := None, level1;
      ghost var last := Zeros(config.hash.size);
      WordStarts(config, input);
      for i := 0 to |levels|
        invariant WordState(config, input, i, scale, size)
        invariant FlushState(config, input, levels, i, last, overflow, tree)
        invariant lastHash == if i == 0 then None else Some(last)
      {
        FlushTurn(config, input, levels, i, last, overflow, tree);
        var fill := config.blockSize - levels[i].remaining;
        WordTurn(config, input, i, scale, size, fill);
        size := AddWord(size, scale, fill);
        var level := levels[i].Append(overflow);
        var hash := Finish(config, level);
        FinishFlushes(config, levels[i], overflow);
        if i == 0 {
          tree := tree + [hash];
        }
        last, lastHash, overflow := hash, Some(hash), hash;
        scale := MulWord(scale, compressionFactor);
      }
      WordEnds(config, input, scale, size);
      FlushEnds(config, input, levels, last, overflow, tree);
      totalSize := size;
    }

    method Finalize() returns (descriptor: Descriptor, tree: seq<Bytes>)
      requires Valid()
      modifies this`levels, this`level1
      ensures descriptor == DescriptorOf(config, input)
      ensures descriptor.version == 1 && descriptor.hashAlgorithm == (if config.hash.size == 32 then 1 else 2)
      ensures descriptor.dataSize == |input| % 0x1_0000_0000_0000_0000 && descriptor.salt == config.salt
      ensures descriptor.rootHash == MerkleRoot(config, input)
      ensures exists k: nat :: && config.blockSize % Pow2(k) == 0 && config.blockSize / Pow2(k) % 2 == 1
                               && descriptor.logBlockSize as int == k % 256
      ensures tree == BlockHashes(config, input)
      ensures level1 == [] && levels == SpentLevels(config, old(levels), [])
    {
      var totalSize, lastHash, leaves := FlushLevels();
      var log := CountTrailingZeros(config.blockSize);
      TrailingZerosSplit(config.blockSize);
      descriptor := Descriptor(1, config.hash.id, (log % 256) as Byte, totalSize,
                               if lastHash.None? then Zeros(config.hash.size) else lastHash.value, config.salt);
      tree := leaves;
      levels, level1 := SpentLevels(config, levels, []), [];
    }
  }
}
