/**
 The state a streaming fs-verity hasher must be in after a given input, as a
 function of that input, and what flushing that state yields.

 Level 0 holds the block with the last byte. Level i + 1 receives one digest for
 every block completed at level i; it hashes a block as soon as it is full, so it
 only ever waits with fewer digests than fit. The fill of the upper levels is the
 base-`Fanout` representation of the number of completed data blocks.
 */
module Odometer {
  import opened ByteStrings
  import opened Merkle

  /** A block being filled; `inner` is everything the hash has absorbed, salt included. */
  datatype FixedSizeBlock = FixedSizeBlock(inner: Bytes, remaining: int) {
    function Append(data: Bytes): FixedSizeBlock {
      FixedSizeBlock(inner + data, remaining - |data|)
    }

    /** Appends what fits; the second component is what does not. */
    function OverflowingAppend(data: Bytes): (FixedSizeBlock, Bytes)
      requires remaining >= 0
    {
      var n := Min(remaining, |data|);
      (Append(data[..n]), data[n..])
    }
  }

  function NewBlock(c: Config): FixedSizeBlock
    requires c.Sane()
  {
    FixedSizeBlock(c.SaltPrefix(), c.blockSize)
  }

  /** The block that has been given exactly `d`. */
  function Holding(c: Config, d: Bytes): FixedSizeBlock
    requires c.Sane()
  {
    NewBlock(c).Append(d)
  }

  lemma HoldingAppend(c: Config, d: Bytes, e: Bytes)
    requires c.Sane()
    ensures Holding(c, d).Append(e) == Holding(c, d + e)
  {
    assert c.SaltPrefix() + d + e == c.SaltPrefix() + (d + e);
  }

  lemma HoldingOverflow(c: Config, held: Bytes, data: Bytes)
    requires c.Sane() && |held| <= c.blockSize
    ensures var k := Min(c.blockSize - |held|, |data|);
            && Holding(c, held).OverflowingAppend(data) == (Holding(c, held + data[..k]), data[k..])
            && Holding(c, held + data[..k]).remaining == c.blockSize - |held| - k
  {
    HoldingAppend(c, held, data[..Min(c.blockSize - |held|, |data|)]);
  }

  /** Filling the rest with zeros and hashing gives the block hash. */
  lemma HoldingHash(c: Config, d: Bytes)
    requires c.Sane() && |d| <= c.blockSize
    ensures c.hash.h(Holding(c, d).inner + Zeros(c.blockSize - |d|)) == c.BlockHash(d)
  {
    assert c.SaltPrefix() + d + Zeros(c.blockSize - |d|) == c.SaltPrefix() + Pad(d, c.blockSize);
  }

  ghost predicate Digests(c: Config, hs: seq<Bytes>) {
    AllSized(hs, c.hash.size)
  }

  /** Digests received at a level that are still waiting for their block to fill. */
  function Waiting(c: Config, hs: seq<Bytes>): (w: seq<Bytes>)
    requires c.Valid()
    ensures |w| < c.Fanout()
    ensures Digests(c, hs) ==> Digests(c, w)
  {
    if |hs| < c.Fanout() then hs else Waiting(c, hs[c.Fanout()..])
  }

  /** A group of digests that fills one block. */
  lemma GroupSize(c: Config, group: seq<Bytes>)
    requires c.Valid() && Digests(c, group) && |group| <= c.Fanout()
    ensures |Concat(group)| == |group| * c.hash.size <= c.blockSize
    ensures |group| == c.Fanout() <==> |Concat(group)| == c.blockSize
    ensures |group| < c.Fanout() <==> |Concat(group)| + c.hash.size <= c.blockSize
  {
    ConcatLength(group, c.hash.size);
    RoomLeft(|group|, c.Fanout(), c.hash.size);
  }

  lemma RoomLeft(r: nat, fanout: nat, size: nat)
    requires r <= fanout && size > 0
    ensures r * size <= fanout * size
    ensures r < fanout <==> r * size + size <= fanout * size
    ensures r == fanout <==> r * size == fanout * size
  {
    assert (r + 1) * size == r * size + size;
    MulMonotone(r, fanout, size);
    if r < fanout {
      MulMonotone(r + 1, fanout, size);
    }
  }

  /** Hashes of the blocks already completed at a level that received `hs`. */
  function Carried(c: Config, hs: seq<Bytes>): (up: seq<Bytes>)
    requires c.Valid() && Digests(c, hs)
    ensures Digests(c, up)
    ensures hs != [] ==> |up| < |hs|
  {
    if |hs| < c.Fanout() then []
    else
      GroupSize(c, hs[..c.Fanout()]);
      [c.BlockHash(Concat(hs[..c.Fanout()]))] + Carried(c, hs[c.Fanout()..])
  }

  /** Levels 1, 2, ... of the hasher once level 1 has received the digests `hs`. */
  function Upper(c: Config, hs: seq<Bytes>): seq<FixedSizeBlock>
    requires c.Valid() && Digests(c, hs)
    decreases |hs|
  {
    if hs == [] then [] else [Holding(c, Concat(Waiting(c, hs)))] + Upper(c, Carried(c, hs))
  }

  /** All levels once `input` has been written. */
  function LevelsFor(c: Config, input: Bytes): seq<FixedSizeBlock>
    requires c.Valid()
  {
    if input == [] then []
    else [Holding(c, LastBlock(c, input))] + Upper(c, Completed(c, input))
  }

  // ---------- one more digest ----------

  /** A new digest either waits, or completes a block whose hash is carried upward. */
  lemma {:induction false} PushDigest(c: Config, hs: seq<Bytes>, d: Bytes)
    requires c.Valid() && Digests(c, hs) && |d| == c.hash.size
    ensures |Concat(Waiting(c, hs) + [d])| <= c.blockSize
    ensures Concat(Waiting(c, hs) + [d]) == Concat(Waiting(c, hs)) + d
    ensures |Waiting(c, hs)| + 1 < c.Fanout() ==>
              Waiting(c, hs + [d]) == Waiting(c, hs) + [d] && Carried(c, hs + [d]) == Carried(c, hs)
    ensures |Waiting(c, hs)| + 1 == c.Fanout() ==>
              && Waiting(c, hs + [d]) == []
              && Carried(c, hs + [d]) == Carried(c, hs) + [c.BlockHash(Concat(Waiting(c, hs) + [d]))]
    decreases |hs|
  {
    var cf := c.Fanout();
    if |hs| < cf {
      GroupSize(c, hs + [d]);
      ConcatSplit(hs, [d]);
      ConcatSingle(d);
      if |hs| + 1 == cf {
        assert (hs + [d])[..cf] == hs + [d] && (hs + [d])[cf..] == [];
      }
    } else {
      PushDigest(c, hs[cf..], d);
      assert (hs + [d])[..cf] == hs[..cf] && (hs + [d])[cf..] == hs[cf..] + [d];
    }
  }

  /** What one more digest does to the upper levels. */
  lemma PushUpper(c: Config, hs: seq<Bytes>, d: Bytes)
    requires c.Valid() && Digests(c, hs) && |d| == c.hash.size && hs != []
    ensures |Concat(Waiting(c, hs)) + d| <= c.blockSize
    ensures Upper(c, hs)[0] == Holding(c, Concat(Waiting(c, hs)))
    ensures if |Concat(Waiting(c, hs)) + d| + c.hash.size <= c.blockSize then
              Upper(c, hs + [d]) == [Holding(c, Concat(Waiting(c, hs)) + d)] + Upper(c, hs)[1..]
            else
              && |Concat(Waiting(c, hs)) + d| == c.blockSize
              && Upper(c, Carried(c, hs)) == Upper(c, hs)[1..]
              && Digests(c, Carried(c, hs) + [c.BlockHash(Concat(Waiting(c, hs)) + d)])
              && Upper(c, hs + [d])
              == [NewBlock(c)] + Upper(c, Carried(c, hs) + [c.BlockHash(Concat(Waiting(c, hs)) + d)])
  {
    PushDigest(c, hs, d);
    GroupSize(c, Waiting(c, hs) + [d]);
    if |Waiting(c, hs)| + 1 == c.Fanout() {
      assert Holding(c, []) == NewBlock(c);
    }
  }

  /** The hashes of all groups of `hs + [d]`: those completed before, then the last one. */
  lemma {:induction false} HashesWithLastGroup(c: Config, hs: seq<Bytes>, d: Bytes)
    requires c.Valid() && Digests(c, hs) && |d| == c.hash.size
    ensures |Concat(Waiting(c, hs) + [d])| <= c.blockSize
    ensures BlockHashes(c, Concat(hs + [d])) == Carried(c, hs) + [c.BlockHash(Concat(Waiting(c, hs) + [d]))]
    decreases |hs|
  {
    var cf := c.Fanout();
    if |hs| < cf {
      GroupSize(c, hs + [d]);
    } else {
      var group, rest := hs[..cf], hs[cf..];
      GroupSize(c, group);
      HashesWithLastGroup(c, rest, d);
      BlockHashesStep(c, Concat(group), Concat(rest + [d]));
      ConcatSplit(group, rest + [d]);
      assert hs + [d] == group + (rest + [d]);
    }
  }

  // ---------- more input bytes ----------

  /** New input either fits into the last block, or completes it and starts the next one. */
  lemma {:induction false} PushBytes(c: Config, input: Bytes, chunk: Bytes)
    requires c.Valid() && input != [] && 0 < |chunk| <= c.blockSize
    ensures var both := LastBlock(c, input) + chunk;
            if |both| <= c.blockSize then
              LastBlock(c, input + chunk) == both && Completed(c, input + chunk) == Completed(c, input)
            else
              && LastBlock(c, input + chunk) == both[c.blockSize..]
              && Completed(c, input + chunk) == Completed(c, input) + [c.BlockHash(both[..c.blockSize])]
    decreases |input|
  {
    var bs := c.blockSize;
    if |input| > bs {
      PushBytes(c, input[bs..], chunk);
      assert (input + chunk)[..bs] == input[..bs] && (input + chunk)[bs..] == input[bs..] + chunk;
    }
  }

  // ---------- visiting one level ----------

  /**
   What happens at one level when `overflow` arrives: the level afterwards, and the
   digest sent on to the next level, or nothing if the update ends here.
   */
  datatype Visit = Visit(level: FixedSizeBlock, overflow: Bytes, done: bool)

  /** Input arriving at level 0 does what the final state of level 0 and of the tree asks for. */
  ghost predicate VisitsLevel0(c: Config, input: Bytes, chunk: Bytes, v: Visit)
    requires c.Valid()
  {
    && v.level == Holding(c, LastBlock(c, input + chunk))
    && if v.done then v.overflow == [] && Completed(c, input + chunk) == Completed(c, input)
       else |v.overflow| == c.hash.size && Completed(c, input + chunk) == Completed(c, input) + [v.overflow]
  }

  /** A digest arriving at the first of the upper levels does what their final state asks for. */
  ghost predicate VisitsUpper(c: Config, hs: seq<Bytes>, d: Bytes, v: Visit)
    requires c.Valid() && Digests(c, hs) && |d| == c.hash.size && hs != []
  {
    && Upper(c, hs)[1..] == Upper(c, Carried(c, hs))
    && if v.done then v.overflow == [] && Upper(c, hs + [d]) == [v.level] + Upper(c, Carried(c, hs))
       else |v.overflow| == c.hash.size &&
            Upper(c, hs + [d]) == [v.level] + Upper(c, Carried(c, hs) + [v.overflow])
  }

  /**
   Halfway through an update: levels below i are final, level i and those above are
   still as they were after `hs`, and `overflow` is about to arrive at level i.
   */
  ghost predicate Midway(c: Config, input: Bytes, chunk: Bytes, i: nat, levels: seq<FixedSizeBlock>,
                         hs: seq<Bytes>, overflow: Bytes)
    requires c.Valid()
  {
    && i <= |levels|
    && if i == 0 then overflow == chunk && levels == LevelsFor(c, input)
       else && Digests(c, hs) && |overflow| == c.hash.size
            && levels[i..] == Upper(c, hs)
            && LevelsFor(c, input + chunk) == levels[..i] + Upper(c, hs + [overflow])
  }

  /** The level visited next, in terms of what it has received. */
  lemma MidwayHead(c: Config, input: Bytes, chunk: Bytes, i: nat, levels: seq<FixedSizeBlock>,
                   hs: seq<Bytes>, overflow: Bytes)
    requires c.Valid() && Midway(c, input, chunk, i, levels, hs, overflow) && i < |levels|
    ensures i == 0 ==> input != [] && levels[i] == Holding(c, LastBlock(c, input)) && overflow == chunk
    ensures i > 0 ==> Digests(c, hs) && hs != [] && levels[i] == Upper(c, hs)[0] && |overflow| == c.hash.size
  {
  }

  /** A correct visit either completes the update or moves it one level up. */
  lemma MidwayStep(c: Config, input: Bytes, chunk: Bytes, i: nat, levels: seq<FixedSizeBlock>,
                   hs: seq<Bytes>, overflow: Bytes, v: Visit)
    requires c.Valid() && input != [] && 0 < |chunk|
    requires Midway(c, input, chunk, i, levels, hs, overflow) && i < |levels|
    requires if i == 0 then VisitsLevel0(c, input, chunk, v) else hs != [] && VisitsUpper(c, hs, overflow, v)
    ensures v.done ==> levels[i := v.level] == LevelsFor(c, input + chunk)
    ensures !v.done ==> Midway(c, input, chunk, i + 1, levels[i := v.level],
                               if i == 0 then Completed(c, input) else Carried(c, hs), v.overflow)
  {
    if i == 0 {
      MidwayStep0(c, input, chunk, levels, v);
    } else {
      MidwayStepUp(c, LevelsFor(c, input + chunk), i, levels, hs, overflow, v);
    }
  }

  /** What the loop relies on after a visit: the update is complete, or one level further. */
  ghost predicate Turned(c: Config, input: Bytes, chunk: Bytes, i: nat, levels: seq<FixedSizeBlock>,
                         hs: seq<Bytes>, v: Visit)
    requires c.Valid() && i < |levels| && (i > 0 ==> Digests(c, hs))
  {
    && (i == 0 ==> Completed(c, input + chunk) == Completed(c, input) + if v.done then [] else [v.overflow])
    && if v.done then levels[i := v.level] == LevelsFor(c, input + chunk)
       else Midway(c, input, chunk, i + 1, levels[i := v.level],
                   if i == 0 then Completed(c, input) else Carried(c, hs), v.overflow)
  }

  lemma MidwayStep0(c: Config, input: Bytes, chunk: Bytes, levels: seq<FixedSizeBlock>, v: Visit)
    requires c.Valid() && input != [] && 0 < |chunk|
    requires levels == LevelsFor(c, input) && VisitsLevel0(c, input, chunk, v)
    ensures v.done ==> levels[0 := v.level] == LevelsFor(c, input + chunk)
    ensures !v.done ==> Midway(c, input, chunk, 1, levels[0 := v.level], Completed(c, input), v.overflow)
  {
    var next := levels[0 := v.level];
    assert next == [v.level] + Upper(c, Completed(c, input));
  }

  lemma MidwayStepUp(c: Config, target: seq<FixedSizeBlock>, i: nat, levels: seq<FixedSizeBlock>,
                     hs: seq<Bytes>, d: Bytes, v: Visit)
    requires c.Valid() && Digests(c, hs) && |d| == c.hash.size && hs != [] && VisitsUpper(c, hs, d, v)
    requires i < |levels| && levels[i..] == Upper(c, hs) && target == levels[..i] + Upper(c, hs + [d])
    ensures v.done ==> levels[i := v.level] == target
    ensures !v.done ==> |v.overflow| == c.hash.size && levels[i := v.level][i + 1..] == Upper(c, Carried(c, hs))
    ensures !v.done ==>
              target == levels[i := v.level][..i + 1] + Upper(c, Carried(c, hs) + [v.overflow])
  {
    Splice(levels, i, v.level, Upper(c, Carried(c, hs)));
    if !v.done {
      Splice(levels, i, v.level, Upper(c, Carried(c, hs) + [v.overflow]));
    }
  }

  /** Sequence bookkeeping for replacing one element in the middle. */
  lemma Splice<T>(s: seq<T>, i: nat, x: T, tail: seq<T>)
    requires i < |s|
    ensures s[i := x][i + 1..] == s[i..][1..]
    ensures s[..i] + ([x] + tail) == s[i := x][..i + 1] + tail
    ensures s[i..][1..] == tail ==> s[i := x] == s[..i] + ([x] + tail)
  {
  }

  /** A carry that runs off the top opens a new level. */
  lemma MidwayTop(c: Config, input: Bytes, chunk: Bytes, levels: seq<FixedSizeBlock>,
                  hs: seq<Bytes>, overflow: Bytes)
    requires c.Valid() && 0 < |chunk| <= c.blockSize
    requires Midway(c, input, chunk, |levels|, levels, hs, overflow)
    ensures LevelsFor(c, input + chunk) == levels + [Holding(c, overflow)] && |overflow| <= c.blockSize
  {
    if |levels| == 0 {
      assert input + chunk == chunk;
    } else {
      assert hs == [] && hs + [overflow] == [overflow];
      assert Waiting(c, [overflow]) == [overflow] && Carried(c, [overflow]) == [];
      ConcatSingle(overflow);
      assert levels[..|levels|] == levels;
    }
  }

  // ---------- flushing ----------

  /** Every level can take one more digest. */
  ghost predicate HasRoom(c: Config, levels: seq<FixedSizeBlock>) {
    forall i :: 0 <= i < |levels| ==> levels[i].remaining >= c.hash.size
  }

  /** What the final flush returns: each level takes the digest from below, is padded and hashed. */
  ghost function Flush(c: Config, levels: seq<FixedSizeBlock>, overflow: Bytes): Bytes
    requires HasRoom(c, levels)
    requires c.hash.Valid() && |overflow| == c.hash.size
  {
    if levels == [] then overflow
    else
      var b := levels[0].Append(overflow);
      Flush(c, levels[1..], c.hash.h(b.inner + Zeros(b.remaining)))
  }

  /** Upper levels always keep room for one more digest. */
  lemma {:induction false} UpperHasRoom(c: Config, hs: seq<Bytes>)
    requires c.Valid() && Digests(c, hs)
    ensures HasRoom(c, Upper(c, hs))
    decreases |hs|
  {
    if hs != [] {
      UpperHasRoom(c, Carried(c, hs));
      GroupSize(c, Waiting(c, hs));
    }
  }

  /** One step of the flush: the waiting digests and the new one are hashed and handed on. */
  lemma FlushStep(c: Config, hs: seq<Bytes>, d: Bytes)
    requires c.Valid() && Digests(c, hs) && |d| == c.hash.size && hs != []
    requires HasRoom(c, Upper(c, hs))
    ensures |Concat(Waiting(c, hs) + [d])| <= c.blockSize
    ensures Upper(c, Carried(c, hs)) == Upper(c, hs)[1..]
    ensures Flush(c, Upper(c, hs), d) == Flush(c, Upper(c, hs)[1..], c.BlockHash(Concat(Waiting(c, hs) + [d])))
  {
    PushDigest(c, hs, d);
    HoldingAppend(c, Concat(Waiting(c, hs)), d);
    HoldingHash(c, Concat(Waiting(c, hs) + [d]));
  }

  /** Flushing the upper levels computes the Merkle root over all digests they were given. */
  lemma {:induction false} FlushIsRoot(c: Config, hs: seq<Bytes>, d: Bytes)
    requires c.Valid() && Digests(c, hs) && |d| == c.hash.size
    ensures HasRoom(c, Upper(c, hs))
    ensures Flush(c, Upper(c, hs), d) == if hs == [] then d else MerkleRoot(c, Concat(hs + [d]))
    decreases |hs|
  {
    UpperHasRoom(c, hs);
    if hs != [] {
      FlushStep(c, hs, d);
      var up := c.BlockHash(Concat(Waiting(c, hs) + [d]));
      FlushIsRoot(c, Carried(c, hs), up);
      RootOfDigests(c, hs, d);
    }
  }

  /** The root over a list of digests, one tree level down. */
  lemma RootOfDigests(c: Config, hs: seq<Bytes>, d: Bytes)
    requires c.Valid() && Digests(c, hs) && |d| == c.hash.size && hs != []
    ensures |Concat(Waiting(c, hs) + [d])| <= c.blockSize
    ensures MerkleRoot(c, Concat(hs + [d]))
         == (var up := c.BlockHash(Concat(Waiting(c, hs) + [d]));
             if Carried(c, hs) == [] then up else MerkleRoot(c, Concat(Carried(c, hs) + [up])))
  {
    HashesWithLastGroup(c, hs, d);
    if |hs| >= c.Fanout() {
      LargerThanBlock(c, hs + [d]);
    } else {
      GroupSize(c, hs + [d]);
      ConcatLength(hs + [d], c.hash.size);
    }
  }

  lemma LargerThanBlock(c: Config, hs: seq<Bytes>)
    requires c.Valid() && Digests(c, hs) && |hs| > c.Fanout()
    ensures |Concat(hs)| > c.blockSize
  {
    ConcatLength(hs, c.hash.size);
    MulMonotone(c.Fanout() + 1, |hs|, c.hash.size);
    assert (c.Fanout() + 1) * c.hash.size == c.Fanout() * c.hash.size + c.hash.size;
  }

  /** Halfway through the final flush: `digest` is about to arrive at level i. */
  ghost predicate Flushing(c: Config, input: Bytes, levels: seq<FixedSizeBlock>, i: nat, digest: Bytes)
    requires c.Valid()
  {
    && i <= |levels| && |digest| == c.hash.size
    && HasRoom(c, levels[i..])
    && Flush(c, levels[i..], digest) == MerkleRoot(c, input)
  }

  /** What a level sends on in the flush. */
  function FlushLevel(c: Config, level: FixedSizeBlock, overflow: Bytes): Bytes
    requires |overflow| <= level.remaining
  {
    c.hash.h(level.Append(overflow).inner + Zeros(level.remaining - |overflow|))
  }

  /** Level 0 yields the last leaf, and from there the flush leads to the root hash. */
  lemma FlushStarts(c: Config, input: Bytes)
    requires c.Valid() && input != []
    ensures LevelsFor(c, input)[0].remaining >= 0
    ensures Flushing(c, input, LevelsFor(c, input), 1, FlushLevel(c, LevelsFor(c, input)[0], []))
    ensures BlockHashes(c, input) == Completed(c, input) + [FlushLevel(c, LevelsFor(c, input)[0], [])]
  {
    var last := LastBlock(c, input);
    LastBlockHash(c, input);
    FlushIsRoot(c, Completed(c, input), c.BlockHash(last));
    assert LevelsFor(c, input)[1..] == Upper(c, Completed(c, input));
    HoldingAppend(c, last, []);
    assert last + [] == last;
    HoldingHash(c, last);
  }

  lemma FlushContinues(c: Config, input: Bytes, levels: seq<FixedSizeBlock>, i: nat, digest: Bytes)
    requires c.Valid() && Flushing(c, input, levels, i, digest)
    ensures i == |levels| ==> digest == MerkleRoot(c, input)
    ensures i < |levels| ==>
              && |digest| <= levels[i].remaining
              && Flushing(c, input, levels, i + 1, FlushLevel(c, levels[i], digest))
  {
    if i < |levels| {
      assert levels[i] == levels[i..][0] && levels[i..][1..] == levels[i + 1..];
    }
  }

  // ---------- how many levels, and how full ----------

  /** Where finalization stands in front of level i: the last digest, what overflows into the level, and the leaves. */
  ghost predicate FlushState(c: Config, input: Bytes, levels: seq<FixedSizeBlock>, i: nat, last: Bytes,
                             overflow: Bytes, tree: seq<Bytes>)
    requires c.Valid()
  {
    if i == 0 then overflow == [] && last == Zeros(c.hash.size) && tree == Completed(c, input)
    else overflow == last && tree == BlockHashes(c, input) && Flushing(c, input, levels, i, last)
  }

  lemma FlushTurn(c: Config, input: Bytes, levels: seq<FixedSizeBlock>, i: nat, last: Bytes, overflow: Bytes,
                  tree: seq<Bytes>)
    requires c.Valid() && levels == LevelsFor(c, input) && i < |levels|
    requires FlushState(c, input, levels, i, last, overflow, tree)
    ensures |overflow| <= levels[i].remaining
    ensures var digest := FlushLevel(c, levels[i], overflow);
            FlushState(c, input, levels, i + 1, digest, digest, if i == 0 then tree + [digest] else tree)
  {
    if i == 0 {
      FlushStarts(c, input);
    } else {
      FlushContinues(c, input, levels, i, last);
    }
  }

  lemma FlushEnds(c: Config, input: Bytes, levels: seq<FixedSizeBlock>, last: Bytes, overflow: Bytes, tree: seq<Bytes>)
    requires c.Valid() && levels == LevelsFor(c, input) && FlushState(c, input, levels, |levels|, last, overflow, tree)
    ensures last == MerkleRoot(c, input) && tree == BlockHashes(c, input) && (input == [] <==> levels == [])
  {
    if levels != [] {
      FlushContinues(c, input, levels, |levels|, last);
    }
  }

  /** The digits: what waits here plus what has been carried upward. */
  lemma CarriedCount(c: Config, hs: seq<Bytes>)
    requires c.Valid() && Digests(c, hs)
    ensures |hs| == |Carried(c, hs)| * c.Fanout() + |Waiting(c, hs)|
    ensures |Carried(c, hs)| == |hs| / c.Fanout() && |Waiting(c, hs)| == |hs| % c.Fanout()
  {
    CarriedSum(c, hs);
    DivUnique(|hs|, c.Fanout(), |Carried(c, hs)|, |Waiting(c, hs)|);
  }

  lemma {:induction false} CarriedSum(c: Config, hs: seq<Bytes>)
    requires c.Valid() && Digests(c, hs)
    ensures |hs| == |Carried(c, hs)| * c.Fanout() + |Waiting(c, hs)|
    decreases |hs|
  {
    if |hs| >= c.Fanout() {
      CarriedSum(c, hs[c.Fanout()..]);
      MulSucc(|Carried(c, hs[c.Fanout()..])|, c.Fanout());
    }
  }

  /** m upper levels are enough for exactly fewer than Fanout^m digests. */
  lemma {:induction false} UpperCount(c: Config, hs: seq<Bytes>, m: nat)
    requires c.Valid() && Digests(c, hs)
    ensures |Upper(c, hs)| <= m <==> |hs| < Pow(c.Fanout(), m)
    decreases |hs|
  {
    if hs != [] && m > 0 {
      UpperCount(c, Carried(c, hs), m - 1);
      CarriedSum(c, hs);
      DigitLess(|Carried(c, hs)|, c.Fanout(), |Waiting(c, hs)|, Pow(c.Fanout(), m - 1));
    }
  }

  /** Comparing a number by its leading digits. */
  lemma DigitLess(q: nat, d: nat, r: nat, p: nat)
    requires r < d
    ensures q * d + r < d * p <==> q < p
  {
    if q < p {
      MulMonotone(q + 1, p, d);
      MulSucc(q, d);
    } else {
      MulMonotone(p, q, d);
    }
  }

  /** The most input that fits into `MAX_LEVELS` levels: every level above the first multiplies it. */
  function Capacity(c: Config): nat
    requires c.hash.size > 0
  {
    Scaled(c.Fanout(), c.blockSize, MAX_LEVELS - 1)
  }

  function Scaled(factor: nat, n: nat, times: nat): nat {
    if times == 0 then n else Times(factor, Scaled(factor, n, times - 1))
  }

  lemma {:induction false} ScaledIs(factor: nat, n: nat, times: nat)
    ensures Scaled(factor, n, times) == n * Pow(factor, times)
  {
    if times > 0 {
      ScaledIs(factor, n, times - 1);
      TimesIs(factor, Scaled(factor, n, times - 1));
      FactorInside(factor, n, Pow(factor, times - 1));
    }
  }

  lemma FactorInside(a: nat, b: nat, c: nat)
    ensures a * (b * c) == b * (a * c)
  {
  }

  lemma CapacityIs(c: Config)
    requires c.hash.size > 0
    ensures Capacity(c) == c.blockSize * Pow(c.blockSize / c.hash.size, 7)
  {
    ScaledIs(c.Fanout(), c.blockSize, 7);
  }

  /** How many levels an input takes. */
  lemma LevelCount(c: Config, input: Bytes, m: nat)
    requires c.Valid()
    ensures |LevelsFor(c, input)| <= m + 1 <==> |input| <= c.blockSize * Pow(c.Fanout(), m)
  {
    if input != [] {
      UpperCount(c, Completed(c, input), m);
      LastBlockHash(c, input);
      DigitLess(|Completed(c, input)|, c.blockSize, |LastBlock(c, input)| - 1, Pow(c.Fanout(), m));
    }
  }

  /** The level limit is hit exactly when the input outgrows `Capacity`. */
  lemma LevelLimit(c: Config, input: Bytes)
    requires c.Valid()
    ensures |LevelsFor(c, input)| <= MAX_LEVELS <==> |input| <= Capacity(c)
  {
    LevelCount(c, input, MAX_LEVELS - 1);
    CapacityIs(c);
  }

  /**
   The odometer: upper level i is filled with the i-th base-Fanout digit of the
   number of digests received.
   */
  lemma {:induction false} UpperDigit(c: Config, hs: seq<Bytes>, i: nat)
    requires c.Valid() && Digests(c, hs) && i < |Upper(c, hs)|
    ensures c.blockSize - Upper(c, hs)[i].remaining == Digit(|hs|, c.Fanout(), i) * c.hash.size
    decreases |hs|
  {
    CarriedCount(c, hs);
    if i == 0 {
      GroupSize(c, Waiting(c, hs));
    } else {
      UpperDigit(c, Carried(c, hs), i - 1);
    }
  }

  /** The i-th digit of n in base d. */
  function Digit(n: nat, d: nat, i: nat): nat
    requires d > 0
    decreases i
  {
    if i == 0 then n % d else Digit(n / d, d, i - 1)
  }

  lemma {:induction false} DigitIs(n: nat, d: nat, i: nat)
    requires d > 0
    ensures Pow(d, i) > 0 && Digit(n, d, i) == (n / Pow(d, i)) % d
    decreases i
  {
    if i > 0 {
      DigitIs(n / d, d, i - 1);
      DivPow(n, d, i);
    }
  }

  lemma DivPow(n: nat, d: nat, i: nat)
    requires d > 0 && i > 0 && Pow(d, i - 1) > 0
    ensures Pow(d, i) > 0 && (n / d) / Pow(d, i - 1) == n / Pow(d, i)
  {
    var p := Pow(d, i - 1);
    DivDiv(n, d, p);
  }

  /** The sum finalization accumulates: each level's fill, scaled by what one of its bytes stands for. */
  function ScaledFill(c: Config, levels: seq<FixedSizeBlock>, scale: int): int
    requires c.hash.size > 0
  {
    if levels == [] then 0
    else scale * (c.blockSize - levels[0].remaining) + ScaledFill(c, levels[1..], scale * c.Fanout())
  }

  lemma {:induction false} UpperFill(c: Config, hs: seq<Bytes>, scale: nat)
    requires c.Valid() && Digests(c, hs)
    ensures ScaledFill(c, Upper(c, hs), scale * c.Fanout()) == scale * (|hs| * c.blockSize)
    decreases |hs|
  {
    if hs != [] {
      var w, up, cf, size := |Waiting(c, hs)|, |Carried(c, hs)|, c.Fanout(), c.hash.size;
      UpperFillStep(c, hs, scale * cf);
      UpperFill(c, Carried(c, hs), scale * cf);
      CarriedSum(c, hs);
      FillArithmetic(scale, cf, size, up, w);
    }
  }

  lemma UpperFillStep(c: Config, hs: seq<Bytes>, scale: nat)
    requires c.Valid() && Digests(c, hs) && hs != []
    ensures ScaledFill(c, Upper(c, hs), scale)
         == scale * (|Waiting(c, hs)| * c.hash.size) + ScaledFill(c, Upper(c, Carried(c, hs)), scale * c.Fanout())
  {
    GroupSize(c, Waiting(c, hs));
    assert Upper(c, hs)[1..] == Upper(c, Carried(c, hs));
  }

  lemma FillArithmetic(scale: nat, cf: nat, size: nat, up: nat, w: nat)
    ensures scale * cf * (w * size) + scale * cf * (up * (cf * size)) == scale * ((up * cf + w) * (cf * size))
  {
    calc {
      scale * cf * (w * size) + scale * cf * (up * (cf * size));
      scale * (w * (cf * size)) + scale * (up * cf * (cf * size));
      scale * (w * (cf * size) + up * cf * (cf * size));
      scale * ((up * cf + w) * (cf * size));
    }
  }

  /** Size recovery: the scaled fill of all levels is the number of bytes written. */
  lemma SizeRecovered(c: Config, input: Bytes)
    requires c.Valid()
    ensures ScaledFill(c, LevelsFor(c, input), 1) == |input|
  {
    if input != [] {
      LastBlockHash(c, input);
      UpperFill(c, Completed(c, input), 1);
    }
  }

  lemma ScaledFillStep(c: Config, levels: seq<FixedSizeBlock>, i: nat)
    requires c.Valid() && i < |levels|
    ensures ScaledFill(c, levels[i..], Pow(c.Fanout(), i))
         == Pow(c.Fanout(), i) * (c.blockSize - levels[i].remaining)
          + ScaledFill(c, levels[i + 1..], Pow(c.Fanout(), i + 1))
  {
    assert levels[i..][0] == levels[i] && levels[i..][1..] == levels[i + 1..];
  }

  /** One turn of the loop that adds up the fill. */
  lemma FillTurn(c: Config, levels: seq<FixedSizeBlock>, i: nat, scale: nat, fill: int)
    requires c.Valid() && i < |levels| && scale == Pow(c.Fanout(), i) && fill == c.blockSize - levels[i].remaining
    ensures scale * c.Fanout() == Pow(c.Fanout(), i + 1)
    ensures ScaledFill(c, levels[i..], Pow(c.Fanout(), i))
         == scale * fill + ScaledFill(c, levels[i + 1..], Pow(c.Fanout(), i + 1))
  {
    ScaledFillStep(c, levels, i);
    PowNext(c.Fanout(), i);
  }

  // ---------- sizes in 64-bit arithmetic ----------

  /** What `total_size` is in front of level i, if it does not wrap around. */
  ghost function SizeBelow(c: Config, input: Bytes, i: nat): int
    requires c.Valid() && i <= |LevelsFor(c, input)|
  {
    |input| - ScaledFill(c, LevelsFor(c, input)[i..], Pow(c.Fanout(), i))
  }

  /** What the 64-bit words of the loop hold in front of level i: the right values modulo 2^64. */
  ghost predicate WordState(c: Config, input: Bytes, i: nat, scale: nat, total: nat)
    requires c.Valid() && i <= |LevelsFor(c, input)|
  {
    scale == Pow(c.Fanout(), i) % U64 && total == SizeBelow(c, input, i) % U64
  }

  function AddWord(total: nat, scale: nat, fill: nat): nat {
    (total + scale * fill) % U64
  }

  function MulWord(scale: nat, factor: nat): nat {
    scale * factor % U64
  }

  lemma WordStarts(c: Config, input: Bytes)
    requires c.Valid()
    ensures WordState(c, input, 0, 1, 0)
  {
    SizeRecovered(c, input);
    assert LevelsFor(c, input)[0..] == LevelsFor(c, input);
  }

  lemma WordTurn(c: Config, input: Bytes, i: nat, scale: nat, total: nat, fill: int)
    requires c.Valid() && i < |LevelsFor(c, input)| && fill == c.blockSize - LevelsFor(c, input)[i].remaining
    requires WordState(c, input, i, scale, total)
    ensures fill >= 0 && WordState(c, input, i + 1, MulWord(scale, c.Fanout()), AddWord(total, scale, fill))
  {
    var p := Pow(c.Fanout(), i);
    FillTurn(c, LevelsFor(c, input), i, p, fill);
    LevelFillNonNegative(c, input, i);
    PartialSize(c, input, i);
    ModSteps(SizeBelow(c, input, i), p, fill, U64);
    ModSteps(0, p, c.Fanout(), U64);
  }

  lemma WordEnds(c: Config, input: Bytes, scale: nat, total: nat)
    requires c.Valid() && WordState(c, input, |LevelsFor(c, input)|, scale, total)
    ensures total == |input| % U64
  {
  }

  /** No word wraps around. */
  ghost predicate SizesFit(c: Config, input: Bytes)
    requires c.Valid()
  {
    forall i :: 0 <= i <= |LevelsFor(c, input)| ==> Pow(c.Fanout(), i) < U64 && SizeBelow(c, input, i) < U64
  }

  /**
   For every configuration: no value of `scale` and `total_size` wraps around exactly if the
   last scale and the number of bytes fit into 64 bits. `LevelCount` gives the number of levels.
   */
  lemma SizesFitExactly(c: Config, input: Bytes)
    requires c.Valid()
    ensures SizesFit(c, input) <==> Pow(c.Fanout(), |LevelsFor(c, input)|) < U64 && |input| < U64
  {
    var n := |LevelsFor(c, input)|;
    assert SizeBelow(c, input, n) == |input|;
    if Pow(c.Fanout(), n) < U64 && |input| < U64 {
      forall i | 0 <= i <= n
        ensures Pow(c.Fanout(), i) < U64 && SizeBelow(c, input, i) < U64
      {
        PowMonotone(c.Fanout(), i, n);
        PartialSize(c, input, i);
      }
    }
  }

  // ---------- 64-bit sizes with the default parameters ----------

  ghost predicate IsDefault(c: Config) {
    c.Valid() && c.blockSize == DEFAULT_BLOCK_SIZE && c.hash.size == 32
  }

  lemma PowersOf128()
    ensures Pow(128, 7) == 0x2_0000_0000_0000 && Pow(128, 8) == 0x100_0000_0000_0000
    ensures forall i: nat :: i <= 8 ==> Pow(128, i) <= Pow(128, 8)
  {
    assert Pow(128, 1) == 128 && Pow(128, 2) == 0x4000 && Pow(128, 3) == 0x20_0000 && Pow(128, 4) == 0x1000_0000;
    assert Pow(128, 5) == 0x8_0000_0000 && Pow(128, 6) == 0x400_0000_0000;
  }

  /** With 4096-byte blocks and SHA-256 the limit is 2^61 bytes. */
  lemma DefaultCapacity(c: Config)
    requires IsDefault(c)
    ensures c.Fanout() == 128 && Capacity(c) == 0x2000_0000_0000_0000
  {
    CapacityIs(c);
    PowersOf128();
  }

  /** Every scale and every partial size that finalization computes fits into 64 bits. */
  lemma DefaultSizesFit(c: Config, input: Bytes)
    requires IsDefault(c) && |input| <= Capacity(c)
    ensures SizesFit(c, input)
  {
    DefaultCapacity(c);
    PowersOf128();
    LevelLimit(c, input);
    SizesFitExactly(c, input);
  }

  lemma LevelFillNonNegative(c: Config, input: Bytes, i: nat)
    requires c.Valid() && i < |LevelsFor(c, input)|
    ensures LevelsFor(c, input)[i].remaining <= c.blockSize
  {
    if i > 0 {
      UpperDigit(c, Completed(c, input), i - 1);
      PowPositive(Digit(|Completed(c, input)|, c.Fanout(), i - 1), c.hash.size);
    }
  }

  lemma PartialSize(c: Config, input: Bytes, i: nat)
    requires c.Valid() && i <= |LevelsFor(c, input)|
    ensures 0 <= ScaledFill(c, LevelsFor(c, input)[i..], Pow(c.Fanout(), i)) <= |input|
  {
    FillBelow(c, input, i);
    FillAbove(c, input, i);
  }

  lemma {:induction false} FillBelow(c: Config, input: Bytes, i: nat)
    requires c.Valid() && i <= |LevelsFor(c, input)|
    ensures ScaledFill(c, LevelsFor(c, input)[i..], Pow(c.Fanout(), i)) <= |input|
  {
    var levels := LevelsFor(c, input);
    if i == 0 {
      SizeRecovered(c, input);
      assert levels[0..] == levels;
    } else {
      FillBelow(c, input, i - 1);
      ScaledFillStep(c, levels, i - 1);
      LevelFillNonNegative(c, input, i - 1);
      PowPositive(Pow(c.Fanout(), i - 1), c.blockSize - levels[i - 1].remaining);
    }
  }

  lemma {:induction false} FillAbove(c: Config, input: Bytes, i: nat)
    requires c.Valid() && i <= |LevelsFor(c, input)|
    ensures 0 <= ScaledFill(c, LevelsFor(c, input)[i..], Pow(c.Fanout(), i))
    decreases |LevelsFor(c, input)| - i
  {
    var levels := LevelsFor(c, input);
    if i < |levels| {
      FillAbove(c, input, i + 1);
      ScaledFillStep(c, levels, i);
      LevelFillNonNegative(c, input, i);
      PowPositive(Pow(c.Fanout(), i), c.blockSize - levels[i].remaining);
    }
  }
}
