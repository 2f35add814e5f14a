/**
 Measuring a file in any number of writes, the recorded leaves, rebuilding the root
 hash from them, and verifying single blocks.
 */
module Trees {
  import opened ByteStrings
  import opened Merkle
  import opened Odometer
  import opened Descriptors
  import RustDigest
  import GoDigest

  datatype Measurement = Measurement(descriptor: Descriptor, leaves: seq<Bytes>)

  /** What fs-verity says about a file. */
  function MeasurementOf(c: Config, data: Bytes): Measurement
    requires c.Valid()
  {
    Measurement(DescriptorOf(c, data), BlockHashes(c, data))
  }

  // ---------- streaming, however the data is split ----------

  /** The Rust hasher with the given parameters fed with `parts` one after the other; None if it panics. */
  method MeasureRust(hash: Hash, blockSize: nat, salt: Bytes, parts: seq<Bytes>) returns (m: Option<Measurement>)
    requires hash.Valid()
    ensures m == RustMeasurement(hash, blockSize, salt, Concat(parts))
    ensures m.Some? <==> && |salt| <= 32 && blockSize >= 2 * hash.size && (exists k: nat :: blockSize == Pow2(k))
                         && |Concat(parts)| <= Capacity(Config(hash, blockSize, salt))
    ensures m.Some? ==> m.value.descriptor.version == 1 && m.value.descriptor.salt == salt
    ensures m.Some? ==> m.value.descriptor.hashAlgorithm == (if hash.size == 32 then 1 else 2)
    ensures m.Some? ==> m.value.descriptor.dataSize == |Concat(parts)| % 0x1_0000_0000_0000_0000
    ensures m.Some? ==> exists k: nat :: blockSize == Pow2(k) && m.value.descriptor.logBlockSize as int == k % 256
    ensures m.Some? ==>
              var c := Config(hash, blockSize, salt);
              && c.Valid() && m.value.descriptor.rootHash == MerkleRoot(c, Concat(parts))
              && m.value.leaves == BlockHashes(c, Concat(parts))
  {
    var config := NewConfig(hash, blockSize, salt);
    NewConfigValid(hash, blockSize, salt);
    if config.None? {
      return None;
    }
    var c := config.value;
    var digest := new RustDigest.FsVerityDigest(c);
    for i := 0 to |parts|
      invariant digest.Valid() && digest.config == c && fresh(digest)
      invariant digest.input == Concat(parts[..i]) && |Concat(parts[..i])| <= Capacity(c)
    {
      ConcatTake(parts, i);
      var ok := digest.Update(parts[i]);
      if !ok {
        return None;
      }
    }
    assert parts[..|parts|] == parts;
    var descriptor, tree := digest.FinalizeIntoFsVerityStuffs();
    TrailingZerosExactly(blockSize);
    m := Some(Measurement(descriptor, tree));
  }

  /** The measurement, if the parameters pass the assertions and the data is within the capacity. */
  function RustMeasurement(hash: Hash, blockSize: nat, salt: Bytes, data: Bytes): Option<Measurement>
    requires hash.Valid()
  {
    match NewConfig(hash, blockSize, salt)
    case None => None
    case Some(c) =>
      NewConfigValid(hash, blockSize, salt);
      if |data| <= Capacity(c) then Some(MeasurementOf(c, data)) else None
  }

  lemma ConcatTake(parts: seq<Bytes>, i: nat)
    requires i < |parts|
    ensures Concat(parts[..i + 1]) == Concat(parts[..i]) + parts[i]
    ensures |Concat(parts[..i + 1])| <= |Concat(parts)|
  {
    assert parts[..i + 1] == parts[..i] + [parts[i]];
    ConcatSplit(parts[..i], [parts[i]]);
    ConcatSingle(parts[i]);
    ConcatSplit(parts[..i + 1], parts[i + 1..]);
    assert parts == parts[..i + 1] + parts[i + 1..];
  }

  /** The Go hasher fed with `parts` one after the other. */
  method MeasureGo(c: Config, parts: seq<Bytes>) returns (m: Measurement)
    requires c.Valid()
    ensures m == MeasurementOf(c, Concat(parts))
    ensures m.descriptor.version == 1 && m.descriptor.salt == c.salt
    ensures m.descriptor.hashAlgorithm == (if c.hash.size == 32 then 1 else 2)
    ensures m.descriptor.dataSize == |Concat(parts)| % 0x1_0000_0000_0000_0000
    ensures exists k: nat :: && c.blockSize % Pow2(k) == 0 && c.blockSize / Pow2(k) % 2 == 1
                             && m.descriptor.logBlockSize as int == k % 256
    ensures m.descriptor.rootHash == MerkleRoot(c, Concat(parts)) && m.leaves == BlockHashes(c, Concat(parts))
  {
    var digest := new GoDigest.FsVerityDigest(c);
    for i := 0 to |parts|
      invariant digest.Valid() && digest.config == c && fresh(digest)
      invariant digest.input == Concat(parts[..i])
    {
      ConcatTake(parts, i);
      digest.Update(parts[i]);
    }
    assert parts[..|parts|] == parts;
    var descriptor, tree := digest.Finalize();
    m := Measurement(descriptor, tree);
  }

  /**
   Same bytes, any two ways of splitting them: where the Rust hasher does not panic, both
   languages measure the same. It panics exactly on parameters that its constructor refuses,
   such as a block size that is no power of two, and beyond its capacity; the Go hasher
   measures in either case.
   */
  method MeasureBoth(c: Config, rustParts: seq<Bytes>, goParts: seq<Bytes>)
    returns (rust: Option<Measurement>, go: Measurement)
    requires c.Valid() && Concat(rustParts) == Concat(goParts)
    ensures rust.Some? <==> (exists k: nat :: c.blockSize == Pow2(k)) && |Concat(goParts)| <= Capacity(c)
    ensures rust.Some? ==> rust.value == go
    ensures go == MeasurementOf(c, Concat(goParts))
    ensures go.descriptor.version == 1 && go.descriptor.salt == c.salt
    ensures go.descriptor.hashAlgorithm == (if c.hash.size == 32 then 1 else 2)
    ensures go.descriptor.dataSize == |Concat(goParts)| % 0x1_0000_0000_0000_0000
  {
    rust := MeasureRust(c.hash, c.blockSize, c.salt, rustParts);
    go := MeasureGo(c, goParts);
  }

  // ---------- leaves ----------

  /** The i-th block of `data`; the last one may be short, and there is nothing behind it. */
  function BlockAt(blockSize: nat, data: Bytes, i: nat): (block: Bytes)
    ensures |block| <= blockSize
  {
    Slice(data, Times(i, blockSize), Times(i, blockSize) + blockSize)
  }

  /** The i-th leaf is the hash of the i-th block, and there is one leaf per block. */
  lemma {:induction false} LeafOfBlock(c: Config, data: Bytes, i: nat)
    requires c.Sane() && i < |BlockHashes(c, data)|
    ensures Times(i, c.blockSize) < |data|
    ensures BlockHashes(c, data)[i] == c.BlockHash(BlockAt(c.blockSize, data, i))
    decreases i
  {
    if i > 0 {
      LeafOfBlock(c, data[c.blockSize..], i - 1);
      assert BlockAt(c.blockSize, data, i) == BlockAt(c.blockSize, data[c.blockSize..], i - 1);
    } else {
      assert BlockAt(c.blockSize, data, 0) == data[..Min(c.blockSize, |data|)];
      assert data[..|data|] == data;
    }
  }

  /** `verify_data_block`: starts from an unsalted digest. */
  predicate VerifyDataBlock(hash: Hash, leaves: seq<Bytes>, i: nat, blockSize: nat, data: Bytes) {
    |data| <= blockSize && i < |leaves| && leaves[i] == hash.h(Pad(data, blockSize))
  }

  /** With an empty salt every original block passes, a short last one included. */
  lemma OriginalBlocksVerify(c: Config, data: Bytes, i: nat)
    requires c.Valid() && c.salt == [] && i < |BlockHashes(c, data)|
    ensures Times(i, c.blockSize) < |data|
    ensures VerifyDataBlock(c.hash, BlockHashes(c, data), i, c.blockSize, BlockAt(c.blockSize, data, i))
  {
    LeafOfBlock(c, data, i);
    var padded := Pad(BlockAt(c.blockSize, data, i), c.blockSize);
    assert c.SaltPrefix() + padded == padded;
  }

  /** With a salt, an original block passes exactly if its salted and unsalted forms collide. */
  lemma SaltedBlocksVerifyOnlyByCollision(c: Config, data: Bytes, i: nat)
    requires c.Valid() && c.salt != [] && i < |BlockHashes(c, data)|
    ensures Times(i, c.blockSize) < |data|
    ensures var padded := Pad(BlockAt(c.blockSize, data, i), c.blockSize);
            VerifyDataBlock(c.hash, BlockHashes(c, data), i, c.blockSize, BlockAt(c.blockSize, data, i))
            <==> IsCollision(c.hash, (c.SaltPrefix() + padded, padded))
  {
    LeafOfBlock(c, data, i);
    assert |c.SaltPrefix()| == c.hash.inputBlock;
  }

  // ---------- rebuilding the root hash ----------

  /** Padding to a whole number of blocks never opens another block. */
  lemma RootPadded(c: Config, data: Bytes, padding: nat)
    requires c.Valid() && data != [] && |LastBlock(c, data)| + padding <= c.blockSize
    ensures MerkleRoot(c, data + Zeros(padding)) == MerkleRoot(c, data)
  {
    BlockHashesPadded(c, data, padding);
    if |data| <= c.blockSize {
      assert Pad(data + Zeros(padding), c.blockSize) == Pad(data, c.blockSize);
    }
  }

  /** What rebuilding yields for any list of leaves; None if it panics. */
  function Rebuilt(hash: Hash, leaves: seq<Bytes>, salt: Bytes, blockSize: nat): (r: Option<Bytes>)
    requires hash.Valid()
  {
    if |leaves| == 1 then Some(leaves[0])
    else
      match NewConfig(hash, blockSize, salt)
      case None => None
      case Some(c) =>
        NewConfigValid(hash, blockSize, salt);
        if Times(|leaves|, hash.size) <= Capacity(c) then Some(MerkleRoot(c, Concat(leaves))) else None
  }

  /** The block at the top of the tree: the file itself if it is one block, else digests. */
  function TopBlock(c: Config, data: Bytes): (top: Bytes)
    requires c.Valid()
    ensures |top| <= c.blockSize && (data != [] ==> top != [])
    decreases |data|
  {
    if |data| <= c.blockSize then data
    else
      BlockHashesShrink(c, data);
      TopBlock(c, Concat(BlockHashes(c, data)))
  }

  /** A root hash is also the only leaf of the top block: it does not fix the height of the tree. */
  lemma {:induction false} TopBlockLeaf(c: Config, data: Bytes)
    requires c.Valid() && data != []
    ensures BlockHashes(c, TopBlock(c, data)) == [MerkleRoot(c, data)]
    decreases |data|
  {
    if |data| > c.blockSize {
      BlockHashesShrink(c, data);
      TopBlockLeaf(c, Concat(BlockHashes(c, data)));
    }
  }

  function Padding(length: nat, blockSize: nat): nat
    requires blockSize > 0
  {
    (blockSize - length % blockSize) % blockSize
  }

  /** What a whole number of blocks holds does not depend on how full the last block is. */
  lemma WholeBlocks(k: nat, last: nat, bs: nat, p: nat)
    requires 0 < last <= bs
    ensures k * bs + last <= bs * p <==> k * bs + bs <= bs * p
  {
    if k < p { MulMonotone(k + 1, p, bs); } else { MulMonotone(p, k, bs); }
  }

  lemma PaddingFits(c: Config, data: Bytes)
    requires c.Valid()
    ensures data == [] ==> Padding(|data|, c.blockSize) == 0
    ensures data != [] ==> |LastBlock(c, data)| + Padding(|data|, c.blockSize) == c.blockSize
    ensures |data| <= Capacity(c) <==> |data| + Padding(|data|, c.blockSize) <= Capacity(c)
  {
    var bs := c.blockSize;
    if data == [] {
      DivUnique(0, bs, 0, 0);
      DivUnique(bs, bs, 1, 0);
    } else {
      var k, last := |Completed(c, data)|, |LastBlock(c, data)|;
      LastBlockHash(c, data);
      MulSucc(k, bs);
      CapacityIs(c);
      WholeBlocks(k, last, bs, Pow(c.blockSize / c.hash.size, 7));
      if last == bs {
        DivUnique(|data|, bs, k + 1, 0);
        DivUnique(bs, bs, 1, 0);
      } else {
        DivUnique(|data|, bs, k, last);
        DivUnique(bs - last, bs, 0, bs - last);
      }
    }
  }

  /** `rebuild_root_hash`: the file hasher, fed with the leaves and explicit zero padding. */
  method RebuildRootHash(hash: Hash, leaves: seq<Bytes>, salt: Bytes, blockSize: nat) returns (root: Option<Bytes>)
    requires hash.Valid() && AllSized(leaves, hash.size)
    ensures root == Rebuilt(hash, leaves, salt, blockSize)
    ensures |leaves| == 1 ==> root == Some(leaves[0])
    ensures |leaves| != 1 ==>
              (root.Some? <==> && |salt| <= 32 && blockSize >= 2 * hash.size && (exists k: nat :: blockSize == Pow2(k))
                               && Times(|leaves|, hash.size) <= Capacity(Config(hash, blockSize, salt)))
    ensures |leaves| != 1 && root.Some? ==>
              var c := Config(hash, blockSize, salt); c.Valid() && root.value == MerkleRoot(c, Concat(leaves))
  {
    if |leaves| == 1 {
      return Some(leaves[0]);
    }
    var config := NewConfig(hash, blockSize, salt);
    NewConfigValid(hash, blockSize, salt);
    if config.None? {
      return None;
    }
    var c := config.value;
    var padding := (blockSize - (|leaves| * hash.size) % blockSize) % blockSize;
    var m := MeasureRust(hash, blockSize, salt, leaves + [Zeros(padding)]);
    ConcatLength(leaves, hash.size);
    TimesIs(|leaves|, hash.size);
    ConcatSplit(leaves, [Zeros(padding)]);
    ConcatSingle(Zeros(padding));
    PaddingFits(c, Concat(leaves));
    if leaves == [] {
      assert Concat(leaves) + Zeros(0) == Concat(leaves);
    } else {
      RootPadded(c, Concat(leaves), padding);
    }
    root := if m.Some? then Some(m.value.descriptor.rootHash) else None;
  }

  /** `RebuildRootHash` in Go: no panics, and the padding write is skipped when empty. */
  method GoRebuildRootHash(c: Config, leaves: seq<Bytes>) returns (root: Bytes)
    requires c.Valid() && AllSized(leaves, c.hash.size)
    ensures root == if |leaves| == 1 then leaves[0] else MerkleRoot(c, Concat(leaves))
  {
    if |leaves| == 0 {
      return Zeros(c.hash.size);
    }
    if |leaves| == 1 {
      return leaves[0];
    }
    var totalBytes := |leaves| * c.hash.size;
    var padding := (c.blockSize - totalBytes % c.blockSize) % c.blockSize;
    ConcatLength(leaves, c.hash.size);
    PaddingFits(c, Concat(leaves));
    var m;
    if padding > 0 {
      m := MeasureGo(c, leaves + [Zeros(padding)]);
      ConcatSplit(leaves, [Zeros(padding)]);
      ConcatSingle(Zeros(padding));
      RootPadded(c, Concat(leaves), padding);
    } else {
      m := MeasureGo(c, leaves);
    }
    root := m.descriptor.rootHash;
  }

  /** Rebuilding from the recorded leaves of any file that can be measured gives its root hash. */
  lemma RebuildAgreement(c: Config, data: Bytes)
    requires c.Valid() && NewConfig(c.hash, c.blockSize, c.salt) == Some(c) && |data| <= Capacity(c)
    ensures Rebuilt(c.hash, BlockHashes(c, data), c.salt, c.blockSize) == Some(MerkleRoot(c, data))
  {
    var leaves := BlockHashes(c, data);
    BlockHashesShrink(c, data);
    ConcatLength(leaves, c.hash.size);
    TimesIs(|leaves|, c.hash.size);
    CapacityIs(c);
    MulMonotone(1, Pow(c.Fanout(), MAX_LEVELS - 1), c.blockSize);
    if |data| > c.blockSize {
      LastBlockHash(c, data);
      assert |leaves| >= 2;
    }
  }
}
