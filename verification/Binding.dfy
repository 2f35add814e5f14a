/**
 Binding: hashes that agree pin the data down, or else two different hash inputs with
 the same hash are computed. Mere existence of such a pair would say nothing, since a
 hash always has one; the functions here find it among the data at hand.
 */
module Binding {
  import opened ByteStrings
  import opened Merkle
  import opened Descriptors
  import opened Trees

  function HashInput(c: Config, block: Bytes): Bytes
    requires c.Sane() && |block| <= c.blockSize
  {
    c.SaltPrefix() + Pad(block, c.blockSize)
  }

  lemma HashInputInjective(c: Config, a: Bytes, b: Bytes)
    requires c.Sane() && |a| == |b| <= c.blockSize && a != b
    ensures HashInput(c, a) != HashInput(c, b)
  {
    var n := |c.SaltPrefix()|;
    assert a == HashInput(c, a)[n..n + |a|] && b == HashInput(c, b)[n..n + |b|];
  }

  /** The first pair of differing blocks. */
  function BlockCollision(c: Config, a: Bytes, b: Bytes): (Bytes, Bytes)
    requires c.Sane() && |a| == |b|
    decreases |a|
  {
    if |a| <= c.blockSize then (HashInput(c, a), HashInput(c, b))
    else if a[..c.blockSize] != b[..c.blockSize] then
      (HashInput(c, a[..c.blockSize]), HashInput(c, b[..c.blockSize]))
    else BlockCollision(c, a[c.blockSize..], b[c.blockSize..])
  }

  lemma {:induction false} BlockBinding(c: Config, a: Bytes, b: Bytes)
    requires c.Sane() && |a| == |b| && BlockHashes(c, a) == BlockHashes(c, b)
    ensures a == b || IsCollision(c.hash, BlockCollision(c, a, b))
    decreases |a|
  {
    if a == b {
    } else if |a| <= c.blockSize {
      HashInputInjective(c, a, b);
      assert BlockHashes(c, a)[0] == BlockHashes(c, b)[0];
    } else {
      var bs := c.blockSize;
      assert BlockHashes(c, a)[0] == BlockHashes(c, b)[0];
      if a[..bs] != b[..bs] {
        HashInputInjective(c, a[..bs], b[..bs]);
      } else {
        assert BlockHashes(c, a)[1..] == BlockHashes(c, b)[1..];
        assert a == a[..bs] + a[bs..] && b == b[..bs] + b[bs..];
        BlockBinding(c, a[bs..], b[bs..]);
      }
    }
  }

  /** Walks up the two trees to the lowest level on which they agree. */
  function RootCollision(c: Config, a: Bytes, b: Bytes): (Bytes, Bytes)
    requires c.Valid() && |a| == |b|
    decreases |a|
  {
    if |a| <= c.blockSize then (HashInput(c, a), HashInput(c, b))
    else
      SameTreeShape(c, a, b);
      var la, lb := Concat(BlockHashes(c, a)), Concat(BlockHashes(c, b));
      if la == lb then BlockCollision(c, a, b) else RootCollision(c, la, lb)
  }

  lemma SameTreeShape(c: Config, a: Bytes, b: Bytes)
    requires c.Valid() && |a| == |b| > c.blockSize
    ensures |BlockHashes(c, a)| == |BlockHashes(c, b)|
    ensures |Concat(BlockHashes(c, a))| == |Concat(BlockHashes(c, b))| < |a|
  {
    BlockHashesShrink(c, a);
    BlockHashesShrink(c, b);
    BlockCount(c, a);
    BlockCount(c, b);
    ConcatLength(BlockHashes(c, a), c.hash.size);
    ConcatLength(BlockHashes(c, b), c.hash.size);
  }

  /** Two inputs of the same size with the same root hash are equal, or collide. */
  lemma {:induction false} MerkleBinding(c: Config, a: Bytes, b: Bytes)
    requires c.Valid() && |a| == |b| && MerkleRoot(c, a) == MerkleRoot(c, b)
    ensures a == b || IsCollision(c.hash, RootCollision(c, a, b))
    decreases |a|
  {
    if a == b {
    } else if |a| <= c.blockSize {
      HashInputInjective(c, a, b);
    } else {
      SameTreeShape(c, a, b);
      var la, lb := Concat(BlockHashes(c, a)), Concat(BlockHashes(c, b));
      if la == lb {
        BlockHashesShrink(c, a);
        BlockHashesShrink(c, b);
        ConcatInjective(BlockHashes(c, a), BlockHashes(c, b), c.hash.size);
        BlockBinding(c, a, b);
      } else {
        MerkleBinding(c, la, lb);
      }
    }
  }

  /** Two equally long leaf lists that rebuild to the same root hash are equal, or collide. */
  lemma LeavesBinding(c: Config, a: seq<Bytes>, b: seq<Bytes>)
    requires c.Valid() && NewConfig(c.hash, c.blockSize, c.salt) == Some(c)
    requires AllSized(a, c.hash.size) && AllSized(b, c.hash.size) && |a| == |b|
    requires Rebuilt(c.hash, a, c.salt, c.blockSize).Some?
    requires Rebuilt(c.hash, a, c.salt, c.blockSize) == Rebuilt(c.hash, b, c.salt, c.blockSize)
    ensures |Concat(a)| == |Concat(b)|
    ensures a == b || IsCollision(c.hash, RootCollision(c, Concat(a), Concat(b)))
  {
    ConcatLength(a, c.hash.size);
    ConcatLength(b, c.hash.size);
    if |a| != 1 {
      MerkleBinding(c, Concat(a), Concat(b));
      if Concat(a) == Concat(b) {
        ConcatInjective(a, b, c.hash.size);
      }
    }
  }

  /** What to look at when two files have the same descriptor hash. */
  function FileCollision(c: Config, a: Bytes, b: Bytes): (Bytes, Bytes)
    requires c.Valid()
  {
    if |a| == |b| && DescriptorOf(c, a) == DescriptorOf(c, b) then RootCollision(c, a, b)
    else DescriptorCollision(c.hash, DescriptorOf(c, a), DescriptorOf(c, b))
  }

  function DescriptorCollision(hash: Hash, d: Descriptor, e: Descriptor): (Bytes, Bytes)
    requires hash.inputBlock > 0
  {
    match (HashedBytes(hash, d), HashedBytes(hash, e))
    case (Some(x), Some(y)) => (x, y)
    case _ => ([], [])
  }

  /** Two files with the same descriptor hash are equal, or collide; the size is bound as well. */
  lemma FileBinding(c: Config, a: Bytes, b: Bytes)
    requires c.Valid() && |a| < U64 && |b| < U64
    requires ToDescriptorHash(c.hash, DescriptorOf(c, a)) == ToDescriptorHash(c.hash, DescriptorOf(c, b))
    ensures a == b || IsCollision(c.hash, FileCollision(c, a, b))
  {
    if DescriptorOf(c, a) == DescriptorOf(c, b) {
      SameDescriptor(c, a, b);
      MerkleBinding(c, a, b);
    } else {
      DescriptorBinding(c.hash, DescriptorOf(c, a), DescriptorOf(c, b));
    }
  }

  lemma SameDescriptor(c: Config, a: Bytes, b: Bytes)
    requires c.Valid() && |a| < U64 && |b| < U64 && DescriptorOf(c, a) == DescriptorOf(c, b)
    ensures |a| == |b| && MerkleRoot(c, a) == MerkleRoot(c, b)
  {
    SmallWord(|a|);
    SmallWord(|b|);
  }
}
