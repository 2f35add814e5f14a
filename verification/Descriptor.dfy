/**
 The fs-verity descriptor: its 256-byte encoding behind the padded salt, the same
 bytes as produced by the Go encoder, and what equality of two descriptor hashes says.
 */
module Descriptors {
  import opened ByteStrings
  import opened Merkle

  datatype Descriptor = Descriptor(version: Byte, hashAlgorithm: Byte, logBlockSize: Byte, dataSize: nat,
                                   rootHash: Bytes, salt: Bytes)
  {
    /** `1 << log_blocksize` on a 64-bit machine, where the shift distance is taken modulo 64. */
    function BlockSize(): nat {
      Pow2(logBlockSize as nat % 64)
    }

    /** What the Rust types guarantee of any descriptor over the given hash. */
    predicate Typed(hash: Hash) {
      dataSize < U64 && |rootHash| == hash.size
    }
  }

  /** The byte `trailing_zeros` yields for a block size. */
  function LogByte(blockSize: nat): Byte {
    (TrailingZeros(blockSize) % 256) as Byte
  }

  /** The descriptor of a file, from the reference definition; the length is a 64-bit word. */
  function DescriptorOf(c: Config, data: Bytes): Descriptor
    requires c.Valid()
  {
    Descriptor(1, c.hash.id, LogByte(c.blockSize), |data| % U64, MerkleRoot(c, data), c.salt)
  }

  /** The block size survives its trip through the descriptor exactly if it is a power of two. */
  lemma BlockSizeRoundTrip(c: Config, data: Bytes)
    requires c.Valid() && c.blockSize < U64
    ensures DescriptorOf(c, data).BlockSize() == c.blockSize <==> exists k: nat :: c.blockSize == Pow2(k)
  {
    var k := TrailingZeros(c.blockSize);
    TrailingZerosFit(c.blockSize);
    if k >= 64 {
      Pow2Values();
      Pow2Monotone(64, k);
    }
    assert LogByte(c.blockSize) as nat % 64 == k;
    TrailingZerosExactly(c.blockSize);
  }

  // ---------- little-endian integers ----------

  function LittleEndian(n: nat, k: nat): (b: Bytes)
    ensures |b| == k
    decreases k
  {
    if k == 0 then [] else [(n % 256) as Byte] + LittleEndian(n / 256, k - 1)
  }

  function FromLittleEndian(b: Bytes): nat {
    if b == [] then 0 else b[0] as nat + 256 * FromLittleEndian(b[1..])
  }

  lemma {:induction false} LittleEndianRoundTrip(n: nat, k: nat)
    requires n < Pow(256, k)
    ensures FromLittleEndian(LittleEndian(n, k)) == n
    decreases k
  {
    if k > 0 {
      LittleEndianRoundTrip(n / 256, k - 1);
      assert LittleEndian(n, k)[1..] == LittleEndian(n / 256, k - 1);
    }
  }

  lemma Pow256Is64()
    ensures Pow(256, 8) == U64
  {
    assert Pow(256, 1) == 256 && Pow(256, 2) == 0x1_0000 && Pow(256, 3) == 0x100_0000 && Pow(256, 4) == 0x1_0000_0000;
    PowAdd(256, 4, 4);
  }

  // ---------- encoding ----------

  /** The 256 descriptor bytes; None where a field does not fit and `update_padded` panics. */
  function DescriptorBytes(d: Descriptor): (b: Option<Bytes>)
    ensures b.Some? ==> |b.value| == 256
  {
    if |d.rootHash| <= 64 && |d.salt| <= 32 then
      Some([d.version, d.hashAlgorithm, d.logBlockSize, (|d.salt| % 256) as Byte]
           + Zeros(4) + LittleEndian(d.dataSize, 8) + Pad(d.rootHash, 64) + Pad(d.salt, 32) + Zeros(144))
    else
      None
  }

  /** Everything `to_descriptor_hash` feeds to the hash: the padded salt, then the descriptor. */
  function HashedBytes(hash: Hash, d: Descriptor): Option<Bytes>
    requires hash.inputBlock > 0
  {
    match DescriptorBytes(d)
    case None => None
    case Some(b) => Some(PadChunks(d.salt, hash.inputBlock) + b)
  }

  function ToDescriptorHash(hash: Hash, d: Descriptor): Option<Bytes>
    requires hash.inputBlock > 0
  {
    match HashedBytes(hash, d)
    case None => None
    case Some(b) => Some(hash.h(b))
  }

  lemma DescriptorHead(d: Descriptor)
    requires DescriptorBytes(d).Some?
    ensures var b := DescriptorBytes(d).value;
            b[0] == d.version && b[1] == d.hashAlgorithm && b[2] == d.logBlockSize && b[3] as nat == |d.salt|
  {
  }

  /** The layout of the 256 bytes; they exist exactly if root hash and salt fit. */
  lemma DescriptorFields(d: Descriptor)
    ensures DescriptorBytes(d).Some? <==> |d.rootHash| <= 64 && |d.salt| <= 32
    ensures DescriptorBytes(d).Some? ==>
              var b := DescriptorBytes(d).value;
              && b[0] == d.version && b[1] == d.hashAlgorithm && b[2] == d.logBlockSize && b[3] as nat == |d.salt|
              && b[4..8] == [0, 0, 0, 0] && b[8..16] == LittleEndian(d.dataSize, 8)
              && b[16..80] == d.rootHash + Zeros(64 - |d.rootHash|) && b[80..112] == d.salt + Zeros(32 - |d.salt|)
              && b[112..] == Zeros(144)
  {
    if |d.rootHash| <= 64 && |d.salt| <= 32 {
      DescriptorHead(d);
      DescriptorTail(d);
    }
  }

  lemma DescriptorTail(d: Descriptor)
    requires DescriptorBytes(d).Some?
    ensures var b := DescriptorBytes(d).value;
            && b[8..16] == LittleEndian(d.dataSize, 8)
            && b[16..80] == Pad(d.rootHash, 64) && b[80..112] == Pad(d.salt, 32)
  {
  }

  /** What is hashed: the salt padded to one input block, if there is any, then those bytes. */
  lemma DescriptorHashInput(hash: Hash, d: Descriptor)
    requires hash.Valid() && |d.rootHash| <= 64 && |d.salt| <= 32
    ensures ToDescriptorHash(hash, d)
         == Some(hash.h((if d.salt == [] then [] else d.salt + Zeros(hash.inputBlock - |d.salt|))
                        + DescriptorBytes(d).value))
  {
  }

  lemma UnsaltedHash(hash: Hash, d: Descriptor)
    requires hash.Valid() && |d.rootHash| <= 64 && d.salt == []
    ensures DescriptorBytes(d).Some? && HashedBytes(hash, d) == DescriptorBytes(d)
  {
    assert [] + DescriptorBytes(d).value == DescriptorBytes(d).value;
  }

  /** The 256 bytes determine the descriptor. */
  lemma DescriptorInjective(hash: Hash, d: Descriptor, e: Descriptor)
    requires d.Typed(hash) && e.Typed(hash)
    requires DescriptorBytes(d).Some? && DescriptorBytes(d) == DescriptorBytes(e)
    ensures d == e
  {
    DescriptorHead(d);
    DescriptorHead(e);
    DescriptorTail(d);
    DescriptorTail(e);
    Pow256Is64();
    LittleEndianRoundTrip(d.dataSize, 8);
    LittleEndianRoundTrip(e.dataSize, 8);
    assert d.rootHash == Pad(d.rootHash, 64)[..hash.size] && e.rootHash == Pad(e.rootHash, 64)[..hash.size];
    assert d.salt == Pad(d.salt, 32)[..|d.salt|] && e.salt == Pad(e.salt, 32)[..|e.salt|];
  }

  /** So do the salt and descriptor bytes together: a padded salt is recognised by the total length. */
  lemma HashedBytesInjective(hash: Hash, d: Descriptor, e: Descriptor)
    requires hash.Valid() && d.Typed(hash) && e.Typed(hash)
    requires HashedBytes(hash, d).Some? && HashedBytes(hash, d) == HashedBytes(hash, e)
    ensures d == e
  {
    var x := HashedBytes(hash, d).value;
    assert DescriptorBytes(d).value == x[|x| - 256..];
    assert DescriptorBytes(e).value == x[|x| - 256..];
    DescriptorInjective(hash, d, e);
  }

  /** Equal descriptor hashes mean equal descriptors, or a collision at hand. */
  lemma DescriptorBinding(hash: Hash, d: Descriptor, e: Descriptor)
    requires hash.Valid() && d.Typed(hash) && e.Typed(hash)
    requires ToDescriptorHash(hash, d).Some? && ToDescriptorHash(hash, d) == ToDescriptorHash(hash, e)
    ensures d == e || IsCollision(hash, (HashedBytes(hash, d).value, HashedBytes(hash, e).value))
  {
    if HashedBytes(hash, d) == HashedBytes(hash, e) {
      HashedBytesInjective(hash, d, e);
    }
  }

  // ---------- the Go encoder ----------

  function GoSalt(salt: Bytes, n: nat): Bytes
    requires n > 0
  {
    if salt == [] then []
    else
      var end := Min(n, |salt|);
      var padding := n - end;
      salt[..end] + (if padding < n then Zeros(padding) else []) + GoSalt(salt[end..], n)
  }

  function GoHashPadded(data: Bytes, targetSize: nat): Bytes {
    data + if |data| < targetSize then Zeros(targetSize - |data|) else []
  }

  /** `DataSizeToBytes`: eight shifts, each cut to a byte. */
  function GoDataSize(n: nat): Bytes {
    seq(8, i requires 0 <= i < 8 => ((n / Pow(256, i)) % 256) as Byte)
  }

  function GoDescriptorBytes(d: Descriptor): Bytes {
    [d.version] + [d.hashAlgorithm] + [d.logBlockSize] + [(|d.salt| % 256) as Byte] + Zeros(4)
    + GoDataSize(d.dataSize) + GoHashPadded(d.rootHash, 64) + GoHashPadded(d.salt, 32) + Zeros(144)
  }

  function GoHashedBytes(hash: Hash, d: Descriptor): Bytes
    requires hash.inputBlock > 0
  {
    GoSalt(d.salt, hash.inputBlock) + GoDescriptorBytes(d)
  }

  lemma {:induction false} GoSaltSame(salt: Bytes, n: nat)
    requires n > 0
    ensures GoSalt(salt, n) == PadChunks(salt, n)
  {
    if salt != [] {
      var end := Min(n, |salt|);
      GoSaltSame(salt[end..], n);
      if |salt| <= n {
        assert salt[..end] == salt && salt[end..] == [];
      }
    }
  }

  lemma {:induction false} LittleEndianDigit(n: nat, k: nat, i: nat)
    requires i < k
    ensures Pow(256, i) > 0 && LittleEndian(n, k)[i] as nat == (n / Pow(256, i)) % 256
  {
    if i > 0 {
      LittleEndianDigit(n / 256, k - 1, i - 1);
      DivDiv(n, 256, Pow(256, i - 1));
    }
  }

  /** Both encoders feed the hash the same bytes, for every salt and root hash that fits. */
  lemma GoEncodesTheSame(hash: Hash, d: Descriptor)
    requires hash.inputBlock > 0 && |d.rootHash| <= 64 && |d.salt| <= 32
    ensures HashedBytes(hash, d) == Some(GoHashedBytes(hash, d))
  {
    GoSaltSame(d.salt, hash.inputBlock);
    forall i | 0 <= i < 8
      ensures GoDataSize(d.dataSize)[i] == LittleEndian(d.dataSize, 8)[i]
    {
      LittleEndianDigit(d.dataSize, 8, i);
    }
    assert GoDataSize(d.dataSize) == LittleEndian(d.dataSize, 8);
    assert GoHashPadded(d.rootHash, 64) == Pad(d.rootHash, 64);
    assert GoHashPadded(d.salt, 32) == Pad(d.salt, 32);
    assert [d.version] + [d.hashAlgorithm] + [d.logBlockSize] + [(|d.salt| % 256) as Byte]
        == [d.version, d.hashAlgorithm, d.logBlockSize, (|d.salt| % 256) as Byte];
  }
}
