/**
 The fs-verity hash parameters and the reference definition of the Merkle root,
 written straight from the recursive description: cut the data into zero-padded
 blocks, hash each with the salt in front, and repeat on the hashes until a
 single block is left.
 */
module Merkle {
  import opened ByteStrings

  const MAX_LEVELS: nat := 8
  const MAX_SALT_SIZE: nat := 32
  const DEFAULT_BLOCK_SIZE: nat := 4096

  /** An inner hash: its function, output size, input block size and fs-verity number. */
  datatype Hash = Hash(h: Bytes -> Bytes, size: nat, inputBlock: nat, id: Byte) {
    ghost predicate Valid() {
      && ((size == 32 && inputBlock == 64 && id == 1) || (size == 64 && inputBlock == 128 && id == 2))
      && forall x :: |h(x)| == size
    }
  }

  /** Two different inputs with the same hash. */
  ghost predicate IsCollision(hash: Hash, pair: (Bytes, Bytes)) {
    pair.0 != pair.1 && hash.h(pair.0) == hash.h(pair.1)
  }

  /** The salt, cut into input blocks of the inner hash and each block zero-padded. */
  function PadChunks(s: Bytes, n: nat): (p: Bytes)
    requires n > 0
  {
    if s == [] then []
    else if |s| <= n then Pad(s, n)
    else s[..n] + PadChunks(s[n..], n)
  }

  datatype Config = Config(hash: Hash, blockSize: nat, salt: Bytes) {
    /** How many digests fit into one block. */
    function Fanout(): nat
      requires hash.size > 0
    {
      blockSize / hash.size
    }

    /** Enough for block hashing to make sense at all. */
    predicate Sane() {
      blockSize > 0 && hash.inputBlock > 0
    }

    /**
     What both hashers rely on: digests tile blocks, at least two per block. It follows from
     the assertions of `FsVerityConfig::new`, which also asks for a power of two; the Go
     constructor asks for nothing.
     */
    ghost predicate Valid() {
      && hash.Valid()
      && |salt| <= MAX_SALT_SIZE
      && Fanout() >= 2
      && blockSize == Fanout() * hash.size
      && Sane()
    }

    function SaltPrefix(): Bytes
      requires hash.inputBlock > 0
    {
      PadChunks(salt, hash.inputBlock)
    }

    /** The salted hash of one zero-padded block. */
    function BlockHash(d: Bytes): Bytes
      requires hash.inputBlock > 0 && |d| <= blockSize
    {
      hash.h(SaltPrefix() + Pad(d, blockSize))
    }
  }

  /** What is hashed for a block: the salt padded to one input block, if there is any, then the padded block. */
  lemma BlockHashInput(c: Config, d: Bytes)
    requires c.Valid() && |d| <= c.blockSize
    ensures |c.salt| <= c.hash.inputBlock
    ensures c.BlockHash(d)
         == c.hash.h((if c.salt == [] then [] else c.salt + Zeros(c.hash.inputBlock - |c.salt|))
                     + (d + Zeros(c.blockSize - |d|)))
  {
  }

  function Log2(n: nat): (k: nat) {
    if n <= 1 then 0 else 1 + Log2(n / 2)
  }

  predicate IsPowerOfTwo(n: nat) {
    n == Pow2(Log2(n))
  }

  /** How often n can be halved. */
  function TrailingZeros(n: nat): (k: nat) {
    if n == 0 || n % 2 == 1 then 0 else 1 + TrailingZeros(n / 2)
  }

  lemma {:induction false} TrailingZerosFit(n: nat)
    requires n > 0
    ensures Pow2(TrailingZeros(n)) <= n
  {
    if n % 2 == 0 {
      TrailingZerosFit(n / 2);
    }
  }

  /** What is left after the halving is odd. */
  lemma {:induction false} TrailingZerosSplit(n: nat)
    requires n > 0
    ensures n % Pow2(TrailingZeros(n)) == 0 && n / Pow2(TrailingZeros(n)) % 2 == 1
  {
    var p := Pow2(TrailingZeros(n));
    if n % 2 == 0 {
      TrailingZerosSplit(n / 2);
      var half := Pow2(TrailingZeros(n / 2));
      var q := n / 2 / half;
      assert n == q * p by {
        DivSplit(n / 2, half);
        assert q * (half + half) == q * half + q * half;
      }
      DivUnique(n, p, q, 0);
    } else {
      assert p == 1;
    }
  }

  lemma {:induction false} LogsOfPow2(k: nat)
    ensures TrailingZeros(Pow2(k)) == k && Log2(Pow2(k)) == k && Pow2(k) > 0
  {
    if k > 0 {
      LogsOfPow2(k - 1);
      assert Pow2(k) / 2 == Pow2(k - 1);
    }
  }

  /** Counting trailing zeros gives the logarithm exactly of the powers of two. */
  lemma TrailingZerosExactly(n: nat)
    requires n > 0
    ensures n == Pow2(TrailingZeros(n)) <==> exists k: nat :: n == Pow2(k)
  {
    if k: nat :| n == Pow2(k) {
      LogsOfPow2(k);
    }
  }

  /** `FsVerityConfig::new`: every assertion it makes, None where one of them panics. */
  function NewConfig(hash: Hash, blockSize: nat, salt: Bytes): (c: Option<Config>) {
    if |salt| <= MAX_SALT_SIZE && IsPowerOfTwo(blockSize) && blockSize >= 2 * hash.size && hash.size <= 64 then
      Some(Config(hash, blockSize, salt))
    else
      None
  }

  lemma {:induction false} Log2Monotone(a: nat, b: nat)
    requires a <= b
    ensures Log2(a) <= Log2(b)
  {
    if a > 1 {
      Log2Monotone(a / 2, b / 2);
    }
  }

  /**
   Exactly which parameters the constructor accepts: a salt of up to 32 bytes and a power of
   two with room for two digests. That is enough for digests to tile blocks.
   */
  lemma NewConfigValid(hash: Hash, blockSize: nat, salt: Bytes)
    requires hash.Valid()
    ensures NewConfig(hash, blockSize, salt).Some? <==>
              |salt| <= 32 && blockSize >= 2 * hash.size && exists k: nat :: blockSize == Pow2(k)
    ensures NewConfig(hash, blockSize, salt).Some? ==>
              && NewConfig(hash, blockSize, salt).value == Config(hash, blockSize, salt)
              && Config(hash, blockSize, salt).Valid()
  {
    if k: nat :| blockSize == Pow2(k) {
      LogsOfPow2(k);
    }
    if NewConfig(hash, blockSize, salt).Some? {
      PowerTiles(hash, Log2(blockSize));
    }
  }

  lemma PowerTiles(hash: Hash, k: nat)
    requires hash.Valid() && Pow2(k) >= 2 * hash.size
    ensures Pow2(k) / hash.size >= 2 && Pow2(k) == Pow2(k) / hash.size * hash.size
  {
    var j := Log2(hash.size);
    assert hash.size == Pow2(j) by {
      assert Log2(32) == 5 && Pow2(5) == 32;
      assert Log2(64) == 6 && Pow2(6) == 64;
    }
    LogsOfPow2(k);
    Log2Monotone(2 * hash.size, Pow2(k));
    assert Log2(2 * hash.size) == 1 + j;
    Pow2Add(k - j, j);
    DivUnique(Pow2(k), hash.size, Pow2(k - j), 0);
  }

  // ---------- the reference definition ----------

  /** The hash of every block of `data`, in order. */
  function BlockHashes(c: Config, data: Bytes): (hs: seq<Bytes>)
    requires c.Sane()
    decreases |data|
  {
    if data == [] then []
    else if |data| <= c.blockSize then [c.BlockHash(data)]
    else [c.BlockHash(data[..c.blockSize])] + BlockHashes(c, data[c.blockSize..])
  }

  lemma {:induction false} BlockHashesShrink(c: Config, data: Bytes)
    requires c.Valid()
    ensures AllSized(BlockHashes(c, data), c.hash.size)
    ensures data == [] <==> BlockHashes(c, data) == []
    ensures data != [] ==> 2 * |Concat(BlockHashes(c, data))| < |data| + c.blockSize
    decreases |data|
  {
    MulMonotone(2, c.Fanout(), c.hash.size);
    if data == [] {
    } else if |data| <= c.blockSize {
      ConcatSingle(c.BlockHash(data));
    } else {
      BlockHashesShrink(c, data[c.blockSize..]);
      var first, rest := c.BlockHash(data[..c.blockSize]), BlockHashes(c, data[c.blockSize..]);
      assert BlockHashes(c, data) == [first] + rest;
      assert Concat(BlockHashes(c, data)) == first + Concat(rest);
    }
  }

  /** The fs-verity root hash; all zeros for an empty file. */
  function MerkleRoot(c: Config, data: Bytes): (root: Bytes)
    requires c.Valid()
    ensures |root| == c.hash.size
    decreases |data|
  {
    if data == [] then Zeros(c.hash.size)
    else if |data| <= c.blockSize then c.BlockHash(data)
    else
      BlockHashesShrink(c, data);
      MerkleRoot(c, Concat(BlockHashes(c, data)))
  }

  // ---------- facts about block hashes ----------

  /** Peeling one full block off the front. */
  lemma BlockHashesStep(c: Config, first: Bytes, rest: Bytes)
    requires c.Sane() && |first| == c.blockSize
    ensures BlockHashes(c, first + rest) == [c.BlockHash(first)] + BlockHashes(c, rest)
  {
    if rest == [] {
      assert first + rest == first;
    } else {
      assert (first + rest)[..c.blockSize] == first && (first + rest)[c.blockSize..] == rest;
    }
  }

  /** The block holding the last byte, unpadded; it may be full. */
  function LastBlock(c: Config, data: Bytes): (last: Bytes)
    requires c.Sane()
    ensures |last| <= c.blockSize
    ensures last == [] <==> data == []
    decreases |data|
  {
    if |data| <= c.blockSize then data else LastBlock(c, data[c.blockSize..])
  }

  /** The hashes of the blocks in front of the last one. */
  function Completed(c: Config, data: Bytes): (hs: seq<Bytes>)
    requires c.Sane()
    ensures c.Valid() ==> AllSized(hs, c.hash.size)
    decreases |data|
  {
    if |data| <= c.blockSize then []
    else [c.BlockHash(data[..c.blockSize])] + Completed(c, data[c.blockSize..])
  }

  lemma {:induction false} LastBlockHash(c: Config, data: Bytes)
    requires c.Sane() && data != []
    ensures BlockHashes(c, data) == Completed(c, data) + [c.BlockHash(LastBlock(c, data))]
    ensures |data| == |Completed(c, data)| * c.blockSize + |LastBlock(c, data)|
    decreases |data|
  {
    if |data| > c.blockSize {
      LastBlockHash(c, data[c.blockSize..]);
      MulSucc(|Completed(c, data[c.blockSize..])|, c.blockSize);
    }
  }

  /** Number of blocks: `div_ceil(|data|, blockSize)`. */
  lemma BlockCount(c: Config, data: Bytes)
    requires c.Sane()
    ensures |BlockHashes(c, data)| == (|data| + c.blockSize - 1) / c.blockSize
  {
    var bs := c.blockSize;
    if data == [] {
      DivUnique(bs - 1, bs, 0, bs - 1);
    } else {
      LastBlockHash(c, data);
      var k := |Completed(c, data)|;
      assert (k + 1) * bs == k * bs + bs;
      DivUnique(|data| + bs - 1, bs, k + 1, |LastBlock(c, data)| - 1);
    }
  }

  /** Zero padding that stays inside the last block changes no block hash. */
  lemma {:induction false} BlockHashesPadded(c: Config, data: Bytes, padding: nat)
    requires c.Sane() && data != []
    requires |LastBlock(c, data)| + padding <= c.blockSize
    ensures BlockHashes(c, data + Zeros(padding)) == BlockHashes(c, data)
    decreases |data|
  {
    if |data| <= c.blockSize {
      assert Pad(data + Zeros(padding), c.blockSize) == Pad(data, c.blockSize);
    } else {
      var first, rest := data[..c.blockSize], data[c.blockSize..];
      BlockHashesPadded(c, rest, padding);
      BlockHashesStep(c, first, rest + Zeros(padding));
      assert first + (rest + Zeros(padding)) == data + Zeros(padding);
    }
  }
}
