/**
 The bottom of the read path: `pread` with short and interrupted results, verification of
 a block against its leaf, and what a block cache may hold.

 The kernel is a parameter: what the t-th system call returns may depend on everything,
 so the backing file may change between any two calls.
 */
module FileHandles {
  import opened ByteStrings
  import opened Merkle
  import opened Descriptors
  import opened Trees
  import opened InodeTable

  const EIO: int := 5
  const EISDIR: int := 21
  const EINVAL: int := 22
  const U32: nat := 0x1_0000_0000

  datatype Result<+T> = Ok(value: T) | Err(errno: int)

  datatype PreadResult = Data(bytes: Bytes) | Interrupted | Failed(errno: int)

  datatype BlockKey = BlockKey(ino: nat, index: nat)

  /**
   The outside world: `open` and `pread` by call number, inode, offset and length; a bound
   on how long a `pread` keeps being interrupted; and which cache entries the LRU policy
   drops when a block is put into the cache.
   */
  datatype Kernel = Kernel(open: (nat, nat) -> Option<int>,
                           pread: (nat, nat, nat, nat) -> PreadResult,
                           patience: (nat, nat, nat, nat) -> nat,
                           evict: nat -> set<BlockKey>)
  {
    /** The result of the t-th system call if it is this one. */
    function Pread(t: nat, ino: nat, offset: nat, n: nat): PreadResult {
      pread(t, ino, offset, n)
    }

    /** `pread` never returns more than asked for, and is not interrupted forever. */
    ghost predicate Sane() {
      && (forall t: nat, ino: nat, offset: nat, n: nat :: AtMost(Pread(t, ino, offset, n), n))
      && (forall t: nat, ino: nat, offset: nat, n: nat :: EndsBy(t, t + patience(t, ino, offset, n), ino, offset, n))
    }

    /** The call is not interrupted any more at time `stop`. */
    ghost predicate EndsBy(now: nat, stop: nat, ino: nat, offset: nat, n: nat) {
      now <= stop && !Pread(stop, ino, offset, n).Interrupted?
    }

    ghost function PatienceEnds(now: nat, ino: nat, offset: nat, n: nat): (stop: nat)
      requires Sane()
      ensures EndsBy(now, stop, ino, offset, n)
    {
      now + patience(now, ino, offset, n)
    }

    /** From call `from` up to call `to` the file behind an inode can be opened and has the contents `file`. */
    ghost predicate Serves(ino: nat, file: Bytes, from: nat, to: nat) {
      && (forall t: nat :: from <= t < to ==> open(t, ino).None?)
      && (forall t: nat, offset: nat, n: nat :: from <= t < to ==>
            HonestResult(Pread(t, ino, offset, n), file, offset, n))
    }
  }

  /** No more than n bytes. */
  predicate AtMost(r: PreadResult, n: nat) {
    r.Data? ==> |r.bytes| <= n
  }

  /** Some bytes of the file at that offset, and none only at the end of the file. */
  ghost predicate HonestResult(r: PreadResult, file: Bytes, offset: nat, n: nat) {
    match r
    case Interrupted => true
    case Failed(_) => false
    case Data(b) =>
      && |b| <= n && offset + |b| <= Max(offset, |file|)
      && (offset <= |file| ==> b == file[offset..offset + |b|])
      && (b == [] ==> n == 0 || |file| <= offset)
  }

  /** What has been read is what the file has there. */
  ghost predicate Exact(file: Bytes, offset: nat, buf: Bytes) {
    buf == Slice(file, offset, offset + |buf|)
  }

  lemma JoinSlices(x: Bytes, a: nat, b: nat, c: nat)
    requires a <= b <= c <= |x|
    ensures x[a..b] + x[b..c] == x[a..c]
  {
  }

  /** An honest result extends what has been read, and an empty one says that this is all there is. */
  lemma HonestExtends(file: Bytes, offset: nat, buf: Bytes, size: nat, bytes: Bytes)
    requires |buf| < size && Exact(file, offset, buf)
    requires HonestResult(Data(bytes), file, offset + |buf|, size - |buf|)
    ensures Exact(file, offset, buf + bytes)
    ensures bytes == [] ==> buf == Slice(file, offset, offset + size)
  {
    var position := offset + |buf|;
    if bytes != [] && buf != [] {
      assert position + |bytes| <= |file| && bytes == file[position..position + |bytes|];
      assert buf == file[offset..position];
      JoinSlices(file, offset, position, position + |bytes|);
    }
  }

  /** `FsEntry::block_size`, which passes through 32 bits. */
  function EntryBlockSize(e: FsEntry): Option<nat> {
    match e.kind
    case VerityEnabled(info) => Some(info.descriptor.BlockSize() % U32)
    case Directory(_) => None
  }

  /** Through 32 bits a block size arrives intact, or as zero, which `read_file` rejects, if it does not fit. */
  lemma BlockSizeIn32Bits(d: Descriptor)
    ensures d.BlockSize() % U32 == if d.BlockSize() < 0x1_0000_0000 then d.BlockSize() else 0
  {
    var k := d.logBlockSize as nat % 64;
    Pow2Values();
    if k < 32 {
      Pow2Monotone(k + 1, 32);
    } else {
      Pow2Monotone(32, k);
      Pow2Add(k - 32, 32);
      DivUnique(d.BlockSize(), U32, Pow2(k - 32), 0);
    }
  }

  /** `FsEntry::verify_data_block`. */
  predicate EntryVerifies(hash: Hash, e: FsEntry, i: nat, data: Bytes) {
    match e.kind
    case VerityEnabled(info) => VerifyDataBlock(hash, info.leaves, i, info.descriptor.BlockSize(), data)
    case Directory(_) => false
  }

  /**
   The bytes from `offset` on were put together from results of `pread` up to call `to`, for
   a buffer of `size` bytes.
   */
  ghost predicate Delivered(kernel: Kernel, ino: nat, offset: nat, size: nat, to: nat, buf: Bytes)
    decreases |buf|
  {
    && |buf| <= size
    && (buf == [] ||
        exists head, bytes, t: nat {:trigger head + bytes, Delivered(kernel, ino, offset, size, t, head)} ::
          && buf == head + bytes && bytes != [] && t < to && Delivered(kernel, ino, offset, size, t, head)
          && kernel.pread(t, ino, offset + |head|, size - |head|) == Data(bytes))
  }

  lemma DeliveredLater(kernel: Kernel, ino: nat, offset: nat, size: nat, to: nat, later: nat, buf: Bytes)
    requires Delivered(kernel, ino, offset, size, to, buf) && to <= later
    ensures Delivered(kernel, ino, offset, size, later, buf)
  {
  }

  lemma DeliveredNext(kernel: Kernel, ino: nat, offset: nat, size: nat, to: nat, buf: Bytes, bytes: Bytes)
    requires Delivered(kernel, ino, offset, size, to, buf) && |buf| < size && 0 < |bytes| <= size - |buf|
    requires kernel.pread(to, ino, offset + |buf|, size - |buf|) == Data(bytes)
    ensures Delivered(kernel, ino, offset, size, to + 1, buf + bytes)
  {
    assert to < to + 1 && buf + bytes != [];
  }

  /**
   How far reading has got: `buf` was delivered by the kernel, and if that has served `file`
   so far, it is what the file has there.
   */
  ghost predicate Progress(kernel: Kernel, ino: nat, file: Bytes, now: nat, later: nat, offset: nat, size: nat,
                           buf: Bytes)
  {
    && now <= later && Delivered(kernel, ino, offset, size, later, buf)
    && (kernel.Serves(ino, file, now, later) ==> Exact(file, offset, buf))
  }

  /** All that can be read has been read. */
  ghost predicate Finished(kernel: Kernel, ino: nat, file: Bytes, now: nat, later: nat, offset: nat, size: nat,
                           buf: Bytes)
  {
    && now <= later && Delivered(kernel, ino, offset, size, later, buf)
    && (kernel.Serves(ino, file, now, later) ==> buf == Slice(file, offset, offset + size))
  }

  /** What one call does: it brings nothing, fails, or brings bytes; none if the file has no more. */
  ghost predicate Stepped(kernel: Kernel, ino: nat, file: Bytes, now: nat, later: nat, offset: nat, size: nat,
                          buf: Bytes,
                          ret: PreadResult)
  {
    match ret
    case Interrupted => Progress(kernel, ino, file, now, later, offset, size, buf)
    case Failed(_) => !kernel.Serves(ino, file, now, later)
    case Data(bytes) =>
      if bytes == [] then Finished(kernel, ino, file, now, later, offset, size, buf)
      else Progress(kernel, ino, file, now, later, offset, size, buf + bytes)
  }

  lemma PreadStep(kernel: Kernel, ino: nat, file: Bytes, now: nat, t: nat, offset: nat, size: nat, buf: Bytes,
                  ret: PreadResult)
    requires |buf| < size && Progress(kernel, ino, file, now, t, offset, size, buf)
    requires ret == kernel.Pread(t, ino, offset + |buf|, size - |buf|) && AtMost(ret, size - |buf|)
    ensures Stepped(kernel, ino, file, now, t + 1, offset, size, buf, ret)
  {
    DeliveredLater(kernel, ino, offset, size, t, t + 1, buf);
    if ret.Data? {
      if ret.bytes != [] {
        DeliveredNext(kernel, ino, offset, size, t, buf, ret.bytes);
      }
    }
    if kernel.Serves(ino, file, now, t + 1) {
      assert HonestResult(ret, file, offset + |buf|, size - |buf|) && kernel.Serves(ino, file, now, t);
      if ret.Data? {
        HonestExtends(file, offset, buf, size, ret.bytes);
      }
    }
  }

  /** Repeats a call as long as it is interrupted; the number of the one that is not. */
  method SkipInterrupted(kernel: Kernel, now: nat, ino: nat, position: nat, n: nat) returns (t: nat)
    requires kernel.Sane()
    ensures now <= t && !kernel.Pread(t, ino, position, n).Interrupted?
    ensures forall s :: now <= s < t ==> kernel.Pread(s, ino, position, n).Interrupted?
  {
    ghost var stop: nat := kernel.PatienceEnds(now, ino, position, n);
    t := now;
    while kernel.Pread(t, ino, position, n).Interrupted?
      invariant now <= t <= stop
      invariant forall s :: now <= s < t ==> kernel.Pread(s, ino, position, n).Interrupted?
      decreases stop - t
    {
      t := t + 1;
    }
  }

  /** Interrupted calls change nothing. */
  lemma ProgressLater(kernel: Kernel, ino: nat, file: Bytes, now: nat, t: nat, later: nat, offset: nat, size: nat,
                      buf: Bytes)
    requires Progress(kernel, ino, file, now, t, offset, size, buf) && t <= later
    ensures Progress(kernel, ino, file, now, later, offset, size, buf)
  {
    DeliveredLater(kernel, ino, offset, size, t, later, buf);
  }

  lemma ProgressEnds(kernel: Kernel, ino: nat, file: Bytes, now: nat, later: nat, offset: nat, size: nat, buf: Bytes)
    requires Progress(kernel, ino, file, now, later, offset, size, buf) && |buf| == size
    ensures Finished(kernel, ino, file, now, later, offset, size, buf)
  {
  }

  /**
   `pread_all` and `pread_file_data`: keeps reading until the buffer is full or the file
   ends. `file` is any candidate for what the kernel serves meanwhile; `now` and `later`
   count system calls.
   */
  method PreadFileData(kernel: Kernel, now: nat, ino: nat, offset: nat, size: nat, ghost file: Bytes)
    returns (r: Result<Bytes>, later: nat)
    requires kernel.Sane()
    ensures now <= later
    ensures match r
            case Ok(buf) => Finished(kernel, ino, file, now, later, offset, size, buf)
            case Err(_) => !kernel.Serves(ino, file, now, later)
  {
    var buf: Bytes, position := [], offset;
    later := now;
    while |buf| < size
      invariant |buf| <= size && position == offset + |buf|
      invariant Progress(kernel, ino, file, now, later, offset, size, buf)
      decreases size - |buf|
    {
      var t := SkipInterrupted(kernel, later, ino, position, size - |buf|);
      var ret := kernel.Pread(t, ino, position, size - |buf|);
      ProgressLater(kernel, ino, file, now, later, t, offset, size, buf);
      PreadStep(kernel, ino, file, now, t, offset, size, buf, ret);
      later := t + 1;
      if ret.Failed? {
        return Err(ret.errno), later;
      }
      if ret.bytes == [] {
        return Ok(buf), later;
      }
      buf, position := buf + ret.bytes, position + |ret.bytes|;
    }
    ProgressEnds(kernel, ino, file, now, later, offset, size, buf);
    r := Ok(buf);
  }

  /** A cached block is one that passed verification for its inode and index. */
  ghost predicate CacheSafe(hash: Hash, files: map<nat, FsEntry>, cache: map<BlockKey, Bytes>) {
    forall key :: key in cache ==>
      key.ino in files && EntryVerifies(hash, files[key.ino], key.index, cache[key])
  }

  /** Block i was put together from results of `pread` up to call `to`. */
  ghost predicate DeliveredBlock(kernel: Kernel, ino: nat, bs: nat, i: nat, to: nat, block: Bytes) {
    Delivered(kernel, ino, Times(i, bs), bs, to, block)
  }

  /** The block size of a file; nothing is read of a directory. */
  function BlockSizeOf(e: FsEntry): nat {
    match e.kind
    case VerityEnabled(info) => info.descriptor.BlockSize()
    case Directory(_) => 0
  }

  /** Every cached block was read from the kernel. */
  ghost predicate CacheDelivered(kernel: Kernel, files: map<nat, FsEntry>, cache: map<BlockKey, Bytes>, to: nat) {
    forall key :: key in cache ==>
      key.ino in files && DeliveredBlock(kernel, key.ino, BlockSizeOf(files[key.ino]), key.index, to, cache[key])
  }

  lemma CacheDeliveredLater(kernel: Kernel, files: map<nat, FsEntry>, cache: map<BlockKey, Bytes>, to: nat, later: nat)
    requires CacheDelivered(kernel, files, cache, to) && to <= later
    ensures CacheDelivered(kernel, files, cache, later)
  {
    forall key | key in cache
      ensures DeliveredBlock(kernel, key.ino, BlockSizeOf(files[key.ino]), key.index, later, cache[key])
    {
      var bs := BlockSizeOf(files[key.ino]);
      DeliveredLater(kernel, key.ino, Times(key.index, bs), bs, to, later, cache[key]);
    }
  }

  /** Dropping entries, and putting in a block that was just read. */
  lemma CacheDeliveredPut(kernel: Kernel, files: map<nat, FsEntry>, cache: map<BlockKey, Bytes>, to: nat,
                          dropped: set<BlockKey>, key: BlockKey, block: Bytes)
    requires CacheDelivered(kernel, files, cache, to) && key.ino in files
    requires DeliveredBlock(kernel, key.ino, BlockSizeOf(files[key.ino]), key.index, to, block)
    ensures CacheDelivered(kernel, files, (cache - dropped)[key := block], to)
  {
  }

  /** Cached blocks of an inode are the blocks of `file`. */
  ghost predicate CacheServes(cache: map<BlockKey, Bytes>, ino: nat, bs: nat, file: Bytes) {
    forall key :: key in cache && key.ino == ino ==> cache[key] == BlockAt(bs, file, key.index)
  }

  /** The block was cached before. */
  ghost predicate WasCached(cache: map<BlockKey, Bytes>, ino: nat, i: nat, block: Bytes) {
    BlockKey(ino, i) in cache && cache[BlockKey(ino, i)] == block
  }

  /**
   What reading the blocks from `lo` to `hi` of one inode may do to the cache: entries
   disappear, and those blocks appear, as they are in `file` if `served` says that the
   kernel served it. Everything else that is still there is unchanged.
   */
  ghost predicate Grown(before: map<BlockKey, Bytes>, after: map<BlockKey, Bytes>, ino: nat, lo: nat, hi: nat,
                        bs: nat, file: Bytes, served: bool)
  {
    forall key :: key in after ==>
      || WasCached(before, key.ino, key.index, after[key])
      || (key.ino == ino && lo <= key.index < hi && (served ==> after[key] == BlockAt(bs, file, key.index)))
  }

  lemma GrownTwice(a: map<BlockKey, Bytes>, b: map<BlockKey, Bytes>, c: map<BlockKey, Bytes>, ino: nat,
                   lo: nat, mid: nat, hi: nat, bs: nat, file: Bytes, first: bool, second: bool)
    requires lo <= mid <= hi && Grown(a, b, ino, lo, mid, bs, file, first)
    requires Grown(b, c, ino, mid, hi, bs, file, second)
    ensures Grown(a, c, ino, lo, hi, bs, file, first && second)
  {
    forall key | key in c
      ensures || WasCached(a, key.ino, key.index, c[key])
              || (&& key.ino == ino && lo <= key.index < hi
                  && (first && second ==> c[key] == BlockAt(bs, file, key.index)))
    {
      if WasCached(b, key.ino, key.index, c[key]) {
        assert key == BlockKey(key.ino, key.index);
      }
    }
  }

  /** A cache that serves a file keeps serving it: the file that is read, if it is unchanged, and every other. */
  lemma GrownServes(before: map<BlockKey, Bytes>, after: map<BlockKey, Bytes>, ino: nat, lo: nat, hi: nat,
                    bs: nat, file: Bytes, served: bool, other: nat, otherBs: nat, original: Bytes)
    requires Grown(before, after, ino, lo, hi, bs, file, served) && CacheServes(before, other, otherBs, original)
    requires other == ino ==> served && otherBs == bs && original == file
    ensures CacheServes(after, other, otherBs, original)
  {
    forall key | key in after && key.ino == other
      ensures after[key] == BlockAt(otherBs, original, key.index)
    {
      if WasCached(before, key.ino, key.index, after[key]) {
        assert key == BlockKey(key.ino, key.index);
      }
    }
  }
}
