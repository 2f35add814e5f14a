/**
 From the printed root hash to the bytes read: `open` checks the metadata, builds the
 inode table and serves reads, and what is read is what was formatted.
 */
module Mounting {
  import opened ByteStrings
  import opened Merkle
  import opened Descriptors
  import opened Trees
  import opened Metadata
  import opened Commands
  import opened Binding
  import opened InodeTable
  import opened FileHandles
  import opened Replies
  import opened ReadPath

  /** The descriptors if they differ, else the two leaf lists. */
  ghost function MountCollision(env: Env, info: FileVerityInfo, data: Bytes): (Bytes, Bytes)
    requires env.Valid()
  {
    var c := env.FileConfig();
    var a, b := Concat(info.leaves), Concat(BlockHashes(c, data));
    if info.descriptor == DescriptorOf(c, data) && |a| == |b| then RootCollision(c, a, b)
    else DescriptorCollision(env.hash, info.descriptor, DescriptorOf(c, data))
  }

  /**
   The entry describes the file that was formatted under its path exactly if it has as many
   leaves as that has blocks.
   */
  ghost predicate DescribesExactly(env: Env, dir: map<string, Bytes>, f: Formatted, md: FbMetadata,
                                   info: FileVerityInfo)
    requires env.Valid() && Entries(f.metadata).Some? && Entries(md).Some?
  {
    || IsCollision(env.hash, (HashDocument(env, f.metadata), HashDocument(env, md)))
    || (info.path in dir &&
        (|| IsCollision(env.hash, MountCollision(env, info, dir[info.path]))
         || (Describes(env.hash, info, dir[info.path]) <==>
               |info.leaves| == |BlockHashes(env.FileConfig(), dir[info.path])|)))
  }

  /**
   If `open` accepts the metadata against the hash that `format` printed, then every entry
   describes the formatted file for the read path exactly if the number of leaves is right -
   or one of three pairs computed from the data collides.
   */
  lemma MountedEntriesDescribe(env: Env, dir: map<string, Bytes>, walk: seq<string>, labels: map<string, string>,
                               f: Formatted,
                               md: FbMetadata, k: nat)
    requires env.Valid() && Walks(walk, dir) && FormatResult(env, dir, walk, labels) == Some(f)
    requires TypedStore(md) && MetadataAccepted(env, md, f.rootHash)
    requires k < |Read(md).value.fileInfos|
    ensures DescribesExactly(env, dir, f, md, Read(md).value.fileInfos[k])
  {
    OpenBinds(env, dir, walk, labels, f, md, k);
    FileConfigValid(env);
  }

  // ---------- a leaf list of the wrong length ----------

  /** The entries of `format`'s own record. */
  lemma OwnEntry(env: Env, dir: map<string, Bytes>, walk: seq<string>, labels: map<string, string>, f: Formatted,
                 info: FileVerityInfo)
    requires env.Valid() && Walks(walk, dir) && FormatResult(env, dir, walk, labels) == Some(f)
    requires TypedStore(f.metadata) && Read(f.metadata).Some? && info in Read(f.metadata).value.fileInfos
    ensures info.path in dir && info == InfoFor(env, info.path, dir[info.path])
    ensures |dir[info.path]| <= FILE_LIMIT
  {
    var files := Collected(walk);
    var infos := InfosFor(env, dir, files);
    InfosConsistent(env, dir, files);
    ReadIsStored(infos, labels, info);
    var i :| 0 <= i < |infos| && infos[i] == info;
    assert files[i] in files;
  }

  /** The record of `format` with the leaf list of file j replaced by its root hash. */
  ghost function CollapsedRecord(f: Formatted, j: nat): FbMetadata
    requires TypedStore(f.metadata) && Read(f.metadata).Some?
    requires j < |FilesOf(f.metadata)| == |Read(f.metadata).value.fileInfos|
  {
    WithLeaves(f.metadata, j, [Read(f.metadata).value.fileInfos[j].descriptor.rootHash])
  }

  /**
   What the missing comparison of leaf count and data size means for a reader: in the record
   that `format` itself wrote, the leaf list of any file of more than one block can be
   replaced so that `open` still accepts it against the printed hash, and the read path then
   serves the block at the top of the hash tree, which consists of digests, as the contents
   of the file. No collision is involved.
   */
  lemma CollapsedServesDigests(env: Env, dir: map<string, Bytes>, walk: seq<string>, labels: map<string, string>,
                               f: Formatted, j: nat)
    requires env.Valid() && Walks(walk, dir) && FormatResult(env, dir, walk, labels) == Some(f)
    requires j < |FilesOf(f.metadata)|
    ensures TypedStore(f.metadata) && Read(f.metadata).Some?
    ensures |FilesOf(f.metadata)| == |Read(f.metadata).value.fileInfos|
    ensures var md := CollapsedRecord(f, j);
            && TypedStore(md) && MetadataAccepted(env, md, f.rootHash) && j < |Read(md).value.fileInfos|
            && ServesDigests(env, dir, Read(md).value.fileInfos[j])
  {
    FormatThenVerify(env, dir, walk, labels, true);
    ReadInfosTyped(f.metadata);
    CollapsedLeavesAccepted(env, f.metadata, f.rootHash, j);
    var was := Read(f.metadata).value.fileInfos[j];
    CollapsedInfo(f.metadata, j);
    OwnEntry(env, dir, walk, labels, f, was);
    CollapsedDescribes(env, was.path, dir[was.path]);
  }

  /** For the read path the entry stands for the top block of the tree, and not for the file if that is longer. */
  ghost predicate ServesDigests(env: Env, dir: map<string, Bytes>, info: FileVerityInfo)
    requires env.Valid()
  {
    var c := env.FileConfig();
    && info.path in dir
    && (dir[info.path] != [] ==> Describes(env.hash, info, TopBlock(c, dir[info.path])))
    && (|dir[info.path]| > c.blockSize ==>
          TopBlock(c, dir[info.path]) != dir[info.path] && !Describes(env.hash, info, dir[info.path]))
  }

  lemma CollapsedInfo(md: FbMetadata, j: nat)
    requires TypedStore(md) && Read(md).Some? && j < |FilesOf(md)|
    ensures j < |Read(md).value.fileInfos|
    ensures var info := Read(md).value.fileInfos[j];
            var md' := WithLeaves(md, j, [info.descriptor.rootHash]);
            && TypedStore(md') && Read(md').Some? && j < |Read(md').value.fileInfos|
            && Read(md').value.fileInfos[j] == info.(leaves := [info.descriptor.rootHash])
  {
    ReadInfosTyped(md);
    WithLeavesReads(md, j, [Read(md).value.fileInfos[j].descriptor.rootHash]);
  }

  lemma CollapsedDescribes(env: Env, path: string, data: Bytes)
    requires env.Valid()
    ensures var c, info := env.FileConfig(), InfoFor(env, path, data);
            var collapsed := info.(leaves := [info.descriptor.rootHash]);
            && (data != [] ==> Describes(env.hash, collapsed, TopBlock(c, data)))
            && (|data| > c.blockSize ==> !Describes(env.hash, collapsed, data))
  {
    var c := env.FileConfig();
    FileConfigValid(env);
    if data != [] {
      TopBlockLeaf(c, data);
    }
    if |data| > c.blockSize {
      LastBlockHash(c, data);
      BlockHashesLong(c, data);
    }
  }

  lemma BlockHashesLong(c: Config, data: Bytes)
    requires c.Sane() && |data| > c.blockSize
    ensures |BlockHashes(c, data)| > 1
  {
    assert BlockHashes(c, data[c.blockSize..]) != [];
  }

  // ---------- mounting and reading ----------

  /** The table that `open` builds from accepted metadata. */
  ghost function MountedFiles(env: Env, md: FbMetadata): map<nat, FsEntry>
    requires TypedStore(md) && Read(md).Some?
  {
    BuildTable(Read(md).value.fileInfos).inoToFile
  }

  /** `open`: checks the metadata, builds the table, and starts with an empty cache. */
  method Mount(env: Env, md: FbMetadata, expected: string, kernel: Kernel) returns (fs: VerityFS?)
    requires env.Valid() && TypedStore(md) && kernel.Sane()
    ensures fs != null <==> MetadataAccepted(env, md, expected)
    ensures fs != null ==> fresh(fs) && fs.Valid() && fs.cache == map[] && fs.calls == 0
    ensures fs != null ==> fs.hash == env.hash && fs.kernel == kernel && fs.files == MountedFiles(env, md)
  {
    var infos := CheckMetadata(env, md, expected);
    if infos.None? {
      return null;
    }
    var verifier := new VerityVerifier(infos.value);
    TableCorrect(infos.value);
    fs := new VerityFS(env.hash, kernel, verifier.inoToFile);
  }

  /** What the blocks a reply is copied from say about the file that was formatted under the path of the entry. */
  ghost predicate SafeEntry(env: Env, dir: map<string, Bytes>, f: Formatted, md: FbMetadata, info: FileVerityInfo,
                            offset: nat, end: nat, why: Evidence)
    requires env.Valid() && Entries(f.metadata).Some? && Entries(md).Some?
  {
    || IsCollision(env.hash, (HashDocument(env, f.metadata), HashDocument(env, md)))
    || (info.path in dir &&
        (|info.leaves| == |BlockHashes(env.FileConfig(), dir[info.path])| ==>
           || IsCollision(env.hash, MountCollision(env, info, dir[info.path]))
           || SafeReply(env.hash, info, dir[info.path], offset, end, why)))
  }

  /**
   The reply is copied from verified blocks; and each of its pieces is what the file that
   was formatted under that path has there but for zeros at the end, with `SafeReply` saying
   where the bytes land - provided the entry has the right number of leaves, and unless one
   of the pairs computed from the data collides.
   */
  ghost predicate MountedReply(env: Env, dir: map<string, Bytes>, f: Formatted, md: FbMetadata,
                               files: map<nat, FsEntry>,
                               q: Request, reply: Result<Bytes>, why: Evidence)
    requires env.Valid() && Entries(f.metadata).Some? && Entries(md).Some?
  {
    && BackedReply(env.hash, files, q, reply, why)
    && (q.Proper(files) && reply.Ok? ==>
          SafeEntry(env, dir, f, md, files[q.ino].kind.info, q.offset, q.offset + q.size, why))
  }

  /** Every mounted file describes what was formatted under its path exactly if its leaf count is right. */
  ghost predicate AllExactly(env: Env, dir: map<string, Bytes>, f: Formatted, md: FbMetadata, files: map<nat, FsEntry>)
    requires env.Valid() && Entries(f.metadata).Some? && Entries(md).Some?
  {
    forall n :: n in files && files[n].kind.VerityEnabled? ==> DescribesExactly(env, dir, f, md, files[n].kind.info)
  }

  lemma MountedExactly(env: Env, dir: map<string, Bytes>, walk: seq<string>, labels: map<string, string>, f: Formatted,
                       md: FbMetadata)
    requires env.Valid() && Walks(walk, dir) && FormatResult(env, dir, walk, labels) == Some(f)
    requires TypedStore(md) && MetadataAccepted(env, md, f.rootHash)
    ensures AllExactly(env, dir, f, md, MountedFiles(env, md))
  {
    var files, infos := MountedFiles(env, md), Read(md).value.fileInfos;
    forall n | n in files && files[n].kind.VerityEnabled?
      ensures DescribesExactly(env, dir, f, md, files[n].kind.info)
    {
      TableFiles(infos, n);
      var k :| 0 <= k < |infos| && infos[k] == files[n].kind.info;
      MountedEntriesDescribe(env, dir, walk, labels, f, md, k);
    }
  }

  lemma BackedMounted(env: Env, dir: map<string, Bytes>, f: Formatted, md: FbMetadata, files: map<nat, FsEntry>,
                      q: Request, reply: Result<Bytes>, why: Evidence)
    requires env.Valid() && Entries(f.metadata).Some? && Entries(md).Some? && AllExactly(env, dir, f, md, files)
    requires BackedReply(env.hash, files, q, reply, why)
    ensures MountedReply(env, dir, f, md, files, q, reply, why)
  {
    if q.Proper(files) && reply.Ok? {
      var e := files[q.ino];
      ExactlyAt(env, dir, f, md, files, q.ino);
      BackedEntry(env, dir, f, md, e, q.offset, q.offset + q.size, reply.value, why);
    }
  }

  lemma ExactlyAt(env: Env, dir: map<string, Bytes>, f: Formatted, md: FbMetadata, files: map<nat, FsEntry>, n: nat)
    requires env.Valid() && Entries(f.metadata).Some? && Entries(md).Some? && AllExactly(env, dir, f, md, files)
    requires n in files && files[n].kind.VerityEnabled?
    ensures DescribesExactly(env, dir, f, md, files[n].kind.info)
  {
  }

  lemma BackedEntry(env: Env, dir: map<string, Bytes>, f: Formatted, md: FbMetadata, e: FsEntry, offset: nat, end: nat,
                    output: Bytes, why: Evidence)
    requires env.Valid() && Entries(f.metadata).Some? && Entries(md).Some? && offset < end
    requires e.kind.VerityEnabled? && DescribesExactly(env, dir, f, md, e.kind.info)
    requires Backed(env.hash, e, offset, end, output, why)
    ensures SafeEntry(env, dir, f, md, e.kind.info, offset, end, why)
  {
    var info := e.kind.info;
    if info.path in dir && Describes(env.hash, info, dir[info.path]) {
      BackedSafe(env.hash, e, dir[info.path], offset, end, output, why);
    }
  }

  /** The formatted contents behind the inodes of the mounted files. */
  ghost function Originals(files: map<nat, FsEntry>, dir: map<string, Bytes>): map<nat, Bytes> {
    map n | n in files && files[n].kind.VerityEnabled? && files[n].kind.info.path in dir :: dir[files[n].kind.info.path]
  }

  /** Blocks of 4096 bytes, and one leaf for each. */
  ghost predicate OwnSizes(info: FileVerityInfo, file: Bytes) {
    info.descriptor.BlockSize() == 4096 && |info.leaves| == (|file| + 4095) / 4096
  }

  lemma OwnDescribes(env: Env, path: string, data: Bytes)
    requires env.Valid()
    ensures Describes(env.hash, InfoFor(env, path, data), data) && OwnSizes(InfoFor(env, path, data), data)
  {
    FileConfigValid(env);
    BlockCount(env.FileConfig(), data);
  }

  /**
   The reply to a read of a formatted file that is unchanged: the bytes asked for, as far as
   the file goes, if the range ends within its last block, and an error otherwise.
   */
  ghost predicate FormattedRead(files: map<nat, FsEntry>, dir: map<string, Bytes>, q: Request, reply: Result<Bytes>) {
    q.ino in files && files[q.ino].kind.VerityEnabled? && q.offset >= 0 && q.size > 0 ==>
      var path := files[q.ino].kind.info.path;
      && path in dir
      && reply == if q.offset + q.size <= (|dir[path]| + 4095) / 4096 * 4096
                  then Ok(Slice(dir[path], q.offset, q.offset + q.size)) else Err(5)
  }

  lemma OwnPlainly(files: map<nat, FsEntry>, dir: map<string, Bytes>, q: Request, reply: Result<Bytes>)
    requires forall n :: n in files && files[n].kind.VerityEnabled? ==>
               n in Originals(files, dir) && OwnSizes(files[n].kind.info, Originals(files, dir)[n])
    requires PlainRead(files, Originals(files, dir), q, reply)
    ensures FormattedRead(files, dir, q, reply)
  {
  }

  /** With `format`'s own record every mounted file describes what was formatted. */
  lemma OwnRecordDescribes(env: Env, dir: map<string, Bytes>, walk: seq<string>, labels: map<string, string>,
                           f: Formatted)
    requires env.Valid() && Walks(walk, dir) && FormatResult(env, dir, walk, labels) == Some(f)
    ensures TypedStore(f.metadata) && MetadataAccepted(env, f.metadata, f.rootHash)
    ensures var files := MountedFiles(env, f.metadata);
            && AllDescribed(env.hash, files, Originals(files, dir))
            && forall n :: n in files && files[n].kind.VerityEnabled? ==>
                 n in Originals(files, dir) && OwnSizes(files[n].kind.info, Originals(files, dir)[n])
  {
    FormatThenVerify(env, dir, walk, labels, true);
    var files := MountedFiles(env, f.metadata);
    forall n | n in files && files[n].kind.VerityEnabled?
      ensures n in Originals(files, dir) && Describes(env.hash, files[n].kind.info, Originals(files, dir)[n])
      ensures OwnSizes(files[n].kind.info, Originals(files, dir)[n])
    {
      TableFiles(Read(f.metadata).value.fileInfos, n);
      OwnEntry(env, dir, walk, labels, f, files[n].kind.info);
      OwnDescribes(env, files[n].kind.info.path, Originals(files, dir)[n]);
    }
  }

  lemma OwnReads(env: Env, dir: map<string, Bytes>, walk: seq<string>, labels: map<string, string>, f: Formatted,
                 requests: seq<Request>, replies: seq<Result<Bytes>>)
    requires env.Valid() && Walks(walk, dir) && FormatResult(env, dir, walk, labels) == Some(f)
    requires TypedStore(f.metadata) && Read(f.metadata).Some? && |replies| == |requests|
    requires var files := MountedFiles(env, f.metadata);
             forall k :: 0 <= k < |requests| ==> PlainRead(files, Originals(files, dir), requests[k], replies[k])
    ensures forall k :: 0 <= k < |requests| ==>
              FormattedRead(MountedFiles(env, f.metadata), dir, requests[k], replies[k])
  {
    OwnRecordDescribes(env, dir, walk, labels, f);
    forall k | 0 <= k < |requests|
      ensures FormattedRead(MountedFiles(env, f.metadata), dir, requests[k], replies[k])
    {
      OwnPlainly(MountedFiles(env, f.metadata), dir, requests[k], replies[k]);
    }
  }

  /**
   End to end. `format` of a directory printed a hash; whatever metadata is mounted against
   that hash, and whatever the kernel does, every reply of every run is copied from blocks
   that the kernel delivered during the run and safe with respect to the formatted directory.
   And if the metadata is `format`'s own and the kernel serves the formatted files during the
   run, every read of a file, from any offset that is not negative, returns exactly those bytes
   of the formatted file if it ends within its last block of 4096 bytes, and fails otherwise.
   */
  method MountAndServe(env: Env, md: FbMetadata, expected: string, kernel: Kernel, requests: seq<Request>,
                       ghost dir: map<string, Bytes>, ghost walk: seq<string>, ghost labels: map<string, string>)
    returns (replies: Option<seq<Result<Bytes>>>, ghost whys: seq<Evidence>, ghost calls: nat)
    requires env.Valid() && TypedStore(md) && kernel.Sane() && forall q :: q in requests ==> q.Typed()
    requires Walks(walk, dir) && FormatResult(env, dir, walk, labels).Some?
    requires expected == FormatResult(env, dir, walk, labels).value.rootHash
    ensures replies.Some? <==> MetadataAccepted(env, md, expected)
    ensures replies.Some? ==> AllAtHand(kernel, MountedFiles(env, md), requests, replies.value, whys, calls)
    ensures replies.Some? ==>
              forall k :: 0 <= k < |requests| ==>
                MountedReply(env, dir, FormatResult(env, dir, walk, labels).value, md, MountedFiles(env, md),
                             requests[k], replies.value[k], whys[k])
    ensures md == FormatResult(env, dir, walk, labels).value.metadata ==>
              && replies.Some?
              && var files := MountedFiles(env, md);
                 ServesAll(kernel, Originals(files, dir), 0, calls) ==>
                   forall k :: 0 <= k < |requests| ==>
                     ExactlyReplied(files, Originals(files, dir), requests[k], replies.value[k])
    ensures replies.Some? ==>
              forall k :: 0 <= k < |requests| ==> PlainRefusal(MountedFiles(env, md), requests[k], replies.value[k])
    ensures md == FormatResult(env, dir, walk, labels).value.metadata && replies.Some? ==>
              var files := MountedFiles(env, md);
              ServesAll(kernel, Originals(files, dir), 0, calls) ==>
                forall k :: 0 <= k < |requests| ==> FormattedRead(files, dir, requests[k], replies.value[k])
  {
    ghost var f := FormatResult(env, dir, walk, labels).value;
    if md == f.metadata {
      OwnRecordDescribes(env, dir, walk, labels, f);
    }
    var fs := Mount(env, md, expected, kernel);
    whys, calls := [], 0;
    if fs == null {
      return None, whys, calls;
    }
    ghost var originals := Originals(MountedFiles(env, md), dir);
    assert CacheServesAll(fs.files, fs.cache, originals);
    var answers;
    answers, whys := fs.Serve(requests, originals);
    calls := fs.calls;
    MountedExactly(env, dir, walk, labels, f, md);
    forall k | 0 <= k < |requests|
      ensures MountedReply(env, dir, f, md, MountedFiles(env, md), requests[k], answers[k], whys[k])
    {
      BackedMounted(env, dir, f, md, MountedFiles(env, md), requests[k], answers[k], whys[k]);
    }
    if md == f.metadata && ServesAll(kernel, originals, 0, calls) {
      OwnReads(env, dir, walk, labels, f, requests, answers);
    }
    replies := Some(answers);
  }
}
