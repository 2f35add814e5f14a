/**
 The commands that produce and check metadata: `format` measures every file of a
 directory and prints a root hash; `verify` checks a directory and its metadata against
 that hash; mounting checks the metadata alone. A directory is a map from relative path
 to contents, and every error or panic is None or false.
 */
module Commands {
  import opened ByteStrings
  import opened Merkle
  import opened Odometer
  import opened Descriptors
  import opened Trees
  import opened Ordering
  import opened Metadata
  import opened Binding

  const METADATA_FILE: string := "cryptpilot-verity.metadata.fb"

  /** What the hasher can take with the default parameters, by `DefaultCapacity`. */
  const FILE_LIMIT: nat := 0x2000_0000_0000_0000

  datatype Entry = Entry(descriptorHash: string, path: string)

  function EntryPath(e: Entry): string { e.path }

  /** SHA-256 and the canonical JSON encoding of the list of entries, which is injective. */
  datatype Env = Env(hash: Hash, json: seq<Entry> -> Bytes) {
    ghost predicate Valid() {
      && hash.Valid() && hash.size == DIGEST_SIZE && FileConfig().Valid()
      && forall a, b :: json(a) == json(b) ==> a == b
    }

    /** Default block size, no salt. */
    function FileConfig(): Config {
      Config(hash, DEFAULT_BLOCK_SIZE, [])
    }
  }

  lemma DefaultLog()
    ensures TrailingZeros(DEFAULT_BLOCK_SIZE) == Log2(DEFAULT_BLOCK_SIZE) == 12
  {
    Pow2Values();
    LogsOfPow2(12);
  }

  lemma DefaultByte()
    ensures LogByte(DEFAULT_BLOCK_SIZE) == 12 && Pow2(12) == DEFAULT_BLOCK_SIZE
  {
    DefaultLog();
    Pow2Values();
  }

  lemma FileConfigValid(env: Env)
    requires env.Valid()
    ensures NewConfig(env.hash, DEFAULT_BLOCK_SIZE, []) == Some(env.FileConfig())
    ensures Capacity(env.FileConfig()) == FILE_LIMIT && DEFAULT_BLOCK_SIZE < U64
    ensures forall data :: DescriptorOf(env.FileConfig(), data).BlockSize() == DEFAULT_BLOCK_SIZE
  {
    DefaultByte();
    NewConfigValid(env.hash, DEFAULT_BLOCK_SIZE, []);
    DefaultCapacity(env.FileConfig());
  }

  // ---------- hexadecimal ----------

  function HexDigit(n: int): (c: char)
    requires 0 <= n < 16
  {
    "0123456789abcdef"[n]
  }

  function Hex(b: Bytes): string {
    if b == [] then "" else [HexDigit(b[0] as int / 16), HexDigit(b[0] as int % 16)] + Hex(b[1..])
  }

  lemma HexDigitInjective(m: int, n: int)
    requires 0 <= m < 16 && 0 <= n < 16 && HexDigit(m) == HexDigit(n)
    ensures m == n
  {
  }

  lemma {:induction false} HexInjective(a: Bytes, b: Bytes)
    requires Hex(a) == Hex(b)
    ensures a == b
  {
    if a == [] || b == [] {
    } else {
      assert Hex(a)[0] == Hex(b)[0] && Hex(a)[1] == Hex(b)[1];
      HexDigitInjective(a[0] as int / 16, b[0] as int / 16);
      HexDigitInjective(a[0] as int % 16, b[0] as int % 16);
      assert Hex(a[1..]) == Hex(a)[2..] && Hex(b[1..]) == Hex(b)[2..];
      HexInjective(a[1..], b[1..]);
      assert a == [a[0]] + a[1..] && b == [b[0]] + b[1..];
    }
  }

  /** The value of a lower-case hexadecimal digit. */
  function DigitValue(c: char): Option<int> {
    if '0' <= c <= '9' then Some(c as int - '0' as int)
    else if 'a' <= c <= 'f' then Some(10 + c as int - 'a' as int)
    else None
  }

  /** Two lower-case digits per byte, the higher one first. */
  lemma {:induction false} HexDigits(b: Bytes, i: nat)
    requires i < |b|
    ensures |Hex(b)| == 2 * |b|
    ensures DigitValue(Hex(b)[2 * i]) == Some(b[i] as int / 16)
    ensures DigitValue(Hex(b)[2 * i + 1]) == Some(b[i] as int % 16)
  {
    HexDigitValue(b[0] as int / 16);
    HexDigitValue(b[0] as int % 16);
    if |b| > 1 {
      HexDigits(b[1..], if i == 0 then 0 else i - 1);
    } else {
      assert Hex(b[1..]) == "";
    }
  }

  lemma HexDigitValue(n: int)
    requires 0 <= n < 16
    ensures DigitValue(HexDigit(n)) == Some(n)
  {
  }

  // ---------- the root hash over the metadata ----------

  function EntryOf(f: FbFile): Option<Entry> {
    if f.path.Some? && f.descriptorHash.Some? then Some(Entry(f.descriptorHash.value, f.path.value)) else None
  }

  function FilesOf(md: FbMetadata): seq<FbFile> {
    if md.files.Some? then md.files.value else []
  }

  /** The pairs in storage order; None if a field is missing. */
  ghost function Entries(md: FbMetadata): (r: Option<seq<Entry>>)
    ensures r.Some? <==> forall i :: 0 <= i < |FilesOf(md)| ==> EntryOf(FilesOf(md)[i]).Some?
    ensures r.Some? ==> |r.value| == |FilesOf(md)|
    ensures r.Some? ==> forall i :: 0 <= i < |r.value| ==> Some(r.value[i]) == EntryOf(FilesOf(md)[i])
  {
    var fs := FilesOf(md);
    if forall i :: 0 <= i < |fs| ==> EntryOf(fs[i]).Some? then
      Some(seq(|fs|, i requires 0 <= i < |fs| && EntryOf(fs[i]).Some? => EntryOf(fs[i]).value))
    else
      None
  }

  ghost function HashDocument(env: Env, md: FbMetadata): Bytes
    requires Entries(md).Some?
  {
    env.json(Sort(EntryPath, Entries(md).value))
  }

  ghost function MetadataHash(env: Env, md: FbMetadata): Option<string> {
    if Entries(md).None? then None else Some(Hex(env.hash.h(HashDocument(env, md))))
  }

  /** `calculate_metadata_hash`. */
  method CalculateMetadataHash(env: Env, md: FbMetadata) returns (r: Option<string>)
    ensures r == MetadataHash(env, md)
    ensures r.Some? <==> forall i :: 0 <= i < |FilesOf(md)| ==>
                           FilesOf(md)[i].path.Some? && FilesOf(md)[i].descriptorHash.Some?
    ensures r.Some? ==>
              exists doc: seq<Entry> :: && multiset(doc) == multiset(Entries(md).value)
                                        && (forall i, j :: 0 <= i < j < |doc| ==> Le(doc[i].path, doc[j].path))
                                        && r.value == Hex(env.hash.h(env.json(doc)))
  {
    var entries: seq<Entry> := [];
    var files := FilesOf(md);
    for i := 0 to |files|
      invariant |entries| == i
      invariant forall k :: 0 <= k < i ==> EntryOf(files[k]) == Some(entries[k])
    {
      if files[i].path.None? || files[i].descriptorHash.None? {
        assert EntryOf(files[i]).None?;
        return None;
      }
      entries := entries + [Entry(files[i].descriptorHash.value, files[i].path.value)];
    }
    assert entries == Entries(md).value;
    var doc := Sort(EntryPath, entries);
    SortPermutes(EntryPath, entries);
    SortedByPath(entries);
    r := Some(Hex(env.hash.h(env.json(doc))));
  }

  lemma SortedByPath(entries: seq<Entry>)
    ensures var doc := Sort(EntryPath, entries);
            forall i, j :: 0 <= i < j < |doc| ==> Le(doc[i].path, doc[j].path)
  {
    SortSorts(EntryPath, entries);
  }

  // ---------- format ----------

  /** `calculate_fsverity_hash`. */
  method CalculateFsVerityHash(env: Env, data: Bytes) returns (m: Option<Measurement>)
    requires env.Valid()
    ensures m == if |data| <= FILE_LIMIT then Some(MeasurementOf(env.FileConfig(), data)) else None
    ensures m.Some? <==> |data| <= 0x2000_0000_0000_0000
    ensures m.Some? ==>
              var c := Config(env.hash, 4096, []);
              && c.Valid() && m.value.descriptor == Descriptor(1, 1, 12, |data|, MerkleRoot(c, data), [])
              && m.value.leaves == BlockHashes(c, data)
  {
    ConcatSingle(data);
    FileConfigValid(env);
    if |data| <= FILE_LIMIT {
      FileDescriptor(env, data);
    }
    m := MeasureRust(env.hash, DEFAULT_BLOCK_SIZE, [], [data]);
  }

  /** The hexadecimal descriptor hash of a file. */
  function FileHash(env: Env, data: Bytes): string
    requires env.FileConfig().Valid()
  {
    Hex(env.hash.h(HashedBytes(env.hash, DescriptorOf(env.FileConfig(), data)).value))
  }

  function InfoFor(env: Env, path: string, data: Bytes): FileVerityInfo
    requires env.FileConfig().Valid()
  {
    var m := MeasurementOf(env.FileConfig(), data);
    FileVerityInfo(path, m.descriptor, m.leaves, FileHash(env, data))
  }

  /** The part of a path behind its last slash. */
  function FileName(path: string): string {
    if path == "" then ""
    else if path[|path| - 1] == '/' then ""
    else FileName(path[..|path| - 1]) + [path[|path| - 1]]
  }

  /** `collect_files` passes over metadata files, in whatever directory they are. */
  predicate Skipped(path: string) {
    FileName(path) == METADATA_FILE
  }

  lemma {:induction false} FileNameBehind(dir: string, name: string)
    requires '/' !in name
    ensures FileName(name) == name && FileName(dir + "/" + name) == name
    decreases |name|
  {
    var n := |name| - 1;
    if n >= 0 {
      FileNameBehind(dir, name[..n]);
      assert name == name[..n] + [name[n]];
      assert (dir + "/" + name)[..|dir| + 1 + n] == dir + "/" + name[..n];
    }
  }

  lemma {:induction false} FileNameEnds(path: string) returns (dir: string)
    ensures '/' !in FileName(path)
    ensures path == FileName(path) || path == dir + "/" + FileName(path)
    decreases |path|
  {
    var n := |path| - 1;
    dir := "";
    if n >= 0 && path[n] == '/' {
      dir := path[..n];
    } else if n >= 0 {
      dir := FileNameEnds(path[..n]);
      assert path == path[..n] + [path[n]];
    }
  }

  /** What is passed over: the metadata file of the directory itself and of every directory below. */
  lemma SkippedExactly(path: string)
    ensures Skipped(path) <==> path == "cryptpilot-verity.metadata.fb"
                               || exists d: string :: path == d + "/" + "cryptpilot-verity.metadata.fb"
  {
    var dir := FileNameEnds(path);
    FileNameBehind("", METADATA_FILE);
    if d: string :| path == d + "/" + METADATA_FILE {
      FileNameBehind(d, METADATA_FILE);
    }
  }

  /** The files of a walk in their order, without the metadata files. */
  function Collected(walk: seq<string>): (files: seq<string>)
    ensures forall p :: p in files <==> p in walk && !Skipped(p)
    ensures forall p :: p in files <==>
              && p in walk && p != "cryptpilot-verity.metadata.fb"
              && forall d: string :: p != d + "/" + "cryptpilot-verity.metadata.fb"
  {
    assert forall p {:trigger Skipped(p)} ::
        Skipped(p) <==> p == "cryptpilot-verity.metadata.fb"
                        || exists d: string :: p == d + "/" + "cryptpilot-verity.metadata.fb"
    by {
      forall p: string
        ensures Skipped(p) <==> p == "cryptpilot-verity.metadata.fb"
                                || exists d: string :: p == d + "/" + "cryptpilot-verity.metadata.fb"
      {
        SkippedExactly(p);
      }
    }
    if walk == [] then []
    else if Skipped(walk[0]) then Collected(walk[1..])
    else [walk[0]] + Collected(walk[1..])
  }

  /** The directory walk reports every file of the directory once, in some order. */
  ghost predicate Walks(walk: seq<string>, dir: map<string, Bytes>) {
    && (forall p :: p in walk <==> p in dir)
    && forall i, j :: 0 <= i < j < |walk| ==> walk[i] != walk[j]
  }

  function InfosFor(env: Env, dir: map<string, Bytes>, files: seq<string>): (infos: seq<FileVerityInfo>)
    requires env.FileConfig().Valid() && forall p :: p in files ==> p in dir
    ensures |infos| == |files|
    ensures forall i :: 0 <= i < |files| ==> infos[i] == InfoFor(env, files[i], dir[files[i]])
  {
    seq(|files|, i requires 0 <= i < |files| => InfoFor(env, files[i], dir[files[i]]))
  }

  /** Every file to be measured is within the hasher's limit. */
  ghost predicate Measurable(env: Env, dir: map<string, Bytes>, files: seq<string>)
    requires env.Valid() && forall p :: p in files ==> p in dir
  {
    forall i :: 0 <= i < |files| ==> |dir[files[i]]| <= FILE_LIMIT
  }

  datatype Formatted = Formatted(metadata: FbMetadata, rootHash: string)

  ghost function FormatFiles(env: Env, dir: map<string, Bytes>, files: seq<string>, labels: map<string, string>)
    : Option<Formatted>
    requires env.Valid() && forall p :: p in files ==> p in dir
  {
    var md := Stored(InfosFor(env, dir, files), labels);
    if Measurable(env, dir, files) && MetadataHash(env, md).Some? then Some(Formatted(md, MetadataHash(env, md).value))
    else None
  }

  /** What `format` writes and prints. */
  ghost function FormatResult(env: Env, dir: map<string, Bytes>, walk: seq<string>, labels: map<string, string>)
    : Option<Formatted>
    requires env.Valid() && Walks(walk, dir)
  {
    FormatFiles(env, dir, Collected(walk), labels)
  }

  method MeasureFile(env: Env, path: string, data: Bytes) returns (info: Option<FileVerityInfo>)
    requires env.Valid()
    ensures info == if |data| <= FILE_LIMIT then Some(InfoFor(env, path, data)) else None
  {
    var m := CalculateFsVerityHash(env, data);
    if m.None? {
      return None;
    }
    var hash := ToDescriptorHash(env.hash, m.value.descriptor);
    info := Some(FileVerityInfo(path, m.value.descriptor, m.value.leaves, Hex(hash.value)));
  }

  /** The loop of `format` has got as far as `infos`. */
  ghost predicate Measured(env: Env, dir: map<string, Bytes>, files: seq<string>, infos: seq<FileVerityInfo>)
    requires env.Valid()
  {
    |infos| <= |files| && forall k :: 0 <= k < |infos| ==> MeasuredAs(env, dir, files[k], infos[k])
  }

  ghost predicate MeasuredAs(env: Env, dir: map<string, Bytes>, path: string, info: FileVerityInfo)
    requires env.Valid()
  {
    path in dir && |dir[path]| <= FILE_LIMIT && info == InfoFor(env, path, dir[path])
  }

  lemma MeasuredNext(env: Env, dir: map<string, Bytes>, files: seq<string>, infos: seq<FileVerityInfo>,
                     info: FileVerityInfo)
    requires env.Valid() && Measured(env, dir, files, infos) && |infos| < |files|
    requires MeasuredAs(env, dir, files[|infos|], info)
    ensures Measured(env, dir, files, infos + [info])
  {
  }

  lemma MeasuredAll(env: Env, dir: map<string, Bytes>, files: seq<string>, infos: seq<FileVerityInfo>)
    requires env.Valid() && (forall p :: p in files ==> p in dir)
    requires Measured(env, dir, files, infos) && |infos| == |files|
    ensures Measurable(env, dir, files) && infos == InfosFor(env, dir, files)
  {
  }

  /** The loop of `format` over the files; a file that cannot be read ends it. */
  method MeasureFiles(env: Env, dir: map<string, Bytes>, unreadable: set<string>, files: seq<string>)
    returns (r: Option<seq<FileVerityInfo>>)
    requires env.Valid() && forall p :: p in files ==> p in dir
    ensures r == if Measurable(env, dir, files) && AllReadable(unreadable, files)
                 then Some(InfosFor(env, dir, files)) else None
  {
    var infos: seq<FileVerityInfo> := [];
    for i := 0 to |files|
      invariant |infos| == i && Measured(env, dir, files, infos)
      invariant forall k :: 0 <= k < i ==> files[k] !in unreadable
    {
      if files[i] in unreadable {
        return None;
      }
      var info := MeasureFile(env, files[i], dir[files[i]]);
      if info.None? {
        assert !Measurable(env, dir, files);
        return None;
      }
      MeasuredNext(env, dir, files, infos, info.value);
      infos := infos + [info.value];
    }
    MeasuredAll(env, dir, files, infos);
    r := Some(infos);
  }

  predicate AllReadable(unreadable: set<string>, files: seq<string>) {
    forall p :: p in files ==> p !in unreadable
  }

  /**
   `format`: collect, measure, store, hash. It refuses to replace a metadata file unless
   forced, and fails on a file that cannot be read.
   */
  method FormatCommand(env: Env, dir: map<string, Bytes>, walk: seq<string>, labels: map<string, string>,
                       present: bool, force: bool, unreadable: set<string>)
    returns (r: Option<Formatted>)
    requires env.Valid() && Walks(walk, dir)
    ensures r == if (present && !force) || !AllReadable(unreadable, Collected(walk)) then None
                 else FormatResult(env, dir, walk, labels)
    ensures r.Some? <==> && (present ==> force)
                         && forall p :: p in dir && !Skipped(p) ==>
                              p !in unreadable && |dir[p]| <= 0x2000_0000_0000_0000
    ensures r.Some? ==> ListsExactly(env, dir, labels, r.value)
  {
    FormatSucceeds(env, dir, walk, labels);
    if FormatResult(env, dir, walk, labels).Some? {
      FormatLists(env, dir, walk, labels);
    }
    if present && !force {
      return None;
    }
    var infos := MeasureFiles(env, dir, unreadable, Collected(walk));
    if infos.None? {
      return None;
    }
    var md := SerializeMetadata(infos.value, labels);
    var root := CalculateMetadataHash(env, md);
    r := if root.Some? then Some(Formatted(md, root.value)) else None;
  }

  /** `format` succeeds on readable files exactly if every file to be listed is within the limit of the hasher. */
  lemma FormatSucceeds(env: Env, dir: map<string, Bytes>, walk: seq<string>, labels: map<string, string>)
    requires env.Valid() && Walks(walk, dir)
    ensures FormatResult(env, dir, walk, labels).Some? <==>
              forall p :: p in dir && !Skipped(p) ==> |dir[p]| <= 0x2000_0000_0000_0000
  {
    var files := Collected(walk);
    MeasurableMembers(env, dir, files);
    StoredEntries(InfosFor(env, dir, files), labels);
  }

  lemma StoredEntries(infos: seq<FileVerityInfo>, labels: map<string, string>)
    ensures Entries(Stored(infos, labels)).Some?
  {
    var sorted, md := Sort(InfoPath, infos), Stored(infos, labels);
    assert forall j :: 0 <= j < |FilesOf(md)| ==> FilesOf(md)[j] == StoreFile(sorted[j]);
  }

  /**
   What `format` writes and prints: reading the record gives exactly one entry for every file
   that is not a metadata file, in path order, and the labels; and the hash is that of the record.
   */
  ghost predicate ListsExactly(env: Env, dir: map<string, Bytes>, labels: map<string, string>, f: Formatted)
    requires env.Valid()
  {
    && TypedStore(f.metadata) && Read(f.metadata).Some?
    && var infos := Read(f.metadata).value.fileInfos;
    && (forall info :: info in infos <==>
          info.path in dir && !Skipped(info.path) && info == InfoFor(env, info.path, dir[info.path]))
    && (forall i, j :: 0 <= i < j < |infos| ==> infos[i].path != infos[j].path && Le(infos[i].path, infos[j].path))
    && Read(f.metadata).value.labels == labels
    && MetadataHash(env, f.metadata) == Some(f.rootHash)
  }

  lemma FormatLists(env: Env, dir: map<string, Bytes>, walk: seq<string>, labels: map<string, string>)
    requires env.Valid() && Walks(walk, dir) && FormatResult(env, dir, walk, labels).Some?
    ensures ListsExactly(env, dir, labels, FormatResult(env, dir, walk, labels).value)
  {
    var files := Collected(walk);
    var infos := InfosFor(env, dir, files);
    CollectedNoDuplicates(walk);
    InfosConsistent(env, dir, files);
    MetadataRoundTrip(infos, labels);
    PermutedDistinct(InfoPath, infos, Sort(InfoPath, infos));
    SameMembers(Sort(InfoPath, infos), infos);
    InfosMembers(env, dir, files);
  }

  /** The entry of a file, field by field. */
  lemma InfoForFields(env: Env, path: string, data: Bytes)
    requires env.Valid() && |data| <= 0x2000_0000_0000_0000
    ensures var c := Config(env.hash, 4096, []);
            var d := Descriptor(1, 1, 12, |data|, MerkleRoot(c, data), []);
            && InfoFor(env, path, data).path == path && InfoFor(env, path, data).descriptor == d
            && InfoFor(env, path, data).leaves == BlockHashes(c, data)
            && DescriptorBytes(d).Some?
            && InfoFor(env, path, data).descriptorHash == Hex(env.hash.h(DescriptorBytes(d).value))
  {
    FileDescriptor(env, data);
    UnsaltedHash(env.hash, DescriptorOf(env.FileConfig(), data));
  }

  lemma FileDescriptor(env: Env, data: Bytes)
    requires env.Valid() && |data| <= 0x2000_0000_0000_0000
    ensures var c := Config(env.hash, 4096, []);
            DescriptorOf(env.FileConfig(), data) == Descriptor(1, 1, 12, |data|, MerkleRoot(c, data), [])
  {
    DefaultByte();
    SmallWord(|data|);
  }

  lemma InfosMembers(env: Env, dir: map<string, Bytes>, files: seq<string>)
    requires env.Valid() && forall p :: p in files ==> p in dir
    ensures forall info :: info in InfosFor(env, dir, files) <==>
              info.path in files && info == InfoFor(env, info.path, dir[info.path])
  {
    var infos := InfosFor(env, dir, files);
    forall info: FileVerityInfo | info.path in files && info == InfoFor(env, info.path, dir[info.path])
      ensures info in infos
    {
      var i :| 0 <= i < |files| && files[i] == info.path;
      assert infos[i] == info;
    }
    forall info | info in infos
      ensures info.path in files && info == InfoFor(env, info.path, dir[info.path])
    {
      var i :| 0 <= i < |infos| && infos[i] == info;
      assert files[i] in files;
    }
  }

  // ---------- verify and open ----------

  ghost predicate SelfConsistent(env: Env, info: FileVerityInfo)
    requires env.Valid()
  {
    var d := info.descriptor;
    && ToDescriptorHash(env.hash, d).Some?
    && Hex(ToDescriptorHash(env.hash, d).value) == info.descriptorHash
    && Rebuilt(env.hash, info.leaves, d.salt, d.BlockSize()) == Some(d.rootHash)
  }

  /** `verify_self`. */
  method VerifySelf(env: Env, info: FileVerityInfo) returns (ok: bool)
    requires env.Valid() && info.Typed()
    ensures ok <==> SelfConsistent(env, info)
  {
    var calculated := ToDescriptorHash(env.hash, info.descriptor);
    if calculated.None? || Hex(calculated.value) != info.descriptorHash {
      return false;
    }
    var root := RebuildRootHash(env.hash, info.leaves, info.descriptor.salt, info.descriptor.BlockSize());
    ok := root == Some(info.descriptor.rootHash);
  }

  /**
   Exactly which entries pass: the salt fits and the hash of the descriptor bytes is the listed
   one; and a single leaf is the root hash, or the leaves, within the limits of the hasher, have
   it as their Merkle root. Nothing else about the descriptor is checked.
   */
  lemma SelfConsistentExactly(env: Env, info: FileVerityInfo)
    requires env.Valid() && info.Typed()
    ensures SelfConsistent(env, info) <==>
              var d, leaves, bs := info.descriptor, info.leaves, Pow2(info.descriptor.logBlockSize as nat % 64);
              var c := Config(env.hash, bs, d.salt);
              && |d.salt| <= 32 && DescriptorBytes(d).Some?
              && info.descriptorHash
                 == Hex(env.hash.h((if d.salt == [] then [] else d.salt + Zeros(64 - |d.salt|))
                                   + DescriptorBytes(d).value))
              && if |leaves| == 1 then leaves[0] == d.rootHash
                 else && bs >= 64 && Times(|leaves|, 32) <= Capacity(c)
                      && c.Valid() && MerkleRoot(c, Concat(leaves)) == d.rootHash
  {
    var d := info.descriptor;
    DescriptorFields(d);
    if |d.salt| <= 32 {
      DescriptorHashInput(env.hash, d);
      NewConfigValid(env.hash, d.BlockSize(), d.salt);
    }
  }

  /** The checks shared by `verify` and `open`: root hash, parsing, and every entry with itself. */
  ghost predicate MetadataAccepted(env: Env, md: FbMetadata, expected: string)
    requires env.Valid() && TypedStore(md)
  {
    && MetadataHash(env, md) == Some(expected)
    && Read(md).Some?
    && var infos := Read(md).value.fileInfos;
       forall i :: 0 <= i < |infos| ==> SelfConsistent(env, infos[i])
  }

  ghost predicate FileMatches(env: Env, dir: map<string, Bytes>, info: FileVerityInfo)
    requires env.Valid()
  {
    && info.path in dir && |dir[info.path]| <= FILE_LIMIT
    && FileHash(env, dir[info.path]) == info.descriptorHash
  }

  ghost predicate Verified(env: Env, dir: map<string, Bytes>, md: FbMetadata, expected: string, metadataOnly: bool)
    requires env.Valid() && TypedStore(md)
  {
    && MetadataAccepted(env, md, expected)
    && (metadataOnly ||
        var infos := Read(md).value.fileInfos;
        forall i :: 0 <= i < |infos| ==> FileMatches(env, dir, infos[i]))
  }

  lemma ReadInfosTyped(md: FbMetadata)
    requires TypedStore(md) && Read(md).Some?
    ensures |Read(md).value.fileInfos| == |FilesOf(md)|
    ensures forall i :: 0 <= i < |FilesOf(md)| ==>
              Some(Read(md).value.fileInfos[i]) == ReadFile(FilesOf(md)[i]) && Read(md).value.fileInfos[i].Typed()
  {
  }

  /** The first n entries are consistent with themselves. */
  ghost predicate AllConsistent(env: Env, infos: seq<FileVerityInfo>, n: nat)
    requires env.Valid() && n <= |infos|
  {
    forall i :: 0 <= i < n ==> SelfConsistent(env, infos[i])
  }

  lemma ConsistentNext(env: Env, infos: seq<FileVerityInfo>, n: nat)
    requires env.Valid() && n < |infos| && AllConsistent(env, infos, n) && SelfConsistent(env, infos[n])
    ensures AllConsistent(env, infos, n + 1)
  {
  }

  method VerifyEntries(env: Env, infos: seq<FileVerityInfo>) returns (ok: bool)
    requires env.Valid() && forall i :: 0 <= i < |infos| ==> infos[i].Typed()
    ensures ok <==> forall i :: 0 <= i < |infos| ==> SelfConsistent(env, infos[i])
  {
    for i := 0 to |infos|
      invariant AllConsistent(env, infos, i)
    {
      var info := infos[i];
      ok := VerifySelf(env, info);
      if !ok {
        return false;
      }
      ConsistentNext(env, infos, i);
    }
    ok := true;
  }

  /** One listed file: it exists, can be measured and has the listed hash. */
  method VerifyFile(env: Env, dir: map<string, Bytes>, info: FileVerityInfo) returns (ok: bool)
    requires env.Valid()
    ensures ok <==> FileMatches(env, dir, info)
  {
    if info.path !in dir {
      return false;
    }
    var measured := MeasureFile(env, info.path, dir[info.path]);
    ok := measured.Some? && measured.value.descriptorHash == info.descriptorHash;
  }

  method VerifyFiles(env: Env, dir: map<string, Bytes>, infos: seq<FileVerityInfo>) returns (ok: bool)
    requires env.Valid()
    ensures ok <==> forall i :: 0 <= i < |infos| ==> FileMatches(env, dir, infos[i])
  {
    for i := 0 to |infos|
      invariant forall k :: 0 <= k < i ==> FileMatches(env, dir, infos[k])
    {
      var info := infos[i];
      ok := VerifyFile(env, dir, info);
      if !ok {
        return false;
      }
    }
    ok := true;
  }

  /** The part of the checks that `open` shares; the parsed entries if they pass. */
  method CheckMetadata(env: Env, md: FbMetadata, expected: string) returns (r: Option<seq<FileVerityInfo>>)
    requires env.Valid() && TypedStore(md)
    ensures r == if MetadataAccepted(env, md, expected) then Some(Read(md).value.fileInfos) else None
    ensures r.Some? <==> && MetadataHash(env, md) == Some(expected) && Read(md).Some?
                         && forall info :: info in Read(md).value.fileInfos ==> SelfConsistent(env, info)
  {
    var root := CalculateMetadataHash(env, md);
    if root != Some(expected) {
      return None;
    }
    var parsed := DeserializeMetadata(md);
    if parsed.None? {
      return None;
    }
    ReadInfosTyped(md);
    var ok := VerifyEntries(env, parsed.value.fileInfos);
    r := if ok then Some(parsed.value.fileInfos) else None;
  }

  /** `verify`: the checks in order, each ending the command when it fails. */
  method VerifyCommand(env: Env, dir: map<string, Bytes>, md: FbMetadata, expected: string, metadataOnly: bool)
    returns (ok: bool)
    requires env.Valid() && TypedStore(md)
    ensures ok <==> Verified(env, dir, md, expected, metadataOnly)
    ensures ok <==> && MetadataHash(env, md) == Some(expected) && Read(md).Some?
                    && (forall info :: info in Read(md).value.fileInfos ==> SelfConsistent(env, info))
                    && (metadataOnly || forall info :: info in Read(md).value.fileInfos ==>
                          && info.path in dir && |dir[info.path]| <= 0x2000_0000_0000_0000
                          && FileHash(env, dir[info.path]) == info.descriptorHash)
  {
    var infos := CheckMetadata(env, md, expected);
    if infos.None? {
      return false;
    }
    if metadataOnly {
      return true;
    }
    ok := VerifyFiles(env, dir, infos.value);
  }

  // ---------- what acceptance means ----------

  /** The entry a file contributes to the hashed document of `format`. */
  lemma FormattedEntry(env: Env, dir: map<string, Bytes>, walk: seq<string>, labels: map<string, string>, p: string)
    requires env.Valid() && Walks(walk, dir) && p in dir && !Skipped(p)
    requires FormatResult(env, dir, walk, labels).Some?
    ensures |dir[p]| <= FILE_LIMIT
    ensures var md := FormatResult(env, dir, walk, labels).value.metadata;
            Entries(md).Some? && Entry(FileHash(env, dir[p]), p) in Entries(md).value
  {
    var files := Collected(walk);
    var i :| 0 <= i < |files| && files[i] == p;
    StoredEntry(InfosFor(env, dir, files), labels, i);
  }

  /** Every stored file is listed in the hashed document. */
  lemma StoredEntry(infos: seq<FileVerityInfo>, labels: map<string, string>, i: nat)
    requires i < |infos|
    ensures Entries(Stored(infos, labels)).Some?
    ensures Entry(infos[i].descriptorHash, infos[i].path) in Entries(Stored(infos, labels)).value
  {
    var sorted, md := Sort(InfoPath, infos), Stored(infos, labels);
    SortPermutes(InfoPath, infos);
    SameMembers(sorted, infos);
    assert infos[i] in sorted;
    var j :| 0 <= j < |sorted| && sorted[j] == infos[i];
    assert FilesOf(md)[j] == StoreFile(infos[i]);
    assert Entries(md).value[j] == Entry(infos[i].descriptorHash, infos[i].path);
  }

  /** Two documents with the same root hash list the same pairs, or collide. */
  lemma SameRootHash(env: Env, a: FbMetadata, b: FbMetadata)
    requires env.Valid() && MetadataHash(env, a).Some? && MetadataHash(env, a) == MetadataHash(env, b)
    ensures IsCollision(env.hash, (HashDocument(env, a), HashDocument(env, b)))
         || forall e :: e in Entries(a).value <==> e in Entries(b).value
  {
    var x, y := Entries(a).value, Entries(b).value;
    HexInjective(env.hash.h(HashDocument(env, a)), env.hash.h(HashDocument(env, b)));
    if HashDocument(env, a) == HashDocument(env, b) {
      SortPermutes(EntryPath, x);
      SortPermutes(EntryPath, y);
      SameMembers(x, y);
    }
  }

  /** An accepted metadata file has a parsed entry for every pair in its document. */
  lemma EntryIsParsed(env: Env, md: FbMetadata, e: Entry) returns (k: nat)
    requires TypedStore(md) && Read(md).Some? && Entries(md).Some? && e in Entries(md).value
    ensures k < |Read(md).value.fileInfos|
    ensures Read(md).value.fileInfos[k].path == e.path
    ensures Read(md).value.fileInfos[k].descriptorHash == e.descriptorHash
  {
    ReadInfosTyped(md);
    k :| 0 <= k < |Entries(md).value| && Entries(md).value[k] == e;
    assert EntryOf(FilesOf(md)[k]) == Some(e);
    assert ReadFile(FilesOf(md)[k]) == Some(Read(md).value.fileInfos[k]);
  }

  /**
   End to end: if `format` of one directory printed a hash and `verify` of another one
   succeeds against it, with whatever metadata, then every file but the metadata files is
   there with the same contents - or one of the pairs computed from the data collides.
   */
  lemma VerifyBinds(env: Env, dir: map<string, Bytes>, walk: seq<string>, labels: map<string, string>, f: Formatted,
                    dir': map<string, Bytes>, md: FbMetadata)
    requires env.Valid() && Walks(walk, dir) && FormatResult(env, dir, walk, labels) == Some(f)
    requires TypedStore(md) && Verified(env, dir', md, f.rootHash, false)
    ensures || IsCollision(env.hash, (HashDocument(env, f.metadata), HashDocument(env, md)))
            || forall p :: && p in dir && p != "cryptpilot-verity.metadata.fb"
                           && (forall d: string :: p != d + "/" + "cryptpilot-verity.metadata.fb") ==>
                 p in dir' && SameContents(env, dir[p], dir'[p])
  {
    SameRootHash(env, f.metadata, md);
    if !IsCollision(env.hash, (HashDocument(env, f.metadata), HashDocument(env, md))) {
      forall p | && p in dir && p != "cryptpilot-verity.metadata.fb"
                 && (forall d: string :: p != d + "/" + "cryptpilot-verity.metadata.fb")
        ensures p in dir' && SameContents(env, dir[p], dir'[p])
      {
        SkippedExactly(p);
        FormattedEntry(env, dir, walk, labels, p);
        AcceptedEntry(env, dir', md, f.rootHash, p, dir[p]);
      }
    }
  }

  /** Equal, or the pair computed from both collides. */
  ghost predicate SameContents(env: Env, a: Bytes, b: Bytes)
    requires env.Valid()
  {
    a == b || IsCollision(env.hash, FileCollision(env.FileConfig(), a, b))
  }

  /** Some parsed entry lists the file with the descriptor hash of these contents. */
  ghost predicate Listed(env: Env, infos: seq<FileVerityInfo>, p: string, data: Bytes)
    requires env.Valid()
  {
    exists info :: info in infos && info.path == p && info.descriptorHash == FileHash(env, data)
  }

  /**
   What `verify` says about the metadata in either mode, with `--metadata-only` that is all:
   against the hash that `format` printed, the metadata lists every formatted file, and lists
   nothing but formatted files, each with what `EntryBound` says - or the documents collide.
   */
  lemma MetadataBinds(env: Env, dir: map<string, Bytes>, walk: seq<string>, labels: map<string, string>, f: Formatted,
                      dir': map<string, Bytes>, md: FbMetadata, metadataOnly: bool)
    requires env.Valid() && Walks(walk, dir) && FormatResult(env, dir, walk, labels) == Some(f)
    requires TypedStore(md) && Verified(env, dir', md, f.rootHash, metadataOnly)
    ensures MetadataHash(env, md) == Some(f.rootHash) && Read(md).Some?
    ensures var infos := Read(md).value.fileInfos;
            || IsCollision(env.hash, (HashDocument(env, f.metadata), HashDocument(env, md)))
            || (&& (forall p :: p in dir && !Skipped(p) ==> Listed(env, infos, p, dir[p]))
                && (forall k :: 0 <= k < |infos| ==>
                      && infos[k].path in dir && !Skipped(infos[k].path)
                      && infos[k].descriptorHash == FileHash(env, dir[infos[k].path])
                      && EntryBound(env, dir[infos[k].path], infos[k])))
  {
    var infos := Read(md).value.fileInfos;
    SameRootHash(env, f.metadata, md);
    if !IsCollision(env.hash, (HashDocument(env, f.metadata), HashDocument(env, md))) {
      forall p | p in dir && !Skipped(p)
        ensures Listed(env, infos, p, dir[p])
      {
        FormattedEntry(env, dir, walk, labels, p);
        var k := EntryIsParsed(env, md, Entry(FileHash(env, dir[p]), p));
        assert infos[k] in infos;
      }
      forall k | 0 <= k < |infos|
        ensures && infos[k].path in dir && !Skipped(infos[k].path)
                && infos[k].descriptorHash == FileHash(env, dir[infos[k].path])
                && EntryBound(env, dir[infos[k].path], infos[k])
      {
        OpenBinds(env, dir, walk, labels, f, md, k);
        ParsedIsEntry(md, k);
        DocumentLists(env, dir, walk, labels, Entry(infos[k].descriptorHash, infos[k].path));
      }
    }
  }

  /** Every parsed entry is in the document. */
  lemma ParsedIsEntry(md: FbMetadata, k: nat)
    requires TypedStore(md) && Read(md).Some? && Entries(md).Some? && k < |Read(md).value.fileInfos|
    ensures var info := Read(md).value.fileInfos[k]; Entry(info.descriptorHash, info.path) in Entries(md).value
  {
    var info := Read(md).value.fileInfos[k];
    ReadInfosTyped(md);
    assert EntryOf(FilesOf(md)[k]) == Some(Entry(info.descriptorHash, info.path));
    assert Entries(md).value[k] == Entry(info.descriptorHash, info.path);
  }

  /**
   What the full mode adds: unless documents or files collide, it accepts a directory exactly
   if the metadata alone is accepted and every formatted file is there unchanged.
   */
  lemma VerifyExactly(env: Env, dir: map<string, Bytes>, walk: seq<string>, labels: map<string, string>, f: Formatted,
                      dir': map<string, Bytes>, md: FbMetadata)
    requires env.Valid() && Walks(walk, dir) && FormatResult(env, dir, walk, labels) == Some(f) && TypedStore(md)
    requires Entries(md).Some? ==> !IsCollision(env.hash, (HashDocument(env, f.metadata), HashDocument(env, md)))
    requires forall p :: p in dir && p in dir' ==>
               !IsCollision(env.hash, FileCollision(env.FileConfig(), dir[p], dir'[p]))
    ensures Verified(env, dir', md, f.rootHash, false) <==>
              && Verified(env, dir', md, f.rootHash, true)
              && forall p :: p in dir && !Skipped(p) ==> p in dir' && dir'[p] == dir[p]
  {
    if Verified(env, dir', md, f.rootHash, false) {
      VerifyBinds(env, dir, walk, labels, f, dir', md);
      forall p | p in dir && !Skipped(p)
        ensures p in dir' && dir'[p] == dir[p]
      {
        SkippedExactly(p);
        assert SameContents(env, dir[p], dir'[p]);
      }
    } else if && Verified(env, dir', md, f.rootHash, true)
              && forall p :: p in dir && !Skipped(p) ==> p in dir' && dir'[p] == dir[p] {
      MetadataBinds(env, dir, walk, labels, f, dir', md, true);
      var infos := Read(md).value.fileInfos;
      forall k | 0 <= k < |infos|
        ensures FileMatches(env, dir', infos[k])
      {
        FormattedEntry(env, dir, walk, labels, infos[k].path);
      }
    }
  }

  /** A file whose pair is in the accepted document is in the verified directory. */
  lemma AcceptedEntry(env: Env, dir: map<string, Bytes>, md: FbMetadata, expected: string, p: string, data: Bytes)
    requires env.Valid() && TypedStore(md) && Verified(env, dir, md, expected, false)
    requires |data| <= FILE_LIMIT && Entry(FileHash(env, data), p) in Entries(md).value
    ensures p in dir && SameContents(env, data, dir[p])
  {
    var k := EntryIsParsed(env, md, Entry(FileHash(env, data), p));
    assert FileMatches(env, dir, Read(md).value.fileInfos[k]);
    FileHashBinds(env, data, dir[p]);
  }

  lemma FileHashBinds(env: Env, a: Bytes, b: Bytes)
    requires env.Valid() && FileHash(env, a) == FileHash(env, b)
    requires |a| <= FILE_LIMIT && |b| <= FILE_LIMIT
    ensures a == b || IsCollision(env.hash, FileCollision(env.FileConfig(), a, b))
  {
    var c := env.FileConfig();
    FileHashIs(env, a);
    FileHashIs(env, b);
    HexInjective(ToDescriptorHash(env.hash, DescriptorOf(c, a)).value,
                 ToDescriptorHash(env.hash, DescriptorOf(c, b)).value);
    FileBinding(c, a, b);
  }

  lemma FileHashIs(env: Env, data: Bytes)
    requires env.Valid()
    ensures ToDescriptorHash(env.hash, DescriptorOf(env.FileConfig(), data)).Some?
    ensures FileHash(env, data) == Hex(ToDescriptorHash(env.hash, DescriptorOf(env.FileConfig(), data)).value)
  {
  }

  /**
   Mounting: what the checks of `open` say about one entry of the metadata. Its
   descriptor is that of a formatted file, and its leaves are the leaves of that file
   provided there are as many - or a pair computed from the data collides.
   */
  lemma OpenBinds(env: Env, dir: map<string, Bytes>, walk: seq<string>, labels: map<string, string>, f: Formatted,
                  md: FbMetadata, k: nat)
    requires env.Valid() && Walks(walk, dir) && FormatResult(env, dir, walk, labels) == Some(f)
    requires TypedStore(md) && MetadataAccepted(env, md, f.rootHash)
    requires k < |Read(md).value.fileInfos|
    ensures var info := Read(md).value.fileInfos[k];
            || IsCollision(env.hash, (HashDocument(env, f.metadata), HashDocument(env, md)))
            || (info.path in dir && !Skipped(info.path) && EntryBound(env, dir[info.path], info))
  {
    var info := Read(md).value.fileInfos[k];
    ReadInfosTyped(md);
    SameRootHash(env, f.metadata, md);
    if !IsCollision(env.hash, (HashDocument(env, f.metadata), HashDocument(env, md))) {
      var e := Entry(info.descriptorHash, info.path);
      assert EntryOf(FilesOf(md)[k]) == Some(e);
      assert Entries(md).value[k] == e;
      DocumentLists(env, dir, walk, labels, e);
      DescriptorHashBinds(env, dir[info.path], info);
    }
  }

  /** The document of `format` lists measured files and nothing else. */
  lemma DocumentLists(env: Env, dir: map<string, Bytes>, walk: seq<string>, labels: map<string, string>, e: Entry)
    requires env.Valid() && Walks(walk, dir) && FormatResult(env, dir, walk, labels).Some?
    requires e in Entries(FormatResult(env, dir, walk, labels).value.metadata).value
    ensures e.path in dir && !Skipped(e.path) && e.descriptorHash == FileHash(env, dir[e.path])
    ensures |dir[e.path]| <= FILE_LIMIT
  {
    var files := Collected(walk);
    var infos := InfosFor(env, dir, files);
    var i := StoredInfo(infos, labels, e);
    assert files[i] in files;
  }

  lemma StoredInfo(infos: seq<FileVerityInfo>, labels: map<string, string>, e: Entry) returns (i: nat)
    requires Entries(Stored(infos, labels)).Some? && e in Entries(Stored(infos, labels)).value
    ensures i < |infos| && e == Entry(infos[i].descriptorHash, infos[i].path)
  {
    var sorted, md := Sort(InfoPath, infos), Stored(infos, labels);
    SortPermutes(InfoPath, infos);
    SameMembers(sorted, infos);
    var j :| 0 <= j < |Entries(md).value| && Entries(md).value[j] == e;
    assert FilesOf(md)[j] == StoreFile(sorted[j]);
    assert sorted[j] in infos;
    i :| 0 <= i < |infos| && infos[i] == sorted[j];
  }

  /** The entry describes `data`, or there is a collision. */
  ghost predicate EntryBound(env: Env, data: Bytes, info: FileVerityInfo)
    requires env.Valid()
  {
    var c := env.FileConfig();
    || IsCollision(env.hash, DescriptorCollision(env.hash, info.descriptor, DescriptorOf(c, data)))
    || (info.descriptor == DescriptorOf(c, data) &&
        (|info.leaves| == |BlockHashes(c, data)| ==>
          || info.leaves == BlockHashes(c, data)
          || (|Concat(info.leaves)| == |Concat(BlockHashes(c, data))| &&
              IsCollision(env.hash, RootCollision(c, Concat(info.leaves), Concat(BlockHashes(c, data)))))))
  }

  lemma DescriptorHashBinds(env: Env, data: Bytes, info: FileVerityInfo)
    requires env.Valid() && info.Typed() && SelfConsistent(env, info)
    requires info.descriptorHash == FileHash(env, data) && |data| <= FILE_LIMIT
    ensures EntryBound(env, data, info)
  {
    var c, d := env.FileConfig(), info.descriptor;
    FileHashIs(env, data);
    HexInjective(ToDescriptorHash(env.hash, d).value, ToDescriptorHash(env.hash, DescriptorOf(c, data)).value);
    DescriptorBinding(env.hash, d, DescriptorOf(c, data));
    FileConfigValid(env);
    if d == DescriptorOf(c, data) && |info.leaves| == |BlockHashes(c, data)| {
      RebuildAgreement(c, data);
      BlockHashesShrink(c, data);
      LeavesBinding(c, info.leaves, BlockHashes(c, data));
    }
  }

  /** The same metadata but for the leaf list of file j. */
  ghost function WithLeaves(md: FbMetadata, j: nat, leaves: seq<Bytes>): FbMetadata
    requires j < |FilesOf(md)|
  {
    md.(files := Some(FilesOf(md)[j := FilesOf(md)[j].(level1 := Some(Concat(leaves)))]))
  }

  lemma WithLeavesReads(md: FbMetadata, j: nat, leaves: seq<Bytes>)
    requires TypedStore(md) && Read(md).Some? && j < |FilesOf(md)| && AllSized(leaves, DIGEST_SIZE)
    ensures |Read(md).value.fileInfos| == |FilesOf(md)| && TypedStore(WithLeaves(md, j, leaves))
    ensures var infos := Read(md).value.fileInfos;
            Read(WithLeaves(md, j, leaves))
            == Some(Read(md).value.(fileInfos := infos[j := infos[j].(leaves := leaves)]))
  {
    var md', infos := WithLeaves(md, j, leaves), Read(md).value.fileInfos;
    ReadInfosTyped(md);
    ChunksOfConcat(leaves, DIGEST_SIZE);
    var fs, fs', want := FilesOf(md), FilesOf(md'), infos[j := infos[j].(leaves := leaves)];
    forall i | 0 <= i < |fs'|
      ensures fs'[i].descriptor == fs[i].descriptor && ReadFile(fs[i]) == Some(infos[i])
    {
    }
    assert TypedStore(md');
    forall i | 0 <= i < |fs'|
      ensures ReadFile(fs'[i]) == Some(want[i])
    {
    }
    assert ReadFiles(fs').value == want;
  }

  /** The printed hash does not depend on the leaf lists. */
  lemma WithLeavesHash(env: Env, md: FbMetadata, j: nat, leaves: seq<Bytes>)
    requires j < |FilesOf(md)|
    ensures MetadataHash(env, WithLeaves(md, j, leaves)) == MetadataHash(env, md)
  {
    var md' := WithLeaves(md, j, leaves);
    assert forall i :: 0 <= i < |FilesOf(md)| ==> EntryOf(FilesOf(md')[i]) == EntryOf(FilesOf(md)[i]);
    if Entries(md).Some? {
      assert Entries(md').value == Entries(md).value;
    }
  }

  /**
   What the checks of `open` say about a leaf list: in accepted metadata it may be replaced
   by exactly those lists that rebuild to the root hash of the descriptor.
   */
  lemma LeavesAcceptedExactly(env: Env, md: FbMetadata, expected: string, j: nat, leaves: seq<Bytes>)
    requires env.Valid() && TypedStore(md) && MetadataAccepted(env, md, expected)
    requires j < |FilesOf(md)| && AllSized(leaves, DIGEST_SIZE)
    ensures |Read(md).value.fileInfos| == |FilesOf(md)| && TypedStore(WithLeaves(md, j, leaves))
    ensures var d := Read(md).value.fileInfos[j].descriptor;
            MetadataAccepted(env, WithLeaves(md, j, leaves), expected) <==>
              Rebuilt(env.hash, leaves, d.salt, d.BlockSize()) == Some(d.rootHash)
  {
    WithLeavesReads(md, j, leaves);
    WithLeavesHash(env, md, j, leaves);
    var infos, infos' := Read(md).value.fileInfos, Read(WithLeaves(md, j, leaves)).value.fileInfos;
    assert SelfConsistent(env, infos[j]);
    assert infos'[j] == infos[j].(leaves := leaves);
    assert forall i :: 0 <= i < |infos| && i != j ==> infos'[i] == infos[i];
  }

  /** The number of leaves is not among what is checked: the root hash alone is always accepted as the leaf list. */
  lemma CollapsedLeavesAccepted(env: Env, md: FbMetadata, expected: string, j: nat)
    requires env.Valid() && TypedStore(md) && MetadataAccepted(env, md, expected) && j < |FilesOf(md)|
    ensures |Read(md).value.fileInfos| == |FilesOf(md)|
    ensures var collapsed := WithLeaves(md, j, [Read(md).value.fileInfos[j].descriptor.rootHash]);
            TypedStore(collapsed) && MetadataAccepted(env, collapsed, expected)
  {
    ReadInfosTyped(md);
    LeavesAcceptedExactly(env, md, expected, j, [Read(md).value.fileInfos[j].descriptor.rootHash]);
  }

  // ---------- format's own output ----------

  lemma InfoForConsistent(env: Env, path: string, data: Bytes)
    requires env.Valid() && |data| <= FILE_LIMIT
    ensures InfoFor(env, path, data).Typed() && SelfConsistent(env, InfoFor(env, path, data))
  {
    FileConfigValid(env);
    BlockHashesShrink(env.FileConfig(), data);
    RebuildAgreement(env.FileConfig(), data);
  }

  /** What `format` wrote is accepted by `verify` on the unchanged directory, in both modes. */
  lemma FormatThenVerify(env: Env, dir: map<string, Bytes>, walk: seq<string>, labels: map<string, string>,
                         metadataOnly: bool)
    requires env.Valid() && Walks(walk, dir) && FormatResult(env, dir, walk, labels).Some?
    ensures var f := FormatResult(env, dir, walk, labels).value;
            TypedStore(f.metadata) && Verified(env, dir, f.metadata, f.rootHash, metadataOnly)
  {
    var infos := InfosFor(env, dir, Collected(walk));
    InfosConsistent(env, dir, Collected(walk));
    MetadataRoundTrip(infos, labels);
    SortedConsistent(env, dir, infos);
  }

  lemma InfosConsistent(env: Env, dir: map<string, Bytes>, files: seq<string>)
    requires env.Valid() && (forall p :: p in files ==> p in dir) && Measurable(env, dir, files)
    ensures forall i :: 0 <= i < |files| ==> InfosFor(env, dir, files)[i].Typed()
    ensures forall i :: 0 <= i < |files| ==> SelfConsistent(env, InfosFor(env, dir, files)[i])
    ensures forall i :: 0 <= i < |files| ==> FileMatches(env, dir, InfosFor(env, dir, files)[i])
  {
    forall i | 0 <= i < |files|
      ensures var info := InfosFor(env, dir, files)[i];
              info.Typed() && SelfConsistent(env, info) && FileMatches(env, dir, info)
    {
      InfoForConsistent(env, files[i], dir[files[i]]);
    }
  }

  /** Sorting keeps what holds of every entry. */
  lemma SortedConsistent(env: Env, dir: map<string, Bytes>, infos: seq<FileVerityInfo>)
    requires env.Valid()
    requires forall i :: 0 <= i < |infos| ==> SelfConsistent(env, infos[i]) && FileMatches(env, dir, infos[i])
    ensures forall i :: 0 <= i < |Sort(InfoPath, infos)| ==>
              SelfConsistent(env, Sort(InfoPath, infos)[i]) && FileMatches(env, dir, Sort(InfoPath, infos)[i])
  {
    var sorted := Sort(InfoPath, infos);
    SortPermutes(InfoPath, infos);
    SameMembers(sorted, infos);
    forall i | 0 <= i < |sorted|
      ensures SelfConsistent(env, sorted[i]) && FileMatches(env, dir, sorted[i])
    {
      assert sorted[i] in infos;
    }
  }

  /** The root hash depends neither on the order of the files nor on the labels. */
  lemma MetadataHashCanonical(env: Env, a: seq<FileVerityInfo>, b: seq<FileVerityInfo>,
                              labels: map<string, string>, labels': map<string, string>)
    requires multiset(a) == multiset(b) && DistinctKeys(InfoPath, a)
    ensures MetadataHash(env, Stored(a, labels)) == MetadataHash(env, Stored(b, labels'))
  {
    SortCanonical(InfoPath, a, b);
    SameFilesSameHash(env, Stored(a, labels), Stored(b, labels'));
  }

  lemma SameFilesSameHash(env: Env, a: FbMetadata, b: FbMetadata)
    requires FilesOf(a) == FilesOf(b)
    ensures MetadataHash(env, a) == MetadataHash(env, b)
  {
    if Entries(a).Some? {
      assert Entries(a).value == Entries(b).value;
    }
  }

  lemma {:induction false} CollectedNoDuplicates(walk: seq<string>)
    requires NoDuplicates(walk)
    ensures NoDuplicates(Collected(walk))
  {
    if walk != [] {
      CollectedNoDuplicates(walk[1..]);
      assert walk[0] !in walk[1..];
    }
  }

  /** Both formats fail, or both print the same root hash. */
  predicate SameRoot(a: Option<Formatted>, b: Option<Formatted>) {
    a.Some? == b.Some? && (a.Some? ==> a.value.rootHash == b.value.rootHash)
  }

  /** Nor does it depend on the order in which the directory is walked. */
  lemma FormatOrderIndependent(env: Env, dir: map<string, Bytes>, walk: seq<string>, walk': seq<string>,
                               labels: map<string, string>, labels': map<string, string>)
    requires env.Valid() && Walks(walk, dir) && Walks(walk', dir)
    ensures SameRoot(FormatResult(env, dir, walk, labels), FormatResult(env, dir, walk', labels'))
  {
    CollectedNoDuplicates(walk);
    CollectedNoDuplicates(walk');
    FilesOrderIndependent(env, dir, Collected(walk), Collected(walk'), labels, labels');
  }

  lemma FilesOrderIndependent(env: Env, dir: map<string, Bytes>, files: seq<string>, files': seq<string>,
                              labels: map<string, string>, labels': map<string, string>)
    requires env.Valid() && (forall p :: p in files ==> p in dir) && NoDuplicates(files) && NoDuplicates(files')
    requires forall p :: p in files <==> p in files'
    ensures SameRoot(FormatFiles(env, dir, files, labels), FormatFiles(env, dir, files', labels'))
  {
    InfosPermuted(env, dir, files, files');
    MetadataHashCanonical(env, InfosFor(env, dir, files), InfosFor(env, dir, files'), labels, labels');
    MeasurableMembers(env, dir, files);
    MeasurableMembers(env, dir, files');
  }

  lemma InfosPermuted(env: Env, dir: map<string, Bytes>, files: seq<string>, files': seq<string>)
    requires env.Valid() && (forall p :: p in files ==> p in dir) && NoDuplicates(files) && NoDuplicates(files')
    requires forall p :: p in files <==> p in files'
    ensures DistinctKeys(InfoPath, InfosFor(env, dir, files))
    ensures multiset(InfosFor(env, dir, files)) == multiset(InfosFor(env, dir, files'))
  {
    SameInfos(env, dir, files, files');
    SameInfos(env, dir, files', files);
    SameSet(InfosFor(env, dir, files), InfosFor(env, dir, files'));
  }

  lemma SameInfos(env: Env, dir: map<string, Bytes>, files: seq<string>, files': seq<string>)
    requires env.Valid() && (forall p :: p in files ==> p in dir) && NoDuplicates(files)
    requires forall p :: p in files <==> p in files'
    ensures DistinctKeys(InfoPath, InfosFor(env, dir, files)) && NoDuplicates(InfosFor(env, dir, files))
    ensures forall x :: x in InfosFor(env, dir, files) ==> x in InfosFor(env, dir, files')
  {
    var a, b := InfosFor(env, dir, files), InfosFor(env, dir, files');
    forall x | x in a
      ensures x in b
    {
      var i :| 0 <= i < |a| && a[i] == x;
      assert files[i] in files';
      var j :| 0 <= j < |files'| && files'[j] == files[i];
      assert b[j] == x;
    }
  }

  lemma MeasurableMembers(env: Env, dir: map<string, Bytes>, files: seq<string>)
    requires env.Valid() && forall p :: p in files ==> p in dir
    ensures Measurable(env, dir, files) <==> forall p :: p in files ==> |dir[p]| <= FILE_LIMIT
  {
    assert forall i :: 0 <= i < |files| ==> files[i] in files;
  }
}
