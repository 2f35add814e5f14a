/**
 The metadata file: a record of every measured file plus labels, and the root hash
 over the (path, descriptor hash) pairs. The FlatBuffers library is taken as a faithful
 store for such a record, so absent fields are possible when reading.
 */
module Metadata {
  import opened ByteStrings
  import opened Descriptors
  import opened Ordering

  const DIGEST_SIZE: nat := 32

  datatype FileVerityInfo = FileVerityInfo(path: string, descriptor: Descriptor, leaves: seq<Bytes>,
                                           descriptorHash: string)
  {
    /** What the Rust types guarantee: digests are arrays of 32 bytes. */
    ghost predicate Typed() {
      |descriptor.rootHash| == DIGEST_SIZE && descriptor.dataSize < U64 && AllSized(leaves, DIGEST_SIZE)
    }
  }

  datatype MetadataInfo = MetadataInfo(fileInfos: seq<FileVerityInfo>, labels: map<string, string>)

  // ---------- the stored record ----------

  datatype FbDescriptor = FbDescriptor(version: Byte, hashAlgorithm: Byte, logBlockSize: Byte, dataSize: nat,
                                       rootHash: Option<Bytes>, salt: Option<Bytes>)
  datatype FbFile = FbFile(path: Option<string>, descriptor: Option<FbDescriptor>, level1: Option<Bytes>,
                           descriptorHash: Option<string>)
  datatype FbKeyValue = FbKeyValue(key: Option<string>, value: Option<string>)
  datatype FbMetadata = FbMetadata(version: nat, files: Option<seq<FbFile>>, labels: Option<seq<FbKeyValue>>)

  function InfoPath(info: FileVerityInfo): string { info.path }

  // ---------- writing ----------

  function StoreFile(info: FileVerityInfo): FbFile {
    var d := info.descriptor;
    FbFile(Some(info.path),
           Some(FbDescriptor(d.version, d.hashAlgorithm, d.logBlockSize, d.dataSize, Some(d.rootHash), Some(d.salt))),
           Some(Concat(info.leaves)),
           Some(info.descriptorHash))
  }

  function StoreFiles(infos: seq<FileVerityInfo>): (fs: seq<FbFile>)
    ensures |fs| == |infos|
    ensures forall i :: 0 <= i < |infos| ==> fs[i] == StoreFile(infos[i])
  {
    seq(|infos|, i requires 0 <= i < |infos| => StoreFile(infos[i]))
  }

  /** The keys of a `BTreeMap` in iteration order. */
  function SortedKeys(keys: set<string>): seq<string> {
    if keys == {} then []
    else
      LeastKey(keys);
      var k :| k in keys && forall j :: j in keys ==> Le(k, j);
      [k] + SortedKeys(keys - {k})
  }

  lemma {:induction false} LeastKey(keys: set<string>)
    requires keys != {}
    ensures exists k :: k in keys && forall j :: j in keys ==> Le(k, j)
    ensures forall a, b :: a in keys && b in keys && Le(a, b) && Le(b, a) ==> a == b
  {
    forall a, b | a in keys && b in keys && Le(a, b) && Le(b, a)
      ensures a == b
    {
      LeAntisymmetric(a, b);
    }
    var x :| x in keys;
    if keys == {x} {
      LeTotal(x, x);
      assert x in keys && forall j :: j in keys ==> Le(x, j);
    } else {
      var rest := keys - {x};
      assert keys == {x} + rest;
      LeastKey(rest);
      var k :| k in rest && forall j :: j in rest ==> Le(k, j);
      LeTotal(x, k);
      LeTotal(x, x);
      var least := if Le(x, k) then x else k;
      forall j | j in keys
        ensures Le(least, j)
      {
        if j != x && Le(x, k) { LeTransitive(x, k, j); }
      }
      assert least in keys;
    }
  }

  function StoreLabels(labels: map<string, string>, keys: seq<string>): (kvs: seq<FbKeyValue>)
    requires forall k :: k in keys ==> k in labels
    ensures |kvs| == |keys|
    ensures forall i :: 0 <= i < |keys| ==> kvs[i] == FbKeyValue(Some(keys[i]), Some(labels[keys[i]]))
  {
    seq(|keys|, i requires 0 <= i < |keys| => FbKeyValue(Some(keys[i]), Some(labels[keys[i]])))
  }

  lemma {:induction false} SortedKeysComplete(keys: set<string>)
    ensures forall k :: k in SortedKeys(keys) <==> k in keys
  {
    if keys != {} {
      LeastKey(keys);
      var k :| k in keys && forall j :: j in keys ==> Le(k, j);
      assert SortedKeys(keys) == [k] + SortedKeys(keys - {k});
      SortedKeysComplete(keys - {k});
    }
  }

  lemma {:induction false} SortedKeysSorted(keys: set<string>)
    ensures forall i, j :: 0 <= i < j < |SortedKeys(keys)| ==>
              SortedKeys(keys)[i] != SortedKeys(keys)[j] && Le(SortedKeys(keys)[i], SortedKeys(keys)[j])
  {
    if keys != {} {
      LeastKey(keys);
      var k :| k in keys && forall j :: j in keys ==> Le(k, j);
      var rest := SortedKeys(keys - {k});
      assert SortedKeys(keys) == [k] + rest;
      SortedKeysSorted(keys - {k});
      SortedKeysComplete(keys - {k});
      assert forall i :: 0 <= i < |rest| ==> rest[i] in keys - {k};
    }
  }

  function Stored(infos: seq<FileVerityInfo>, labels: map<string, string>): FbMetadata {
    SortedKeysComplete(labels.Keys);
    FbMetadata(1, Some(StoreFiles(Sort(InfoPath, infos))), Some(StoreLabels(labels, SortedKeys(labels.Keys))))
  }

  /** Files are stored in the order of their paths, labels in that of their keys. */
  lemma StoredOrder(infos: seq<FileVerityInfo>, labels: map<string, string>)
    ensures var md := Stored(infos, labels);
            && md.version == 1 && md.files.Some? && md.labels.Some? && |md.files.value| == |infos|
            && (forall i :: 0 <= i < |infos| ==> md.files.value[i].path.Some?)
            && (forall i, j :: 0 <= i < j < |infos| ==>
                  Le(md.files.value[i].path.value, md.files.value[j].path.value))
            && (forall i :: 0 <= i < |md.labels.value| ==> md.labels.value[i].key.Some?)
            && (forall i, j :: 0 <= i < j < |md.labels.value| ==>
                  Le(md.labels.value[i].key.value, md.labels.value[j].key.value))
  {
    SortPermutes(InfoPath, infos);
    SortSorts(InfoPath, infos);
    SortedKeysSorted(labels.Keys);
  }

  /** `serialize_metadata`. */
  method SerializeMetadata(infos: seq<FileVerityInfo>, labels: map<string, string>) returns (md: FbMetadata)
    ensures md == Stored(infos, labels)
  {
    var sorted := Sort(InfoPath, infos);
    var files := [];
    for i := 0 to |sorted|
      invariant files == StoreFiles(sorted)[..i]
    {
      files := files + [StoreFile(sorted[i])];
    }
    assert files == StoreFiles(sorted);
    SortedKeysComplete(labels.Keys);
    var keys := SortedKeys(labels.Keys);
    var kvs := [];
    for i := 0 to |keys|
      invariant kvs == StoreLabels(labels, keys)[..i]
    {
      kvs := kvs + [FbKeyValue(Some(keys[i]), Some(labels[keys[i]]))];
    }
    assert kvs == StoreLabels(labels, keys);
    md := FbMetadata(1, Some(files), Some(kvs));
  }

  // ---------- reading ----------

  /** `chunks_exact` with an empty remainder. */
  function Chunks(b: Bytes, n: nat): (r: Option<seq<Bytes>>)
    requires n > 0
    ensures r.Some? ==> AllSized(r.value, n)
  {
    if b == [] then Some([])
    else if |b| < n then None
    else
      match Chunks(b[n..], n)
      case None => None
      case Some(rest) => Some([b[..n]] + rest)
  }

  /** Cutting fails exactly if there is a remainder, and otherwise loses nothing. */
  lemma {:induction false} ChunksExactly(b: Bytes, n: nat)
    requires n > 0
    ensures Chunks(b, n).Some? <==> |b| % n == 0
    ensures Chunks(b, n).Some? ==> Concat(Chunks(b, n).value) == b
    decreases |b|
  {
    if b == [] {
      DivUnique(0, n, 0, 0);
    } else if |b| < n {
      DivUnique(|b|, n, 0, |b|);
    } else {
      ChunksExactly(b[n..], n);
      MulShift(|b| - n, |b|, 1, n);
      if Chunks(b, n).Some? {
        var rest := Chunks(b[n..], n).value;
        assert Concat([b[..n]] + rest) == b[..n] + Concat(rest);
      }
    }
  }

  function OrEmpty(b: Option<Bytes>): Bytes {
    if b.Some? then b.value else []
  }

  /** One file of `deserialize_metadata`; None for an error or a panic on a root hash of the wrong size. */
  function ReadFile(f: FbFile): (info: Option<FileVerityInfo>)
    requires f.descriptor.Some? ==> f.descriptor.value.dataSize < U64
    ensures info.Some? ==> info.value.Typed() && f.path == Some(info.value.path)
    ensures info.Some? ==> f.descriptorHash == Some(info.value.descriptorHash)
  {
    if f.path.None? || f.descriptorHash.None? || f.descriptor.None? then None
    else
      var d := f.descriptor.value;
      if d.rootHash.None? || |d.rootHash.value| != DIGEST_SIZE then None
      else
        match Chunks(OrEmpty(f.level1), DIGEST_SIZE)
        case None => None
        case Some(leaves) =>
          var descriptor := Descriptor(d.version, d.hashAlgorithm, d.logBlockSize, d.dataSize, d.rootHash.value,
                                       OrEmpty(d.salt));
          Some(FileVerityInfo(f.path.value, descriptor, leaves, f.descriptorHash.value))
  }

  /** Nothing is missing, the root hash has 32 bytes, and the leaves are whole digests. */
  predicate Readable(f: FbFile) {
    && f.path.Some? && f.descriptorHash.Some? && f.descriptor.Some?
    && f.descriptor.value.rootHash.Some? && |f.descriptor.value.rootHash.value| == 32
    && (f.level1.Some? ==> |f.level1.value| % 32 == 0)
  }

  /** Exactly which files can be read, and as what; an absent salt or leaf list is an empty one. */
  lemma ReadFileExactly(f: FbFile)
    requires f.descriptor.Some? ==> f.descriptor.value.dataSize < U64
    ensures ReadFile(f).Some? <==> Readable(f)
    ensures ReadFile(f).Some? ==>
              var info, d := ReadFile(f).value, f.descriptor.value;
              && info.path == f.path.value && info.descriptorHash == f.descriptorHash.value
              && AllSized(info.leaves, 32) && Concat(info.leaves) == (if f.level1.Some? then f.level1.value else [])
              && info.descriptor == Descriptor(d.version, d.hashAlgorithm, d.logBlockSize, d.dataSize,
                                               d.rootHash.value, if d.salt.Some? then d.salt.value else [])
  {
    ChunksExactly(OrEmpty(f.level1), DIGEST_SIZE);
  }

  /** `data_size` is stored as a 64-bit integer. */
  ghost predicate StoredSizes(fs: seq<FbFile>) {
    forall f :: f in fs && f.descriptor.Some? ==> f.descriptor.value.dataSize < U64
  }

  ghost predicate TypedStore(md: FbMetadata) {
    md.files.Some? ==> StoredSizes(md.files.value)
  }

  ghost function ReadFiles(fs: seq<FbFile>): (r: Option<seq<FileVerityInfo>>)
    requires StoredSizes(fs)
    ensures r.Some? <==> forall i :: 0 <= i < |fs| ==> ReadFile(fs[i]).Some?
    ensures r.Some? ==> |r.value| == |fs|
    ensures r.Some? ==> forall i :: 0 <= i < |fs| ==> Some(r.value[i]) == ReadFile(fs[i])
  {
    if forall i :: 0 <= i < |fs| ==> ReadFile(fs[i]).Some? then
      Some(seq(|fs|, i requires 0 <= i < |fs| && ReadFile(fs[i]).Some? => ReadFile(fs[i]).value))
    else
      None
  }

  predicate Complete(kv: FbKeyValue) {
    kv.key.Some? && kv.value.Some?
  }

  /** Inserting one label after the other, a later one replacing an earlier one. */
  function InsertLabels(kvs: seq<FbKeyValue>): map<string, string>
    requires forall i :: 0 <= i < |kvs| ==> Complete(kvs[i])
  {
    if kvs == [] then map[]
    else
      var n := |kvs| - 1;
      assert Complete(kvs[n]);
      InsertLabels(kvs[..n])[kvs[n].key.value := kvs[n].value.value]
  }

  lemma {:induction false} LabelKeys(kvs: seq<FbKeyValue>, k: string)
    requires forall i :: 0 <= i < |kvs| ==> Complete(kvs[i])
    ensures k in InsertLabels(kvs) <==> exists i :: 0 <= i < |kvs| && kvs[i].key == Some(k)
  {
    if kvs != [] {
      var n := |kvs| - 1;
      LabelKeys(kvs[..n], k);
      assert Complete(kvs[n]);
      assert kvs == kvs[..n] + [kvs[n]];
    }
  }

  /** The last label with a key is the one that stays. */
  lemma {:induction false} LastLabelStays(kvs: seq<FbKeyValue>, i: nat)
    requires i < |kvs| && (forall j :: 0 <= j < |kvs| ==> Complete(kvs[j])) && Complete(kvs[i])
    requires forall j :: i < j < |kvs| ==> kvs[j].key != kvs[i].key
    ensures kvs[i].key.value in InsertLabels(kvs) && InsertLabels(kvs)[kvs[i].key.value] == kvs[i].value.value
  {
    var n := |kvs| - 1;
    assert Complete(kvs[n]);
    if i < n {
      assert kvs[n].key != kvs[i].key;
      LastLabelStays(kvs[..n], i);
    }
  }

  ghost function ReadLabels(kvs: seq<FbKeyValue>): Option<map<string, string>> {
    if forall i :: 0 <= i < |kvs| ==> Complete(kvs[i]) then Some(InsertLabels(kvs)) else None
  }

  ghost function Read(md: FbMetadata): Option<MetadataInfo>
    requires TypedStore(md)
  {
    if md.version != 1 then None
    else
      var files := if md.files.None? then Some([]) else ReadFiles(md.files.value);
      var labels := if md.labels.None? then Some(map[]) else ReadLabels(md.labels.value);
      if files.Some? && labels.Some? then Some(MetadataInfo(files.value, labels.value)) else None
  }

  /** When reading succeeds. */
  lemma ReadExactly(md: FbMetadata)
    requires TypedStore(md)
    ensures Read(md).Some? <==> && md.version == 1
                                && (md.files.Some? ==> forall f :: f in md.files.value ==> Readable(f))
                                && (md.labels.Some? ==>
                                      forall kv :: kv in md.labels.value ==> kv.key.Some? && kv.value.Some?)
  {
    if md.files.Some? {
      var fs := md.files.value;
      forall f | f in fs
        ensures ReadFile(f).Some? <==> Readable(f)
      {
        ReadFileExactly(f);
      }
      assert (forall i :: 0 <= i < |fs| ==> ReadFile(fs[i]).Some?) <==> forall f :: f in fs ==> Readable(f);
    }
    if md.labels.Some? {
      var kvs := md.labels.value;
      assert (forall i :: 0 <= i < |kvs| ==> Complete(kvs[i])) <==>
               forall kv :: kv in kvs ==> kv.key.Some? && kv.value.Some?;
    }
  }

  /** The loop over the files, which stops at the first one that cannot be read. */
  method DeserializeFiles(files: seq<FbFile>) returns (r: Option<seq<FileVerityInfo>>)
    requires StoredSizes(files)
    ensures r == ReadFiles(files)
  {
    var result: seq<FileVerityInfo> := [];
    for i := 0 to |files|
      invariant |result| == i
      invariant forall k :: 0 <= k < i ==> ReadFile(files[k]) == Some(result[k])
    {
      var info := ReadFile(files[i]);
      if info.None? {
        return None;
      }
      result := result + [info.value];
    }
    assert result == ReadFiles(files).value;
    r := Some(result);
  }

  /** The loop over the labels, which stops at the first one without key or value. */
  method DeserializeLabels(kvs: seq<FbKeyValue>) returns (r: Option<map<string, string>>)
    ensures r == ReadLabels(kvs)
  {
    var labels: map<string, string> := map[];
    for i := 0 to |kvs|
      invariant forall k :: 0 <= k < i ==> Complete(kvs[k])
      invariant labels == InsertLabels(kvs[..i])
    {
      if kvs[i].key.None? || kvs[i].value.None? {
        assert !Complete(kvs[i]);
        return None;
      }
      labels := labels[kvs[i].key.value := kvs[i].value.value];
      assert kvs[..i + 1][..i] == kvs[..i];
    }
    assert kvs[..|kvs|] == kvs;
    r := Some(labels);
  }

  /** `deserialize_metadata`: stops at the first thing that is wrong. */
  method DeserializeMetadata(md: FbMetadata) returns (r: Option<MetadataInfo>)
    requires TypedStore(md)
    ensures r == Read(md)
    ensures r.Some? <==> && md.version == 1
                         && (md.files.Some? ==> forall f :: f in md.files.value ==> Readable(f))
                         && (md.labels.Some? ==>
                               forall kv :: kv in md.labels.value ==> kv.key.Some? && kv.value.Some?)
  {
    ReadExactly(md);
    if md.version != 1 {
      return None;
    }
    var files := Some([]);
    if md.files.Some? {
      files := DeserializeFiles(md.files.value);
      if files.None? {
        return None;
      }
    }
    var labels := Some(map[]);
    if md.labels.Some? {
      labels := DeserializeLabels(md.labels.value);
      if labels.None? {
        return None;
      }
    }
    r := Some(MetadataInfo(files.value, labels.value));
  }

  // ---------- round trip ----------

  /** Flattening the leaves and cutting them again. */
  lemma {:induction false} ChunksOfConcat(leaves: seq<Bytes>, n: nat)
    requires n > 0 && AllSized(leaves, n)
    ensures Chunks(Concat(leaves), n) == Some(leaves)
  {
    if leaves != [] {
      ChunksOfConcat(leaves[1..], n);
      assert Concat(leaves)[..n] == leaves[0] && Concat(leaves)[n..] == Concat(leaves[1..]);
      assert [leaves[0]] + leaves[1..] == leaves;
    }
  }

  lemma ReadStoredFiles(infos: seq<FileVerityInfo>)
    requires forall i :: 0 <= i < |infos| ==> infos[i].Typed()
    ensures StoredSizes(StoreFiles(infos)) && ReadFiles(StoreFiles(infos)) == Some(infos)
  {
    forall i | 0 <= i < |infos|
      ensures ReadFile(StoreFile(infos[i])) == Some(infos[i])
    {
      ChunksOfConcat(infos[i].leaves, DIGEST_SIZE);
    }
    assert ReadFiles(StoreFiles(infos)).value == infos;
  }

  lemma {:induction false} ReadStoredLabels(labels: map<string, string>, keys: seq<string>)
    requires forall k :: k in keys ==> k in labels
    ensures forall i :: 0 <= i < |keys| ==> Complete(StoreLabels(labels, keys)[i])
    ensures InsertLabels(StoreLabels(labels, keys)) == map k | k in keys :: labels[k]
  {
    if keys != [] {
      var n := |keys| - 1;
      var kvs, before := StoreLabels(labels, keys), keys[..n];
      ReadStoredLabels(labels, before);
      assert kvs[..n] == StoreLabels(labels, before);
      assert Complete(kvs[n]);
      assert InsertLabels(kvs) == InsertLabels(kvs[..n])[keys[n] := labels[keys[n]]];
      KeysSnoc(labels, before, keys[n]);
      assert keys == before + [keys[n]];
    }
  }

  lemma KeysSnoc(labels: map<string, string>, keys: seq<string>, key: string)
    requires (forall k :: k in keys ==> k in labels) && key in labels
    ensures (map k | k in keys :: labels[k])[key := labels[key]] == map k | k in keys + [key] :: labels[k]
  {
  }

  lemma LabelsRoundTrip(labels: map<string, string>)
    ensures forall k :: k in SortedKeys(labels.Keys) ==> k in labels
    ensures ReadLabels(StoreLabels(labels, SortedKeys(labels.Keys))) == Some(labels)
  {
    var keys := SortedKeys(labels.Keys);
    SortedKeysComplete(labels.Keys);
    ReadStoredLabels(labels, keys);
    assert (map k | k in keys :: labels[k]) == labels;
  }

  lemma FilesRoundTrip(infos: seq<FileVerityInfo>)
    requires forall i :: 0 <= i < |infos| ==> infos[i].Typed()
    ensures StoredSizes(StoreFiles(Sort(InfoPath, infos)))
    ensures ReadFiles(StoreFiles(Sort(InfoPath, infos))) == Some(Sort(InfoPath, infos))
  {
    var sorted := Sort(InfoPath, infos);
    SortPermutes(InfoPath, infos);
    SameMembers(sorted, infos);
    forall i | 0 <= i < |sorted|
      ensures sorted[i].Typed()
    {
      assert sorted[i] in infos;
    }
    ReadStoredFiles(sorted);
  }

  lemma StoredReads(infos: seq<FileVerityInfo>, labels: map<string, string>)
    requires forall i :: 0 <= i < |infos| ==> infos[i].Typed()
    ensures TypedStore(Stored(infos, labels))
    ensures Read(Stored(infos, labels)) == Some(MetadataInfo(Sort(InfoPath, infos), labels))
  {
    FilesRoundTrip(infos);
    LabelsRoundTrip(labels);
  }

  /** Nothing is read that was not stored. */
  lemma ReadIsStored(infos: seq<FileVerityInfo>, labels: map<string, string>, info: FileVerityInfo)
    requires forall i :: 0 <= i < |infos| ==> infos[i].Typed()
    requires TypedStore(Stored(infos, labels)) && Read(Stored(infos, labels)).Some?
    requires info in Read(Stored(infos, labels)).value.fileInfos
    ensures info in infos
  {
    StoredReads(infos, labels);
    SortPermutes(InfoPath, infos);
    SameMembers(Sort(InfoPath, infos), infos);
  }

  /** Everything comes back: the files in path order with their leaf lists, and the labels. */
  lemma MetadataRoundTrip(infos: seq<FileVerityInfo>, labels: map<string, string>)
    requires forall i :: 0 <= i < |infos| ==> infos[i].Typed()
    ensures TypedStore(Stored(infos, labels))
    ensures Read(Stored(infos, labels)) == Some(MetadataInfo(Sort(InfoPath, infos), labels))
    ensures multiset(Sort(InfoPath, infos)) == multiset(infos) && Sorted(InfoPath, Sort(InfoPath, infos))
  {
    SortPermutes(InfoPath, infos);
    SortSorts(InfoPath, infos);
    StoredReads(infos, labels);
  }
}
