/**
 The verifier's table of inodes: the root, every file of the metadata and every
 directory on the way to a file.
 */
module InodeTable {
  import opened ByteStrings
  import opened Metadata

  const ROOT_INO: nat := 1

  /** A relative path as its list of components; paths are compared by components. */
  type Path = seq<string>

  function Components(s: string, acc: string := ""): Path
    decreases |s|
  {
    var done := if acc == "" then [] else [acc];
    if s == "" then done
    else if s[0] == '/' then done + Components(s[1..])
    else Components(s[1..], acc + [s[0]])
  }

  lemma {:induction false} ComponentsSplitFrom(a: string, b: string, acc: string)
    ensures Components(a + "/" + b, acc) == Components(a, acc) + Components(b)
    decreases |a|
  {
    var s := a + "/" + b;
    if a == "" {
      assert s[0] == '/' && s[1..] == b;
    } else {
      assert s[0] == a[0] && s[1..] == a[1..] + "/" + b;
      if a[0] == '/' {
        ComponentsSplitFrom(a[1..], b, "");
      } else {
        ComponentsSplitFrom(a[1..], b, acc + [a[0]]);
      }
    }
  }

  lemma {:induction false} ComponentsNameFrom(s: string, acc: string)
    requires '/' !in s
    ensures Components(s, acc) == if acc + s == "" then [] else [acc + s]
    decreases |s|
  {
    if s == "" {
      assert acc + s == acc;
    } else {
      ComponentsNameFrom(s[1..], acc + [s[0]]);
      assert acc + [s[0]] + s[1..] == acc + s;
    }
  }

  /** A path is cut at every slash, and what is empty is left out. */
  lemma ComponentsExactly(a: string, b: string, name: string)
    requires '/' !in name
    ensures Components(a + "/" + b) == Components(a) + Components(b)
    ensures Components(name) == if name == "" then [] else [name]
  {
    ComponentsSplitFrom(a, b, "");
    ComponentsNameFrom(name, "");
    assert "" + name == name;
  }

  datatype EntryKind = VerityEnabled(info: FileVerityInfo) | Directory(path: Path) {
    function Path(): Path {
      match this
      case VerityEnabled(info) => Components(info.path)
      case Directory(path) => path
    }
  }

  datatype FsEntry = FsEntry(ino: nat, kind: EntryKind)

  function FilePath(info: FileVerityInfo): Path { Components(info.path) }

  /** The directories between the root and `path`, both excluded. */
  ghost function Ancestors(path: Path): set<Path> {
    set k | 0 < k < |path| :: path[..k]
  }

  /** Everything the first files of a list cause to be registered. */
  ghost function Known(infos: seq<FileVerityInfo>): set<Path> {
    if infos == [] then {[]}
    else
      var n := |infos| - 1;
      Known(infos[..n]) + Ancestors(FilePath(infos[n])) + {FilePath(infos[n])}
  }

  /** No file path is the root, repeats an earlier file or names a directory an earlier file lies in. */
  ghost predicate NoReuse(infos: seq<FileVerityInfo>) {
    forall i :: 0 <= i < |infos| ==> FilePath(infos[i]) !in Known(infos[..i])
  }

  // ---------- the table as a value ----------

  datatype Table = Table(pathToIno: map<Path, nat>, inoToFile: map<nat, FsEntry>, nextIno: nat)

  /** Inodes are handed out consecutively, and looking up a path finds an entry with that path. */
  ghost predicate Consistent(t: Table) {
    && t.nextIno >= ROOT_INO
    && (forall n :: n in t.inoToFile <==> ROOT_INO <= n < t.nextIno)
    && (forall n :: n in t.inoToFile ==> t.inoToFile[n].ino == n && t.inoToFile[n].kind.Path() in t.pathToIno)
    && (forall p :: p in t.pathToIno ==> LeadsTo(t, p, t.pathToIno[p]))
  }

  ghost predicate LeadsTo(t: Table, p: Path, n: nat) {
    n in t.inoToFile && t.inoToFile[n].kind.Path() == p
  }

  /** Every inode is the one its path leads to: paths and inodes correspond one to one. */
  ghost predicate Bijective(t: Table)
    requires Consistent(t)
  {
    forall n :: n in t.inoToFile ==> t.pathToIno[t.inoToFile[n].kind.Path()] == n
  }

  /** Nothing of the old table has changed. */
  ghost predicate Extends(t: Table, t': Table) {
    && (forall p :: p in t.pathToIno ==> p in t'.pathToIno && t'.pathToIno[p] == t.pathToIno[p])
    && (forall n :: n in t.inoToFile ==> n in t'.inoToFile && t'.inoToFile[n] == t.inoToFile[n])
  }

  function Registered(t: Table, path: Path, kind: EntryKind): Table {
    Table(t.pathToIno[path := t.nextIno], t.inoToFile[t.nextIno := FsEntry(t.nextIno, kind)], t.nextIno + 1)
  }

  lemma RegisteredConsistent(t: Table, path: Path, kind: EntryKind)
    requires Consistent(t) && kind.Path() == path
    ensures Consistent(Registered(t, path, kind))
    ensures path !in t.pathToIno ==> Extends(t, Registered(t, path, kind))
  {
  }

  /** The correspondence survives a registration exactly if the path is new. */
  lemma RegisteredBijective(t: Table, path: Path, kind: EntryKind)
    requires Consistent(t) && kind.Path() == path
    requires Consistent(Registered(t, path, kind))
    ensures Bijective(Registered(t, path, kind)) <==> Bijective(t) && path !in t.pathToIno
  {
    var t' := Registered(t, path, kind);
    if path in t.pathToIno {
      var n := t.pathToIno[path];
      assert LeadsTo(t, path, n);
      assert t'.inoToFile[n] == t.inoToFile[n] && t'.pathToIno[path] != n;
    } else if Bijective(t') {
      forall n | n in t.inoToFile
        ensures t.pathToIno[t.inoToFile[n].kind.Path()] == n
      {
        assert t'.inoToFile[n] == t.inoToFile[n];
      }
    }
  }

  /** The walk from a path up to the root, registering directories not yet known. */
  function WithParents(t: Table, path: Path): Table
    decreases |path|
  {
    if |path| <= 1 then t
    else
      var parent := path[..|path| - 1];
      WithParents(if parent in t.pathToIno then t else Registered(t, parent, Directory(parent)), parent)
  }

  lemma {:induction false} WithParentsKeeps(t: Table, path: Path)
    requires Consistent(t)
    ensures Consistent(WithParents(t, path)) && Extends(t, WithParents(t, path))
    ensures Bijective(WithParents(t, path)) <==> Bijective(t)
    ensures WithParents(t, path).pathToIno.Keys == t.pathToIno.Keys + Ancestors(path)
    decreases |path|
  {
    WithParentsKeys(t, path);
    if |path| > 1 {
      var parent := path[..|path| - 1];
      if parent in t.pathToIno {
        WithParentsKeeps(t, parent);
      } else {
        RegisteredConsistent(t, parent, Directory(parent));
        RegisteredBijective(t, parent, Directory(parent));
        WithParentsKeeps(Registered(t, parent, Directory(parent)), parent);
      }
    }
  }

  lemma {:induction false} WithParentsKeys(t: Table, path: Path)
    ensures WithParents(t, path).pathToIno.Keys == t.pathToIno.Keys + Ancestors(path)
    decreases |path|
  {
    if |path| > 1 {
      var parent := path[..|path| - 1];
      AncestorsStep(path);
      WithParentsKeys(if parent in t.pathToIno then t else Registered(t, parent, Directory(parent)), parent);
    } else {
      assert Ancestors(path) == {};
    }
  }

  lemma AncestorsStep(path: Path)
    requires |path| > 1
    ensures Ancestors(path) == Ancestors(path[..|path| - 1]) + {path[..|path| - 1]}
  {
    var parent := path[..|path| - 1];
    assert forall k :: 0 < k < |parent| ==> parent[..k] == path[..k];
  }

  /** What the walk adds are directories. */
  lemma {:induction false} WithParentsAddsDirectories(t: Table, path: Path, p: Path)
    requires Consistent(t) && Consistent(WithParents(t, path)) && p !in t.pathToIno
    requires p in WithParents(t, path).pathToIno
    ensures WithParents(t, path).inoToFile[WithParents(t, path).pathToIno[p]].kind == Directory(p)
    decreases |path|
  {
    if |path| > 1 {
      var parent := path[..|path| - 1];
      if parent in t.pathToIno {
        WithParentsAddsDirectories(t, parent, p);
      } else {
        var t' := Registered(t, parent, Directory(parent));
        RegisteredConsistent(t, parent, Directory(parent));
        WithParentsKeeps(t', parent);
        if p != parent {
          WithParentsAddsDirectories(t', parent, p);
        }
      }
    }
  }

  function WithFile(t: Table, info: FileVerityInfo): Table {
    Registered(WithParents(t, FilePath(info)), FilePath(info), VerityEnabled(info))
  }

  const ROOT_ONLY: Table := Registered(Table(map[], map[], ROOT_INO), [], Directory([]))

  /** The table after `VerityVerifier::new`. */
  function BuildTable(infos: seq<FileVerityInfo>): Table {
    if infos == [] then ROOT_ONLY
    else
      var n := |infos| - 1;
      WithFile(BuildTable(infos[..n]), infos[n])
  }

  /**
   The table lists the root, the files and their ancestor directories, and nothing else;
   both lookups agree; and paths and inodes correspond one to one exactly if no path is reused.
   */
  lemma {:induction false} TableCorrect(infos: seq<FileVerityInfo>)
    ensures Consistent(BuildTable(infos))
    ensures BuildTable(infos).pathToIno.Keys == Known(infos)
    ensures forall p :: p in BuildTable(infos).pathToIno <==>
              p == [] || exists j :: 0 <= j < |infos| && p <= FilePath(infos[j])
    ensures Bijective(BuildTable(infos)) <==> NoReuse(infos)
    ensures [] in BuildTable(infos).pathToIno
    ensures NoReuse(infos) ==> BuildTable(infos).pathToIno[[]] == 1
  {
    forall p: Path
      ensures p in Known(infos) <==> p == [] || exists j :: 0 <= j < |infos| && p <= FilePath(infos[j])
    {
      KnownExactly(infos, p);
    }
    if infos == [] {
      RootKind();
    } else {
      var n := |infos| - 1;
      TableCorrect(infos[..n]);
      WithFileKeeps(BuildTable(infos[..n]), infos[n]);
      NoReuseStep(infos);
    }
  }

  lemma WithFileKeeps(t: Table, info: FileVerityInfo)
    requires Consistent(t)
    ensures Consistent(WithFile(t, info))
    ensures WithFile(t, info).pathToIno.Keys == t.pathToIno.Keys + Ancestors(FilePath(info)) + {FilePath(info)}
    ensures Bijective(WithFile(t, info)) <==> Bijective(t) && FilePath(info) !in t.pathToIno
    ensures FilePath(info) !in t.pathToIno ==> Extends(t, WithFile(t, info))
    ensures var t', n := WithFile(t, info), WithFile(t, info).nextIno - 1;
            t'.pathToIno[FilePath(info)] == n && t'.inoToFile[n] == FsEntry(n, VerityEnabled(info))
  {
    WithParentsKeeps(t, FilePath(info));
    var t' := WithParents(t, FilePath(info));
    assert FilePath(info) !in Ancestors(FilePath(info));
    RegisteredConsistent(t', FilePath(info), VerityEnabled(info));
    RegisteredBijective(t', FilePath(info), VerityEnabled(info));
  }

  lemma NoReuseStep(infos: seq<FileVerityInfo>)
    requires infos != []
    ensures var n := |infos| - 1;
            NoReuse(infos) <==> NoReuse(infos[..n]) && FilePath(infos[n]) !in Known(infos[..n])
  {
    var n := |infos| - 1;
    assert forall i :: 0 <= i < n ==> infos[..n][..i] == infos[..i] && infos[..n][i] == infos[i];
  }

  /** A file path leads to that file, any other path to a directory. */
  ghost predicate KindsRight(t: Table, infos: seq<FileVerityInfo>)
    requires Consistent(t)
  {
    && (forall i :: 0 <= i < |infos| ==>
          FilePath(infos[i]) in t.pathToIno && KindAt(t, FilePath(infos[i])) == VerityEnabled(infos[i]))
    && (forall p :: p in t.pathToIno && !NamesFile(infos, p) ==> KindAt(t, p) == Directory(p))
  }

  ghost predicate NamesFile(infos: seq<FileVerityInfo>, p: Path) {
    exists i :: 0 <= i < |infos| && FilePath(infos[i]) == p
  }

  lemma NamesFileStep(infos: seq<FileVerityInfo>, info: FileVerityInfo, p: Path)
    ensures NamesFile(infos + [info], p) <==> NamesFile(infos, p) || FilePath(info) == p
  {
    var all := infos + [info];
    assert all[|infos|] == info;
    if NamesFile(infos, p) {
      var i :| 0 <= i < |infos| && FilePath(infos[i]) == p;
      assert all[i] == infos[i];
    }
  }

  ghost function KindAt(t: Table, p: Path): EntryKind
    requires Consistent(t) && p in t.pathToIno
  {
    assert LeadsTo(t, p, t.pathToIno[p]);
    t.inoToFile[t.pathToIno[p]].kind
  }

  lemma {:induction false} TableKinds(infos: seq<FileVerityInfo>)
    requires NoReuse(infos)
    ensures Consistent(BuildTable(infos)) && KindsRight(BuildTable(infos), infos)
  {
    if infos == [] {
      RootKind();
    } else {
      var n := |infos| - 1;
      var before, info := infos[..n], infos[n];
      assert infos == before + [info];
      NoReuseStep(infos);
      TableCorrect(before);
      TableKinds(before);
      FileKinds(BuildTable(before), before, info);
    }
  }

  lemma RootKind()
    ensures Consistent(ROOT_ONLY) && KindsRight(ROOT_ONLY, [])
  {
    assert Consistent(Table(map[], map[], ROOT_INO));
    RegisteredConsistent(Table(map[], map[], ROOT_INO), [], Directory([]));
    assert ROOT_ONLY.pathToIno == map[[] := ROOT_INO];
  }

  lemma FileKinds(t: Table, infos: seq<FileVerityInfo>, info: FileVerityInfo)
    requires Consistent(t) && KindsRight(t, infos) && FilePath(info) !in t.pathToIno
    ensures Consistent(WithFile(t, info)) && KindsRight(WithFile(t, info), infos + [info])
  {
    var q := FilePath(info);
    var t1, t2 := WithParents(t, q), WithFile(t, info);
    WithParentsKeeps(t, q);
    assert q !in Ancestors(q);
    RegisteredConsistent(t1, q, VerityEnabled(info));
    forall p | p in t2.pathToIno && !NamesFile(infos + [info], p)
      ensures KindAt(t2, p) == Directory(p)
    {
      NamesFileStep(infos, info, p);
      DirectoryKind(t, infos, info, p);
    }
  }

  lemma DirectoryKind(t: Table, infos: seq<FileVerityInfo>, info: FileVerityInfo, p: Path)
    requires Consistent(t) && KindsRight(t, infos) && Consistent(WithFile(t, info))
    requires p in WithFile(t, info).pathToIno && !NamesFile(infos, p) && FilePath(info) != p
    ensures KindAt(WithFile(t, info), p) == Directory(p)
  {
    WithParentsKeeps(t, FilePath(info));
    if p in t.pathToIno {
      assert KindAt(t, p) == Directory(p);
    } else {
      WithParentsAddsDirectories(t, FilePath(info), p);
    }
  }

  /** Every file entry of the table, whether its path still leads to it or not, is one of the metadata. */
  lemma {:induction false} TableFiles(infos: seq<FileVerityInfo>, n: nat)
    requires n in BuildTable(infos).inoToFile && BuildTable(infos).inoToFile[n].kind.VerityEnabled?
    ensures BuildTable(infos).inoToFile[n].kind.info in infos
  {
    if infos != [] {
      var k := |infos| - 1;
      var t := WithParents(BuildTable(infos[..k]), FilePath(infos[k]));
      if n in t.inoToFile && n != t.nextIno {
        ParentsFiles(BuildTable(infos[..k]), FilePath(infos[k]), n);
        TableFiles(infos[..k], n);
      }
    }
  }

  /** The walk over the parents adds no file entries. */
  lemma {:induction false} ParentsFiles(t: Table, path: Path, n: nat)
    requires n in WithParents(t, path).inoToFile && WithParents(t, path).inoToFile[n].kind.VerityEnabled?
    ensures n in t.inoToFile && t.inoToFile[n] == WithParents(t, path).inoToFile[n]
    decreases |path|
  {
    if |path| > 1 {
      var parent := path[..|path| - 1];
      ParentsFiles(if parent in t.pathToIno then t else Registered(t, parent, Directory(parent)), parent, n);
    }
  }

  /** Distinct files, none of them the root or a directory another one lies in. */
  ghost predicate Separate(infos: seq<FileVerityInfo>) {
    && (forall i :: 0 <= i < |infos| ==> FilePath(infos[i]) != [])
    && (forall i, j :: 0 <= i < |infos| && 0 <= j < |infos| && i != j ==> !(FilePath(infos[i]) <= FilePath(infos[j])))
  }

  lemma SeparateNoReuse(infos: seq<FileVerityInfo>)
    requires Separate(infos)
    ensures NoReuse(infos)
  {
    forall i | 0 <= i < |infos|
      ensures FilePath(infos[i]) !in Known(infos[..i])
    {
      if FilePath(infos[i]) in Known(infos[..i]) {
        var j := KnownBecause(infos[..i], FilePath(infos[i]));
      }
    }
  }

  lemma {:induction false} KnownPrefixes(infos: seq<FileVerityInfo>, p: Path, j: nat)
    requires j < |infos| && p <= FilePath(infos[j])
    ensures p in Known(infos)
  {
    var n := |infos| - 1;
    if j == n {
      RootKnown(infos[..n]);
      assert p == FilePath(infos[n])[..|p|];
      assert p == [] || p == FilePath(infos[n]) || p in Ancestors(FilePath(infos[n]));
    } else {
      KnownPrefixes(infos[..n], p, j);
    }
  }

  lemma {:induction false} RootKnown(infos: seq<FileVerityInfo>)
    ensures [] in Known(infos)
  {
    if infos != [] {
      RootKnown(infos[..|infos| - 1]);
    }
  }

  /** Registered are the root and what a file path begins with. */
  lemma KnownExactly(infos: seq<FileVerityInfo>, p: Path)
    ensures p in Known(infos) <==> p == [] || exists j :: 0 <= j < |infos| && p <= FilePath(infos[j])
  {
    RootKnown(infos);
    if p in Known(infos) && p != [] {
      var j := KnownBecause(infos, p);
    }
    if j :| 0 <= j < |infos| && p <= FilePath(infos[j]) {
      KnownPrefixes(infos, p, j);
    }
  }

  lemma {:induction false} KnownBecause(infos: seq<FileVerityInfo>, p: Path) returns (j: nat)
    requires p in Known(infos) && p != []
    ensures j < |infos| && p <= FilePath(infos[j])
  {
    var n := |infos| - 1;
    if p in Known(infos[..n]) {
      j := KnownBecause(infos[..n], p);
    } else {
      j := n;
    }
  }

  // ---------- the verifier ----------

  class VerityVerifier {
    var pathToIno: map<Path, nat>
    var inoToFile: map<nat, FsEntry>
    var nextIno: nat

    function State(): Table
      reads this
    {
      Table(pathToIno, inoToFile, nextIno)
    }

    method RegisterEntry(path: Path, kind: EntryKind)
      modifies this
      ensures State() == Registered(old(State()), path, kind)
    {
      var ino := nextIno;
      nextIno := nextIno + 1;
      pathToIno := pathToIno[path := ino];
      inoToFile := inoToFile[ino := FsEntry(ino, kind)];
    }

    /** `VerityVerifier::new`. */
    constructor (infos: seq<FileVerityInfo>)
      ensures State() == BuildTable(infos)
    {
      pathToIno, inoToFile, nextIno := map[], map[], ROOT_INO;
      new;
      RegisterEntry([], Directory([]));
      for i := 0 to |infos|
        invariant State() == BuildTable(infos[..i])
      {
        var path := Components(infos[i].path);
        ghost var before := State();
        var current := path;
        while |current| > 0
          invariant WithParents(State(), current) == WithParents(before, path)
        {
          var parent := current[..|current| - 1];
          if parent == [] {
            break;
          }
          if parent !in pathToIno {
            RegisterEntry(parent, Directory(parent));
          }
          current := parent;
        }
        RegisterEntry(path, VerityEnabled(infos[i]));
        assert infos[..i + 1][..i] == infos[..i];
      }
      assert infos[..|infos|] == infos;
    }

    method LookupByIno(ino: nat) returns (r: Option<FsEntry>)
      ensures r == if ino in inoToFile then Some(inoToFile[ino]) else None
    {
      r := if ino in inoToFile then Some(inoToFile[ino]) else None;
    }

    /** The two lookups agree on every path and find nothing for a path that is not listed. */
    method LookupByPath(path: Path) returns (r: Option<FsEntry>)
      requires Consistent(State())
      ensures r.Some? <==> path in pathToIno
      ensures r.Some? ==> r.value.kind.Path() == path && r.value.ino in inoToFile && inoToFile[r.value.ino] == r.value
    {
      if path !in pathToIno {
        return None;
      }
      assert LeadsTo(State(), path, pathToIno[path]);
      r := LookupByIno(pathToIno[path]);
    }
  }
}
