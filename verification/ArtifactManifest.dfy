/**
 Building an artifact manifest from a directory: the tree walk, the canonical order, and the
 manifest as a function of the tree alone, whatever order directories are enumerated in.
 */
module ArtifactManifest {
  import opened Prelude
  import opened Text
  import opened Checksum
  import opened ManifestChunks

  const MANIFEST_VERSION := 1
  const MAX_CHUNK_SIZE: int := 4 * 1024 * 1024 * 1024

  // ----- The directory tree

  datatype Node =
    | RegularFile(content: Bytes)
    | Directory(children: map<string, Node>)
    | Symlink
    | Other

  predicate ValidName(name: string) {
    name != "" && '/' !in name
  }

  ghost predicate ValidTree(node: Node) {
    node.Directory? ==> forall name | name in node.children :: ValidName(name) && ValidTree(node.children[name])
  }

  /** What a relative path leads to, going through directories only. */
  function Lookup(node: Node, path: seq<string>): Option<Node> {
    if path == [] then Some(node)
    else if node.Directory? && path[0] in node.children then Lookup(node.children[path[0]], path[1..])
    else None
  }

  ghost predicate IsRegularFile(node: Node, path: seq<string>, content: Bytes) {
    Lookup(node, path) == Some(RegularFile(content))
  }

  /** The manifest's spelling of an absolute path. */
  function ManifestPath(path: seq<string>): string {
    "/" + Join(path, '/')
  }

  // ----- String order and sorting

  predicate Less(a: string, b: string) {
    b != "" && (a == "" || a[0] < b[0] || (a[0] == b[0] && Less(a[1..], b[1..])))
  }

  /** At the first place where they differ, `a` ends or has the smaller character. */
  ghost predicate DiffersAt(a: string, b: string, k: nat) {
    k <= |a| && k < |b| && a[..k] == b[..k] && (k == |a| || a[k] < b[k])
  }

  lemma {:induction false} DiffersCons(a: string, b: string, k: nat)
    requires a != "" && b != ""
    ensures DiffersAt(a, b, k + 1) <==> a[0] == b[0] && DiffersAt(a[1..], b[1..], k)
  {
    if k < |a| && k < |b| {
      assert a[..k + 1] == [a[0]] + a[1..][..k] && b[..k + 1] == [b[0]] + b[1..][..k];
    }
  }

  /** The order is the lexicographic one, a prefix before what it begins. */
  lemma {:induction false} LessIff(a: string, b: string)
    ensures Less(a, b) <==> exists k: nat :: DiffersAt(a, b, k)
    decreases |a|
  {
    if a == "" || b == "" {
      assert b != "" ==> DiffersAt(a, b, 0);
    } else {
      LessIff(a[1..], b[1..]);
      assert DiffersAt(a, b, 0) <==> a[0] < b[0];
      if k: nat :| DiffersAt(a[1..], b[1..], k) && a[0] == b[0] {
        DiffersCons(a, b, k);
      }
      if k: nat :| DiffersAt(a, b, k) && k > 0 {
        DiffersCons(a, b, k - 1);
      }
    }
  }

  lemma {:induction false} LessIsTotal(a: string, b: string)
    ensures a == b || Less(a, b) || Less(b, a)
    ensures !(Less(a, b) && Less(b, a)) && !Less(a, a)
    decreases |a|
  {
    if a != "" {
      LessIsTotal(a[1..], a[1..]);
      if b != "" {
        LessIsTotal(a[1..], b[1..]);
        assert a == [a[0]] + a[1..] && b == [b[0]] + b[1..];
      }
    }
  }

  lemma {:induction false} LessIsTransitive(a: string, b: string, c: string)
    requires Less(a, b) && Less(b, c)
    ensures Less(a, c)
    decreases |a|
  {
    if a != "" && a[0] == b[0] == c[0] {
      LessIsTransitive(a[1..], b[1..], c[1..]);
    }
  }

  /** Insert before the keys that are greater, keeping equal keys in order. */
  function InsertByKey<T>(s: seq<(string, T)>, e: (string, T)): seq<(string, T)> {
    if s == [] || !Less(e.0, s[|s| - 1].0) then s + [e]
    else InsertByKey(s[..|s| - 1], e) + [s[|s| - 1]]
  }

  function SortByKey<T>(s: seq<(string, T)>): seq<(string, T)> {
    if s == [] then [] else InsertByKey(SortByKey(s[..|s| - 1]), s[|s| - 1])
  }

  ghost predicate StrictlyIncreasing<T>(s: seq<(string, T)>) {
    forall i, j | 0 <= i < j < |s| :: Less(s[i].0, s[j].0)
  }

  ghost predicate DistinctKeys<T>(s: seq<(string, T)>) {
    forall i, j | 0 <= i < j < |s| :: s[i].0 != s[j].0
  }

  /** Every entry of `a` is an entry of `b`. */
  ghost predicate Within<T>(a: seq<(string, T)>, b: seq<(string, T)>) {
    forall i | 0 <= i < |a| :: a[i] in b
  }

  lemma {:induction false} InsertMembers<T>(s: seq<(string, T)>, e: (string, T))
    ensures Within(InsertByKey(s, e), s + [e]) && Within(s + [e], InsertByKey(s, e))
    ensures |InsertByKey(s, e)| == |s| + 1
  {
    if s != [] && Less(e.0, s[|s| - 1].0) {
      var n := |s| - 1;
      InsertMembers(s[..n], e);
      var rest, r := InsertByKey(s[..n], e), InsertByKey(s, e);
      assert r == rest + [s[n]];
      forall i | 0 <= i < |r| ensures r[i] in s + [e] {
        if i < |rest| {
          assert rest[i] in s[..n] + [e];
        }
      }
      forall i | 0 <= i < |s + [e]| ensures (s + [e])[i] in r {
        if i < n {
          assert (s[..n] + [e])[i] in rest;
        } else if i == |s| {
          assert (s[..n] + [e])[n] in rest;
        }
      }
    }
  }

  lemma {:induction false} WithinTrans<T>(a: seq<(string, T)>, b: seq<(string, T)>, c: seq<(string, T)>)
    requires Within(a, b) && Within(b, c)
    ensures Within(a, c)
  {
  }

  lemma {:induction false} WithinSnoc<T>(a: seq<(string, T)>, b: seq<(string, T)>, e: (string, T))
    requires Within(a, b)
    ensures Within(a + [e], b + [e])
  {
  }

  lemma {:induction false} InsertKeepsOrder<T>(s: seq<(string, T)>, e: (string, T))
    requires StrictlyIncreasing(s) && forall i | 0 <= i < |s| :: s[i].0 != e.0
    ensures StrictlyIncreasing(InsertByKey(s, e))
  {
    if s != [] {
      var n := |s| - 1;
      LessIsTotal(e.0, s[n].0);
      if Less(e.0, s[n].0) {
        InsertKeepsOrder(s[..n], e);
        InsertMembers(s[..n], e);
        var rest := InsertByKey(s[..n], e);
        forall i | 0 <= i < |rest| ensures Less(rest[i].0, s[n].0) {
          assert rest[i] in s[..n] + [e];
        }
      } else {
        forall i | 0 <= i < n ensures Less(s[i].0, e.0) {
          LessIsTransitive(s[i].0, s[n].0, e.0);
        }
      }
    }
  }

  /** Sorting entries with distinct keys puts exactly those entries in strictly increasing order. */
  lemma {:induction false} SortSorts<T>(s: seq<(string, T)>)
    requires DistinctKeys(s)
    ensures StrictlyIncreasing(SortByKey(s))
    ensures Within(SortByKey(s), s) && Within(s, SortByKey(s))
  {
    if s != [] {
      var n := |s| - 1;
      var init, sorted := s[..n], SortByKey(s[..n]);
      SortSorts(init);
      InsertMembers(sorted, s[n]);
      assert s == init + [s[n]];
      WithinSnoc(sorted, init, s[n]);
      WithinSnoc(init, sorted, s[n]);
      WithinTrans(SortByKey(s), sorted + [s[n]], s);
      WithinTrans(s, sorted + [s[n]], SortByKey(s));
      forall i | 0 <= i < |sorted| ensures sorted[i].0 != s[n].0 {
        assert sorted[i] in init;
      }
      InsertKeepsOrder(sorted, s[n]);
    }
  }

  lemma {:induction false} FirstIsLeast<T>(a: seq<(string, T)>, e: (string, T))
    requires StrictlyIncreasing(a) && e in a
    ensures e == a[0] || Less(a[0].0, e.0)
  {
  }

  lemma {:induction false} IncreasingTail<T>(a: seq<(string, T)>, i: nat)
    requires StrictlyIncreasing(a) && 0 < i < |a|
    ensures a[i] != a[0]
  {
    LessIsTotal(a[0].0, a[i].0);
  }

  lemma {:induction false} FirstEntry<T>(a: seq<(string, T)>, b: seq<(string, T)>)
    requires StrictlyIncreasing(a) && StrictlyIncreasing(b) && Within(a, b) && Within(b, a) && a != [] && b != []
    ensures a[0] == b[0]
  {
    LessIsTotal(a[0].0, b[0].0);
    FirstIsLeast(a, b[0]);
    FirstIsLeast(b, a[0]);
  }

  lemma {:induction false} WithinTail<T>(a: seq<(string, T)>, b: seq<(string, T)>)
    requires StrictlyIncreasing(a) && Within(a, b) && a != [] && b != [] && a[0] == b[0]
    ensures Within(a[1..], b[1..])
  {
    forall i | 0 <= i < |a[1..]| ensures a[1..][i] in b[1..] {
      IncreasingTail(a, i + 1);
      assert a[i + 1] in b;
      var k :| 0 <= k < |b| && b[k] == a[i + 1];
      assert b[1..][k - 1] == a[i + 1];
    }
  }

  /** Two strictly increasing sequences with the same entries are the same sequence. */
  lemma {:induction false} IncreasingIsUnique<T>(a: seq<(string, T)>, b: seq<(string, T)>)
    requires StrictlyIncreasing(a) && StrictlyIncreasing(b) && Within(a, b) && Within(b, a)
    ensures a == b
  {
    assert a != [] ==> a[0] in b;
    assert b != [] ==> b[0] in a;
    if a != [] && b != [] {
      FirstEntry(a, b);
      WithinTail(a, b);
      WithinTail(b, a);
      IncreasingIsUnique(a[1..], b[1..]);
      assert a == [a[0]] + a[1..] && b == [b[0]] + b[1..];
    }
  }

  // ----- Paths

  predicate ValidPath(path: seq<string>) {
    forall i | 0 <= i < |path| :: ValidName(path[i])
  }

  /** The manifest's spelling of a path: an empty part for the root, then its names in order, between slashes. */
  lemma {:induction false} ManifestPathSplits(path: seq<string>)
    requires ValidPath(path) && path != []
    ensures Split(ManifestPath(path), '/') == [""] + path
  {
    SplitJoin(path, '/');
    assert ManifestPath(path)[1..] == Join(path, '/');
    FindIsUnique(ManifestPath(path), '/', 0);
  }

  lemma {:induction false} ManifestPathIsInjective(a: seq<string>, b: seq<string>)
    requires ValidPath(a) && ValidPath(b) && a != [] && b != []
    requires ManifestPath(a) == ManifestPath(b)
    ensures a == b
  {
    assert Join(a, '/') == ManifestPath(a)[1..];
    assert Join(b, '/') == ManifestPath(b)[1..];
    SplitJoin(a, '/');
    SplitJoin(b, '/');
  }

  lemma {:induction false} FoundPathIsValid(node: Node, rel: seq<string>)
    requires ValidTree(node) && Lookup(node, rel).Some?
    ensures ValidPath(rel)
    decreases |rel|
  {
    if rel != [] {
      FoundPathIsValid(node.children[rel[0]], rel[1..]);
      forall i | 0 <= i < |rel| ensures ValidName(rel[i]) {
        if i > 0 { assert rel[i] == rel[1..][i - 1]; }
      }
    }
  }

  // ----- The walk

  datatype FoundFile = FoundFile(path: seq<string>, content: Bytes)

  /** `file` is a regular file below `dir`, whose own path is `at`. */
  ghost predicate Below(at: seq<string>, dir: Node, file: FoundFile) {
    at < file.path && IsRegularFile(dir, file.path[|at|..], file.content)
  }

  ghost predicate DistinctPaths(files: seq<FoundFile>) {
    forall i, j | 0 <= i < j < |files| :: files[i].path != files[j].path
  }

  /** `files` are the regular files below `dir` that are reached through the names in `names`, each once. */
  ghost predicate Finds(files: seq<FoundFile>, at: seq<string>, dir: Node, names: set<string>) {
    && (forall i | 0 <= i < |files| :: Below(at, dir, files[i]) && files[i].path[|at|] in names)
    && (forall file: FoundFile | Below(at, dir, file) && file.path[|at|] in names :: file in files)
    && DistinctPaths(files)
  }

  ghost function Names(entries: seq<(string, Node)>): set<string> {
    set i | 0 <= i < |entries| :: entries[i].0
  }

  lemma {:induction false} LookupStep(at: seq<string>, dir: Node, file: FoundFile, name: string)
    requires dir.Directory? && name in dir.children
    ensures Below(at, dir, file) && file.path[|at|] == name <==>
            at + [name] <= file.path && IsRegularFile(dir.children[name], file.path[|at| + 1..], file.content)
  {
  }

  /** What one entry adds: the subdirectory's files. */
  lemma {:induction false} DirectoryAdds(files: seq<FoundFile>, more: seq<FoundFile>, at: seq<string>, dir: Node, names: set<string>, name: string)
    requires dir.Directory? && name in dir.children && name !in names
    requires Finds(files, at, dir, names)
    requires dir.children[name].Directory?
    requires Finds(more, at + [name], dir.children[name], dir.children[name].children.Keys)
    ensures Finds(files + more, at, dir, names + {name})
  {
    var child, all := dir.children[name], files + more;
    forall i | 0 <= i < |more| ensures Below(at, dir, more[i]) && more[i].path[|at|] == name {
      LookupStep(at, dir, more[i], name);
      assert at + [name] < more[i].path;
    }
    forall i | 0 <= i < |all| ensures Below(at, dir, all[i]) && all[i].path[|at|] in names + {name} {
      if i >= |files| { assert all[i] == more[i - |files|]; }
    }
    forall file: FoundFile | Below(at, dir, file) && file.path[|at|] in names + {name} ensures file in all {
      if file.path[|at|] == name {
        LookupStep(at, dir, file, name);
        var rel := file.path[|at| + 1..];
        assert rel != [] && rel[0] in child.children;
        assert file.path[|at + [name]|] == rel[0];
        assert Below(at + [name], child, file);
        assert file in more;
      } else {
        assert file in files;
      }
    }
    forall i, j | 0 <= i < j < |all| ensures all[i].path != all[j].path {
      if i < |files| <= j {
        assert files[i].path[|at|] in names && more[j - |files|].path[|at|] == name;
      }
    }
  }

  /** What one entry adds: the file itself. */
  lemma {:induction false} FileAdds(files: seq<FoundFile>, at: seq<string>, dir: Node, names: set<string>, name: string)
    requires dir.Directory? && name in dir.children && name !in names
    requires Finds(files, at, dir, names)
    requires dir.children[name].RegularFile?
    ensures Finds(files + [FoundFile(at + [name], dir.children[name].content)], at, dir, names + {name})
  {
    var found := FoundFile(at + [name], dir.children[name].content);
    var all := files + [found];
    LookupStep(at, dir, found, name);
    assert found.path[|at| + 1..] == [];
    forall file: FoundFile | Below(at, dir, file) && file.path[|at|] in names + {name} ensures file in all {
      if file.path[|at|] == name {
        LookupStep(at, dir, file, name);
        assert file.path[|at| + 1..] == [];
        assert file.path == at + [name];
      } else {
        assert file in files;
      }
    }
    forall i, j | 0 <= i < j < |all| ensures all[i].path != all[j].path {
      if j == |files| {
        assert files[i].path[|at|] in names;
      }
    }
  }

  /** What one entry adds: nothing, for a symbolic link or a special file. */
  lemma {:induction false} OtherAdds(files: seq<FoundFile>, at: seq<string>, dir: Node, names: set<string>, name: string)
    requires dir.Directory? && name in dir.children && name !in names
    requires Finds(files, at, dir, names)
    requires dir.children[name].Symlink? || dir.children[name].Other?
    ensures Finds(files, at, dir, names + {name})
  {
    forall file: FoundFile | Below(at, dir, file) && file.path[|at|] in names + {name} ensures file in files {
      LookupStep(at, dir, file, name);
    }
  }

  /** Each name in `names` once, with the node it has in `children`. */
  ghost predicate Enumerates(entries: seq<(string, Node)>, children: map<string, Node>, names: set<string>) {
    && DistinctKeys(entries) && Names(entries) == names
    && forall i | 0 <= i < |entries| :: entries[i].0 in children && entries[i].1 == children[entries[i].0]
  }

  lemma {:induction false} EnumeratesSnoc(entries: seq<(string, Node)>, children: map<string, Node>, names: set<string>, name: string)
    requires Enumerates(entries, children, names) && name in children && name !in names
    ensures Enumerates(entries + [(name, children[name])], children, names + {name})
  {
    NamesSnoc(entries, (name, children[name]));
    DistinctSnoc(entries, (name, children[name]));
  }

  /** The entries of a directory, each once, in an order the file system chooses. */
  method ReadDirectory(children: map<string, Node>) returns (entries: seq<(string, Node)>)
    ensures Enumerates(entries, children, children.Keys)
  {
    entries := [];
    var left := children.Keys;
    while left != {}
      invariant left <= children.Keys && Enumerates(entries, children, children.Keys - left)
      decreases |left|
    {
      var name :| name in left;
      EnumeratesSnoc(entries, children, children.Keys - left, name);
      entries := entries + [(name, children[name])];
      assert children.Keys - left + {name} == children.Keys - (left - {name});
      left := left - {name};
    }
  }

  lemma {:induction false} DistinctSnoc(entries: seq<(string, Node)>, e: (string, Node))
    requires DistinctKeys(entries) && e.0 !in Names(entries)
    ensures DistinctKeys(entries + [e])
  {
  }

  lemma {:induction false} NamesSnoc(entries: seq<(string, Node)>, e: (string, Node))
    ensures Names(entries + [e]) == Names(entries) + {e.0}
  {
    var all := entries + [e];
    assert all[|entries|] == e;
    forall name | name in Names(entries) ensures name in Names(all) {
      var i :| 0 <= i < |entries| && entries[i].0 == name;
      assert all[i].0 == name;
    }
  }

  lemma {:induction false} SortedNames(entries: seq<(string, Node)>)
    requires DistinctKeys(entries)
    ensures Names(SortByKey(entries)) == Names(entries) && StrictlyIncreasing(SortByKey(entries))
    ensures Within(SortByKey(entries), entries)
  {
    var sorted := SortByKey(entries);
    SortSorts(entries);
    forall name | name in Names(entries) ensures name in Names(sorted) {
      var i :| 0 <= i < |entries| && entries[i].0 == name;
      assert entries[i] in sorted;
    }
    forall name | name in Names(sorted) ensures name in Names(entries) {
      var i :| 0 <= i < |sorted| && sorted[i].0 == name;
      assert sorted[i] in entries;
    }
  }

  lemma {:induction false} FreshName(entries: seq<(string, Node)>, k: nat)
    requires StrictlyIncreasing(entries) && k < |entries|
    ensures entries[k].0 !in Names(entries[..k])
    ensures Names(entries[..k + 1]) == Names(entries[..k]) + {entries[k].0}
  {
    forall i | 0 <= i < k ensures entries[i].0 != entries[k].0 {
      LessIsTotal(entries[i].0, entries[k].0);
    }
    assert entries[..k + 1] == entries[..k] + [entries[k]];
    NamesSnoc(entries[..k], entries[k]);
  }

  /** The recursive walk finds every regular file below the directory, once, and follows no symbolic link. */
  method CollectRegularFiles(at: seq<string>, dir: Node) returns (files: seq<FoundFile>)
    requires dir.Directory?
    ensures Finds(files, at, dir, dir.children.Keys)
    decreases dir
  {
    var entries := ReadDirectory(dir.children);
    SortedNames(entries);
    var sorted := SortByKey(entries);
    files := [];
    for k := 0 to |sorted|
      invariant Finds(files, at, dir, Names(sorted[..k]))
    {
      assert sorted[k] in entries;
      FreshName(sorted, k);
      var (name, node) := sorted[k];
      assert name in dir.children && node == dir.children[name];
      match node
      case Directory(_) =>
        var more := CollectRegularFiles(at + [name], node);
        DirectoryAdds(files, more, at, dir, Names(sorted[..k]), name);
        files := files + more;
      case RegularFile(content) =>
        FileAdds(files, at, dir, Names(sorted[..k]), name);
        files := files + [FoundFile(at + [name], content)];
      case _ =>
        OtherAdds(files, at, dir, Names(sorted[..k]), name);
    }
    assert sorted[..|sorted|] == sorted;
  }

  // ----- The manifest of a directory

  datatype ManifestFile = ManifestFile(fileIndex: nat, path: string, size: nat, checksum: bv32)

  datatype Manifest = Manifest(
    version: nat, sourceType: int, chunkSize: nat, files: seq<ManifestFile>, chunks: seq<ManifestChunk>)

  /** The regular files of a tree under their manifest paths, in increasing path order: a description, not a computation. */
  ghost predicate IsListing(rootPath: seq<string>, root: Node, listing: seq<(string, Bytes)>) {
    && StrictlyIncreasing(listing)
    && (forall i | 0 <= i < |listing| :: Listed(rootPath, root, listing[i]))
    && (forall file: FoundFile | Below(rootPath, root, file) :: (ManifestPath(file.path), file.content) in listing)
  }

  ghost predicate Listed(rootPath: seq<string>, root: Node, entry: (string, Bytes)) {
    exists file: FoundFile :: Below(rootPath, root, file) && entry == (ManifestPath(file.path), file.content)
  }

  /** A tree has one listing. */
  lemma {:induction false} ListingIsUnique(rootPath: seq<string>, root: Node, a: seq<(string, Bytes)>, b: seq<(string, Bytes)>)
    requires IsListing(rootPath, root, a) && IsListing(rootPath, root, b)
    ensures a == b
  {
    ListingWithin(rootPath, root, a, b);
    ListingWithin(rootPath, root, b, a);
    IncreasingIsUnique(a, b);
  }

  lemma {:induction false} ListingWithin(rootPath: seq<string>, root: Node, a: seq<(string, Bytes)>, b: seq<(string, Bytes)>)
    requires IsListing(rootPath, root, a) && IsListing(rootPath, root, b)
    ensures Within(a, b)
  {
  }

  function PathsOf(files: seq<FoundFile>): seq<(string, Bytes)> {
    seq(|files|, i requires 0 <= i < |files| => (ManifestPath(files[i].path), files[i].content))
  }

  lemma {:induction false} FoundPathsDiffer(rootPath: seq<string>, root: Node, a: FoundFile, b: FoundFile)
    requires ValidTree(root) && ValidPath(rootPath)
    requires Below(rootPath, root, a) && Below(rootPath, root, b) && a.path != b.path
    ensures ManifestPath(a.path) != ManifestPath(b.path)
  {
    FoundPathIsValid(root, a.path[|rootPath|..]);
    FoundPathIsValid(root, b.path[|rootPath|..]);
    assert a.path == rootPath + a.path[|rootPath|..] && b.path == rootPath + b.path[|rootPath|..];
    if ManifestPath(a.path) == ManifestPath(b.path) {
      ManifestPathIsInjective(a.path, b.path);
    }
  }

  /** Sorting what the walk found gives the listing. */
  lemma {:induction false} SortedWalkIsListing(rootPath: seq<string>, root: Node, files: seq<FoundFile>)
    requires ValidTree(root) && ValidPath(rootPath) && root.Directory?
    requires Finds(files, rootPath, root, root.children.Keys)
    ensures IsListing(rootPath, root, SortByKey(PathsOf(files)))
  {
    var paths := PathsOf(files);
    forall i, j | 0 <= i < j < |paths| ensures paths[i].0 != paths[j].0 {
      FoundPathsDiffer(rootPath, root, files[i], files[j]);
    }
    SortSorts(paths);
    var sorted := SortByKey(paths);
    forall i | 0 <= i < |sorted| ensures Listed(rootPath, root, sorted[i]) {
      assert sorted[i] in paths;
      var k :| 0 <= k < |paths| && paths[k] == sorted[i];
      assert Below(rootPath, root, files[k]);
    }
    forall file: FoundFile | Below(rootPath, root, file) ensures (ManifestPath(file.path), file.content) in sorted {
      assert file.path[|rootPath|] == file.path[|rootPath|..][0];
      assert file in files;
      var k :| 0 <= k < |files| && files[k] == file;
      assert paths[k] in sorted;
    }
  }

  function Contents(listing: seq<(string, Bytes)>): seq<Bytes> {
    seq(|listing|, i requires 0 <= i < |listing| => listing[i].1)
  }

  function FilesFor(crc: Bytes -> bv32, listing: seq<(string, Bytes)>): seq<ManifestFile> {
    seq(|listing|, i requires 0 <= i < |listing| =>
      ManifestFile(i, listing[i].0, |listing[i].1|, crc(listing[i].1)))
  }

  function ManifestFor(listing: seq<(string, Bytes)>, chunkSize: nat, sourceType: int): Manifest
    requires chunkSize > 0
  {
    Manifest(MANIFEST_VERSION, sourceType, chunkSize, FilesFor(Crc32c, listing), AllChunks(Contents(listing), chunkSize))
  }

  const INDICES: nat := U32_MAX + 1

  /** The files and the chunks must each be countable with 32-bit indices. */
  function Build(listing: seq<(string, Bytes)>, chunkSize: nat, sourceType: int): Result<Manifest, ManifestError>
    requires chunkSize > 0
  {
    if |AllChunks(Contents(listing[..Min(|listing|, INDICES)]), chunkSize)| > INDICES then Err(ChunkIndexExceedsU32)
    else if |listing| > INDICES then Err(FileIndexExceedsU32)
    else Ok(ManifestFor(listing, chunkSize, sourceType))
  }

  lemma {:induction false} ChunksGrow(contents: seq<Bytes>, k: nat, chunkSize: nat)
    requires chunkSize > 0 && k <= |contents|
    ensures |AllChunks(contents[..k], chunkSize)| <= |AllChunks(contents, chunkSize)|
  {
    if k == |contents| {
      assert contents[..k] == contents;
    } else {
      var n := |contents| - 1;
      ChunksGrow(contents[..n], k, chunkSize);
      assert contents[..n][..k] == contents[..k];
    }
  }

  lemma {:induction false} ContentsTake(listing: seq<(string, Bytes)>, k: nat)
    requires k <= |listing|
    ensures Contents(listing[..k]) == Contents(listing)[..k]
  {
  }

  /** One more file: its chunks come after those of the files before it. */
  lemma {:induction false} NextFile(listing: seq<(string, Bytes)>, k: nat, chunkSize: nat)
    requires chunkSize > 0 && k < |listing|
    ensures AllChunks(Contents(listing[..k + 1]), chunkSize)
            == AllChunks(Contents(listing[..k]), chunkSize)
               + FileChunks(listing[k].1, k, |AllChunks(Contents(listing[..k]), chunkSize)|, chunkSize)
  {
    var contents := Contents(listing[..k + 1]);
    assert contents[..k] == Contents(listing[..k]);
    assert contents[k] == listing[k].1;
  }

  lemma {:induction false} TooManyChunks(listing: seq<(string, Bytes)>, k: nat, chunkSize: nat, sourceType: int)
    requires chunkSize > 0 && k < |listing| && k < INDICES
    requires |AllChunks(Contents(listing[..k + 1]), chunkSize)| > INDICES
    ensures Build(listing, chunkSize, sourceType) == Err(ChunkIndexExceedsU32)
  {
    var bound := Min(|listing|, INDICES);
    ContentsTake(listing[..bound], k + 1);
    assert listing[..bound][..k + 1] == listing[..k + 1];
    ChunksGrow(Contents(listing[..bound]), k + 1, chunkSize);
  }

  lemma {:induction false} FilesSnoc(crc: Bytes -> bv32, listing: seq<(string, Bytes)>, k: nat)
    requires k < |listing|
    ensures FilesFor(crc, listing[..k + 1])
            == FilesFor(crc, listing[..k]) + [ManifestFile(k, listing[k].0, |listing[k].1|, crc(listing[k].1))]
  {
  }

  /** The loop over the sorted files; `readSizes` says how much each read of each file returns. */
  method BuildManifest(listing: seq<(string, Bytes)>, chunkSize: nat, sourceType: int, readSizes: (nat, nat) -> nat)
    returns (result: Result<Manifest, ManifestError>)
    requires chunkSize > 0
    ensures result == Build(listing, chunkSize, sourceType)
  {
    var files, chunks := [], [];
    for k := 0 to |listing|
      invariant k <= INDICES && |chunks| <= INDICES
      invariant files == FilesFor(Crc32c, listing[..k])
      invariant chunks == AllChunks(Contents(listing[..k]), chunkSize)
    {
      var (path, content) := listing[k];
      if k > U32_MAX {
        return Err(FileIndexExceedsU32);
      }
      var checksum := FileChecksum(content, offset => readSizes(k, offset));
      FilesSnoc(Crc32c, listing, k);
      files := files + [ManifestFile(k, path, |content|, checksum)];
      NextFile(listing, k, chunkSize);
      var more := ChunksForFile(content, k, |chunks|, chunkSize);
      if more.Err? {
        TooManyChunks(listing, k, chunkSize, sourceType);
        return Err(more.error);
      }
      chunks := chunks + more.value;
    }
    assert listing[..|listing|] == listing;
    return Ok(Manifest(MANIFEST_VERSION, sourceType, chunkSize, files, chunks));
  }

  /** What building a manifest of a tree must give: it mentions no enumeration order. */
  ghost predicate IsResult(rootPath: seq<string>, root: Node, chunkSize: nat, sourceType: int, result: Result<Manifest, ManifestError>) {
    if chunkSize == 0 then result == Err(ZeroChunkSize)
    else if chunkSize > MAX_CHUNK_SIZE then result == Err(ChunkSizeTooLarge)
    else if !root.Directory? then result == Err(NotADirectory)
    else exists listing :: IsListing(rootPath, root, listing) && result == Build(listing, chunkSize, sourceType)
  }

  method FromDirectory(rootPath: seq<string>, root: Node, chunkSize: nat, sourceType: int, readSizes: (nat, nat) -> nat)
    returns (result: Result<Manifest, ManifestError>)
    requires ValidPath(rootPath) && ValidTree(root)
    ensures IsResult(rootPath, root, chunkSize, sourceType, result)
  {
    if chunkSize == 0 {
      return Err(ZeroChunkSize);
    }
    if chunkSize > MAX_CHUNK_SIZE {
      return Err(ChunkSizeTooLarge);
    }
    if !root.Directory? {
      return Err(NotADirectory);
    }
    var files := CollectRegularFiles(rootPath, root);
    SortedWalkIsListing(rootPath, root, files);
    var listing := SortByKey(PathsOf(files));
    result := BuildManifest(listing, chunkSize, sourceType, readSizes);
  }

  /** Two builds of one tree agree, in whatever order its directories were enumerated. */
  lemma {:induction false} ManifestIsDeterministic(rootPath: seq<string>, root: Node, chunkSize: nat, sourceType: int,
                                a: Result<Manifest, ManifestError>, b: Result<Manifest, ManifestError>)
    requires IsResult(rootPath, root, chunkSize, sourceType, a) && IsResult(rootPath, root, chunkSize, sourceType, b)
    ensures a == b
  {
    if 0 < chunkSize <= MAX_CHUNK_SIZE && root.Directory? {
      var x :| IsListing(rootPath, root, x) && a == Build(x, chunkSize, sourceType);
      var y :| IsListing(rootPath, root, y) && b == Build(y, chunkSize, sourceType);
      ListingIsUnique(rootPath, root, x, y);
    }
  }

  /** The manifest's entry for a file found in the tree. */
  ghost predicate Describes(entry: ManifestFile, crc: Bytes -> bv32, file: FoundFile) {
    entry.path == ManifestPath(file.path) && entry.size == |file.content| && entry.checksum == crc(file.content)
  }

  ghost predicate DescribesSome(entry: ManifestFile, crc: Bytes -> bv32, rootPath: seq<string>, root: Node) {
    exists file: FoundFile :: Below(rootPath, root, file) && Describes(entry, crc, file)
  }

  ghost predicate DescribedIn(files: seq<ManifestFile>, crc: Bytes -> bv32, file: FoundFile) {
    exists i :: 0 <= i < |files| && Describes(files[i], crc, file)
  }

  /** The entries are exactly the regular files of the tree, numbered in strictly increasing path order. */
  ghost predicate ListsTree(files: seq<ManifestFile>, crc: Bytes -> bv32, rootPath: seq<string>, root: Node) {
    && (forall i | 0 <= i < |files| :: files[i].fileIndex == i && DescribesSome(files[i], crc, rootPath, root))
    && (forall file: FoundFile | Below(rootPath, root, file) :: DescribedIn(files, crc, file))
    && (forall i, j | 0 <= i < j < |files| :: Less(files[i].path, files[j].path))
  }

  lemma {:induction false} EntryDescribesSome(rootPath: seq<string>, root: Node, crc: Bytes -> bv32, listing: seq<(string, Bytes)>, i: nat)
    requires i < |listing| && Listed(rootPath, root, listing[i])
    ensures DescribesSome(FilesFor(crc, listing)[i], crc, rootPath, root)
  {
    var file: FoundFile :| Below(rootPath, root, file) && listing[i] == (ManifestPath(file.path), file.content);
    assert Describes(FilesFor(crc, listing)[i], crc, file);
  }

  lemma {:induction false} FileIsDescribed(crc: Bytes -> bv32, listing: seq<(string, Bytes)>, file: FoundFile)
    requires (ManifestPath(file.path), file.content) in listing
    ensures DescribedIn(FilesFor(crc, listing), crc, file)
  {
    var i :| 0 <= i < |listing| && listing[i] == (ManifestPath(file.path), file.content);
    assert Describes(FilesFor(crc, listing)[i], crc, file);
  }

  lemma {:induction false} ListingListsTree(rootPath: seq<string>, root: Node, crc: Bytes -> bv32, listing: seq<(string, Bytes)>)
    requires IsListing(rootPath, root, listing)
    ensures ListsTree(FilesFor(crc, listing), crc, rootPath, root)
  {
    hide Listed, DescribesSome, DescribedIn;
    var files := FilesFor(crc, listing);
    forall i | 0 <= i < |files| ensures DescribesSome(files[i], crc, rootPath, root) {
      EntryDescribesSome(rootPath, root, crc, listing, i);
    }
    forall file: FoundFile | Below(rootPath, root, file) ensures DescribedIn(files, crc, file) {
      FileIsDescribed(crc, listing, file);
    }
  }

  /** A built manifest lists exactly the regular files of its tree, each with its size and checksum. */
  lemma {:induction false} ManifestDescribesTree(rootPath: seq<string>, root: Node, chunkSize: nat, sourceType: int, m: Manifest)
    requires IsResult(rootPath, root, chunkSize, sourceType, Ok(m))
    ensures ListsTree(m.files, Crc32c, rootPath, root)
    ensures m.chunkSize == chunkSize && m.sourceType == sourceType && m.version == MANIFEST_VERSION
  {
    var listing :| IsListing(rootPath, root, listing) && Ok(m) == Build(listing, chunkSize, sourceType);
    ListingListsTree(rootPath, root, Crc32c, listing);
  }

  /** Where the chunks of file `i` begin, counted from the sizes of the files before it. */
  function FirstChunk(files: seq<ManifestFile>, i: nat, chunkSize: nat): nat
    requires chunkSize > 0 && i <= |files|
  {
    if i == 0 then 0 else FirstChunk(files, i - 1, chunkSize) + CeilDiv(files[i - 1].size, chunkSize)
  }

  /** The manifest's chunks for file `i` stand together where its sizes say, and tile this content. */
  ghost predicate TiledAt(m: Manifest, crc: Bytes -> bv32, i: nat, content: Bytes)
    requires m.chunkSize > 0 && i < |m.files|
  {
    var lo, hi := FirstChunk(m.files, i, m.chunkSize), FirstChunk(m.files, i + 1, m.chunkSize);
    lo <= hi <= |m.chunks| && TilesFile(crc, content, m.chunks[lo..hi], i, lo, m.chunkSize)
  }

  /** Entry `i` is a regular file of the tree and its chunks are that file's bytes. */
  ghost predicate Backed(m: Manifest, crc: Bytes -> bv32, i: nat, rootPath: seq<string>, root: Node)
    requires m.chunkSize > 0 && i < |m.files|
  {
    exists file: FoundFile ::
      Below(rootPath, root, file) && Describes(m.files[i], crc, file) && TiledAt(m, crc, i, file.content)
  }

  lemma {:induction false} FirstChunkIsFileStart(crc: Bytes -> bv32, listing: seq<(string, Bytes)>, i: nat, chunkSize: nat)
    requires chunkSize > 0 && i <= |listing|
    ensures FileStart(Contents(listing), i, chunkSize) == FirstChunk(FilesFor(crc, listing), i, chunkSize)
  {
    var contents := Contents(listing);
    if i == 0 {
      assert contents[..0] == [];
    } else {
      FirstChunkIsFileStart(crc, listing, i - 1, chunkSize);
      assert contents[..i][..i - 1] == contents[..i - 1];
      SpansCount(|contents[i - 1]|, 0, chunkSize);
    }
  }

  lemma {:induction false} ListingIsTiled(listing: seq<(string, Bytes)>, chunkSize: nat, sourceType: int, i: nat)
    requires chunkSize > 0 && i < |listing|
    ensures TiledAt(ManifestFor(listing, chunkSize, sourceType), Crc32c, i, listing[i].1)
  {
    ChunksOfFile(Contents(listing), i, chunkSize);
    FirstChunkIsFileStart(Crc32c, listing, i, chunkSize);
    FirstChunkIsFileStart(Crc32c, listing, i + 1, chunkSize);
    SpansTileFile(Crc32c, listing[i].1, i, FileStart(Contents(listing), i, chunkSize), chunkSize);
  }

  lemma {:induction false} ListingIsBacked(rootPath: seq<string>, root: Node, listing: seq<(string, Bytes)>, chunkSize: nat, sourceType: int, i: nat)
    requires chunkSize > 0 && i < |listing| && Listed(rootPath, root, listing[i])
    ensures Backed(ManifestFor(listing, chunkSize, sourceType), Crc32c, i, rootPath, root)
  {
    var file: FoundFile :| Below(rootPath, root, file) && listing[i] == (ManifestPath(file.path), file.content);
    ListingIsTiled(listing, chunkSize, sourceType, i);
    assert Describes(FilesFor(Crc32c, listing)[i], Crc32c, file);
  }

  /**
   A built manifest is backed by its tree, file by file: the chunks of each file are dense in number,
   contiguous from zero to its size, as many as the size calls for, each with the checksum of its
   bytes, and put together are the file; and there are no other chunks.
   */
  lemma {:induction false} ManifestTilesTree(rootPath: seq<string>, root: Node, chunkSize: nat, sourceType: int, m: Manifest)
    requires IsResult(rootPath, root, chunkSize, sourceType, Ok(m))
    ensures m.chunkSize == chunkSize > 0
    ensures |m.chunks| == FirstChunk(m.files, |m.files|, chunkSize)
    ensures forall i | 0 <= i < |m.files| :: Backed(m, Crc32c, i, rootPath, root)
  {
    var listing :| IsListing(rootPath, root, listing) && Ok(m) == Build(listing, chunkSize, sourceType);
    assert m == ManifestFor(listing, chunkSize, sourceType);
    FirstChunkIsFileStart(Crc32c, listing, |listing|, chunkSize);
    assert Contents(listing)[..|listing|] == Contents(listing);
    forall i | 0 <= i < |m.files| ensures Backed(m, Crc32c, i, rootPath, root) {
      ListingIsBacked(rootPath, root, listing, chunkSize, sourceType, i);
    }
  }

  /** A build succeeds exactly when 32-bit indices suffice for the files and for the chunks. */
  lemma {:induction false} BuildSucceedsIff(listing: seq<(string, Bytes)>, chunkSize: nat, sourceType: int)
    requires chunkSize > 0
    ensures Build(listing, chunkSize, sourceType).Ok? <==>
            |listing| <= INDICES && |AllChunks(Contents(listing), chunkSize)| <= INDICES
  {
    if |listing| <= INDICES {
      assert listing[..|listing|] == listing;
    }
  }

  // ----- Totals

  function SumOfSizes(files: seq<ManifestFile>): nat {
    if files == [] then 0 else SumOfSizes(files[..|files| - 1]) + files[|files| - 1].size
  }

  lemma {:induction false} SizesGrow(files: seq<ManifestFile>, k: nat)
    requires k <= |files|
    ensures SumOfSizes(files[..k]) <= SumOfSizes(files)
  {
    if k == |files| {
      assert files[..k] == files;
    } else {
      var n := |files| - 1;
      SizesGrow(files[..n], k);
      assert files[..n][..k] == files[..k];
    }
  }

  /** The total size, or an error exactly when it does not fit in 64 bits. */
  method TotalSize(manifest: Manifest) returns (result: Result<nat, ManifestError>)
    ensures result == if SumOfSizes(manifest.files) <= U64_MAX then Ok(SumOfSizes(manifest.files)) else Err(TotalSizeOverflow)
  {
    var files, total := manifest.files, 0;
    for k := 0 to |files|
      invariant total == SumOfSizes(files[..k]) <= U64_MAX
    {
      assert files[..k + 1][..k] == files[..k];
      if total + files[k].size > U64_MAX {
        SizesGrow(files, k + 1);
        return Err(TotalSizeOverflow);
      }
      total := total + files[k].size;
    }
    assert files[..|files|] == files;
    return Ok(total);
  }

  lemma {:induction false} SizesAreBytes(crc: Bytes -> bv32, listing: seq<(string, Bytes)>)
    ensures SumOfSizes(FilesFor(crc, listing)) == TotalBytes(Contents(listing))
  {
    if listing != [] {
      var n := |listing| - 1;
      SizesAreBytes(crc, listing[..n]);
      assert FilesFor(crc, listing)[..n] == FilesFor(crc, listing[..n]);
      assert Contents(listing)[..n] == Contents(listing[..n]);
    }
  }

  /** The file sizes and the chunk lengths of a manifest add up to the same total, and its chunks are numbered in order. */
  lemma {:induction false} ManifestAccounts(listing: seq<(string, Bytes)>, chunkSize: nat, sourceType: int)
    requires chunkSize > 0 && Build(listing, chunkSize, sourceType).Ok?
    ensures var m := Build(listing, chunkSize, sourceType).value;
            && SumOfSizes(m.files) == SumOfLengths(m.chunks) == TotalBytes(Contents(listing))
            && (forall k | 0 <= k < |m.chunks| :: m.chunks[k].chunkIndex == k && m.chunks[k].fileIndex < |m.files|)
  {
    SizesAreBytes(Crc32c, listing);
    ChunkLengthsSum(Contents(listing), chunkSize);
    ChunkIndicesAreDense(Contents(listing), chunkSize);
  }

  function ChunkCount(manifest: Manifest): Result<nat, ManifestError> {
    if |manifest.chunks| <= U32_MAX then Ok(|manifest.chunks|) else Err(ChunkCountExceedsU32)
  }

  /** The chunk count of a built manifest fails for one size only: the largest that can be built. */
  lemma {:induction false} ChunkCountFailsIff(listing: seq<(string, Bytes)>, chunkSize: nat, sourceType: int)
    requires chunkSize > 0 && Build(listing, chunkSize, sourceType).Ok?
    ensures ChunkCount(Build(listing, chunkSize, sourceType).value).Err? <==> |AllChunks(Contents(listing), chunkSize)| == INDICES
  {
    BuildSucceedsIff(listing, chunkSize, sourceType);
  }
}
