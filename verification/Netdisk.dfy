/**
 The deep index of core/application/netdisk.py: a worklist walk of a remote tree that
 registers every entry in the `netdisk_meta` table of adapters/persistence/sqlite/netdisk.py
 with insert-or-ignore rows and marks the files as indexed.
 */
module Netdisk {
  import opened NetdiskTree

  // ---------- The remote's pages ----------

  datatype Page = Page(files: seq<Item>, hasMore: bool)

  /** The answer to a listing request for a directory and a page number, counted from 1. */
  type Remote = (string, nat) -> Page

  function Pages(remote: Remote, dir: string, n: nat): seq<Item> {
    if n == 0 then [] else Pages(remote, dir, n - 1) + remote(dir, n).files
  }

  /** The pages up to `last` make up the listing. An empty page ends it whatever it claims. */
  ghost predicate Serves(remote: Remote, dir: string, entries: seq<Entry>, last: nat) {
    && last > 0 && Pages(remote, dir, last) == Listing(entries)
    && (forall n | 1 <= n < last :: remote(dir, n).hasMore && remote(dir, n).files != [])
    && (remote(dir, last).hasMore ==> remote(dir, last).files == [])
  }

  ghost predicate Mounted(remote: Remote, dir: string, entries: seq<Entry>)
    decreases entries
  {
    && (exists last :: Serves(remote, dir, entries, last))
    && (forall i | 0 <= i < |entries| && entries[i].DirEntry? ::
          Mounted(remote, FoundAt(dir, Shown(entries[i])).path, entries[i].entries))
  }

  // ---------- The table ----------

  datatype Row = Row(name: string, isDir: bool, tags: string, indexed: bool)
  type Table = map<string, Row>

  function InsertOrIgnore(t: Table, f: Found): Table {
    if f.path in t then t else t[f.path := Row(f.name, f.isDir, "", false)]
  }

  function InsertRows(t: Table, fs: seq<Found>): Table {
    if fs == [] then t else InsertOrIgnore(InsertRows(t, fs[..|fs| - 1]), fs[|fs| - 1])
  }

  function MarkIndexed(t: Table, paths: set<string>): Table {
    map p | p in t :: if p in paths then t[p].(indexed := true) else t[p]
  }

  function Rows(dir: string, items: seq<Item>): seq<Found> {
    seq(|items|, i requires 0 <= i < |items| => FoundAt(dir, items[i]))
  }

  function Elements(fs: seq<Found>): set<Found> {
    set f | f in fs
  }

  function FilePaths(fs: seq<Found>): set<string> {
    set f | f in fs && !f.isDir :: f.path
  }

  function Index(t: Table, fs: seq<Found>): Table {
    MarkIndexed(InsertRows(t, fs), FilePaths(fs))
  }

  /**
   The rows already there keep their place and their columns; the first of the new rows for
   a path is the one that stays.
   */
  lemma {:induction false} InsertRowsAt(t: Table, fs: seq<Found>, p: string)
    ensures p in t ==> p in InsertRows(t, fs) && InsertRows(t, fs)[p] == t[p]
    ensures p in InsertRows(t, fs) <==> p in t || exists i :: 0 <= i < |fs| && fs[i].path == p
    ensures p !in t && p in InsertRows(t, fs) ==>
              exists i :: 0 <= i < |fs| && fs[i].path == p
                && InsertRows(t, fs)[p] == Row(fs[i].name, fs[i].isDir, "", false)
                && forall j | 0 <= j < i :: fs[j].path != p
  {
    if fs != [] {
      var n := |fs| - 1;
      InsertRowsAt(t, fs[..n], p);
      var u := InsertRows(t, fs[..n]);
      if p !in u && fs[n].path == p {
        assert InsertRows(t, fs)[p] == Row(fs[n].name, fs[n].isDir, "", false);
        forall j | 0 <= j < n ensures fs[j].path != p {
          assert fs[..n][j] == fs[j];
        }
      } else if p !in t && p in u {
        var i :| 0 <= i < |fs[..n]| && fs[..n][i].path == p && u[p] == Row(fs[..n][i].name, fs[..n][i].isDir, "", false)
          && forall j | 0 <= j < i :: fs[..n][j].path != p;
        assert fs[i] == fs[..n][i];
        forall j | 0 <= j < i ensures fs[j].path != p {
          assert fs[..n][j] == fs[j];
        }
      }
      assert forall i | 0 <= i < n :: fs[i] == fs[..n][i];
    }
  }

  lemma {:induction false} InsertRowsAppend(t: Table, fs: seq<Found>, gs: seq<Found>)
    ensures InsertRows(InsertRows(t, fs), gs) == InsertRows(t, fs + gs)
  {
    if gs == [] {
      assert fs + gs == fs;
    } else {
      var n := |gs| - 1;
      InsertRowsAppend(t, fs, gs[..n]);
      assert (fs + gs)[..|fs| + n] == fs + gs[..n];
    }
  }

  lemma {:induction false} MarkThenInsert(t: Table, paths: set<string>, gs: seq<Found>)
    requires paths <= t.Keys
    ensures t.Keys <= InsertRows(t, gs).Keys
    ensures InsertRows(MarkIndexed(t, paths), gs) == MarkIndexed(InsertRows(t, gs), paths)
  {
    if gs != [] {
      MarkThenInsert(t, paths, gs[..|gs| - 1]);
    }
  }

  lemma FilesHaveRows(t: Table, fs: seq<Found>)
    ensures FilePaths(fs) <= InsertRows(t, fs).Keys
  {
    forall p | p in FilePaths(fs) ensures p in InsertRows(t, fs) {
      InsertRowsAt(t, fs, p);
    }
  }

  /** Indexing page by page is indexing the whole listing. */
  lemma IndexAppend(t: Table, fs: seq<Found>, gs: seq<Found>)
    ensures Index(Index(t, fs), gs) == Index(t, fs + gs)
  {
    InsertRowsAppend(t, fs, gs);
    FilesHaveRows(t, fs);
    MarkThenInsert(InsertRows(t, fs), FilePaths(fs), gs);
    assert FilePaths(fs + gs) == FilePaths(fs) + FilePaths(gs);
    hide InsertRows, FilePaths;
    assert MarkIndexed(MarkIndexed(InsertRows(t, fs + gs), FilePaths(fs)), FilePaths(gs))
        == MarkIndexed(InsertRows(t, fs + gs), FilePaths(fs) + FilePaths(gs));
  }

  /**
   What an index of some entries owes the table: a row for each and no other, files
   indexed, and nothing else of an old row touched.
   */
  ghost predicate Registered(t: Table, fs: set<Found>, u: Table) {
    && u.Keys == t.Keys + (set f | f in fs :: f.path)
    && (forall p | p in t :: u[p] == t[p].(indexed := t[p].indexed || exists f :: f in fs && !f.isDir && f.path == p))
    && (forall f | f in fs && f.path !in t :: u[f.path] == Row(f.name, f.isDir, "", !f.isDir))
  }

  ghost predicate PathsFix(fs: set<Found>) {
    forall f, g | f in fs && g in fs && f.path == g.path :: f == g
  }

  lemma IndexRegisters(t: Table, fs: seq<Found>)
    requires PathsFix(Elements(fs))
    ensures Registered(t, Elements(fs), Index(t, fs))
  {
    var u := Index(t, fs);
    forall p ensures p in u <==> p in t || exists f :: f in fs && f.path == p
             ensures p in t ==> u[p] == t[p].(indexed := t[p].indexed || exists f :: f in fs && !f.isDir && f.path == p)
    {
      InsertRowsAt(t, fs, p);
    }
    forall f | f in fs && f.path !in t ensures u[f.path] == Row(f.name, f.isDir, "", !f.isDir) {
      InsertRowsAt(t, fs, f.path);
    }
  }

  /** Replaying the walk over the same tree changes nothing. */
  lemma ReplayChangesNothing(t: Table, fs: set<Found>, u: Table, v: Table)
    requires PathsFix(fs) && Registered(t, fs, u) && Registered(u, fs, v)
    ensures u == v
  {
    assert u.Keys == v.Keys;
    forall p | p in u ensures u[p] == v[p] {
      if p !in t {
        var f :| f in fs && f.path == p;
      }
    }
  }

  lemma BelowFixesPaths(dir: string, entries: seq<Entry>)
    requires IsDirPath(dir) && WellNamed(entries)
    ensures PathsFix(Below(dir, entries))
  {
    forall f, g | f in Below(dir, entries) && g in Below(dir, entries) && f.path == g.path ensures f == g {
      var b, _ := BelowShape(dir, entries, f);
      var c, _ := BelowShape(dir, entries, g);
      ShapeFixesFound(f, g, b, c);
    }
  }

  // ---------- The worklist ----------

  datatype Dir = Dir(path: string, entries: seq<Entry>)

  function SubDirs(dir: string, entries: seq<Entry>): seq<Dir> {
    if entries == [] then []
    else
      (if entries[0].DirEntry? then [Dir(FoundAt(dir, Shown(entries[0])).path, entries[0].entries)] else [])
      + SubDirs(dir, entries[1..])
  }

  function DirPaths(fs: seq<Found>): seq<string> {
    if fs == [] then []
    else DirPaths(fs[..|fs| - 1]) + if fs[|fs| - 1].isDir then [fs[|fs| - 1].path] else []
  }

  function PathsOf(work: seq<Dir>): seq<string> {
    seq(|work|, i requires 0 <= i < |work| => work[i].path)
  }

  function Todo(work: seq<Dir>): set<Found> {
    if work == [] then {} else Below(work[0].path, work[0].entries) + Todo(work[1..])
  }

  function TodoDirs(work: seq<Dir>): set<string> {
    if work == [] then {} else {work[0].path} + DirsBelow(work[0].path, work[0].entries) + TodoDirs(work[1..])
  }

  function TodoCount(work: seq<Dir>): nat {
    if work == [] then 0 else Count(work[0].entries) + TodoCount(work[1..])
  }

  function TodoDirCount(work: seq<Dir>): nat {
    if work == [] then 0 else 1 + DirCount(work[0].entries) + TodoDirCount(work[1..])
  }

  lemma {:induction false} TodoAppend(a: seq<Dir>, b: seq<Dir>)
    ensures Todo(a + b) == Todo(a) + Todo(b) && TodoDirs(a + b) == TodoDirs(a) + TodoDirs(b)
    ensures TodoCount(a + b) == TodoCount(a) + TodoCount(b)
    ensures TodoDirCount(a + b) == TodoDirCount(a) + TodoDirCount(b)
  {
    if a == [] {
      assert a + b == b;
    } else {
      TodoAppend(a[1..], b);
      assert (a + b)[1..] == a[1..] + b;
    }
  }

  lemma TodoFirst(d: Dir, work: seq<Dir>)
    ensures Todo([d] + work) == Below(d.path, d.entries) + Todo(work)
    ensures TodoDirs([d] + work) == {d.path} + DirsBelow(d.path, d.entries) + TodoDirs(work)
    ensures TodoCount([d] + work) == Count(d.entries) + TodoCount(work)
    ensures TodoDirCount([d] + work) == 1 + DirCount(d.entries) + TodoDirCount(work)
  {
    assert ([d] + work)[1..] == work;
  }

  lemma RowsFirst(dir: string, entries: seq<Entry>)
    requires entries != []
    ensures var f := FoundAt(dir, Shown(entries[0]));
      && Rows(dir, Listing(entries)) == [f] + Rows(dir, Listing(entries[1..]))
      && Elements(Rows(dir, Listing(entries))) == {f} + Elements(Rows(dir, Listing(entries[1..])))
  {
    var f := FoundAt(dir, Shown(entries[0]));
    assert Rows(dir, Listing(entries)) == [f] + Rows(dir, Listing(entries[1..]));
  }

  /** A directory's own entries and the work it leaves make up all that is below it. */
  lemma {:induction false} SubDirsCover(dir: string, entries: seq<Entry>)
    ensures Below(dir, entries) == Elements(Rows(dir, Listing(entries))) + Todo(SubDirs(dir, entries))
    ensures DirsBelow(dir, entries) == TodoDirs(SubDirs(dir, entries))
    ensures Count(entries) == |entries| + TodoCount(SubDirs(dir, entries))
    ensures DirCount(entries) == TodoDirCount(SubDirs(dir, entries))
  {
    if entries == [] {
      assert Listing(entries) == [] && Rows(dir, []) == [];
    } else {
      hide Todo, TodoDirs, TodoCount, TodoDirCount, Elements, FoundAt, Rows, Listing;
      SubDirsCover(dir, entries[1..]);
      RowsFirst(dir, entries);
      if entries[0].DirEntry? {
        TodoFirst(Dir(FoundAt(dir, Shown(entries[0])).path, entries[0].entries), SubDirs(dir, entries[1..]));
      } else {
        assert SubDirs(dir, entries) == SubDirs(dir, entries[1..]);
      }
    }
  }

  /** The code appends the paths of the directory entries as it meets them. */
  lemma {:induction false} DirPathsAppend(fs: seq<Found>, gs: seq<Found>)
    ensures DirPaths(fs + gs) == DirPaths(fs) + DirPaths(gs)
  {
    if gs == [] {
      assert fs + gs == fs;
    } else {
      var n := |gs| - 1;
      DirPathsAppend(fs, gs[..n]);
      assert (fs + gs)[..|fs| + n] == fs + gs[..n];
    }
  }

  lemma {:induction false} DirPathsAreSubDirs(dir: string, entries: seq<Entry>)
    ensures DirPaths(Rows(dir, Listing(entries))) == PathsOf(SubDirs(dir, entries))
  {
    if entries != [] {
      DirPathsAreSubDirs(dir, entries[1..]);
      var first, gs := FoundAt(dir, Shown(entries[0])), Rows(dir, Listing(entries[1..]));
      assert Rows(dir, Listing(entries)) == [first] + gs;
      DirPathsAppend([first], gs);
      assert DirPaths([first]) == DirPaths([]) + if first.isDir then [first.path] else [];
    }
  }

  /**
   What the walk has done so far (`visited`, `listed`) and has left (`work`) always add up
   to the whole tree, each directory once.
   */
  ghost predicate Walked(root: string, entries: seq<Entry>, visited: seq<Found>, listed: seq<string>, work: seq<Dir>) {
    && Elements(visited) + Todo(work) == Below(root, entries)
    && Listed(listed) + TodoDirs(work) == {root} + DirsBelow(root, entries)
    && |visited| + TodoCount(work) == Count(entries)
    && |listed| + TodoDirCount(work) == 1 + DirCount(entries)
  }

  function Listed(paths: seq<string>): set<string> {
    set p | p in paths
  }

  lemma WalkStarts(root: string, entries: seq<Entry>)
    ensures Walked(root, entries, [], [], [Dir(root, entries)])
  {
    TodoFirst(Dir(root, entries), []);
    assert [Dir(root, entries)] + [] == [Dir(root, entries)];
  }

  lemma WalkStep(root: string, entries: seq<Entry>, visited: seq<Found>, listed: seq<string>, work: seq<Dir>)
    requires work != [] && Walked(root, entries, visited, listed, work)
    ensures var d := work[0];
      Walked(root, entries, visited + Rows(d.path, Listing(d.entries)), listed + [d.path],
             work[1..] + SubDirs(d.path, d.entries))
  {
    hide Todo, TodoDirs, TodoCount, TodoDirCount, Below, DirsBelow, Count, DirCount, Elements, Listed, Rows, Listing,
         SubDirs;
    var d, rest := work[0], work[1..];
    var subs, rows := SubDirs(d.path, d.entries), Rows(d.path, Listing(d.entries));
    assert work == [d] + rest;
    TodoFirst(d, rest);
    TodoAppend(rest, subs);
    SubDirsCover(d.path, d.entries);
    ElementsAppend(visited, rows);
    ListedAppend(listed, d.path);
    RowsLength(d.path, d.entries);
  }

  lemma ElementsAppend(fs: seq<Found>, gs: seq<Found>)
    ensures Elements(fs + gs) == Elements(fs) + Elements(gs)
  {
  }

  lemma ListedAppend(paths: seq<string>, p: string)
    ensures Listed(paths + [p]) == Listed(paths) + {p}
  {
  }

  lemma WalkEnds(root: string, entries: seq<Entry>, visited: seq<Found>, listed: seq<string>)
    requires IsDirPath(root) && WellNamed(entries) && Walked(root, entries, visited, listed, [])
    ensures Elements(visited) == Below(root, entries) && |visited| == |Below(root, entries)|
    ensures Listed(listed) == {root} + DirsBelow(root, entries) && Distinct(listed)
  {
    hide Below, DirsBelow, Count, DirCount, WellNamed, Elements, Listed;
    BelowIsCounted(root, entries);
    RootIsApart(root, entries);
    DistinctIfAsMany(listed);
  }

  lemma IndexOfNothing(t: Table)
    ensures Index(t, []) == t
  {
  }

  lemma RowsLength(dir: string, entries: seq<Entry>)
    ensures |Rows(dir, Listing(entries))| == |entries|
  {
  }

  ghost predicate Distinct(s: seq<string>) {
    forall i, j | 0 <= i < j < |s| :: s[i] != s[j]
  }

  /** A list with as many members as its set has no repetition. */
  lemma {:induction false} DistinctIfAsMany(s: seq<string>)
    ensures |Listed(s)| <= |s|
    ensures |Listed(s)| == |s| ==> Distinct(s)
  {
    if s == [] {
      assert Listed(s) == {};
    } else {
      var init, x := s[..|s| - 1], s[|s| - 1];
      DistinctIfAsMany(init);
      assert Listed(s) == Listed(init) + {x};
      if x in Listed(init) {
        assert Listed(s) == Listed(init);
      }
    }
  }

  lemma RootIsApart(root: string, entries: seq<Entry>)
    requires IsDirPath(root) && WellNamed(entries)
    ensures |{root} + DirsBelow(root, entries)| == 1 + DirCount(entries)
  {
    BelowIsCounted(root, entries);
    DirsAreBelow(root, entries, root);
    forall f | f in Below(root, entries) ensures f.path != root {
      var _, _ := BelowShape(root, entries, f);
    }
  }

  lemma WorkShrinks(work: seq<Dir>)
    requires work != []
    ensures TodoDirCount(work[1..] + SubDirs(work[0].path, work[0].entries)) < TodoDirCount(work)
  {
    TodoAppend(work[1..], SubDirs(work[0].path, work[0].entries));
    SubDirsCover(work[0].path, work[0].entries);
  }

  lemma {:induction false} MountedBelow(remote: Remote, dir: string, entries: seq<Entry>)
    requires forall i | 0 <= i < |entries| && entries[i].DirEntry? ::
               Mounted(remote, FoundAt(dir, Shown(entries[i])).path, entries[i].entries)
    ensures forall d | d in SubDirs(dir, entries) :: Mounted(remote, d.path, d.entries)
  {
    if entries != [] {
      MountedBelow(remote, dir, entries[1..]);
    }
  }

  lemma ServedUpTo(remote: Remote, d: Dir) returns (last: nat)
    requires Mounted(remote, d.path, d.entries)
    ensures Serves(remote, d.path, d.entries, last)
    ensures forall e | e in SubDirs(d.path, d.entries) :: Mounted(remote, e.path, e.entries)
  {
    last :| Serves(remote, d.path, d.entries, last);
    MountedBelow(remote, d.path, d.entries);
  }

  function FilesIn(fs: seq<Found>): seq<string> {
    if fs == [] then [] else (if fs[0].isDir then [] else [fs[0].path]) + FilesIn(fs[1..])
  }

  lemma {:induction false} FilesOfPage(fs: seq<Found>)
    ensures Listed(FilesIn(fs)) == FilePaths(fs)
  {
    if fs != [] {
      FilesOfPage(fs[1..]);
      assert FilePaths(fs) == FilePaths(fs[1..]) + if fs[0].isDir then {} else {fs[0].path};
    }
  }

  /** The name a placeholder row gets: what follows the last slash, or the path itself. */
  function LastComponent(path: string): string {
    if path == [] || path[|path| - 1] == '/' then [] else LastComponent(path[..|path| - 1]) + [path[|path| - 1]]
  }

  /** A path of a directory and a plain name has that name. */
  lemma {:induction false} LastComponentIs(dir: string, name: string)
    requires (dir == "" || dir[|dir| - 1] == '/') && '/' !in name
    ensures LastComponent(dir + name) == name
  {
    if name == "" {
      assert dir + name == dir;
    } else {
      var n := |name| - 1;
      assert name[n] in name && (dir + name)[..|dir| + n] == dir + name[..n];
      LastComponentIs(dir, name[..n]);
    }
  }

  class Metadata {
    var rows: Table

    /** Insert-or-ignore, row by row, counting the rows inserted. */
    method UpsertRows(fs: seq<Found>) returns (inserted: nat)
      modifies this
      ensures rows == InsertRows(old(rows), fs)
      ensures inserted == |rows| - |old(rows)|
    {
      inserted := 0;
      for i := 0 to |fs|
        invariant rows == InsertRows(old(rows), fs[..i])
        invariant inserted == |rows| - |old(rows)|
      {
        assert fs[..i + 1][..i] == fs[..i];
        if fs[i].path !in rows {
          rows := rows[fs[i].path := Row(fs[i].name, fs[i].isDir, "", false)];
          inserted := inserted + 1;
        }
      }
      assert fs[..|fs|] == fs;
    }

    method MarkRows(paths: seq<string>)
      modifies this
      ensures rows == MarkIndexed(old(rows), Listed(paths))
    {
      assert rows == MarkIndexed(rows, Listed([]));
      for i := 0 to |paths|
        invariant rows == MarkIndexed(old(rows), Listed(paths[..i]))
      {
        assert Listed(paths[..i + 1]) == Listed(paths[..i]) + {paths[i]};
        if paths[i] in rows {
          rows := rows[paths[i] := rows[paths[i]].(indexed := true)];
        }
      }
      assert paths[..|paths|] == paths;
    }

    /** A tag may come before the walk ever meets the path. */
    method SetTags(path: string, tags: string)
      modifies this
      ensures path in rows && rows[path].tags == tags
      ensures rows - {path} == old(rows) - {path}
      ensures path in old(rows) ==> rows[path] == old(rows)[path].(tags := tags)
      ensures path !in old(rows) ==> !rows[path].isDir && !rows[path].indexed
                                     && rows[path].name == if LastComponent(path) == "" then path else LastComponent(path)
    {
      if path in rows {
        rows := rows[path := rows[path].(tags := tags)];
      } else {
        var name := LastComponent(path);
        rows := rows[path := Row(if name == "" then path else name, false, tags, false)];
      }
    }

    /** One directory, page by page. The rows of a page are upserted, then its files marked. */
    method IndexDirectory(remote: Remote, dir: string, ghost entries: seq<Entry>, ghost last: nat)
      returns (pending: seq<string>, seen: nat)
      requires Serves(remote, dir, entries, last)
      modifies this
      ensures rows == Index(old(rows), Rows(dir, Listing(entries)))
      ensures pending == DirPaths(Rows(dir, Listing(entries)))
      ensures seen == |entries|
    {
      pending, seen := [], 0;
      var page := 1;
      assert rows == Index(rows, []);
      while true
        invariant 1 <= page <= last
        invariant var done := Rows(dir, Pages(remote, dir, page - 1));
          rows == Index(old(rows), done) && pending == DirPaths(done) && seen == |done|
        decreases last - page
      {
        var answer := remote(dir, page);
        var fs := Rows(dir, answer.files);
        ghost var done := Rows(dir, Pages(remote, dir, page - 1));
        assert Rows(dir, Pages(remote, dir, page)) == done + fs;
        IndexAppend(old(rows), done, fs);
        DirPathsAppend(done, fs);
        pending := pending + DirPaths(fs);
        if fs != [] {
          var _ := UpsertRows(fs);
          FilesOfPage(fs);
          MarkRows(FilesIn(fs));
        } else {
          assert done + fs == done;
        }
        seen := seen + |fs|;
        if !answer.hasMore || answer.files == [] {
          break;
        }
        page := page + 1;
      }
      assert page == last;
    }

    /** The deep index itself. Every directory at or below the root is listed exactly once. */
    method HandleIndex(remote: Remote, path: string, ghost entries: seq<Entry>)
      returns (seen: nat, listed: seq<string>)
      requires Mounted(remote, DirPrefix(path), entries) && WellNamed(entries)
      modifies this
      ensures Registered(old(rows), Below(DirPrefix(path), entries), rows)
      ensures seen == |Below(DirPrefix(path), entries)|
      ensures Distinct(listed) && Listed(listed) == {DirPrefix(path)} + DirsBelow(DirPrefix(path), entries)
    {
      hide Below, DirsBelow, TodoDirCount, Elements, Listed, Rows, Index, Walked,
           Registered, PathsFix, WellNamed, DirPrefix, Distinct, SubDirs, DirPaths, Mounted, Serves;
      var root := DirPrefix(path);
      DirPrefixIsCanonical(path);
      var pending := [root];
      seen, listed := 0, [];
      ghost var work := [Dir(root, entries)];
      ghost var visited: seq<Found> := [];
      WalkStarts(root, entries);
      IndexOfNothing(rows);
      while pending != []
        invariant pending == PathsOf(work)
        invariant forall d <- work :: Mounted(remote, d.path, d.entries)
        invariant Walked(root, entries, visited, listed, work)
        invariant rows == Index(old(rows), visited) && seen == |visited|
        decreases TodoDirCount(work)
      {
        var dir := pending[0];
        pending := pending[1..];
        ghost var d := work[0];
        ghost var last := ServedUpTo(remote, d);
        var more, n := IndexDirectory(remote, dir, d.entries, last);
        WalkStep(root, entries, visited, listed, work);
        WorkShrinks(work);
        RowsLength(d.path, d.entries);
        IndexAppend(old(rows), visited, Rows(d.path, Listing(d.entries)));
        DirPathsAreSubDirs(d.path, d.entries);
        pending := pending + more;
        listed := listed + [dir];
        seen := seen + n;
        visited := visited + Rows(d.path, Listing(d.entries));
        work := work[1..] + SubDirs(d.path, d.entries);
      }
      WalkEnds(root, entries, visited, listed);
      BelowFixesPaths(root, entries);
      IndexRegisters(old(rows), visited);
    }
  }
}
