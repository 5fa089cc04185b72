/**
 Paths and remote trees as the deep index of core/application/netdisk.py sees them: a path
 fixes the entry it belongs to, so a walk cannot count an entry twice.
 */
module NetdiskTree {
  import Texts

  // ---------- The path of a directory ----------

  predicate IsSlash(c: char) { c == '/' }

  function DirPrefix(path: string): string {
    var p := "/" + Texts.Strip(IsSlash, if path == "" then "/" else path);
    if p[|p| - 1] == '/' then p else p + "/"
  }

  predicate IsDirPath(p: string) {
    p != "" && p[0] == '/' && p[|p| - 1] == '/'
  }

  ghost predicate Slashes(s: string) { forall c | c in s :: c == '/' }

  /** Neither end is a slash. */
  predicate Trimmed(s: string) { s == "" || (s[0] != '/' && s[|s| - 1] != '/') }

  /** Which directory a path means: slashes at its ends aside it keeps every component. */
  lemma DirPrefixKeepsThePath(a: string, core: string, b: string)
    requires Slashes(a) && Slashes(b) && Trimmed(core)
    ensures DirPrefix(a + core + b) == if core == "" then "/" else "/" + core + "/"
  {
    var path := a + core + b;
    if path == "" {
      Texts.StripIs(IsSlash, "/", "", "");
      assert "/" + "" + "" == "/";
    } else {
      assert forall i | 0 <= i < |a| :: a[i] in a;
      assert forall i | 0 <= i < |b| :: b[i] in b;
      Texts.StripIs(IsSlash, a, core, b);
    }
    assert core != "" ==> ("/" + core)[|core|] == core[|core| - 1];
  }

  /** Every path is of that form. */
  lemma PathParts(path: string) returns (a: string, core: string, b: string)
    ensures path == a + core + b && Slashes(a) && Slashes(b) && Trimmed(core)
  {
    core := Texts.Strip(IsSlash, path);
    Texts.StripIff(IsSlash, path, core);
    a, b :| Texts.All(IsSlash, a) && Texts.All(IsSlash, b) && path == a + core + b;
  }

  /**
   Any spelling of a directory ends up with one slash at each end and none doubled there,
   and the walk may be started again from the path it reports.
   */
  lemma DirPrefixIsCanonical(path: string)
    ensures IsDirPath(DirPrefix(path))
    ensures DirPrefix(path) == "/" || (DirPrefix(path)[1] != '/' && DirPrefix(path)[|DirPrefix(path)| - 2] != '/')
    ensures DirPrefix(DirPrefix(path)) == DirPrefix(path)
    ensures DirPrefix(path) == "/" <==> Slashes(path)
  {
    hide DirPrefix;
    var a, core, b := PathParts(path);
    DirPrefixKeepsThePath(a, core, b);
    if core == "" {
      DirPrefixKeepsThePath("/", "", "");
      assert "/" + "" + "" == "/";
      assert path == a + b;
    } else {
      DirPrefixKeepsThePath("/", core, "/");
      assert path[|a|] == core[0] && path[|a|] in path;
    }
  }

  // ---------- The remote tree ----------

  datatype Entry = FileEntry(name: string) | DirEntry(name: string, entries: seq<Entry>)

  /** What a listing shows of an entry, and what is registered for it. */
  datatype Item = Item(name: string, isDir: bool)
  datatype Found = Found(path: string, name: string, isDir: bool)

  function Shown(e: Entry): Item {
    Item(e.name, e.DirEntry?)
  }

  function Listing(entries: seq<Entry>): seq<Item> {
    seq(|entries|, i requires 0 <= i < |entries| => Shown(entries[i]))
  }

  function FoundAt(dir: string, item: Item): Found {
    Found(dir + item.name + (if item.isDir then "/" else ""), item.name, item.isDir)
  }

  predicate PlainName(name: string) {
    name != "" && '/' !in name
  }

  /** Names are plain, and no directory lists the same name twice as the same kind. */
  ghost predicate WellNamed(entries: seq<Entry>)
    decreases entries
  {
    && (forall i | 0 <= i < |entries| :: PlainName(entries[i].name))
    && (forall i, j | 0 <= i < j < |entries| :: Shown(entries[i]) != Shown(entries[j]))
    && (forall i | 0 <= i < |entries| && entries[i].DirEntry? :: WellNamed(entries[i].entries))
  }

  /** Everything below a directory. */
  function Below(dir: string, entries: seq<Entry>): set<Found>
    decreases entries
  {
    if entries == [] then {}
    else
      var f := FoundAt(dir, Shown(entries[0]));
      {f} + (if entries[0].DirEntry? then Below(f.path, entries[0].entries) else {}) + Below(dir, entries[1..])
  }

  function Count(entries: seq<Entry>): nat
    decreases entries
  {
    if entries == [] then 0
    else 1 + (if entries[0].DirEntry? then Count(entries[0].entries) else 0) + Count(entries[1..])
  }

  /** The directories below a directory. */
  function DirsBelow(dir: string, entries: seq<Entry>): set<string>
    decreases entries
  {
    if entries == [] then {}
    else
      var f := FoundAt(dir, Shown(entries[0]));
      (if entries[0].DirEntry? then {f.path} + DirsBelow(f.path, entries[0].entries) else {})
      + DirsBelow(dir, entries[1..])
  }

  function DirCount(entries: seq<Entry>): nat
    decreases entries
  {
    if entries == [] then 0
    else (if entries[0].DirEntry? then 1 + DirCount(entries[0].entries) else 0) + DirCount(entries[1..])
  }

  // ---------- What is below a directory, told from the tree ----------

  /** These names lead from the entries to one of this kind. */
  ghost predicate LeadsTo(entries: seq<Entry>, trail: seq<string>, isDir: bool)
    decreases |trail|, 1
  {
    exists i :: 0 <= i < |entries| && Leads(entries[i], trail, isDir)
  }

  ghost predicate Leads(e: Entry, trail: seq<string>, isDir: bool)
    decreases |trail|, 0
  {
    trail != [] && e.name == trail[0] &&
    if |trail| == 1 then e.DirEntry? == isDir else e.DirEntry? && LeadsTo(e.entries, trail[1..], isDir)
  }

  function Joined(trail: seq<string>): string
    requires trail != []
  {
    if |trail| == 1 then trail[0] else trail[0] + "/" + Joined(trail[1..])
  }

  /** The path and the name of what the trail leads to. */
  ghost predicate LiesAt(dir: string, entries: seq<Entry>, trail: seq<string>, f: Found) {
    && trail != [] && LeadsTo(entries, trail, f.isDir) && f.name == trail[|trail| - 1]
    && f.path == dir + Joined(trail) + if f.isDir then "/" else ""
  }

  lemma LiesInRest(dir: string, entries: seq<Entry>, trail: seq<string>, f: Found)
    requires entries != [] && LiesAt(dir, entries[1..], trail, f)
    ensures LiesAt(dir, entries, trail, f)
  {
    var rest := entries[1..];
    var i :| 0 <= i < |rest| && Leads(rest[i], trail, f.isDir);
    assert entries[i + 1] == rest[i];
  }

  lemma LiesDeeper(dir: string, entries: seq<Entry>, trail: seq<string>, f: Found)
    requires entries != [] && entries[0].DirEntry?
    requires LiesAt(dir + entries[0].name + "/", entries[0].entries, trail, f)
    ensures LiesAt(dir, entries, [entries[0].name] + trail, f)
  {
    var longer := [entries[0].name] + trail;
    assert longer[1..] == trail;
    assert Leads(entries[0], longer, f.isDir);
    assert dir + entries[0].name + "/" + Joined(trail) == dir + Joined(longer);
  }

  lemma {:induction false} BelowLies(dir: string, entries: seq<Entry>, f: Found) returns (trail: seq<string>)
    requires f in Below(dir, entries)
    ensures LiesAt(dir, entries, trail, f)
    decreases entries
  {
    var e := entries[0];
    var top := FoundAt(dir, Shown(e));
    if f == top {
      trail := [e.name];
      assert Leads(e, trail, f.isDir);
    } else if e.DirEntry? && f in Below(top.path, e.entries) {
      trail := BelowLies(top.path, e.entries, f);
      LiesDeeper(dir, entries, trail, f);
      trail := [e.name] + trail;
    } else {
      trail := BelowLies(dir, entries[1..], f);
      LiesInRest(dir, entries, trail, f);
    }
  }

  lemma {:induction false} LiesBelow(dir: string, entries: seq<Entry>, trail: seq<string>, f: Found)
    requires LiesAt(dir, entries, trail, f)
    ensures f in Below(dir, entries)
    decreases entries
  {
    var i :| 0 <= i < |entries| && Leads(entries[i], trail, f.isDir);
    if i > 0 {
      assert entries[1..][i - 1] == entries[i];
      LiesBelow(dir, entries[1..], trail, f);
    } else if |trail| > 1 {
      var top := FoundAt(dir, Shown(entries[0])).path;
      assert top + Joined(trail[1..]) == dir + Joined(trail);
      LiesBelow(top, entries[0].entries, trail[1..], f);
    }
  }

  /**
   Below a directory is exactly what some trail of names leads to in the tree: its path is the
   directory's, the names with slashes between, and one more slash for a directory.
   */
  lemma BelowIff(dir: string, entries: seq<Entry>, f: Found)
    ensures f in Below(dir, entries) <==> exists trail :: LiesAt(dir, entries, trail, f)
  {
    if f in Below(dir, entries) {
      var _ := BelowLies(dir, entries, f);
    }
    if trail :| LiesAt(dir, entries, trail, f) {
      LiesBelow(dir, entries, trail, f);
    }
  }

  // ---------- Paths identify entries ----------

  lemma SlashFreeSuffix(base1: string, name1: string, base2: string, name2: string)
    requires IsDirPath(base1) && IsDirPath(base2) && '/' !in name1 && '/' !in name2
    requires base1 + name1 == base2 + name2
    ensures base1 == base2 && name1 == name2
  {
    var whole := base1 + name1;
    assert forall k | |base1| <= k < |whole| :: whole[k] == name1[k - |base1|];
    assert forall k | |base2| <= k < |whole| :: whole[k] == name2[k - |base2|];
    assert whole[|base1| - 1] == '/' && whole[|base2| - 1] == '/';
    assert whole[..|base1|] == base1 && whole[..|base2|] == base2;
    assert whole[|base1|..] == name1 && whole[|base2|..] == name2;
  }

  ghost predicate HasShape(f: Found, base: string) {
    IsDirPath(base) && PlainName(f.name) && f == FoundAt(base, Item(f.name, f.isDir))
  }

  lemma ShapeFixesFound(f: Found, g: Found, base1: string, base2: string)
    requires HasShape(f, base1) && HasShape(g, base2) && f.path == g.path
    ensures f == g
  {
    var p := f.path;
    assert p[|p| - 1] == if f.isDir then '/' else f.name[|f.name| - 1];
    assert p[|p| - 1] == if g.isDir then '/' else g.name[|g.name| - 1];
    assert f.isDir == g.isDir;
    if f.isDir {
      assert p[..|p| - 1] == base1 + f.name;
      assert p[..|p| - 1] == base2 + g.name;
    } else {
      assert p == base1 + f.name == base2 + g.name;
    }
    SlashFreeSuffix(base1, f.name, base2, g.name);
  }

  /** Where a path below a directory sits: it is that of a listed entry or goes on from one. */
  ghost predicate Under(dir: string, entries: seq<Entry>, i: nat, p: string) {
    i < |entries| &&
    var top := FoundAt(dir, Shown(entries[i])).path;
    p == top || (entries[i].DirEntry? && top <= p)
  }

  lemma {:induction false} BelowShape(dir: string, entries: seq<Entry>, f: Found) returns (base: string, i: nat)
    requires IsDirPath(dir) && WellNamed(entries) && f in Below(dir, entries)
    ensures HasShape(f, base) && Under(dir, entries, i, f.path)
    ensures dir <= f.path && |dir| < |f.path|
    decreases entries
  {
    var e := entries[0];
    var top := FoundAt(dir, Shown(e));
    if f == top {
      base, i := dir, 0;
      assert PlainName(e.name);
    } else if e.DirEntry? && f in Below(top.path, e.entries) {
      base, i := BelowShape(top.path, e.entries, f);
      i := 0;
    } else {
      base, i := BelowShape(dir, entries[1..], f);
      i := i + 1;
    }
  }

  /** Two different listed entries have nothing in common, not even a path prefix. */
  lemma UnderOne(dir: string, entries: seq<Entry>, i: nat, j: nat, p: string)
    requires IsDirPath(dir) && WellNamed(entries) && Under(dir, entries, i, p) && Under(dir, entries, j, p)
    ensures i == j
  {
    var e, d := entries[i], entries[j];
    PrefixesClash(dir, e.name, e.DirEntry?, d.name, d.DirEntry?, p);
    assert Shown(e) == Shown(d);
  }

  lemma PrefixesClash(dir: string, n: string, nDir: bool, m: string, mDir: bool, p: string)
    requires PlainName(n) && PlainName(m)
    requires var s := FoundAt(dir, Item(n, nDir)).path; s == p || (nDir && s <= p)
    requires var t := FoundAt(dir, Item(m, mDir)).path; t == p || (mDir && t <= p)
    ensures n == m && nDir == mDir
  {
    var tail := p[|dir|..];
    TailOf(dir, n, nDir, p);
    TailOf(dir, m, mDir, p);
    assert forall k | 0 <= k < |n| :: tail[k] == n[k];
    assert forall k | 0 <= k < |m| :: tail[k] == m[k];
    assert |m| <= |n| && |n| <= |m|;
    assert n == tail[..|n|] == m;
  }

  lemma TailOf(dir: string, n: string, isDir: bool, p: string)
    requires var s := FoundAt(dir, Item(n, isDir)).path; s == p || (isDir && s <= p)
    ensures dir <= p && n <= p[|dir|..]
    ensures if isDir then |n| < |p[|dir|..]| && p[|dir| + |n|] == '/' else p[|dir|..] == n
  {
    var s := FoundAt(dir, Item(n, isDir)).path;
    assert s == dir + n + (if isDir then "/" else "");
    assert s[..|dir|] == dir && s[|dir|..|dir| + |n|] == n;
    assert p[..|dir|] == dir && p[|dir|..|dir| + |n|] == n;
    if isDir {
      assert s[|dir| + |n|] == '/';
    } else {
      assert s == dir + n;
    }
  }

  /** The parts a listing splits into: its first entry, what is below that, and the rest. */
  lemma PartsAreDisjoint(dir: string, entries: seq<Entry>)
    requires IsDirPath(dir) && WellNamed(entries) && entries != []
    ensures var top := FoundAt(dir, Shown(entries[0]));
      && top !in Below(dir, entries[1..]) && top.path !in DirsBelow(dir, entries[1..])
      && (entries[0].DirEntry? ==>
            var sub := entries[0].entries;
            && top !in Below(top.path, sub) && Below(top.path, sub) !! Below(dir, entries[1..])
            && top.path !in DirsBelow(top.path, sub) && DirsBelow(top.path, sub) !! DirsBelow(dir, entries[1..]))
  {
    var top := FoundAt(dir, Shown(entries[0]));
    HeadIsApart(dir, entries);
    assert FromHead(dir, entries, top);
    if entries[0].DirEntry? {
      var sub := entries[0].entries;
      forall f | f in Below(top.path, sub) ensures f !in Below(dir, entries[1..]) && f.path != top.path {
        assert FromHead(dir, entries, f);
        var _, _ := BelowShape(top.path, sub, f);
      }
      DirsAreBelow(top.path, sub, top.path);
      forall p | p in DirsBelow(top.path, sub) ensures p !in DirsBelow(dir, entries[1..]) {
        DirsAreBelow(top.path, sub, p);
        var f :| f in Below(top.path, sub) && f.isDir && f.path == p;
        assert FromHead(dir, entries, f);
      }
    }
  }

  lemma SizeOfParts<T>(x: T, b: set<T>, c: set<T>)
    requires x !in b && x !in c && b !! c
    ensures |{x} + b + c| == 1 + |b| + |c|
  {
    assert |{x} + b| == 1 + |b|;
  }

  lemma PartsAreWellNamed(dir: string, entries: seq<Entry>)
    requires IsDirPath(dir) && WellNamed(entries) && entries != []
    ensures WellNamed(entries[1..])
    ensures entries[0].DirEntry? ==> WellNamed(entries[0].entries) && IsDirPath(FoundAt(dir, Shown(entries[0])).path)
  {
  }

  /**
   The set of entries below a directory has as many members as the tree has nodes: the walk
   cannot meet two entries with one path.
   */
  lemma {:induction false} BelowIsCounted(dir: string, entries: seq<Entry>)
    requires IsDirPath(dir) && WellNamed(entries)
    ensures |Below(dir, entries)| == Count(entries)
    ensures |DirsBelow(dir, entries)| == DirCount(entries)
    decreases entries
  {
    hide WellNamed, IsDirPath, FoundAt;
    if entries != [] {
      PartsAreWellNamed(dir, entries);
      BelowIsCounted(dir, entries[1..]);
      PartsAreDisjoint(dir, entries);
      if entries[0].DirEntry? {
        BelowIsCounted(FoundAt(dir, Shown(entries[0])).path, entries[0].entries);
        PartsAreCounted(dir, entries);
      } else {
        assert Below(dir, entries) == {FoundAt(dir, Shown(entries[0]))} + Below(dir, entries[1..]);
      }
    }
  }

  lemma PartsAreCounted(dir: string, entries: seq<Entry>)
    requires entries != [] && entries[0].DirEntry?
    requires var top, sub := FoundAt(dir, Shown(entries[0])), entries[0].entries;
      && top !in Below(dir, entries[1..]) && top.path !in DirsBelow(dir, entries[1..])
      && top !in Below(top.path, sub) && Below(top.path, sub) !! Below(dir, entries[1..])
      && top.path !in DirsBelow(top.path, sub) && DirsBelow(top.path, sub) !! DirsBelow(dir, entries[1..])
      && |Below(dir, entries[1..])| == Count(entries[1..]) && |DirsBelow(dir, entries[1..])| == DirCount(entries[1..])
      && |Below(top.path, sub)| == Count(sub) && |DirsBelow(top.path, sub)| == DirCount(sub)
    ensures |Below(dir, entries)| == Count(entries)
    ensures |DirsBelow(dir, entries)| == DirCount(entries)
  {
    hide FoundAt;
    var top, sub := FoundAt(dir, Shown(entries[0])), entries[0].entries;
    var b, c := Below(top.path, sub), Below(dir, entries[1..]);
    var d, e := DirsBelow(top.path, sub), DirsBelow(dir, entries[1..]);
    SizeOfParts(top, b, c);
    SizeOfParts(top.path, d, e);
    assert Below(dir, entries) == {top} + b + c;
    assert DirsBelow(dir, entries) == {top.path} + d + e;
  }

  /** The paths of the directories below are the paths of the entries that are directories. */
  lemma {:induction false} DirsAreBelow(dir: string, entries: seq<Entry>, p: string)
    ensures p in DirsBelow(dir, entries) <==> exists f :: f in Below(dir, entries) && f.isDir && f.path == p
    decreases entries
  {
    if entries != [] {
      var e := entries[0];
      var top := FoundAt(dir, Shown(e));
      DirsAreBelow(dir, entries[1..], p);
      if e.DirEntry? {
        DirsAreBelow(top.path, e.entries, p);
        assert top in Below(dir, entries) && top.isDir;
      }
    }
  }

  ghost predicate FromHead(dir: string, entries: seq<Entry>, f: Found) {
    entries != [] &&
    var top := FoundAt(dir, Shown(entries[0]));
    f == top || (entries[0].DirEntry? && f in Below(top.path, entries[0].entries))
  }

  lemma FromHeadIsUnder(dir: string, entries: seq<Entry>, f: Found)
    requires IsDirPath(dir) && WellNamed(entries) && FromHead(dir, entries, f)
    ensures Under(dir, entries, 0, f.path)
  {
    var top := FoundAt(dir, Shown(entries[0]));
    if f != top {
      var _, _ := BelowShape(top.path, entries[0].entries, f);
    }
  }

  lemma FromTailIsUnder(dir: string, entries: seq<Entry>, f: Found) returns (i: nat)
    requires IsDirPath(dir) && entries != [] && WellNamed(entries) && f in Below(dir, entries[1..])
    ensures i > 0 && Under(dir, entries, i, f.path)
  {
    var _, j := BelowShape(dir, entries[1..], f);
    i := j + 1;
    assert entries[1..][j] == entries[i];
  }

  /** No entry that comes with the first of a listing shares a path with one that comes later. */
  lemma HeadIsApart(dir: string, entries: seq<Entry>)
    requires IsDirPath(dir) && entries != [] && WellNamed(entries)
    ensures forall f | FromHead(dir, entries, f) :: f !in Below(dir, entries[1..])
    ensures forall f | FromHead(dir, entries, f) :: f.path !in DirsBelow(dir, entries[1..])
  {
    forall f, g | FromHead(dir, entries, f) && g in Below(dir, entries[1..]) ensures f.path != g.path {
      FromHeadIsUnder(dir, entries, f);
      var i := FromTailIsUnder(dir, entries, g);
      if f.path == g.path {
        UnderOne(dir, entries, 0, i, f.path);
      }
    }
    forall f | FromHead(dir, entries, f)
      ensures f !in Below(dir, entries[1..]) && f.path !in DirsBelow(dir, entries[1..])
    {
      DirsAreBelow(dir, entries[1..], f.path);
    }
  }
}
