/**
 Display type against type filter for one fixed table of overrides: which letters Python's
 `str.lower` and SQLite's LOWER may case differently before some name is shown under a type
 whose filter misses it (core/domain/file_type.py, adapters/persistence/sqlite/resources_query.py).
 */
module FileTypeCasing {
  import opened Options
  import opened Like
  import opened FileType

  /** The suffix of some name: a dot, then neither dot nor slash. */
  predicate SuffixShaped(x: string) {
    |x| >= 2 && x[0] == '.' && '.' !in x[1..] && '/' !in x
  }

  /** Names that end with this extension have a type of their own. */
  predicate Typed(ov: Overrides, ext: string) {
    var hit := OverrideFor(ov, ext);
    if hit != "" then NormalizeType(hit) != "other" else KnownType(ext).Some?
  }

  /** No override turns an extension of the dictionary into `other`. */
  ghost predicate NoKnownHidden(ov: Overrides) {
    forall ext: string | KnownType(ext).Some? :: Typed(ov, ext)
  }

  ghost predicate CasedSafely(lower: char -> string, ov: Overrides) {
    forall x: string | SuffixShaped(x) && Typed(ov, Lower(lower, x)) :: CasesAlike(lower, x)
  }

  /** No typed extension contains what Python makes of a letter that SQLite leaves alone. */
  ghost predicate NoExtUnlike(lower: char -> string, ov: Overrides) {
    forall ext: string, c: char | SuffixShaped(ext) && Stable(lower, ext) && Typed(ov, ext) && !CasedAlike(lower, c) ::
      !Contains(ext, lower(c))
  }

  // ---------- Suffixes and what they lower to ----------

  lemma {:induction false} LowerConcat(lower: char -> string, a: string, b: string)
    ensures Lower(lower, a + b) == Lower(lower, a) + Lower(lower, b)
  {
    if a == "" {
      assert a + b == b;
    } else {
      var s := a + b;
      assert s[0] == a[0] && s[1..] == a[1..] + b;
      LowerConcat(lower, a[1..], b);
      assert Lower(lower, s) == lower(s[0]) + Lower(lower, s[1..]);
      hide Lower;
      assert lower(a[0]) + (Lower(lower, a[1..]) + Lower(lower, b)) == lower(a[0]) + Lower(lower, a[1..]) + Lower(lower, b);
    }
  }

  lemma {:induction false} LowerIsStable(lower: char -> string, s: string)
    requires PythonLower(lower)
    ensures Stable(lower, Lower(lower, s)) && |Lower(lower, s)| >= |s|
    ensures '.' !in s ==> '.' !in Lower(lower, s)
    ensures '/' !in s ==> '/' !in Lower(lower, s)
  {
    if s != "" {
      LowerIsStable(lower, s[1..]);
      assert Lower(lower, s) == lower(s[0]) + Lower(lower, s[1..]);
      assert s[0] in s && forall c | c in s[1..] :: c in s;
    }
  }

  lemma LowerIsShaped(lower: char -> string, x: string)
    requires PythonLower(lower) && SuffixShaped(x)
    ensures SuffixShaped(Lower(lower, x)) && Stable(lower, Lower(lower, x))
  {
    assert CasedAlike(lower, '.');
    LowerIsStable(lower, x);
    LowerIsStable(lower, x[1..]);
    assert Lower(lower, x) == "." + Lower(lower, x[1..]);
  }

  lemma OneChar(lower: char -> string, c: char)
    ensures Lower(lower, [c]) == lower(c)
  {
    assert [c][1..] == "" && Lower(lower, [c]) == lower(c) + Lower(lower, "");
  }

  lemma LowerOfThree(lower: char -> string, a: string, c: char, b: string)
    ensures Lower(lower, a + [c] + b) == Lower(lower, a) + lower(c) + Lower(lower, b)
  {
    hide Lower;
    OneChar(lower, c);
    LowerConcat(lower, a + [c], b);
    LowerConcat(lower, a, [c]);
  }

  lemma InTheMiddle(a: string, l: string, b: string)
    ensures Contains(a + l + b, l)
  {
    var s := a + l + b;
    assert s[|a|..][..|l|] == l;
    assert StartsWith(s[|a|..], l);
  }

  lemma SplitAround(s: string, l: string) returns (a: string, b: string)
    requires Contains(s, l)
    ensures s == a + l + b
  {
    var i :| 0 <= i <= |s| && StartsWith(s[i..], l);
    a, b := s[..i], s[i + |l|..];
    assert s[i..] == l + b by { assert s[i..][..|l|] == l && s[i..][|l|..] == b; }
    assert s == a + s[i..];
  }

  lemma StillShaped(a: string, l: string, b: string, c: char)
    requires SuffixShaped(a + l + b) && l != "" && '.' !in l && c != '.' && c != '/'
    ensures a != "" && SuffixShaped(a + [c] + b)
  {
    var ext, x := a + l + b, a + [c] + b;
    assert ext[|a|] == l[0] && l[0] in l;
    assert x[0] == a[0] == ext[0];
    forall k | 1 <= k < |x| ensures x[k] != '.' {
      if k < |a| {
        assert x[k] == ext[1..][k - 1];
      } else if k > |a| {
        assert x[k] == b[k - |a| - 1] == ext[1..][k - 2 + |l|];
      }
    }
    assert forall d | d in x :: d == c || d in ext;
  }

  /** Replacing the lowered letter by the letter itself gives a suffix of the same extension. */
  lemma UnlikeSuffix(lower: char -> string, ext: string, c: char) returns (x: string)
    requires PythonLower(lower) && SuffixShaped(ext) && Stable(lower, ext)
    requires !CasedAlike(lower, c) && Contains(ext, lower(c))
    ensures SuffixShaped(x) && Lower(lower, x) == ext && !CasesAlike(lower, x)
  {
    hide Lower, Contains, SuffixShaped;
    var l := lower(c);
    assert CasedAlike(lower, '.') && CasedAlike(lower, '/');
    var a, b := SplitAround(ext, l);
    StillShaped(a, l, b, c);
    x := a + [c] + b;
    assert forall k | 0 <= k < |a| :: a[k] == ext[k];
    assert forall k | 0 <= k < |b| :: b[k] == ext[|a| + |l| + k];
    LowerOfStable(lower, a);
    LowerOfStable(lower, b);
    LowerOfThree(lower, a, c, b);
    assert x[|a|] == c;
  }

  lemma LoweredLetterIsIn(lower: char -> string, x: string, q: nat)
    requires q < |x|
    ensures Contains(Lower(lower, x), lower(x[q]))
  {
    hide Lower, Contains;
    var a, b := x[..q], x[q + 1..];
    assert x == a + [x[q]] + b;
    LowerOfThree(lower, a, x[q], b);
    InTheMiddle(Lower(lower, a), lower(x[q]), Lower(lower, b));
  }

  lemma CasedSafelyIff(lower: char -> string, ov: Overrides)
    requires PythonLower(lower)
    ensures CasedSafely(lower, ov) <==> NoExtUnlike(lower, ov)
  {
    if CasedSafely(lower, ov) {
      forall ext: string, c: char | SuffixShaped(ext) && Stable(lower, ext) && Typed(ov, ext) && !CasedAlike(lower, c)
        ensures !Contains(ext, lower(c))
      {
        if Contains(ext, lower(c)) {
          var x := UnlikeSuffix(lower, ext, c);
        }
      }
    }
    if NoExtUnlike(lower, ov) {
      forall x: string | SuffixShaped(x) && Typed(ov, Lower(lower, x)) ensures CasesAlike(lower, x) {
        LowerIsShaped(lower, x);
        forall q | 0 <= q < |x| ensures CasedAlike(lower, x[q]) {
          LoweredLetterIsIn(lower, x, q);
        }
      }
    }
  }

  // ---------- A name the filter misses ----------

  lemma SuffixOfShort(x: string)
    requires SuffixShaped(x)
    ensures Suffix("a" + x) == x
  {
    var name := "a" + x;
    var i := LastDot(name);
    assert name[1] == '.';
    assert forall j | 1 < j < |name| :: name[j] == x[1..][j - 2];
    assert i == 1;
    assert name[1..] == x;
  }

  /** With one dot, at index 1, only the tail from there can match a dotted pattern. */
  lemma OnlyTheTail(f: string, e: string)
    requires |f| >= 2 && f[0] != '.' && (forall j | 2 <= j < |f| :: f[j] != '.')
    requires e != "" && e[0] == '.' && f[1..] != e
    ensures !EndsWith(f, e) && !Contains(f, e + ".")
  {
    if |e| <= |f| {
      assert f[|f| - |e|..][0] == f[|f| - |e|];
      assert |f| - |e| == 1 ==> f[|f| - |e|..] == f[1..];
    }
    forall i | 0 <= i <= |f| ensures !StartsWith(f[i..], e + ".") {
      NoTwoDots(f, e, i);
    }
  }

  lemma NoTwoDots(f: string, e: string, i: nat)
    requires |f| >= 2 && f[0] != '.' && (forall j | 2 <= j < |f| :: f[j] != '.')
    requires e != "" && e[0] == '.' && i <= |f|
    ensures !StartsWith(f[i..], e + ".")
  {
    var t := f[i..];
    if |e| + 1 <= |t| {
      var p := t[..|e| + 1];
      assert p[0] == f[i] && p[|e|] == f[i + |e|];
      assert (e + ".")[0] == '.' && (e + ".")[|e|] == '.';
    }
  }

  /** A pattern of letters both sides leave alone does not match a suffix with an unlike one. */
  lemma UnlikeSuffixIsMissed(lower: char -> string, x: string, q: nat, e: string)
    requires PythonLower(lower) && SuffixShaped(x) && q < |x| && !CasedAlike(lower, x[q])
    requires e != "" && e[0] == '.'
    ensures !AcceptsExt(lower, "a" + x, e)
  {
    hide AcceptsExt, EndsWith, Contains;
    var name, le := "a" + x, Lower(lower, e);
    AcceptsExtMeaning(lower, name, e);
    LowerIsStable(lower, e);
    assert CasedAlike(lower, '.') && le == lower('.') + Lower(lower, e[1..]);
    hide Lower;
    FoldOfStable(lower, le);
    var f := Fold(name);
    forall j | 2 <= j < |f| ensures f[j] != '.' {
      assert name[j] == x[1..][j - 2];
    }
    assert f[1..][q] == FoldChar(x[q]) == x[q];
    OnlyTheTail(f, le);
  }

  lemma FoldOfStable(lower: char -> string, s: string)
    requires LowersAscii(lower) && Stable(lower, s)
    ensures Fold(s) == s && forall i | 0 <= i < |s| :: CasedAlike(lower, s[i])
  {
    forall i | 0 <= i < |s| ensures FoldChar(s[i]) == s[i] {
      if s[i] < 128 as char {
        assert CasedAlike(lower, s[i]);
      }
    }
  }

  lemma KnownIsNotOther(ext: string)
    requires KnownType(ext).Some?
    ensures KnownType(ext).value != "other"
  {
    assert StaticExts("other") == [];
  }

  /** A name with a typed suffix is shown under that type. */
  lemma TypedIsShown(lower: char -> string, isVolume: string -> bool, ov: Overrides, x: string)
    requires SuffixShaped(x) && Typed(ov, Lower(lower, x))
    ensures ClassifyWithOverrides(lower, isVolume, "a" + x, ov) != "other"
  {
    hide KnownType, NormalizeType, StaticExts;
    SuffixOfShort(x);
    var ext := Lower(lower, x);
    if OverrideFor(ov, ext) == "" {
      KnownIsNotOther(ext);
      assert ClassifyFrom(lower, isVolume, "a" + x, 6) == KnownType(ext).value;
    }
  }

  lemma UnlikeTypedDisagrees(lower: char -> string, isVolume: string -> bool, ov: Overrides, x: string)
    requires PythonLower(lower) && SuffixShaped(x) && Typed(ov, Lower(lower, x)) && !CasesAlike(lower, x)
    requires NoKnownHidden(ov)
    ensures !Agrees(lower, isVolume, "a" + x, ov) && '/' !in "a" + x
  {
    hide AcceptsExt, ExtsPrefix, ClassifyWithOverrides;
    TypedIsShown(lower, isVolume, ov, x);
    var t := ClassifyWithOverrides(lower, isVolume, "a" + x, ov);
    var exts := TypeExts(lower, t, ov);
    ExtsAreDotted(lower, t, ov, |ov|);
    var q :| 0 <= q < |x| && !CasedAlike(lower, x[q]);
    forall i | 0 <= i < |exts| ensures !AcceptsExt(lower, "a" + x, exts[i]) {
      assert exts[i] in exts;
      UnlikeSuffixIsMissed(lower, x, q, exts[i]);
    }
    ShownHasExts(lower, isVolume, ov, x);
  }

  /** The filter of a type some suffix is shown under is not empty. */
  lemma ShownHasExts(lower: char -> string, isVolume: string -> bool, ov: Overrides, x: string)
    requires PythonLower(lower) && SuffixShaped(x) && Typed(ov, Lower(lower, x))
    ensures TypeExts(lower, ClassifyWithOverrides(lower, isVolume, "a" + x, ov), ov) != []
  {
    hide KnownType, NormalizeType, StaticExts, ExtsPrefix;
    SuffixOfShort(x);
    var ext := Lower(lower, x);
    var hit := OverrideFor(ov, ext);
    if hit != "" {
      var exact := Get(ov, ext);
      var key := if exact.Some? && exact.value != "" then ext else StripDots(ext);
      assert (key, hit) in ov;
      var i :| 0 <= i < |ov| && ov[i] == (key, hit);
      NormalizeTwice(hit);
      OverrideIsListed(lower, NormalizeType(hit), ov, |ov|, i);
    } else {
      var t := KnownType(ext).value;
      assert ClassifyFrom(lower, isVolume, "a" + x, 6) == t;
      KnownTypesAreNormal(t);
      StaticExtsStay(lower, t, ov, |ov|, ext);
    }
  }

  // ---------- The exact condition ----------

  lemma SuffixIsShaped(name: string)
    requires '/' !in name && Suffix(name) != ""
    ensures SuffixShaped(Suffix(name))
  {
    var x := Suffix(name);
    var i := LastDot(name);
    assert forall j | 1 <= j < |x| :: x[j] == name[i + j];
  }

  lemma {:induction false} KnownSuffixIsShaped(lower: char -> string, isVolume: string -> bool, p: string, rounds: nat)
    requires '/' !in p
    ensures var s := KnownSuffix(lower, isVolume, p, rounds);
            s != "" ==> SuffixShaped(s) && KnownType(Lower(lower, s)).Some?
    decreases rounds
  {
    hide KnownType, Strippable;
    var ext := Lower(lower, Suffix(p));
    if KnownType(ext).Some? {
      if Suffix(p) != "" {
        SuffixIsShaped(p);
      }
    } else if rounds > 0 && Strippable(isVolume, ext) {
      KnownSuffixIsShaped(lower, isVolume, WithoutSuffix(p), rounds - 1);
    }
  }

  lemma SafeNameAgrees(lower: char -> string, isVolume: string -> bool, name: string, ov: Overrides)
    requires PythonLower(lower) && NoKnownHidden(ov) && CasedSafely(lower, ov) && EmptyKeyHarmless(ov)
    requires '/' !in name
    ensures Agrees(lower, isVolume, name, ov)
  {
    hide KnownType, NormalizeType, StaticExts, EndsWith, Accepts;
    var x := Suffix(name);
    var hit := OverrideFor(ov, Lower(lower, x));
    if hit != "" && NormalizeType(hit) == "other" {
      assert ClassifyWithOverrides(lower, isVolume, name, ov) == "other";
    } else {
      if hit != "" {
        if x != "" {
          SuffixIsShaped(name);
        }
      } else {
        KnownSuffixIsShaped(lower, isVolume, name, 6);
      }
      FilterAgreesWithClassification(lower, isVolume, name, ov);
    }
  }

  /**
   For one table of overrides, all names agree exactly if an empty key does no harm and no typed
   extension, from the dictionary or the table, contains what Python makes of a letter that
   SQLite leaves alone.
   */
  lemma AgreesUnderOverridesIff(lower: char -> string, isVolume: string -> bool, ov: Overrides)
    requires PythonLower(lower) && NoKnownHidden(ov)
    ensures (forall name: string | '/' !in name :: Agrees(lower, isVolume, name, ov))
       <==> EmptyKeyHarmless(ov) && NoExtUnlike(lower, ov)
  {
    hide Agrees, EmptyKeyHarmless, NoKnownHidden, NoExtUnlike, CasedSafely, PythonLower;
    CasedSafelyIff(lower, ov);
    if !EmptyKeyHarmless(ov) {
      LowersAsciiToo(lower);
      EmptyKeyDisagrees(lower, isVolume, ov);
      assert '/' !in "README";
    } else if !CasedSafely(lower, ov) {
      var x := UnsafeSuffix(lower, ov);
      UnlikeTypedDisagrees(lower, isVolume, ov, x);
    } else {
      forall name: string | '/' !in name ensures Agrees(lower, isVolume, name, ov) {
        SafeNameAgrees(lower, isVolume, name, ov);
      }
    }
  }

  lemma LowersAsciiToo(lower: char -> string)
    requires PythonLower(lower)
    ensures LowersAscii(lower)
  {
  }

  lemma UnsafeSuffix(lower: char -> string, ov: Overrides) returns (x: string)
    requires !CasedSafely(lower, ov)
    ensures SuffixShaped(x) && Typed(ov, Lower(lower, x)) && !CasesAlike(lower, x)
  {
    x :| SuffixShaped(x) && Typed(ov, Lower(lower, x)) && !CasesAlike(lower, x);
  }

  /** Without overrides: the Kelvin sign, which only Python turns into `k`, breaks `.mkv`. */
  lemma KelvinSignBreaksMkv(lower: char -> string, isVolume: string -> bool, kelvin: char)
    requires PythonLower(lower) && kelvin >= 128 as char && lower(kelvin) == "k"
    ensures !(forall name: string | '/' !in name :: Agrees(lower, isVolume, name, []))
  {
    hide Agrees, KnownType, Stable, Contains;
    MkvIsKnown();
    MkvContains(lower);
    assert forall ext: string :: OverrideFor([], ext) == "";
    AgreesUnderOverridesIff(lower, isVolume, []);
    assert Typed([], ".mkv");
  }

  lemma KnownIfListed(ext: string, t: string)
    requires t in KNOWN_TYPES && ext in StaticExts(t)
    ensures KnownType(ext).Some?
  {
    hide TypeOfExt, StaticExts;
    assert TypeOfExt(ext, KNOWN_TYPES).None? ==> ext !in StaticExts(t);
  }

  lemma MkvIsKnown()
    ensures KnownType(".mkv").Some?
  {
    assert VIDEO_EXTS[1] == ".mkv" && KNOWN_TYPES[6] == "video";
    KnownIfListed(".mkv", "video");
  }

  lemma AsciiIsStable(lower: char -> string, s: string)
    requires LowersAscii(lower) && forall i | 0 <= i < |s| :: s[i] < 128 as char && FoldChar(s[i]) == s[i]
    ensures Stable(lower, s)
  {
    forall i | 0 <= i < |s| ensures lower(s[i]) == [s[i]] {
      assert CasedAlike(lower, s[i]);
    }
  }

  lemma MkvContains(lower: char -> string)
    requires PythonLower(lower)
    ensures SuffixShaped(".mkv") && Stable(lower, ".mkv") && Contains(".mkv", "k")
  {
    hide Contains, Stable;
    AsciiIsStable(lower, ".mkv");
    assert ".mkv"[1..] == "mkv";
    assert ".m" + "k" + "v" == ".mkv";
    InTheMiddle(".m", "k", "v");
  }
}
