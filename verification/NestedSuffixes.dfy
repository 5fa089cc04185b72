/**
 Names with transient and volume suffixes behind the one that counts
 (core/domain/file_type.py): how far `classify` looks through them.
 */
module NestedSuffixes {
  import opened Options
  import opened FileType

  /** A dot and at least one character that is none. */
  predicate IsSuffix(s: string) {
    |s| >= 2 && s[0] == '.' && forall j | 1 <= j < |s| :: s[j] != '.'
  }

  ghost predicate Unlisted(ext: string) { forall t | t in KNOWN_TYPES :: ext !in StaticExts(t) }

  ghost predicate ListedOnlyBy(ext: string, t: string) {
    t in KNOWN_TYPES && ext in StaticExts(t) && forall u | u in KNOWN_TYPES && ext in StaticExts(u) :: u == t
  }

  lemma UnlistedIsUnknown(ext: string)
    requires Unlisted(ext)
    ensures KnownType(ext).None?
  {
    hide StaticExts;
  }

  lemma ListedIsKnown(ext: string, t: string)
    requires ListedOnlyBy(ext, t)
    ensures KnownType(ext) == Some(t)
  {
    hide StaticExts;
  }

  /** No type lists it, and a download tool or a splitter puts it there. */
  ghost predicate Sheds(lower: char -> string, isVolume: string -> bool, s: string) {
    var ext := Lower(lower, s);
    IsSuffix(s) && Unlisted(ext) && (ext in TRANSIENT_EXTS || isVolume(ext))
  }

  /** The table has a type for the last suffix of the name, with its dot or without. */
  predicate Overridden(lower: char -> string, name: string, ov: Overrides) {
    OverrideFor(ov, Lower(lower, Suffix(name))) != ""
  }

  /** The name with these suffixes behind it. */
  function Layers(base: string, ss: seq<string>): string {
    if ss == [] then base else Layers(base, ss[..|ss| - 1]) + ss[|ss| - 1]
  }

  lemma SuffixOf(p: string, s: string)
    requires p != "" && IsSuffix(s)
    ensures Suffix(p + s) == s && WithoutSuffix(p + s) == p
  {
    var name := p + s;
    var i := LastDot(name);
    assert name[|p|] == '.';
    assert forall j | |p| < j < |name| :: name[j] == s[j - |p|];
    assert i == |p| && name[i..] == s && name[..|p|] == p;
  }

  lemma {:induction false} LayersGrow(base: string, ss: seq<string>)
    requires base != ""
    ensures Layers(base, ss) != ""
  {
    if ss != [] {
      LayersGrow(base, ss[..|ss| - 1]);
    }
  }

  lemma ShedsIsStrippable(lower: char -> string, isVolume: string -> bool, s: string)
    requires Sheds(lower, isVolume, s)
    ensures KnownType(Lower(lower, s)).None? && Strippable(isVolume, Lower(lower, s))
  {
    UnlistedIsUnknown(Lower(lower, s));
  }

  lemma OneRound(lower: char -> string, isVolume: string -> bool, p: string, s: string, rounds: nat)
    requires p != "" && Sheds(lower, isVolume, s)
    ensures ClassifyFrom(lower, isVolume, p + s, rounds)
         == if rounds == 0 then "other" else ClassifyFrom(lower, isVolume, p, rounds - 1)
  {
    hide StaticExts, KnownType, Strippable, Lower, Suffix, WithoutSuffix;
    ShedsIsStrippable(lower, isVolume, s);
    ShedIsSuffix(lower, isVolume, s);
    SuffixOf(p, s);
  }

  lemma LastRound(lower: char -> string, isVolume: string -> bool, stem: string, e: string, rounds: nat)
    requires stem != "" && IsSuffix(e)
    requires KnownType(Lower(lower, e)).Some? || !Strippable(isVolume, Lower(lower, e))
    ensures ClassifyFrom(lower, isVolume, stem + e, rounds)
         == match KnownType(Lower(lower, e)) case Some(t) => t case None => "other"
  {
    hide StaticExts, KnownType, Strippable, Lower, Suffix, WithoutSuffix;
    SuffixOf(stem, e);
  }

  lemma {:induction false} SeenThrough(lower: char -> string, isVolume: string -> bool, stem: string, e: string,
                                       ss: seq<string>, rounds: nat)
    requires stem != "" && IsSuffix(e) && forall s | s in ss :: Sheds(lower, isVolume, s)
    requires KnownType(Lower(lower, e)).Some? || !Strippable(isVolume, Lower(lower, e))
    ensures ClassifyFrom(lower, isVolume, Layers(stem + e, ss), rounds)
         == match KnownType(Lower(lower, e))
            case Some(t) => if |ss| <= rounds then t else "other"
            case None => "other"
    decreases |ss|
  {
    hide StaticExts, KnownType, Strippable, Sheds, ClassifyFrom, Lower;
    if ss == [] {
      LastRound(lower, isVolume, stem, e, rounds);
    } else {
      var inner, s := Layers(stem + e, ss[..|ss| - 1]), ss[|ss| - 1];
      assert s in ss;
      LayersGrow(stem + e, ss[..|ss| - 1]);
      OneRound(lower, isVolume, inner, s, rounds);
      if rounds > 0 {
        SeenThrough(lower, isVolume, stem, e, ss[..|ss| - 1], rounds - 1);
      }
    }
  }

  lemma ShedIsSuffix(lower: char -> string, isVolume: string -> bool, s: string)
    requires Sheds(lower, isVolume, s)
    ensures IsSuffix(s)
  {
  }

  /** A name keeps the type of its own suffix behind up to six such suffixes, and loses it behind seven. */
  lemma SixSuffixesAreSeenThrough(lower: char -> string, isVolume: string -> bool, stem: string, e: string,
                                  ss: seq<string>, t: string)
    requires stem != "" && IsSuffix(e) && ListedOnlyBy(Lower(lower, e), t)
    requires forall s | s in ss :: Sheds(lower, isVolume, s)
    ensures ClassifyFrom(lower, isVolume, Layers(stem + e, ss), 6) == if |ss| <= 6 then t else "other"
    ensures forall ov | !Overridden(lower, Layers(stem + e, ss), ov) ::
              ClassifyWithOverrides(lower, isVolume, Layers(stem + e, ss), ov) == if |ss| <= 6 then t else "other"
  {
    hide ListedOnlyBy, ClassifyFrom, Lower, KnownType, Strippable, Sheds, OverrideFor;
    ListedIsKnown(Lower(lower, e), t);
    SeenThrough(lower, isVolume, stem, e, ss, 6);
  }

  /** A suffix that is neither listed nor of that kind ends the search. */
  lemma StrangeSuffixEndsTheSearch(lower: char -> string, isVolume: string -> bool, stem: string, e: string, ss: seq<string>)
    requires stem != "" && IsSuffix(e) && Unlisted(Lower(lower, e))
    requires Lower(lower, e) !in TRANSIENT_EXTS && !isVolume(Lower(lower, e))
    requires forall s | s in ss :: Sheds(lower, isVolume, s)
    ensures ClassifyFrom(lower, isVolume, Layers(stem + e, ss), 6) == "other"
    ensures forall ov | !Overridden(lower, Layers(stem + e, ss), ov) ::
              ClassifyWithOverrides(lower, isVolume, Layers(stem + e, ss), ov) == "other"
  {
    hide Unlisted, ClassifyFrom, Lower, KnownType, Sheds, OverrideFor;
    UnlistedIsUnknown(Lower(lower, e));
    SeenThrough(lower, isVolume, stem, e, ss, 6);
  }
}
