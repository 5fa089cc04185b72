/**
 Classification of file names and the SQL suffix filter that must agree with it
 (core/domain/file_type.py, adapters/persistence/sqlite/resources_query.py).

 Python's `str.lower` is a parameter `lower`, one character at a time; SQLite's LOWER folds
 ASCII only. The test for volume suffixes is a parameter too: nothing depends on its details.
 */
module FileType {
  import opened Options
  import opened Like

  type Overrides = seq<(string, string)>

  // ---------- Path(name).suffix and with_suffix("") ----------

  /** The last index of a dot, or -1. */
  function LastDot(name: string): (i: int)
    ensures -1 <= i < |name|
    ensures i >= 0 ==> name[i] == '.'
    ensures forall j | i < j < |name| :: name[j] != '.'
  {
    if name == "" then -1
    else if name[|name| - 1] == '.' then |name| - 1
    else LastDot(name[..|name| - 1])
  }

  /** From the last dot on, unless that dot is the first or the last character. */
  function Suffix(name: string): (ext: string)
    ensures ext == "" || (|ext| < |name| && EndsWith(name, ext) && ext[0] == '.')
    ensures forall j | 1 <= j < |ext| :: ext[j] != '.'
  {
    var i := LastDot(name);
    if 0 < i < |name| - 1 then name[i..] else ""
  }

  function WithoutSuffix(name: string): (stem: string)
    ensures stem + Suffix(name) == name
  {
    name[..|name| - |Suffix(name)|]
  }

  function Lower(lower: char -> string, s: string): string {
    if s == "" then "" else lower(s[0]) + Lower(lower, s[1..])
  }

  // ---------- The dictionary ----------

  const KNOWN_TYPES: seq<string> := [
    "document", "pdf", "spreadsheet", "slide", "online_doc", "image", "video", "audio",
    "archive", "installer", "flash", "folder", "other"
  ]

  const DOCUMENT_EXTS: seq<string> := [
    ".doc", ".docx", ".docm", ".odt", ".rtf", ".wps", ".txt", ".md", ".epub", ".mobi", ".azw3", ".chm",
    ".caj", ".tex"
  ]

  const PDF_EXTS: seq<string> := [
    ".pdf"
  ]

  const SPREADSHEET_EXTS: seq<string> := [
    ".xls", ".xlsx", ".xlsb", ".xlsm", ".et", ".csv", ".ods", ".numbers"
  ]

  const SLIDE_EXTS: seq<string> := [
    ".ppt", ".pptx", ".pptm", ".pps", ".ppsx", ".dps", ".odp", ".key"
  ]

  const IMAGE_EXTS: seq<string> := [
    ".png", ".jpg", ".jpeg", ".gif", ".webp", ".bmp", ".svg", ".heic", ".tif", ".tiff", ".ico", ".avif",
    ".jfif", ".apng", ".psd", ".ai", ".eps", ".dng"
  ]

  const VIDEO_EXTS: seq<string> := [
    ".mp4", ".mkv", ".avi", ".mov", ".flv", ".webm", ".wmv", ".m4v", ".ts", ".m2ts", ".mts", ".3gp", ".3g2",
    ".ogv", ".rmvb", ".rm", ".vob", ".mpg", ".mpeg", ".f4v", ".asf", ".divx", ".m3u", ".m3u8"
  ]

  const AUDIO_EXTS: seq<string> := [
    ".mp3", ".wav", ".flac", ".ogg", ".m4a", ".aac", ".ape", ".wma", ".opus", ".mid", ".midi", ".amr",
    ".aiff", ".aif", ".ac3", ".mka", ".tak", ".m4b"
  ]

  const ARCHIVE_EXTS: seq<string> := [
    ".zip", ".rar", ".7z", ".tar", ".gz", ".bz2", ".xz", ".tgz", ".tbz2", ".txz", ".cab", ".iso", ".jar",
    ".arj", ".lzh", ".zst", ".lz4", ".lzma"
  ]

  const INSTALLER_EXTS: seq<string> := [
    ".exe", ".msi", ".apk", ".deb", ".rpm", ".dmg", ".appimage", ".appx", ".msix", ".ipa", ".xapk", ".apkm",
    ".pkg", ".flatpak", ".snap", ".whl"
  ]

  /** FILE_TYPE_EXT.get(t, []): the other known types list no extension. */
  function StaticExts(t: string): seq<string> {
    if t == "document" then DOCUMENT_EXTS
    else if t == "pdf" then PDF_EXTS
    else if t == "spreadsheet" then SPREADSHEET_EXTS
    else if t == "slide" then SLIDE_EXTS
    else if t == "image" then IMAGE_EXTS
    else if t == "video" then VIDEO_EXTS
    else if t == "audio" then AUDIO_EXTS
    else if t == "archive" then ARCHIVE_EXTS
    else if t == "installer" then INSTALLER_EXTS
    else []
  }

  /** _EXT_2_TYPE: the last known type that lists the extension. */
  function TypeOfExt(ext: string, types: seq<string>): (r: Option<string>)
    ensures r.Some? ==> r.value in types && ext in StaticExts(r.value)
    ensures r.None? ==> forall t | t in types :: ext !in StaticExts(t)
  {
    if types == [] then None
    else
      var last := types[|types| - 1];
      if ext in StaticExts(last) then Some(last) else TypeOfExt(ext, types[..|types| - 1])
  }

  function NormalizeType(t: string): string {
    if t == "" then "other"
    else if t == "program" then "installer"
    else if t == "data" then "other"
    else t
  }

  /** The names of older versions, and no name at all. */
  lemma OldTypeNames()
    ensures NormalizeType("program") == "installer" && NormalizeType("data") == "other" && NormalizeType("") == "other"
  {
  }

  /** Nine types have extensions; the other four are not told from a name. */
  lemma TypesWithExtensions(t: string)
    requires t in KNOWN_TYPES
    ensures StaticExts(t) == [] <==> t == "online_doc" || t == "flash" || t == "folder" || t == "other"
  {
  }

  const TRANSIENT_EXTS: set<string> := {
    ".downloading", ".crdownload", ".download", ".partial", ".part", ".tmp", ".temp", ".p", ".netdisk"
  }

  // ---------- Classification ----------

  function KnownType(ext: string): (r: Option<string>)
    ensures r.Some? ==> r.value in KNOWN_TYPES && ext in StaticExts(r.value)
  {
    TypeOfExt(ext, KNOWN_TYPES)
  }

  /** A suffix the strip loop may remove. */
  predicate Strippable(isVolume: string -> bool, ext: string) {
    ext in TRANSIENT_EXTS || isVolume(ext)
  }

  /** `rounds` more turns of the strip loop, then the final lookup. */
  function ClassifyFrom(lower: char -> string, isVolume: string -> bool, name: string, rounds: nat): string
    decreases rounds, name
  {
    var ext := Lower(lower, Suffix(name));
    var hit := KnownType(ext);
    if rounds == 0 || hit.Some? || !Strippable(isVolume, ext) then
      if hit.Some? then hit.value else "other"
    else
      ClassifyFrom(lower, isVolume, WithoutSuffix(name), rounds - 1)
  }

  function Get(ov: Overrides, key: string): (r: Option<string>)
    ensures r.Some? ==> (key, r.value) in ov
  {
    if ov == [] then None
    else if ov[0].0 == key then Some(ov[0].1)
    else Get(ov[1..], key)
  }

  function StripDots(s: string): string {
    if s != "" && s[0] == '.' then StripDots(s[1..]) else s
  }

  /** `get(ext) or get(ext.lstrip("."))`: an empty value counts as no hit. */
  function OverrideFor(ov: Overrides, ext: string): string {
    var exact := Get(ov, ext);
    if exact.Some? && exact.value != "" then exact.value
    else
      var bare := Get(ov, StripDots(ext));
      if bare.Some? then bare.value else ""
  }

  function ClassifyWithOverrides(lower: char -> string, isVolume: string -> bool, name: string,
                                 ov: Overrides): string
  {
    var hit := OverrideFor(ov, Lower(lower, Suffix(name)));
    if hit != "" then NormalizeType(hit) else ClassifyFrom(lower, isVolume, name, 6)
  }

  /** The loop of `classify`. */
  method Classify(lower: char -> string, isVolume: string -> bool, name: string) returns (t: string)
    ensures t == ClassifyFrom(lower, isVolume, name, 6)
  {
    hide StaticExts, KnownType, Strippable, Lower, Suffix, WithoutSuffix, EndsWith;
    var p := name;
    var ext := Lower(lower, Suffix(p));
    for round := 0 to 6
      invariant ext == Lower(lower, Suffix(p))
      invariant ClassifyFrom(lower, isVolume, name, 6) == ClassifyFrom(lower, isVolume, p, 6 - round)
    {
      var known := KnownType(ext);
      if known.Some? {
        return known.value;
      }
      if !Strippable(isVolume, ext) {
        break;
      }
      p := WithoutSuffix(p);
      ext := Lower(lower, Suffix(p));
    }
    var known := KnownType(ext);
    t := if known.Some? then known.value else "other";
  }

  // ---------- The extensions of a type filter ----------

  function Dotted(e: string): string { if e != "" && e[0] == '.' then e else "." + e }

  function ExtsPrefix(lower: char -> string, t: string, ov: Overrides, k: nat): seq<string>
    requires k <= |ov|
  {
    if k == 0 then StaticExts(NormalizeType(t))
    else
      var before := ExtsPrefix(lower, t, ov, k - 1);
      var e := Dotted(Lower(lower, ov[k - 1].0));
      if NormalizeType(ov[k - 1].1) == NormalizeType(t) && e !in before then before + [e] else before
  }

  function TypeExts(lower: char -> string, t: string, ov: Overrides): seq<string> {
    ExtsPrefix(lower, t, ov, |ov|)
  }

  /** The loop of `type_exts_with_overrides`. */
  method TypeExtsWithOverrides(lower: char -> string, t: string, ov: Overrides) returns (exts: seq<string>)
    ensures exts == TypeExts(lower, t, ov)
  {
    hide StaticExts, NormalizeType, Lower;
    exts := StaticExts(NormalizeType(t));
    for k := 0 to |ov|
      invariant exts == ExtsPrefix(lower, t, ov, k)
    {
      if NormalizeType(ov[k].1) == NormalizeType(t) {
        var e := Lower(lower, ov[k].0);
        if !(e != "" && e[0] == '.') {
          e := "." + e;
        }
        if e !in exts {
          exts := exts + [e];
        }
      }
    }
  }

  lemma {:induction false} StaticExtsStay(lower: char -> string, t: string, ov: Overrides, k: nat, e: string)
    requires k <= |ov| && e in StaticExts(NormalizeType(t))
    ensures e in ExtsPrefix(lower, t, ov, k)
  {
    hide StaticExts, NormalizeType, Dotted;
    if k > 0 {
      StaticExtsStay(lower, t, ov, k - 1, e);
    }
  }

  lemma {:induction false} OverrideIsListed(lower: char -> string, t: string, ov: Overrides, k: nat, i: nat)
    requires i < k <= |ov| && NormalizeType(ov[i].1) == NormalizeType(t)
    ensures Dotted(Lower(lower, ov[i].0)) in ExtsPrefix(lower, t, ov, k)
  {
    hide StaticExts, NormalizeType, Dotted;
    if i < k - 1 {
      OverrideIsListed(lower, t, ov, k - 1, i);
    }
  }

  // ---------- The SQL filter ----------

  /** `LOWER(name) LIKE '%e' OR LOWER(name) LIKE '%e.%'` over the lower-cased extensions. */
  predicate AcceptsExt(lower: char -> string, name: string, ext: string) {
    var el := LikeEscape(Lower(lower, ext));
    Matches("%" + el, Fold(name)) || Matches("%" + el + ".%", Fold(name))
  }

  /** An empty extension list adds no clause at all. */
  predicate Accepts(lower: char -> string, name: string, exts: seq<string>) {
    exts == [] || exists i :: 0 <= i < |exts| && AcceptsExt(lower, name, exts[i])
  }

  /** What the pattern pair means. */
  lemma AcceptsExtMeaning(lower: char -> string, name: string, ext: string)
    ensures var e := Fold(Lower(lower, ext));
            AcceptsExt(lower, name, ext) <==> EndsWith(Fold(name), e) || Contains(Fold(name), e + ".")
  {
    var e := Lower(lower, ext);
    SuffixPattern(e, Fold(name));
    ContainsPattern(e + ".", Fold(name));
    EscapeConcat(e, ".");
    EscapeOneChar('.');
    assert LikeContains(e + ".") == "%" + LikeEscape(e) + ".%";
    FoldTwice(name);
    FoldConcat(e, ".");
    assert Fold(".") == ".";
  }

  // ---------- Agreement ----------

  /** Python and SQLite lower-case this character alike. */
  predicate CasedAlike(lower: char -> string, c: char) { lower(c) == [FoldChar(c)] }

  ghost predicate LowersAscii(lower: char -> string) {
    forall c: char | c < 128 as char :: CasedAlike(lower, c)
  }

  predicate CasesAlike(lower: char -> string, s: string) {
    forall i | 0 <= i < |s| :: CasedAlike(lower, s[i])
  }

  lemma {:induction false} LowerIsFold(lower: char -> string, s: string)
    requires CasesAlike(lower, s)
    ensures Lower(lower, s) == Fold(s)
  {
    if s != "" {
      LowerIsFold(lower, s[1..]);
      assert CasedAlike(lower, s[0]);
      assert Fold(s) == [FoldChar(s[0])] + Fold(s[1..]);
    }
  }

  /** Lower-casing twice changes nothing for characters both sides fold alike. */
  lemma LowerTwice(lower: char -> string, s: string)
    requires LowersAscii(lower) && CasesAlike(lower, s)
    ensures Lower(lower, Lower(lower, s)) == Fold(s)
  {
    LowerIsFold(lower, s);
    forall i | 0 <= i < |s| ensures CasedAlike(lower, Fold(s)[i]) {
      assert CasedAlike(lower, s[i]);
      if FoldChar(s[i]) != s[i] {
        assert Fold(s)[i] < 128 as char;
      }
    }
    LowerIsFold(lower, Fold(s));
    FoldTwice(s);
  }

  lemma MiddlePart(a: string, b: string, c: string)
    requires c == "" || c[0] == '.'
    ensures EndsWith(a + b + c, b) || Contains(a + b + c, b + ".")
  {
    var s := a + b + c;
    if c == "" {
      assert s[|s| - |b|..] == b;
    } else {
      assert s[|a|..][..|b| + 1] == b + ".";
      assert StartsWith(s[|a|..], b + ".");
    }
  }

  /** The name is `stem + ext + rest`, and what was stripped starts with a dot. */
  lemma SuffixIsAccepted(lower: char -> string, name: string, p: string, ext: string)
    requires LowersAscii(lower) && CasesAlike(lower, Suffix(p))
    requires |p| <= |name| && name[..|p|] == p && (|p| == |name| || name[|p|] == '.')
    requires ext == Lower(lower, Suffix(p)) && Suffix(p) != ""
    ensures AcceptsExt(lower, name, ext)
  {
    hide AcceptsExt, EndsWith, Contains;
    var x := Suffix(p);
    var stem := WithoutSuffix(p);
    var rest := name[|p|..];
    assert name == stem + x + rest;
    LowerIsFold(lower, x);
    LowerTwice(lower, x);
    AcceptsExtMeaning(lower, name, ext);
    FoldTwice(x);
    FoldConcat(stem + x, rest);
    FoldConcat(stem, x);
    MiddlePart(Fold(stem), Fold(x), Fold(rest));
  }

  lemma KnownTypesAreNormal(t: string)
    requires t in KNOWN_TYPES
    ensures NormalizeType(t) == t
  {
  }

  /** Stripping a suffix leaves a prefix of the name, cut before a dot. */
  lemma StemIsPrefix(name: string, p: string)
    requires |p| <= |name| && name[..|p|] == p && (|p| == |name| || name[|p|] == '.')
    ensures var q := WithoutSuffix(p);
            |q| <= |name| && name[..|q|] == q && (|q| == |name| || name[|q|] == '.')
  {
    var q, x := WithoutSuffix(p), Suffix(p);
    assert p == q + x && p[..|q|] == q;
    assert x != "" ==> p[|q|] == x[0] == '.' && name[|q|] == p[|q|];
  }

  /** The suffix at which `classify` finds its type, or none. */
  function KnownSuffix(lower: char -> string, isVolume: string -> bool, name: string, rounds: nat): string
    decreases rounds, name
  {
    var ext := Lower(lower, Suffix(name));
    if KnownType(ext).Some? then Suffix(name)
    else if rounds == 0 || !Strippable(isVolume, ext) then ""
    else KnownSuffix(lower, isVolume, WithoutSuffix(name), rounds - 1)
  }

  lemma {:induction false} StaticAgreement(lower: char -> string, isVolume: string -> bool,
                                           name: string, p: string, rounds: nat, ov: Overrides)
    requires LowersAscii(lower) && CasesAlike(lower, KnownSuffix(lower, isVolume, p, rounds))
    requires |p| <= |name| && name[..|p|] == p && (|p| == |name| || name[|p|] == '.')
    ensures var t := ClassifyFrom(lower, isVolume, p, rounds);
            t != "other" ==> Accepts(lower, name, TypeExts(lower, t, ov))
    decreases rounds
  {
    hide StaticExts, KnownType, Strippable, Matches, LikeEscape;
    var ext := Lower(lower, Suffix(p));
    var hit := KnownType(ext);
    if hit.Some? {
      StaticExtsAreDotted(hit.value);
      KnownTypesAreNormal(hit.value);
      StaticExtsStay(lower, hit.value, ov, |ov|, ext);
      SuffixIsAccepted(lower, name, p, ext);
    } else if rounds > 0 && Strippable(isVolume, ext) {
      StemIsPrefix(name, p);
      StaticAgreement(lower, isVolume, name, WithoutSuffix(p), rounds - 1, ov);
    }
  }

  lemma DocumentDotted()
    ensures forall e | e in DOCUMENT_EXTS :: e != "" && e[0] == '.'
  {
  }

  lemma PdfDotted()
    ensures forall e | e in PDF_EXTS :: e != "" && e[0] == '.'
  {
  }

  lemma SpreadsheetDotted()
    ensures forall e | e in SPREADSHEET_EXTS :: e != "" && e[0] == '.'
  {
  }

  lemma SlideDotted()
    ensures forall e | e in SLIDE_EXTS :: e != "" && e[0] == '.'
  {
  }

  lemma ImageDotted()
    ensures forall e | e in IMAGE_EXTS :: e != "" && e[0] == '.'
  {
  }

  lemma VideoDotted()
    ensures forall e | e in VIDEO_EXTS :: e != "" && e[0] == '.'
  {
  }

  lemma AudioDotted()
    ensures forall e | e in AUDIO_EXTS :: e != "" && e[0] == '.'
  {
  }

  lemma ArchiveDotted()
    ensures forall e | e in ARCHIVE_EXTS :: e != "" && e[0] == '.'
  {
  }

  lemma InstallerDotted()
    ensures forall e | e in INSTALLER_EXTS :: e != "" && e[0] == '.'
  {
  }

  /** A dotted extension keeps its dot; a bare override key regains it. */
  lemma HitIsListed(lower: char -> string, name: string, ov: Overrides)
    requires LowersAscii(lower) && CasesAlike(lower, Suffix(name)) && Suffix(name) != ""
    requires OverrideFor(ov, Lower(lower, Suffix(name))) != ""
    ensures Lower(lower, Suffix(name))
         in TypeExts(lower, NormalizeType(OverrideFor(ov, Lower(lower, Suffix(name)))), ov)
  {
    hide StaticExts, ExtsPrefix, NormalizeType, EndsWith;
    var x := Suffix(name);
    var ext := Lower(lower, x);
    LowerIsFold(lower, x);
    LowerTwice(lower, x);
    var hit := OverrideFor(ov, ext);
    var exact := Get(ov, ext);
    var key := if exact.Some? && exact.value != "" then ext else StripDots(ext);
    assert (key, hit) in ov;
    var i :| 0 <= i < |ov| && ov[i] == (key, hit);
    assert ext[0] == '.';
    BareKeyRegainsDot(lower, ext);
    assert Dotted(Lower(lower, key)) == ext;
    NormalizeTwice(hit);
    OverrideIsListed(lower, NormalizeType(hit), ov, |ov|, i);
  }

  lemma NormalizeTwice(t: string)
    ensures NormalizeType(NormalizeType(t)) == NormalizeType(t)
  {
  }

  lemma BareKeyRegainsDot(lower: char -> string, ext: string)
    requires ext != "" && ext[0] == '.' && (forall j | 1 <= j < |ext| :: ext[j] != '.')
    requires Lower(lower, ext) == ext && LowersAscii(lower)
    ensures Dotted(Lower(lower, ext)) == ext && Dotted(Lower(lower, StripDots(ext))) == ext
  {
    assert CasedAlike(lower, '.');
    assert StripDots(ext) == ext[1..];
    assert Lower(lower, ext) == "." + Lower(lower, ext[1..]);
    assert ext == "." + ext[1..];
    assert Lower(lower, ext[1..]) == ext[1..];
  }

  /** What the display type promises of the filter. */
  ghost predicate Agrees(lower: char -> string, isVolume: string -> bool, name: string, ov: Overrides) {
    var t := ClassifyWithOverrides(lower, isVolume, name, ov);
    t != "other" ==> Accepts(lower, name, TypeExts(lower, t, ov))
  }

  /** An empty override key, if there is one, gives names without a suffix no type. */
  predicate EmptyKeyHarmless(ov: Overrides) {
    OverrideFor(ov, "") == "" || NormalizeType(OverrideFor(ov, "")) == "other"
  }

  /** The part of the name that decides its type. */
  function DecidingSuffix(lower: char -> string, isVolume: string -> bool, name: string, ov: Overrides): string {
    if OverrideFor(ov, Lower(lower, Suffix(name))) != "" then Suffix(name)
    else KnownSuffix(lower, isVolume, name, 6)
  }

  /**
   Whatever type but `other` a file name is shown as, the filter for that type finds it:
   overridden, plain, or reached by stripping transient and volume suffixes. Only the suffix
   that decides the type has to be cased alike by Python and SQLite.
   */
  lemma FilterAgreesWithClassification(lower: char -> string, isVolume: string -> bool, name: string,
                                       ov: Overrides)
    requires LowersAscii(lower) && CasesAlike(lower, DecidingSuffix(lower, isVolume, name, ov))
    requires '/' !in name && (EmptyKeyHarmless(ov) || Suffix(name) != "")
    ensures Agrees(lower, isVolume, name, ov)
  {
    hide StaticExts, NormalizeType, EndsWith;
    assert name[..|name|] == name;
    var ext := Lower(lower, Suffix(name));
    if OverrideFor(ov, ext) != "" {
      if Suffix(name) != "" {
        HitIsListed(lower, name, ov);
        SuffixIsAccepted(lower, name, name, ext);
      }
    } else {
      StaticAgreement(lower, isVolume, name, name, 6, ov);
    }
  }

  // ---------- The hypotheses are exact ----------

  predicate Stable(lower: char -> string, s: string) {
    forall i | 0 <= i < |s| :: lower(s[i]) == [s[i]]
  }

  /** What `str.lower` does: ASCII as usual, never a new dot or slash, and nothing left to lower. */
  ghost predicate PythonLower(lower: char -> string) {
    && LowersAscii(lower)
    && (forall c: char :: lower(c) != "" && Stable(lower, lower(c)))
    && (forall c: char | c != '.' :: '.' !in lower(c))
    && (forall c: char | c != '/' :: '/' !in lower(c))
  }

  lemma {:induction false} LowerOfStable(lower: char -> string, s: string)
    requires Stable(lower, s)
    ensures Lower(lower, s) == s
  {
    if s != "" {
      LowerOfStable(lower, s[1..]);
    }
  }

  lemma MissingChar(s: string, t: string, j: nat)
    requires j < |t| && t[j] !in s
    ensures !StartsWith(s, t)
  {
    if |t| <= |s| {
      assert s[..|t|][j] == s[j];
    }
  }

  lemma NoDotNoMatch(lower: char -> string, name: string, ext: string)
    requires '.' !in Fold(name) && '.' in Fold(Lower(lower, ext))
    ensures !AcceptsExt(lower, name, ext)
  {
    AcceptsExtMeaning(lower, name, ext);
    var f, e := Fold(name), Fold(Lower(lower, ext));
    forall i | 0 <= i <= |f| ensures !StartsWith(f[i..], e + ".") {
      MissingChar(f[i..], e + ".", |e|);
    }
  }

  /** Every extension of a type filter starts with a dot. */
  lemma {:induction false} ExtsAreDotted(lower: char -> string, t: string, ov: Overrides, k: nat)
    requires k <= |ov|
    ensures forall e | e in ExtsPrefix(lower, t, ov, k) :: e != "" && e[0] == '.'
  {
    hide Dotted;
    if k > 0 {
      hide StaticExts, NormalizeType;
      ExtsAreDotted(lower, t, ov, k - 1);
      DottedHasDot(Lower(lower, ov[k - 1].0));
    } else {
      StaticExtsAreDotted(NormalizeType(t));
    }
  }

  lemma DottedHasDot(e: string)
    ensures Dotted(e) != "" && Dotted(e)[0] == '.'
  {
  }

  lemma StaticExtsAreDotted(t: string)
    ensures forall e | e in StaticExts(t) :: e != "" && e[0] == '.'
  {
    DocumentDotted();
    PdfDotted();
    SpreadsheetDotted();
    SlideDotted();
    ImageDotted();
    VideoDotted();
    AudioDotted();
    ArchiveDotted();
    InstallerDotted();
  }

  lemma {:induction false} EmptyKeyIsListed(lower: char -> string, ov: Overrides)
    requires OverrideFor(ov, "") != ""
    ensures TypeExts(lower, NormalizeType(OverrideFor(ov, "")), ov) != []
  {
    var hit := OverrideFor(ov, "");
    assert ("", hit) in ov;
    var i :| 0 <= i < |ov| && ov[i] == ("", hit);
    NormalizeTwice(hit);
    OverrideIsListed(lower, NormalizeType(hit), ov, |ov|, i);
  }

  /**
   Where Python and SQLite case every character alike, the filter agrees on all names exactly
   when an empty override key does no harm: such a key types the names without a suffix, and
   no filter finds those.
   */
  lemma AgreesOnAllNamesIff(lower: char -> string, isVolume: string -> bool, ov: Overrides)
    requires LowersAscii(lower) && forall c: char :: CasedAlike(lower, c)
    ensures (forall name: string | '/' !in name :: Agrees(lower, isVolume, name, ov)) <==> EmptyKeyHarmless(ov)
  {
    hide StaticExts, NormalizeType, Accepts, KnownSuffix;
    if EmptyKeyHarmless(ov) {
      forall name: string | '/' !in name ensures Agrees(lower, isVolume, name, ov) {
        FilterAgreesWithClassification(lower, isVolume, name, ov);
      }
    } else {
      EmptyKeyDisagrees(lower, isVolume, ov);
    }
  }

  lemma EmptyKeyDisagrees(lower: char -> string, isVolume: string -> bool, ov: Overrides)
    requires LowersAscii(lower) && !EmptyKeyHarmless(ov)
    ensures !Agrees(lower, isVolume, "README", ov)
  {
    hide StaticExts, AcceptsExt, NormalizeType;
    assert Suffix("README") == "" && Lower(lower, "") == "";
    var t := ClassifyWithOverrides(lower, isVolume, "README", ov);
    var exts := TypeExts(lower, t, ov);
    EmptyKeyIsListed(lower, ov);
    ExtsAreDotted(lower, t, ov, |ov|);
    assert '.' !in Fold("README");
    forall i | 0 <= i < |exts| ensures !AcceptsExt(lower, "README", exts[i]) {
      var e := exts[i];
      assert e != "" && e[0] == '.' by { assert e in exts; }
      assert CasedAlike(lower, '.');
      assert Lower(lower, e) == lower('.') + Lower(lower, e[1..]);
      assert Fold(Lower(lower, e))[0] == '.';
      NoDotNoMatch(lower, "README", e);
    }
  }

  /**
   A letter the two sides case differently makes a name the filter misses: the Kelvin sign,
   which only Python turns into `k`, is one of them.
   */
  lemma UnlikeCaseDisagrees(lower: char -> string, isVolume: string -> bool, c: char)
    requires PythonLower(lower) && !CasedAlike(lower, c)
    ensures !Agrees(lower, isVolume, ['a', '.', c], [(lower(c), "flash")])
    ensures EmptyKeyHarmless([(lower(c), "flash")])
  {
    hide StaticExts, KnownType, AcceptsExt;
    var l := lower(c);
    var name: string := ['a', '.', c];
    var ov: Overrides := [(l, "flash")];
    assert c >= 128 as char && FoldChar(c) == c && l != [c];
    LowerOfStable(lower, l);
    var ext := "." + l;
    LowerOfUnlike(lower, c, name);
    assert Get(ov[1..], ext) == None && Get(ov, ext) == None;
    assert StripDots(ext) == StripDots(l) == l by { assert ext[1..] == l; }
    assert OverrideFor(ov, ext) == "flash";
    NothingStatic(lower, ov);
    assert Lower(lower, l) == l && Dotted(l) == ext;
    assert TypeExts(lower, "flash", ov) == [ext];
    UnlikeIsMissed(lower, c, name, ext);
  }

  lemma NothingStatic(lower: char -> string, ov: Overrides)
    ensures ExtsPrefix(lower, "flash", ov, 0) == []
  {
  }

  lemma LowerOfUnlike(lower: char -> string, c: char, name: string)
    requires PythonLower(lower) && c >= 128 as char && name == ['a', '.', c]
    ensures Suffix(name) == ['.', c] && Lower(lower, Suffix(name)) == "." + lower(c)
    ensures Lower(lower, "." + lower(c)) == "." + lower(c)
  {
    assert LastDot(name[..2]) == 1;
    assert CasedAlike(lower, '.');
    assert ['.', c][1..] == [c] && [c][1..] == "";
    assert Lower(lower, [c]) == lower(c) + Lower(lower, "");
    assert ("." + lower(c))[1..] == lower(c);
    LowerOfStable(lower, lower(c));
  }

  lemma UnlikeIsMissed(lower: char -> string, c: char, name: string, ext: string)
    requires PythonLower(lower) && c >= 128 as char && lower(c) != [c] && name == ['a', '.', c]
    requires ext == "." + lower(c)
    ensures !AcceptsExt(lower, name, ext)
  {
    LowerOfUnlike(lower, c, name);
    AcceptsExtMeaning(lower, name, ext);
    var f, e := Fold(name), Fold(ext);
    assert f == name && e[0] == '.' && |e| >= 2;
    assert e[1] == FoldChar(lower(c)[0]);
    assert f[1..] == ['.', c] && f[0..][0] == 'a';
    assert |e| == 2 ==> lower(c) == [lower(c)[0]];
    assert |e| == 2 ==> e[1] != c;
    forall i | 0 <= i <= |f| ensures !StartsWith(f[i..], e + ".") {
      if |e| + 1 <= |f[i..]| {
        assert i == 0 && f[i..][..|e| + 1][0] == 'a' && (e + ".")[0] == '.';
      }
    }
  }

  /** All names agree, under all harmless overrides, exactly if every letter is cased alike. */
  lemma AgreesForEveryoneIff(lower: char -> string, isVolume: string -> bool)
    requires PythonLower(lower)
    ensures (forall name: string, ov | '/' !in name && EmptyKeyHarmless(ov) :: Agrees(lower, isVolume, name, ov))
       <==> (forall c: char :: CasedAlike(lower, c))
  {
    hide Agrees, EmptyKeyHarmless, AcceptsExt;
    if forall c: char :: CasedAlike(lower, c) {
      forall name: string, ov | '/' !in name && EmptyKeyHarmless(ov) ensures Agrees(lower, isVolume, name, ov) {
        AgreesOnAllNamesIff(lower, isVolume, ov);
      }
    } else {
      var c: char :| !CasedAlike(lower, c);
      UnlikeCaseDisagrees(lower, isVolume, c);
      assert CasedAlike(lower, '/');
    }
  }
}
