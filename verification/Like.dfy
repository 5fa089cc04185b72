/**
 LIKE pattern helpers against SQLite's LIKE with ESCAPE '\'
 (adapters/persistence/sqlite/like.py). SQLite compares ASCII letters without case.
 */
module Like {

  // ---------- The matcher ----------

  function FoldChar(c: char): char {
    if 'A' <= c <= 'Z' then (c as int + 32) as char else c
  }

  /** SQLite's LOWER, and the folding its LIKE applies: ASCII only. */
  function Fold(s: string): (r: string)
    ensures |r| == |s|
    ensures forall i | 0 <= i < |s| :: r[i] == FoldChar(s[i])
  {
    seq(|s|, i requires 0 <= i < |s| => FoldChar(s[i]))
  }

  /** What is folded: the 26 ASCII letters, each with its other case, and nothing else. */
  lemma FoldedAlikeIff(a: char, b: char)
    ensures FoldChar(a) == FoldChar(b) <==>
            a == b || ('A' <= a <= 'Z' && b as int == a as int + 32) || ('A' <= b <= 'Z' && a as int == b as int + 32)
    ensures 'a' <= a <= 'z' ==> FoldChar(a) == a
  {
  }

  lemma FoldConcat(a: string, b: string)
    ensures Fold(a + b) == Fold(a) + Fold(b)
  {
  }

  lemma FoldTwice(s: string)
    ensures Fold(Fold(s)) == Fold(s)
  {
  }

  /** `s LIKE p ESCAPE '\'`. A trailing escape character matches nothing. */
  predicate Matches(p: string, s: string)
    decreases |p| + |s|
  {
    if p == "" then s == ""
    else if p[0] == '%' then Matches(p[1..], s) || (s != "" && Matches(p, s[1..]))
    else if p[0] == '_' then s != "" && Matches(p[1..], s[1..])
    else if p[0] == '\\' then
      |p| >= 2 && s != "" && FoldChar(p[1]) == FoldChar(s[0]) && Matches(p[2..], s[1..])
    else s != "" && FoldChar(p[0]) == FoldChar(s[0]) && Matches(p[1..], s[1..])
  }

  // ---------- like.py ----------

  /** str.replace for a one-character needle. */
  function Replace(s: string, c: char, with: string): string {
    if s == "" then "" else (if s[0] == c then with else [s[0]]) + Replace(s[1..], c, with)
  }

  function LikeEscape(text: string): string {
    Replace(Replace(Replace(text, '\\', "\\\\"), '%', "\\%"), '_', "\\_")
  }

  function LikeContains(text: string): string { "%" + LikeEscape(text) + "%" }

  function LikePrefix(text: string): string { LikeEscape(text) + "%" }

  function LikeSuffix(text: string): string { "%" + LikeEscape(text) }

  // ---------- One escape per character ----------

  predicate Meta(c: char) { c == '\\' || c == '%' || c == '_' }

  function EscapeChar(c: char): string { if Meta(c) then ['\\', c] else [c] }

  function EscapeEach(text: string): string {
    if text == "" then "" else EscapeChar(text[0]) + EscapeEach(text[1..])
  }

  lemma {:induction false} ReplaceConcat(a: string, b: string, c: char, with: string)
    ensures Replace(a + b, c, with) == Replace(a, c, with) + Replace(b, c, with)
  {
    if a == "" {
      assert a + b == b;
    } else {
      ReplaceConcat(a[1..], b, c, with);
      assert (a + b)[1..] == a[1..] + b && (a + b)[0] == a[0];
    }
  }

  lemma ReplaceOne(c: char, with: string, d: char)
    ensures Replace([d], c, with) == if d == c then with else [d]
  {
    assert [d][1..] == "";
  }

  lemma ReplaceTwo(c: char, with: string, d: char, e: char)
    ensures Replace([d, e], c, with) == (if d == c then with else [d]) + (if e == c then with else [e])
  {
    assert [d, e] == [d] + [e];
    ReplaceConcat([d], [e], c, with);
    ReplaceOne(c, with, d);
    ReplaceOne(c, with, e);
  }

  /** The chain of three replaces escapes one character the way `EscapeChar` does. */
  lemma EscapeOneChar(c: char)
    ensures LikeEscape([c]) == EscapeChar(c)
  {
    ReplaceOne('\\', "\\\\", c);
    ReplaceTwo('%', "\\%", '\\', '\\');
    ReplaceTwo('_', "\\_", '\\', '\\');
    ReplaceOne('%', "\\%", c);
    ReplaceTwo('_', "\\_", '\\', '%');
    ReplaceOne('_', "\\_", c);
  }

  lemma EscapeConcat(a: string, b: string)
    ensures LikeEscape(a + b) == LikeEscape(a) + LikeEscape(b)
  {
    ReplaceConcat(a, b, '\\', "\\\\");
    var a1, b1 := Replace(a, '\\', "\\\\"), Replace(b, '\\', "\\\\");
    ReplaceConcat(a1, b1, '%', "\\%");
    ReplaceConcat(Replace(a1, '%', "\\%"), Replace(b1, '%', "\\%"), '_', "\\_");
  }

  /** The three chained replaces are one escape per character. */
  lemma {:induction false} ChainedReplacesEscapeEachChar(text: string)
    ensures LikeEscape(text) == EscapeEach(text)
  {
    if text != "" {
      ChainedReplacesEscapeEachChar(text[1..]);
      assert text == [text[0]] + text[1..];
      EscapeConcat([text[0]], text[1..]);
      EscapeOneChar(text[0]);
    }
  }

  // ---------- What the patterns match ----------

  predicate StartsWith(s: string, t: string) { |t| <= |s| && s[..|t|] == t }

  predicate EndsWith(s: string, t: string) { |t| <= |s| && s[|s| - |t|..] == t }

  predicate Contains(s: string, t: string) {
    exists i :: 0 <= i <= |s| && StartsWith(s[i..], t)
  }

  lemma StartsWithCons(s: string, t: string)
    requires s != "" && t != ""
    ensures StartsWith(s, t) <==> s[0] == t[0] && StartsWith(s[1..], t[1..])
  {
    if StartsWith(s, t) {
      assert s[..|t|][0] == s[0] && s[1..][..|t| - 1] == s[..|t|][1..];
    }
    if s[0] == t[0] && StartsWith(s[1..], t[1..]) {
      assert s[..|t|] == [s[0]] + s[1..][..|t| - 1] && t == [t[0]] + t[1..];
    }
  }

  /** One escaped character consumes one character equal to it up to ASCII case. */
  lemma EscapedCharMatches(c: char, rest: string, s: string)
    ensures Matches(EscapeChar(c) + rest, s)
       <==> s != "" && FoldChar(c) == FoldChar(s[0]) && Matches(rest, s[1..])
  {
    var p := EscapeChar(c) + rest;
    if Meta(c) {
      assert p[2..] == rest;
    } else {
      assert p[1..] == rest;
    }
  }

  /** An escaped fragment consumes exactly itself, up to ASCII case. */
  lemma {:induction false} EscapedConsumesItself(t: string, rest: string, s: string)
    ensures Matches(EscapeEach(t) + rest, s)
       <==> StartsWith(Fold(s), Fold(t)) && Matches(rest, s[|t|..])
  {
    if t == "" {
      assert EscapeEach(t) + rest == rest;
      assert s[0..] == s && Fold(s)[..0] == Fold(t);
    } else {
      hide Matches;
      var tail := EscapeEach(t[1..]) + rest;
      assert EscapeEach(t) + rest == EscapeChar(t[0]) + tail;
      EscapedCharMatches(t[0], tail, s);
      if s != "" {
        EscapedConsumesItself(t[1..], rest, s[1..]);
        assert |t| <= |s| ==> s[1..][|t| - 1..] == s[|t|..];
        assert Fold(s)[1..] == Fold(s[1..]) && Fold(t)[1..] == Fold(t[1..]);
        StartsWithCons(Fold(s), Fold(t));
      }
    }
  }

  /** A leading % skips any number of characters. */
  lemma {:induction false} PercentSkips(q: string, s: string)
    ensures Matches("%" + q, s) <==> exists i :: 0 <= i <= |s| && Matches(q, s[i..])
    decreases |s|
  {
    var p := "%" + q;
    assert p[1..] == q;
    assert s[0..] == s;
    if s != "" {
      PercentSkips(q, s[1..]);
      forall i | 0 <= i <= |s| - 1 ensures s[1..][i..] == s[i + 1..] {
      }
      if exists i :: 0 <= i <= |s| && Matches(q, s[i..]) {
        var i :| 0 <= i <= |s| && Matches(q, s[i..]);
        if i > 0 {
          assert s[1..][i - 1..] == s[i..];
          assert 0 <= i - 1 <= |s[1..]| && Matches(q, s[1..][i - 1..]);
        }
      }
      if exists i :: 0 <= i <= |s[1..]| && Matches(q, s[1..][i..]) {
        var i :| 0 <= i <= |s[1..]| && Matches(q, s[1..][i..]);
        assert Matches(q, s[i + 1..]);
      }
    }
  }

  lemma PercentMatchesAll(s: string)
    ensures Matches("%", s)
  {
    PercentSkips("", s);
    assert "%" + "" == "%" && s[|s|..] == "";
    assert Matches("", s[|s|..]);
  }

  lemma FoldSuffix(s: string, i: nat)
    requires i <= |s|
    ensures Fold(s[i..]) == Fold(s)[i..]
  {
  }

  /** like_prefix(t) matches exactly the strings that start with t, ASCII case aside. */
  lemma PrefixPattern(t: string, s: string)
    ensures Matches(LikePrefix(t), s) <==> StartsWith(Fold(s), Fold(t))
  {
    ChainedReplacesEscapeEachChar(t);
    EscapedConsumesItself(t, "%", s);
    if |t| <= |s| {
      PercentMatchesAll(s[|t|..]);
    }
  }

  /** like_suffix(t) matches exactly the strings that end with t, ASCII case aside. */
  lemma SuffixPattern(t: string, s: string)
    ensures Matches(LikeSuffix(t), s) <==> EndsWith(Fold(s), Fold(t))
  {
    ChainedReplacesEscapeEachChar(t);
    PercentSkips(EscapeEach(t), s);
    forall i | 0 <= i <= |s|
      ensures Matches(EscapeEach(t), s[i..]) <==> Fold(s)[i..] == Fold(t)
    {
      assert EscapeEach(t) + "" == EscapeEach(t);
      EscapedConsumesItself(t, "", s[i..]);
      FoldSuffix(s, i);
    }
    if EndsWith(Fold(s), Fold(t)) {
      assert Matches(EscapeEach(t), s[|s| - |t|..]);
    }
  }

  /** like_contains(t) matches exactly the strings that contain t, ASCII case aside. */
  lemma ContainsPattern(t: string, s: string)
    ensures Matches(LikeContains(t), s) <==> Contains(Fold(s), Fold(t))
  {
    ChainedReplacesEscapeEachChar(t);
    assert LikeContains(t) == "%" + (EscapeEach(t) + "%");
    PercentSkips(EscapeEach(t) + "%", s);
    forall i | 0 <= i <= |s|
      ensures Matches(EscapeEach(t) + "%", s[i..]) <==> StartsWith(Fold(s)[i..], Fold(t))
    {
      EscapedConsumesItself(t, "%", s[i..]);
      FoldSuffix(s, i);
      if |t| <= |s[i..]| {
        PercentMatchesAll(s[i..][|t|..]);
      }
    }
    if Contains(Fold(s), Fold(t)) {
      var i :| 0 <= i <= |Fold(s)| && StartsWith(Fold(s)[i..], Fold(t));
      assert Matches(EscapeEach(t) + "%", s[i..]);
    }
  }

  /** Without the escape a fragment matches strings that do not contain it. */
  lemma UnescapedFragmentWidens()
    ensures Matches("%" + "a_b" + "%", "axb") && !Contains(Fold("axb"), Fold("a_b"))
  {
    assert ("%" + "a_b" + "%")[1..] == "a_b%" && "a_b%"[1..] == "_b%" && "_b%"[1..] == "b%";
    assert "axb"[1..] == "xb" && "xb"[1..] == "b" && "b%"[1..] == "%" && "b"[1..] == "";
    PercentMatchesAll("");
    forall i | 0 <= i <= 3 ensures !StartsWith(Fold("axb")[i..], Fold("a_b")) {
      if i == 0 {
        assert Fold("axb")[0..][..3][1] == 'x' && Fold("a_b")[1] == '_';
      }
    }
  }
}
