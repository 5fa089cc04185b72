/**
 Python's `strip`, shared by the modules that parse text: what is left is the one piece of the
 text without a strippable character at either end that has only such characters around it.
 */
module Texts {

  function StripLeft(p: char -> bool, s: string): string {
    if s != "" && p(s[0]) then StripLeft(p, s[1..]) else s
  }

  function StripRight(p: char -> bool, s: string): string {
    if s != "" && p(s[|s| - 1]) then StripRight(p, s[..|s| - 1]) else s
  }

  function Strip(p: char -> bool, s: string): string { StripRight(p, StripLeft(p, s)) }

  ghost predicate All(p: char -> bool, s: string) { forall i | 0 <= i < |s| :: p(s[i]) }

  predicate Bare(p: char -> bool, s: string) { s == "" || (!p(s[0]) && !p(s[|s| - 1])) }

  /** `core` is what is left of `s` when both ends are cleared of such characters. */
  ghost predicate Trims(p: char -> bool, s: string, core: string) {
    Bare(p, core) && exists a, b :: All(p, a) && All(p, b) && s == a + core + b
  }

  lemma {:induction false} LeftGone(p: char -> bool, a: string, rest: string)
    requires All(p, a) && (rest == "" || !p(rest[0]))
    ensures StripLeft(p, a + rest) == rest
  {
    if a == "" {
      assert a + rest == rest;
    } else {
      assert (a + rest)[1..] == a[1..] + rest;
      LeftGone(p, a[1..], rest);
    }
  }

  lemma {:induction false} RightGone(p: char -> bool, rest: string, b: string)
    requires All(p, b) && (rest == "" || !p(rest[|rest| - 1]))
    ensures StripRight(p, rest + b) == rest
  {
    if b == "" {
      assert rest + b == rest;
    } else {
      var n := |b| - 1;
      assert (rest + b)[..|rest| + n] == rest + b[..n];
      RightGone(p, rest, b[..n]);
    }
  }

  /** The text of this form strips to its core. */
  lemma StripIs(p: char -> bool, a: string, core: string, b: string)
    requires All(p, a) && All(p, b) && Bare(p, core)
    ensures Strip(p, a + core + b) == core
  {
    if core == "" {
      assert a + core + b == (a + b) + "";
      LeftGone(p, a + b, "");
      RightGone(p, "", "");
    } else {
      assert a + core + b == a + (core + b);
      LeftGone(p, a, core + b);
      RightGone(p, core, b);
    }
  }

  lemma {:induction false} LeftSplits(p: char -> bool, s: string) returns (a: string)
    ensures All(p, a) && s == a + StripLeft(p, s)
    ensures StripLeft(p, s) == "" || !p(StripLeft(p, s)[0])
  {
    a := "";
    if s != "" && p(s[0]) {
      a := LeftSplits(p, s[1..]);
      a := [s[0]] + a;
    }
  }

  lemma {:induction false} RightSplits(p: char -> bool, s: string) returns (b: string)
    ensures All(p, b) && s == StripRight(p, s) + b
    ensures var r := StripRight(p, s); r == "" || !p(r[|r| - 1])
  {
    b := "";
    if s != "" && p(s[|s| - 1]) {
      b := RightSplits(p, s[..|s| - 1]);
      b := b + [s[|s| - 1]];
    }
  }

  /** Every text has exactly one core, and that is what is left. */
  lemma StripIff(p: char -> bool, s: string, core: string)
    ensures Trims(p, s, core) <==> core == Strip(p, s)
  {
    if Trims(p, s, core) {
      var a, b :| All(p, a) && All(p, b) && s == a + core + b;
      StripIs(p, a, core, b);
    }
    var a := LeftSplits(p, s);
    var b := RightSplits(p, StripLeft(p, s));
    var r := Strip(p, s);
    assert s == a + r + b;
    assert r != "" ==> r[0] == StripLeft(p, s)[0];
    assert Trims(p, s, r);
  }

  lemma StripNothing(p: char -> bool, s: string)
    requires Bare(p, s)
    ensures Strip(p, s) == s
  {
    StripIs(p, "", s, "");
    assert "" + s + "" == s;
  }
}
