/**
 Durations: the printer and the parser (core/units.py). The parser is Python's: white space
 stripped, at most 64 characters, ASCII lower case, a compound pattern of three bounded
 components, then single-unit forms. Values are exact numbers.
 */
module Units {
  import opened Options
  import Like
  import Texts

  // ---------- Decimal text ----------

  predicate Digit(c: char) { '0' <= c <= '9' }

  function DigitChar(d: nat): char
    requires d < 10
  {
    ('0' as int + d) as char
  }

  function Dec(n: nat): (s: string)
    ensures s != "" && forall i | 0 <= i < |s| :: Digit(s[i])
  {
    if n < 10 then [DigitChar(n)] else Dec(n / 10) + [DigitChar(n % 10)]
  }

  /** `{n:02d}` */
  function Dec2(n: nat): (s: string)
    ensures s != "" && forall i | 0 <= i < |s| :: Digit(s[i])
  {
    if n < 10 then "0" + Dec(n) else Dec(n)
  }

  function Value(s: string): nat
    requires forall i | 0 <= i < |s| :: Digit(s[i])
  {
    if s == "" then 0
    else
      assert Digit(s[|s| - 1]);
      Value(s[..|s| - 1]) * 10 + (s[|s| - 1] as int - '0' as int)
  }

  lemma {:induction false} ValueOfDec(n: nat)
    ensures Value(Dec(n)) == n
  {
    if n >= 10 {
      ValueOfDec(n / 10);
      assert Dec(n)[..|Dec(n)| - 1] == Dec(n / 10);
    } else {
      assert Dec(n)[..0] == "";
    }
  }

  lemma ValueOfDec2(n: nat)
    ensures Value(Dec2(n)) == n
  {
    ValueOfDec(n);
    if n < 10 {
      assert Dec2(n)[..1] == "0" && "0"[..0] == "";
    }
  }

  function Power10(k: nat): (p: nat)
    ensures p > 0
  {
    if k == 0 then 1 else 10 * Power10(k - 1)
  }

  /** A number has at most `k` digits exactly when it is below 10^k. */
  lemma {:induction false} DecLength(n: nat, k: nat)
    requires k >= 1
    ensures |Dec(n)| <= k <==> n < Power10(k)
  {
    if n >= 10 {
      if k == 1 {
        assert Power10(1) == 10 * Power10(0);
      } else {
        DecLength(n / 10, k - 1);
        assert n / 10 < Power10(k - 1) <==> n < 10 * Power10(k - 1);
      }
    } else {
      PowerGrows(k);
    }
  }

  lemma {:induction false} PowerGrows(k: nat)
    requires k >= 1
    ensures Power10(k) >= 10
  {
    if k > 1 {
      PowerGrows(k - 1);
    }
  }

  /** Length of the leading run of digits. */
  function DigitRun(s: string): (n: nat)
    ensures n <= |s| && (forall i | 0 <= i < n :: Digit(s[i])) && (n < |s| ==> !Digit(s[n]))
  {
    if s == "" || !Digit(s[0]) then 0
    else
      var n := DigitRun(s[1..]);
      assert forall i | 1 <= i < n + 1 :: s[i] == s[1..][i - 1];
      n + 1
  }

  lemma RunOfDigits(d: string, rest: string)
    requires forall i | 0 <= i < |d| :: Digit(d[i])
    requires rest == "" || !Digit(rest[0])
    ensures DigitRun(d + rest) == |d|
  {
    var s := d + rest;
    var n := DigitRun(s);
    assert forall i | 0 <= i < |d| :: s[i] == d[i];
    assert rest != "" ==> s[|d|] == rest[0];
  }

  // ---------- The compound pattern ----------

  /** `(?:([0-9]{1,5})U)?`: what it captures, and what is left. */
  function TakeUnit(s: string, unit: char): (nat, string) {
    var n := DigitRun(s);
    if 1 <= n <= 5 && n < |s| && s[n] == unit then (Value(s[..n]), s[n + 1..]) else (0, s)
  }

  /** `(?:([0-9]{1,5})(?:\.[0-9]{1,3})?秒)?`: the fraction is matched and dropped. */
  function TakeSeconds(s: string): (nat, string) {
    var n := DigitRun(s);
    if 1 <= n <= 5 && n < |s| && s[n] == '.' then
      var f := DigitRun(s[n + 1..]);
      if 1 <= f <= 3 && n + 1 + f < |s| && s[n + 1 + f] == '秒' then (Value(s[..n]), s[n + 2 + f..])
      else (0, s)
    else TakeUnit(s, '秒')
  }

  /** _DURATION_RE: hours, minutes and seconds, each optional, anchored at both ends. */
  function MatchCompound(s: string): Option<int> {
    var (h, afterH) := TakeUnit(s, '时');
    var (m, afterM) := TakeUnit(afterH, '分');
    var (sec, rest) := TakeSeconds(afterM);
    if rest == "" then Some(h * 3600 + m * 60 + sec) else None
  }

  // ---------- Single-unit forms ----------

  /** `([0-9]+(?:\.[0-9]+)?)` on the whole text. */
  function MatchNumber(s: string): Option<real> {
    var n := DigitRun(s);
    if n == 0 then None
    else if n == |s| then Some(Value(s) as real)
    else if s[n] != '.' then None
    else
      var frac := s[n + 1..];
      if frac != "" && DigitRun(frac) == |frac| then
        Some(Value(s[..n]) as real + Value(frac) as real / Power10(|frac|) as real)
      else None
  }

  predicate Blank(c: char) { c == ' ' || c == '\t' || c == '\n' || c == '\r' }

  function Strip(s: string): string { Texts.Strip(Blank, s) }

  /** The unit table, longest first. */
  function UnitOf(s: string): (string, real) {
    if Like.EndsWith(s, "min") then ("min", 60.0)
    else if Like.EndsWith(s, "小时") then ("小时", 3600.0)
    else if Like.EndsWith(s, "分钟") then ("分钟", 60.0)
    else if Like.EndsWith(s, "时") then ("时", 3600.0)
    else if Like.EndsWith(s, "h") then ("h", 3600.0)
    else if Like.EndsWith(s, "分") then ("分", 60.0)
    else if Like.EndsWith(s, "秒") then ("秒", 1.0)
    else if Like.EndsWith(s, "s") then ("s", 1.0)
    else ("", 1.0)
  }

  const MAX_UNIT_LEN: nat := 64
  const MAX_PARSE_VALUE := 1000000000.0

  function ParseNumberUnit(s: string): Option<real> {
    var (unit, factor) := UnitOf(s);
    if |unit| > |s| then None
    else
      var number := if unit == "" then s else Strip(s[..|s| - |unit|]);
      match MatchNumber(number)
      case None => None
      case Some(v) => if v > MAX_PARSE_VALUE then None else Some(v * factor)
  }

  /** parse_duration of a text; None where Python raises ValueError. */
  function ParseDuration(text: string): Option<real> {
    var s := Strip(text);
    if s == "" then Some(0.0)
    else if |s| > MAX_UNIT_LEN then None
    else
      var lowered := Like.Fold(s);
      match MatchCompound(lowered)
      case Some(n) => Some(n as real)
      case None => ParseNumberUnit(lowered)
  }

  // ---------- The printer ----------

  /** format_duration of a whole number of seconds. */
  function FormatDuration(n: nat): string {
    var h, m, s := n / 3600, n % 3600 / 60, n % 60;
    if h > 0 then Dec(h) + "时" + Dec2(m) + "分" + Dec2(s) + "秒"
    else if m > 0 then
      if s > 0 then Dec(m) + "分" + Dec2(s) + "秒" else Dec(m) + "分"
    else Dec(s) + "秒"
  }

  /**
   What is printed: hours only from 3600 seconds on, minutes from 60 on, seconds unless the
   text is a whole number of minutes below an hour; two digits for what follows a larger unit.
   */
  lemma PrintedShape(n: nat)
    ensures var text := FormatDuration(n);
      && ('时' in text <==> n >= 3600) && ('分' in text <==> n >= 60)
      && ('秒' in text <==> n < 60 || n % 60 != 0 || n >= 3600)
      && |text| == if n >= 3600 then |Dec(n / 3600)| + 7
                   else if n < 60 then |Dec(n)| + 1
                   else if n % 60 == 0 then |Dec(n / 60)| + 1 else |Dec(n / 60)| + 4
  {
    var h, m, s := n / 3600, n % 3600 / 60, n % 60;
    TwoDigits(m);
    TwoDigits(s);
    NoSignInDigits(Dec(h));
    NoSignInDigits(Dec(m));
    NoSignInDigits(Dec2(m));
    NoSignInDigits(Dec(s));
    NoSignInDigits(Dec2(s));
    hide Dec, Dec2;
    if h == 0 {
      assert m == n / 60;
    }
  }

  lemma TwoDigits(n: nat)
    requires n < 60
    ensures |Dec2(n)| == 2
  {
    if n >= 10 {
      assert Dec(n) == Dec(n / 10) + [DigitChar(n % 10)];
    }
  }

  lemma NoSignInDigits(d: string)
    requires forall i | 0 <= i < |d| :: Digit(d[i])
    ensures '时' !in d && '分' !in d && '秒' !in d
  {
  }

  // ---------- Round trip ----------

  lemma TakesItsUnit(d: string, unit: char, rest: string)
    requires d != "" && (forall i | 0 <= i < |d| :: Digit(d[i])) && !Digit(unit)
    ensures TakeUnit(d + [unit] + rest, unit) == if |d| <= 5 then (Value(d), rest) else (0, d + [unit] + rest)
  {
    var s := d + [unit] + rest;
    RunOfDigits(d, [unit] + rest);
    assert s == d + ([unit] + rest);
    assert s[..|d|] == d && s[|d| + 1..] == rest;
  }

  lemma SkipsOtherUnit(d: string, unit: char, other: char, rest: string)
    requires (forall i | 0 <= i < |d| :: Digit(d[i])) && !Digit(other) && other != unit
    ensures TakeUnit(d + [other] + rest, unit) == (0, d + [other] + rest)
  {
    RunOfDigits(d, [other] + rest);
    assert d + [other] + rest == d + ([other] + rest);
  }

  lemma TakesSeconds(d: string)
    requires d != "" && |d| <= 5 && (forall i | 0 <= i < |d| :: Digit(d[i]))
    ensures TakeSeconds(d + "秒") == (Value(d), "")
  {
    TakesItsUnit(d, '秒', "");
    RunOfDigits(d, "秒");
    assert d + ['秒'] + "" == d + "秒";
  }

  lemma NothingLeft(unit: char)
    ensures TakeUnit("", unit) == (0, "") && TakeSeconds("") == (0, "")
  {
  }

  lemma ShortDec(n: nat)
    requires n < 100000
    ensures |Dec(n)| <= 5 && (n < 60 ==> |Dec2(n)| <= 2)
  {
    assert Power10(5) == 10 * Power10(4) && Power10(4) == 10 * Power10(3);
    assert Power10(3) == 10 * Power10(2) && Power10(2) == 10 * Power10(1) && Power10(1) == 10 * Power10(0);
    DecLength(n, 5);
    DecLength(n, 2);
    DecLength(n, 1);
  }

  predicate Digits(d: string) { d != "" && forall i | 0 <= i < |d| :: Digit(d[i]) }

  /** Three bounded components in a row. */
  lemma ThreeComponents(h: string, m: string, s: string)
    requires Digits(h) && Digits(m) && Digits(s) && |h| <= 5 && |m| <= 5 && |s| <= 5
    ensures MatchCompound(h + "时" + m + "分" + s + "秒") == Some(Value(h) * 3600 + Value(m) * 60 + Value(s))
  {
    hide TakeUnit, TakeSeconds, Value, Digit;
    NoUnitIsADigit();
    var afterM := s + "秒";
    var afterH := m + ['分'] + afterM;
    assert h + "时" + m + "分" + s + "秒" == h + ['时'] + afterH;
    TakesItsUnit(h, '时', afterH);
    TakesItsUnit(m, '分', afterM);
    TakesSeconds(s);
  }

  lemma NoUnitIsADigit()
    ensures !Digit('时') && !Digit('分') && !Digit('秒')
  {
  }

  /** A component of more than five digits stops the pattern at its first character. */
  lemma LongComponent(h: string, rest: string)
    requires Digits(h) && |h| > 5
    ensures MatchCompound(h + "时" + rest) == None
  {
    hide Value;
    var text := h + ['时'] + rest;
    assert text == h + "时" + rest;
    TakesItsUnit(h, '时', rest);
    SkipsOtherUnit(h, '分', '时', rest);
    SkipsOtherUnit(h, '秒', '时', rest);
    RunOfDigits(h, ['时'] + rest);
    assert text == h + (['时'] + rest);
  }

  lemma CompoundOfHours(n: nat)
    requires 0 < n / 3600 < 100000
    ensures MatchCompound(FormatDuration(n)) == Some(n)
  {
    hide MatchCompound, Dec, Dec2, Value;
    var h, m, s := n / 3600, n % 3600 / 60, n % 60;
    ShortDec(h);
    ShortDec(m);
    ShortDec(s);
    ValueOfDec(h);
    ValueOfDec2(m);
    ValueOfDec2(s);
    Recompose(n);
    ThreeComponents(Dec(h), Dec2(m), Dec2(s));
  }

  lemma TooManyHours(n: nat)
    requires n >= 360000000
    ensures MatchCompound(FormatDuration(n)) == None
  {
    hide MatchCompound, Dec, Dec2;
    FifthPower();
    DecLength(n / 3600, 5);
    HoursText(n);
    var rest := Dec2(n % 3600 / 60) + "分" + Dec2(n % 60) + "秒";
    LongComponent(Dec(n / 3600), rest);
    assert FormatDuration(n) == Dec(n / 3600) + "时" + rest;
  }

  lemma FifthPower()
    ensures Power10(5) == 100000
  {
    assert Power10(2) == 100 && Power10(3) == 10 * Power10(2) && Power10(4) == 10 * Power10(3);
  }

  lemma Recompose(n: nat)
    ensures n / 3600 * 3600 + n % 3600 / 60 * 60 + n % 60 == n
  {
    assert n % 3600 % 60 == n % 60;
  }

  lemma TwoComponents(m: string, s: string)
    requires Digits(m) && Digits(s) && |m| <= 5 && |s| <= 5
    ensures MatchCompound(m + "分" + s + "秒") == Some(Value(m) * 60 + Value(s))
    ensures MatchCompound(m + "分") == Some(Value(m) * 60)
    ensures MatchCompound(s + "秒") == Some(Value(s))
  {
    hide TakeUnit, TakeSeconds, Value, Digit;
    NoUnitIsADigit();
    assert m + "分" + s + "秒" == m + ['分'] + (s + "秒");
    assert m + "分" == m + ['分'] + "" && s + "秒" == s + ['秒'] + "";
    SkipsOtherUnit(m, '时', '分', s + "秒");
    TakesItsUnit(m, '分', s + "秒");
    SkipsOtherUnit(m, '时', '分', "");
    TakesItsUnit(m, '分', "");
    NothingLeft('秒');
    SkipsOtherUnit(s, '时', '秒', "");
    SkipsOtherUnit(s, '分', '秒', "");
    TakesSeconds(s);
  }

  lemma CompoundOfMinutes(n: nat)
    requires n / 3600 == 0
    ensures MatchCompound(FormatDuration(n)) == Some(n)
  {
    hide MatchCompound, Dec, Dec2, Value;
    var m, s := n % 3600 / 60, n % 60;
    Recompose(n);
    ShortDec(m);
    ShortDec(s);
    ValueOfDec(m);
    ValueOfDec(s);
    ValueOfDec2(s);
    TwoComponents(Dec(m), Dec2(s));
    TwoComponents(Dec(m), Dec(s));
  }

  // ---------- Around the pattern ----------

  /** Characters the printer emits: neither blank nor changed by lower-casing. */
  predicate Printed(c: char) { Digit(c) || c == '时' || c == '分' || c == '秒' }

  lemma OnlyPrinted(n: nat)
    ensures FormatDuration(n) != "" && forall i | 0 <= i < |FormatDuration(n)| :: Printed(FormatDuration(n)[i])
    ensures Like.EndsWith(FormatDuration(n), "秒") || Like.EndsWith(FormatDuration(n), "分")
  {
    var h, m, s := n / 3600, n % 3600 / 60, n % 60;
    var text := FormatDuration(n);
    if h > 0 || m == 0 || s > 0 {
      assert text[|text| - 1..] == "秒";
    } else {
      assert text[|text| - 1..] == "分";
    }
  }

  lemma StripAndLowerAreIdle(s: string)
    requires forall i | 0 <= i < |s| :: Printed(s[i])
    ensures Strip(s) == s && Like.Fold(s) == s
  {
    assert s != "" ==> Printed(s[0]) && Printed(s[|s| - 1]);
    assert forall i | 0 <= i < |s| :: Like.FoldChar(s[i]) == s[i];
  }

  /** A text with a unit sign in the middle is no single-unit form. */
  lemma InnerUnitRejected(d: string, rest: string)
    requires d != "" && (forall i | 0 <= i < |d| :: Digit(d[i]))
    ensures MatchNumber(d + "时" + rest) == None
  {
    RunOfDigits(d, "时" + rest);
    assert d + "时" + rest == d + ("时" + rest);
  }

  lemma SixDigitHoursRejected(n: nat)
    requires n >= 360000000
    ensures ParseDuration(FormatDuration(n)) == None
  {
    hide FormatDuration, MatchCompound;
    var h, m, s := n / 3600, n % 3600 / 60, n % 60;
    var text := FormatDuration(n);
    OnlyPrinted(n);
    StripAndLowerAreIdle(text);
    TooManyHours(n);
    var body := Dec(h) + "时" + (Dec2(m) + "分" + Dec2(s));
    HoursText(n);
    assert text == body + "秒";
    assert text[..|text| - 1] == body;
    assert forall i | 0 <= i < |body| :: body[i] == text[i];
    StripAndLowerAreIdle(body);
    InnerUnitRejected(Dec(h), Dec2(m) + "分" + Dec2(s));
    SecondsUnit(body);
  }

  lemma HoursText(n: nat)
    requires n / 3600 > 0
    ensures FormatDuration(n)
         == Dec(n / 3600) + "时" + (Dec2(n % 3600 / 60) + "分" + Dec2(n % 60)) + "秒"
  {
  }

  lemma EndsElsewhere(body: string, last: char, unit: string)
    requires unit != "" && unit[|unit| - 1] != last
    ensures !Like.EndsWith(body + [last], unit)
  {
    var s := body + [last];
    if |unit| <= |s| {
      assert s[|s| - |unit|..][|unit| - 1] == last;
    }
  }

  lemma SecondsUnit(body: string)
    ensures UnitOf(body + "秒") == ("秒", 1.0)
  {
    var s := body + ['秒'];
    assert s == body + "秒";
    EndsElsewhere(body, '秒', "min");
    EndsElsewhere(body, '秒', "小时");
    EndsElsewhere(body, '秒', "分钟");
    EndsElsewhere(body, '秒', "时");
    EndsElsewhere(body, '秒', "h");
    EndsElsewhere(body, '秒', "分");
    EndsHere(body, '秒');
    hide Like.EndsWith;
  }

  lemma EndsHere(body: string, last: char)
    ensures Like.EndsWith(body + [last], [last])
  {
    assert (body + [last])[|body|..] == [last];
  }

  /**
   Printing and parsing a duration gives it back exactly below 360000000 seconds; from there on
   the six-digit hour count is rejected.
   */
  lemma DurationRoundTripIff(n: nat)
    ensures ParseDuration(FormatDuration(n)) == Some(n as real) <==> n < 360000000
    ensures n >= 360000000 ==> ParseDuration(FormatDuration(n)) == None
  {
    if n >= 360000000 {
      SixDigitHoursRejected(n);
    } else {
      OnlyPrinted(n);
      StripAndLowerAreIdle(FormatDuration(n));
      FitsTheLimit(n);
      if n / 3600 > 0 {
        CompoundOfHours(n);
      } else {
        CompoundOfMinutes(n);
      }
    }
  }

  lemma FitsTheLimit(n: nat)
    requires n < 360000000
    ensures |FormatDuration(n)| <= MAX_UNIT_LEN
  {
    ShortDec(n / 3600);
    ShortDec(n % 3600 / 60);
    ShortDec(n % 60);
  }

  // ---------- Fractions of seconds ----------

  /** The seconds component as written, with its fraction. */
  function SecondsText(d: string, f: string): string { d + "." + f + "秒" }

  lemma TakeUnitAtDot(d: string, rest: string, unit: char)
    requires Digits(d) && !Digit(unit) && unit != '.'
    ensures TakeUnit(d + "." + rest, unit) == (0, d + "." + rest)
  {
    SkipsOtherUnit(d, unit, '.', rest);
    assert d + ['.'] + rest == d + "." + rest;
  }

  lemma SecondsPieces(d: string, f: string)
    requires Digits(d) && Digits(f)
    ensures var s, n := SecondsText(d, f), |d|;
      && |s| == n + |f| + 2 && DigitRun(s) == n && s[..n] == d && s[n] == '.'
      && DigitRun(s[n + 1..]) == |f| && s[n + 1 + |f|] == '秒' && s[n + 2 + |f|..] == ""
  {
    hide DigitRun;
    var s := SecondsText(d, f);
    assert s == d + ("." + f + "秒");
    RunOfDigits(d, "." + f + "秒");
    assert s[|d| + 1..] == f + "秒";
    RunOfDigits(f, "秒");
  }

  lemma TakeSecondsAtDot(s: string, n: nat, k: nat)
    requires 1 <= n < |s| && 1 <= k && n + 1 + k < |s| && DigitRun(s) == n && s[n] == '.'
    requires DigitRun(s[n + 1..]) == k && s[n + 1 + k] == '秒'
    ensures TakeSeconds(s)
         == if n > 5 then TakeUnit(s, '秒') else if k <= 3 then (Value(s[..n]), s[n + 2 + k..]) else (0, s)
  {
    hide DigitRun, Value, TakeUnit;
  }

  /** One to three digits after the dot are matched and dropped; a longer tail matches nothing. */
  lemma TakesFraction(d: string, f: string)
    requires Digits(d) && Digits(f)
    ensures TakeSeconds(SecondsText(d, f))
         == if |d| <= 5 && |f| <= 3 then (Value(d), "") else (0, SecondsText(d, f))
  {
    hide DigitRun, Value, TakeUnit, TakeSeconds;
    SecondsPieces(d, f);
    TakeUnitAtDot(d, f + "秒", '秒');
    assert SecondsText(d, f) == d + "." + (f + "秒");
    TakeSecondsAtDot(SecondsText(d, f), |d|, |f|);
  }

  /** An optional leading component, `5时` or nothing. */
  function Part(d: Option<string>, unit: char): string {
    match d case None => "" case Some(t) => t + [unit]
  }

  function PartValue(d: Option<string>): nat
    requires d.Some? ==> Digits(d.value)
  {
    match d case None => 0 case Some(t) => Value(t)
  }

  predicate Component(d: Option<string>) { d.Some? ==> Digits(d.value) && |d.value| <= 5 }

  lemma TakesPart(h: Option<string>, unit: char, rest: string)
    requires Component(h) && !Digit(unit) && TakeUnit(rest, unit) == (0, rest)
    ensures TakeUnit(Part(h, unit) + rest, unit) == (PartValue(h), rest)
  {
    if h.Some? {
      TakesItsUnit(h.value, unit, rest);
    } else {
      assert Part(h, unit) + rest == rest;
    }
  }

  /** Hours, minutes and a fraction of seconds: read without the fraction, or not at all. */
  lemma CompoundWithFraction(h: Option<string>, m: Option<string>, d: string, f: string)
    requires Component(h) && Component(m) && Digits(d) && Digits(f)
    ensures MatchCompound(Part(h, '时') + (Part(m, '分') + SecondsText(d, f)))
         == if |d| <= 5 && |f| <= 3 then Some(PartValue(h) * 3600 + PartValue(m) * 60 + Value(d)) else None
  {
    hide TakeUnit, TakeSeconds, Value, Digit;
    NoUnitIsADigit();
    var sec := SecondsText(d, f);
    assert sec == d + "." + (f + "秒");
    TakeUnitAtDot(d, f + "秒", '分');
    TakesPart(m, '分', sec);
    NoHoursAhead(m, d, f + "秒");
    TakesPart(h, '时', Part(m, '分') + sec);
    TakesFraction(d, f);
  }

  lemma NoHoursAhead(m: Option<string>, d: string, tail: string)
    requires Component(m) && Digits(d)
    ensures var rest := Part(m, '分') + (d + "." + tail); TakeUnit(rest, '时') == (0, rest)
  {
    NoUnitIsADigit();
    match m
    case None =>
      TakeUnitAtDot(d, tail, '时');
      assert Part(m, '分') + (d + "." + tail) == d + "." + tail;
    case Some(t) =>
      SkipsOtherUnit(t, '时', '分', d + "." + tail);
  }

  /** What the seconds component says. */
  function Written(d: string, f: string): real
    requires Digits(d) && Digits(f)
  {
    Value(d) as real + Value(f) as real / Power10(|f|) as real
  }

  predicate Zeros(f: string) { forall i | 0 <= i < |f| :: f[i] == '0' }

  lemma {:induction false} ZeroValueIff(f: string)
    requires forall i | 0 <= i < |f| :: Digit(f[i])
    ensures Value(f) == 0 <==> Zeros(f)
  {
    if f != "" {
      var n := |f| - 1;
      ZeroValueIff(f[..n]);
      assert Digit(f[n]);
      assert Zeros(f) <==> Zeros(f[..n]) && f[n] == '0';
    }
  }

  lemma WrittenIsWholeIff(d: string, f: string)
    requires Digits(d) && Digits(f)
    ensures Written(d, f) == Value(d) as real <==> Zeros(f)
  {
    ZeroValueIff(f);
    var p := Power10(|f|) as real;
    if Value(f) > 0 {
      assert Value(f) as real / p > 0.0;
    }
  }

  lemma NumberWithFraction(d: string, f: string)
    requires Digits(d) && Digits(f)
    ensures MatchNumber(d + "." + f) == Some(Written(d, f))
  {
    hide DigitRun, Value, Power10;
    var s := d + "." + f;
    assert s == d + ("." + f);
    NotADigit('.');
    RunOfDigits(d, "." + f);
    RunOfDigits(f, "");
    assert f + "" == f;
    assert s[|d| + 1..] == f && s[..|d|] == d && s[|d|] == '.';
  }

  /** Characters of such a text are neither blank nor changed by lower-casing. */
  lemma PlainText(s: string)
    requires forall i | 0 <= i < |s| :: Printed(s[i]) || s[i] == '.'
    ensures Strip(s) == s && Like.Fold(s) == s
  {
    assert s != "" ==> s[0] in s && s[|s| - 1] in s;
    assert forall i | 0 <= i < |s| :: Like.FoldChar(s[i]) == s[i];
  }

  lemma SingleUnitFraction(d: string, f: string)
    requires Digits(d) && Digits(f)
    ensures ParseNumberUnit(SecondsText(d, f))
         == if Written(d, f) > MAX_PARSE_VALUE then None else Some(Written(d, f))
  {
    var number := d + "." + f;
    var s := SecondsText(d, f);
    assert s == number + "秒";
    SecondsUnit(number);
    assert s[..|s| - 1] == number;
    PlainText(number);
    NumberWithFraction(d, f);
  }

  lemma FractionText(d: string, f: string)
    requires Digits(d) && Digits(f)
    ensures var s := SecondsText(d, f);
            s != "" && |s| == |d| + |f| + 2 && Strip(s) == s && Like.Fold(s) == s
  {
    PlainText(SecondsText(d, f));
  }

  /**
   A fraction of seconds on its own: the compound pattern drops one to three digits, and what
   it does not match is read in full by the single-unit form, up to the largest value.
   */
  lemma FractionIsDroppedIff(d: string, f: string)
    requires Digits(d) && Digits(f)
    ensures var s := SecondsText(d, f);
            ParseDuration(s) ==
            if |s| > MAX_UNIT_LEN then None
            else if |d| <= 5 && |f| <= 3 then Some(Value(d) as real)
            else if Written(d, f) > MAX_PARSE_VALUE then None
            else Some(Written(d, f))
    ensures ParseDuration(SecondsText(d, f)) == Some(Written(d, f)) <==>
            && |d| + |f| + 2 <= MAX_UNIT_LEN
            && (if |d| <= 5 && |f| <= 3 then Zeros(f) else Written(d, f) <= MAX_PARSE_VALUE)
  {
    hide MatchCompound, ParseNumberUnit, Strip, Written, Value, Zeros;
    var s := SecondsText(d, f);
    FractionText(d, f);
    CompoundWithFraction(None, None, d, f);
    assert Part(None, '时') + (Part(None, '分') + s) == s;
    SingleUnitFraction(d, f);
    WrittenIsWholeIff(d, f);
  }

  /**
   After hours or minutes nothing reads the fraction: up to three digits are dropped, and a
   longer one is rejected. The text means what it says exactly if its fraction is at most
   three zeros.
   */
  lemma FractionAfterMinutesIff(h: Option<string>, m: Option<string>, d: string, f: string)
    requires Component(h) && Component(m) && (h.Some? || m.Some?) && Digits(d) && Digits(f)
    ensures var s := Part(h, '时') + (Part(m, '分') + SecondsText(d, f));
            var before := PartValue(h) * 3600 + PartValue(m) * 60;
            && ParseDuration(s)
               == (if |s| <= MAX_UNIT_LEN && |d| <= 5 && |f| <= 3 then Some((before + Value(d)) as real) else None)
            && (ParseDuration(s) == Some(before as real + Written(d, f)) <==>
                |s| <= MAX_UNIT_LEN && |d| <= 5 && |f| <= 3 && Zeros(f))
  {
    hide MatchCompound, ParseNumberUnit, Strip, Written, Value, Zeros;
    var s := Part(h, '时') + (Part(m, '分') + SecondsText(d, f));
    CompoundText(h, m, d, f);
    CompoundWithFraction(h, m, d, f);
    CompoundIsNoNumber(h, m, d, f);
    WrittenIsWholeIff(d, f);
  }

  lemma CompoundText(h: Option<string>, m: Option<string>, d: string, f: string)
    requires Component(h) && Component(m) && Digits(d) && Digits(f)
    ensures var s := Part(h, '时') + (Part(m, '分') + SecondsText(d, f));
            s != "" && Strip(s) == s && Like.Fold(s) == s
  {
    var s := Part(h, '时') + (Part(m, '分') + SecondsText(d, f));
    PartText(h, '时');
    PartText(m, '分');
    PlainText(s);
  }

  lemma PartText(h: Option<string>, unit: char)
    requires Component(h) && Printed(unit)
    ensures forall i | 0 <= i < |Part(h, unit)| :: Printed(Part(h, unit)[i])
  {
  }

  lemma InnerSignRejected(d: string, sign: char, rest: string)
    requires Digits(d) && !Digit(sign) && sign != '.'
    ensures MatchNumber(d + ([sign] + rest)) == None
  {
    RunOfDigits(d, [sign] + rest);
    hide DigitRun, Value;
  }

  lemma SecondsOf(number: string)
    requires forall i | 0 <= i < |number| :: Printed(number[i]) || number[i] == '.'
    requires MatchNumber(number) == None
    ensures ParseNumberUnit(number + "秒") == None
  {
    hide MatchNumber, UnitOf;
    var s := number + "秒";
    SecondsUnit(number);
    assert s[..|s| - 1] == number;
    PlainText(number);
  }

  lemma CompoundIsNoNumber(h: Option<string>, m: Option<string>, d: string, f: string)
    requires Component(h) && Component(m) && (h.Some? || m.Some?) && Digits(d) && Digits(f)
    ensures ParseNumberUnit(Part(h, '时') + (Part(m, '分') + SecondsText(d, f))) == None
  {
    hide MatchNumber, ParseNumberUnit;
    var rest := Part(m, '分') + (d + "." + f);
    var number := Part(h, '时') + rest;
    assert Part(h, '时') + (Part(m, '分') + SecondsText(d, f)) == number + "秒";
    PartText(h, '时');
    PartText(m, '分');
    NoUnitIsADigit();
    if h.Some? {
      assert number == h.value + (['时'] + rest);
      InnerSignRejected(h.value, '时', rest);
    } else {
      assert number == m.value + (['分'] + (d + "." + f));
      InnerSignRejected(m.value, '分', d + "." + f);
    }
    SecondsOf(number);
  }

  // ---------- Single units ----------

  /** The units and what they stand for, in seconds; a bare number counts seconds. */
  const SECONDS: map<string, real> := map[
    "小时" := 3600.0, "时" := 3600.0, "h" := 3600.0, "分钟" := 60.0, "分" := 60.0, "min" := 60.0,
    "秒" := 1.0, "s" := 1.0, "" := 1.0]

  /** Digits, with or without a fraction. */
  function Number(d: string, f: Option<string>): string {
    match f case None => d case Some(t) => d + "." + t
  }

  ghost predicate IsNumber(d: string, f: Option<string>) { Digits(d) && (f.Some? ==> Digits(f.value)) }

  function NumberValue(d: string, f: Option<string>): real
    requires IsNumber(d, f)
  {
    match f case None => Value(d) as real case Some(t) => Written(d, t)
  }

  lemma NumberIsRead(d: string, f: Option<string>)
    requires IsNumber(d, f)
    ensures MatchNumber(Number(d, f)) == Some(NumberValue(d, f))
    ensures Number(d, f) != "" && Digit(Number(d, f)[|Number(d, f)| - 1]) && Digit(Number(d, f)[0])
  {
    match f
    case None =>
      assert d + "" == d;
      RunOfDigits(d, "");
    case Some(t) =>
      NumberWithFraction(d, t);
      hide MatchNumber;
  }

  predicate UnitChar(c: char) { !Digit(c) && !Blank(c) }

  lemma EndsInUnit(body: string, unit: string, u: string)
    requires body != "" && !UnitChar(body[|body| - 1])
    requires u != "" && forall i | 0 <= i < |u| :: UnitChar(u[i])
    ensures Like.EndsWith(body + unit, u) <==> Like.EndsWith(unit, u)
  {
    hide UnitChar;
    var s := body + unit;
    if |u| <= |unit| {
      assert s[|s| - |u|..] == unit[|unit| - |u|..];
    } else if |u| <= |s| {
      var k := |u| - |unit| - 1;
      assert s[|s| - |u|..][k] == body[|body| - 1] && UnitChar(u[k]);
    }
  }

  lemma UnitCharsOfTable()
    ensures forall i | 0 <= i < 3 :: UnitChar("min"[i])
    ensures forall i | 0 <= i < 2 :: UnitChar("小时"[i])
    ensures forall i | 0 <= i < 2 :: UnitChar("分钟"[i])
    ensures UnitChar('时') && UnitChar('h') && UnitChar('分') && UnitChar('秒') && UnitChar('s')
  {
  }

  /** The unit at the end of a text depends on nothing before it. */
  lemma UnitOfTail(body: string, unit: string)
    requires body != "" && !UnitChar(body[|body| - 1])
    ensures UnitOf(body + unit) == UnitOf(unit)
  {
    hide UnitChar, Like.EndsWith;
    UnitCharsOfTable();
    EndsInUnit(body, unit, "min");
    EndsInUnit(body, unit, "小时");
    EndsInUnit(body, unit, "分钟");
    EndsInUnit(body, unit, "时");
    EndsInUnit(body, unit, "h");
    EndsInUnit(body, unit, "分");
    EndsInUnit(body, unit, "秒");
    EndsInUnit(body, unit, "s");
  }

  lemma EndsInItself(s: string)
    ensures Like.EndsWith(s, s)
  {
    assert s[0..] == s;
  }

  /** Each unit is told from those that end alike. */
  lemma UnitsAreTold(unit: string)
    requires unit in SECONDS
    ensures UnitOf(unit) == (unit, SECONDS[unit])
  {
    hide Like.EndsWith;
    EndsInItself(unit);
    ApartFrom(unit, "min");
    ApartFrom(unit, "小时");
    ApartFrom(unit, "分钟");
    ApartFrom(unit, "时");
    ApartFrom(unit, "h");
    ApartFrom(unit, "分");
    ApartFrom(unit, "秒");
    ApartFrom(unit, "s");
  }

  lemma ApartFrom(unit: string, u: string)
    requires u != ""
    ensures |unit| < |u| || unit[|unit| - 1] != u[|u| - 1] ==> !Like.EndsWith(unit, u)
  {
    if |u| <= |unit| {
      assert unit[|unit| - |u|..][|u| - 1] == unit[|unit| - 1];
    }
  }

  /** No component starts with anything but one of the three signs, or a dot, after its digits. */
  lemma CompoundStops(d: string, rest: string)
    requires Digits(d) && (rest == "" || (!Digit(rest[0]) && rest[0] != '时' && rest[0] != '分' && rest[0] != '秒' && rest[0] != '.'))
    ensures MatchCompound(d + rest) == None
  {
    RunOfDigits(d, rest);
  }

  lemma CompoundStopsAtDot(d: string, f: string, tail: string)
    requires Digits(d) && Digits(f) && (tail == "" || (!Digit(tail[0]) && tail[0] != '秒'))
    ensures MatchCompound(d + "." + f + tail) == None
  {
    hide Value, Digit;
    var s := d + "." + f + tail;
    NoUnitIsADigit();
    assert s == d + "." + (f + tail) && s == d + ("." + (f + tail));
    TakeUnitAtDot(d, f + tail, '时');
    TakeUnitAtDot(d, f + tail, '分');
    TakeUnitAtDot(d, f + tail, '秒');
    NotADigit('.');
    RunOfDigits(d, "." + (f + tail));
    assert s[|d| + 1..] == f + tail;
    RunOfDigits(f, tail);
    assert tail != "" ==> s[|d| + 1 + |f|] == tail[0];
    hide TakeUnit, DigitRun;
  }

  lemma NotADigit(c: char)
    requires c < '0' || c > '9'
    ensures !Digit(c)
  {
  }

  lemma SignTaken(d: string, unit: char, rest: string)
    requires Digits(d) && !Digit(unit) && unit != '.'
    ensures var s := d + [unit] + rest;
            && TakeUnit(s, unit) == (if |d| <= 5 then (Value(d), rest) else (0, s))
            && TakeSeconds(s) == TakeUnit(s, '秒')
  {
    hide Value, TakeUnit;
    TakesItsUnit(d, unit, rest);
    RunOfDigits(d, [unit] + rest);
    assert d + [unit] + rest == d + ([unit] + rest);
  }

  /** One component on its own. */
  lemma OneComponent(d: string, sign: char)
    requires Digits(d) && (sign == '时' || sign == '分' || sign == '秒')
    ensures MatchCompound(d + [sign])
         == if |d| <= 5 then Some(Value(d) * (if sign == '时' then 3600 else if sign == '分' then 60 else 1)) else None
  {
    hide Value, Digit, TakeUnit, TakeSeconds;
    NoUnitIsADigit();
    assert d + [sign] + "" == d + [sign];
    SignTaken(d, sign, "");
    NothingLeft('时');
    NothingLeft('分');
    if sign != '时' {
      SkipsOtherUnit(d, '时', sign, "");
    }
    if sign != '分' {
      SkipsOtherUnit(d, '分', sign, "");
    }
    if sign != '秒' {
      SkipsOtherUnit(d, '秒', sign, "");
    }
  }

  /** The longer sign of minutes is no component: its second character is left over. */
  lemma LongMinutes(d: string)
    requires Digits(d)
    ensures MatchCompound(d + "分钟") == None
  {
    hide Value, Digit, TakeUnit, TakeSeconds;
    NoUnitIsADigit();
    var s := d + ['分'] + "钟";
    assert d + "分钟" == s;
    SkipsOtherUnit(d, '时', '分', "钟");
    SignTaken(d, '分', "钟");
    SkipsOtherUnit(d, '秒', '分', "钟");
    NotADigit('钟');
    NoSeconds("钟");
  }

  lemma NoSeconds(s: string)
    requires s != "" && !Digit(s[0])
    ensures TakeSeconds(s) == (0, s)
  {
  }

  lemma {:induction false} ValueBound(d: string)
    requires forall i | 0 <= i < |d| :: Digit(d[i])
    ensures Value(d) < Power10(|d|)
  {
    if d != "" {
      ValueBound(d[..|d| - 1]);
      assert Digit(d[|d| - 1]);
    }
  }

  lemma FiveDigits(d: string)
    requires Digits(d) && |d| <= 5
    ensures Value(d) < 100000
  {
    ValueBound(d);
    FifthPower();
    PowersGrow(|d|, 5);
  }

  lemma {:induction false} PowersGrow(k: nat, n: nat)
    requires k <= n
    ensures Power10(k) <= Power10(n)
  {
    if k < n {
      PowersGrow(k, n - 1);
    }
  }

  /** Where the compound pattern matches a single component it says the same. */
  lemma CompoundAgrees(d: string, f: Option<string>, b: string, unit: string)
    requires IsNumber(d, f) && Texts.All(Blank, b) && unit in SECONDS && (unit == "" ==> b == "")
    requires !(f.Some? && b == "" && unit == "秒")
    ensures var m := MatchCompound(Number(d, f) + (b + unit));
            m.Some? ==> NumberValue(d, f) <= MAX_PARSE_VALUE && m.value as real == NumberValue(d, f) * SECONDS[unit]
  {
    hide MatchCompound, Value;
    var tail := b + unit;
    if unit != "" {
      UnitStarts(unit);
    }
    assert tail != "" ==> tail[0] == if b == "" then unit[0] else b[0];
    if f.Some? {
      assert tail == "" || (!Digit(tail[0]) && tail[0] != '秒');
      CompoundStopsAtDot(d, f.value, tail);
      assert d + "." + f.value + tail == Number(d, f) + tail;
    } else if b == "" && unit in {"时", "分", "秒"} {
      assert tail == [unit[0]];
      OneComponent(d, unit[0]);
      if |d| <= 5 {
        FiveDigits(d);
      }
    } else if b == "" && unit == "分钟" {
      assert tail == "分钟";
      LongMinutes(d);
    } else {
      CompoundStops(d, tail);
    }
  }

  /** What the pattern can see of a unit is its first character. */
  lemma UnitStarts(unit: string)
    requires unit in SECONDS && unit != ""
    ensures !Digit(unit[0]) && unit[0] != '.' && !Blank(unit[0])
    ensures unit[0] == '时' ==> unit == "时"
    ensures unit[0] == '秒' ==> unit == "秒"
    ensures unit[0] == '分' ==> unit == "分" || unit == "分钟"
  {
  }

  predicate InNumber(c: char) { Digit(c) || c == '.' || Blank(c) }

  lemma NumberChars(d: string, f: Option<string>)
    requires IsNumber(d, f)
    ensures forall i | 0 <= i < |Number(d, f)| :: InNumber(Number(d, f)[i])
  {
  }

  lemma FoldedNumber(s: string)
    requires forall i | 0 <= i < |s| :: InNumber(s[i])
    ensures Like.Fold(s) == s
  {
    assert forall i | 0 <= i < |s| :: Like.FoldChar(s[i]) == s[i];
  }

  lemma {:induction false} FoldedUnit(unit: string)
    requires Like.Fold(unit) in SECONDS && unit != ""
    ensures !Blank(unit[|unit| - 1])
  {
    var low := Like.Fold(unit);
    assert low[|unit| - 1] == Like.FoldChar(unit[|unit| - 1]);
    UnitEnds(low);
  }

  lemma UnitEnds(unit: string)
    requires unit in SECONDS && unit != ""
    ensures !Blank(unit[|unit| - 1])
  {
  }

  lemma SingleUnitNumber(number: string, b: string, unit: string)
    requires number != "" && Digit(number[0]) && Digit(number[|number| - 1]) && Texts.All(Blank, b)
    requires unit in SECONDS && (unit == "" ==> b == "")
    ensures ParseNumberUnit(number + b + unit)
         == match MatchNumber(number)
            case None => None
            case Some(v) => if v > MAX_PARSE_VALUE then None else Some(v * SECONDS[unit])
  {
    hide MatchNumber, UnitOf, Texts.Strip;
    var body := number + b;
    assert body[|body| - 1] == if b == "" then number[|number| - 1] else b[|b| - 1];
    UnitOfTail(body, unit);
    UnitsAreTold(unit);
    assert (body + unit)[..|body|] == body && "" + number + b == body;
    assert !Blank(number[0]) && !Blank(number[|number| - 1]);
    Texts.StripIs(Blank, "", number, b);
    assert unit == "" ==> body + unit == number;
  }

  /**
   A number and one unit, in any case, with blanks around and between, mean their product; only
   length and size are limited. Fractions right before the sign of seconds are the exception
   (`FractionIsDroppedIff`).
   */
  lemma SingleUnits(a: string, d: string, f: Option<string>, b: string, unit: string, c: string)
    requires IsNumber(d, f) && Texts.All(Blank, a) && Texts.All(Blank, b) && Texts.All(Blank, c)
    requires Like.Fold(unit) in SECONDS && (unit == "" ==> b == "")
    requires !(f.Some? && b == "" && unit == "秒")
    ensures var s := Number(d, f) + b + unit;
            ParseDuration(a + s + c)
            == if |s| > MAX_UNIT_LEN || NumberValue(d, f) > MAX_PARSE_VALUE then None
               else Some(NumberValue(d, f) * SECONDS[Like.Fold(unit)])
  {
    hide MatchCompound, ParseNumberUnit, MatchNumber, NumberValue, Value, Number, Texts.Strip, Like.Fold, IsNumber, Texts.Bare;
    var number, low := Number(d, f), Like.Fold(unit);
    var s := number + b + unit;
    NumberIsRead(d, f);
    SingleUnitText(d, f, b, unit);
    Texts.StripIs(Blank, a, s, c);
    FoldsToSeconds(unit);
    CompoundAgrees(d, f, b, low);
    assert number + b + low == number + (b + low);
    SingleUnitNumber(number, b, low);
  }

  lemma SingleUnitText(d: string, f: Option<string>, b: string, unit: string)
    requires IsNumber(d, f) && Texts.All(Blank, b) && Like.Fold(unit) in SECONDS && (unit == "" ==> b == "")
    ensures var s := Number(d, f) + b + unit;
            s != "" && Texts.Bare(Blank, s) && Like.Fold(s) == Number(d, f) + b + Like.Fold(unit)
  {
    hide MatchNumber, NumberValue, Value, Number, Like.Fold;
    var number := Number(d, f);
    var s := number + b + unit;
    NumberIsRead(d, f);
    NumberChars(d, f);
    FoldedNumber(number + b);
    Like.FoldConcat(number + b, unit);
    if unit != "" {
      FoldedUnit(unit);
    }
    assert s[0] == number[0] && s[|s| - 1] == if unit == "" then number[|number| - 1] else unit[|unit| - 1];
  }

  /** White space alone is no duration at all. */
  lemma BlankIsZero(text: string)
    requires Texts.All(Blank, text)
    ensures ParseDuration(text) == Some(0.0)
  {
    Texts.StripIs(Blank, text, "", "");
    assert text + "" + "" == text;
  }

  lemma FoldsToSeconds(unit: string)
    ensures Like.Fold(unit) == "秒" <==> unit == "秒"
  {
    if |unit| == 1 {
      assert Like.Fold(unit)[0] == Like.FoldChar(unit[0]);
      assert unit == [unit[0]] && Like.Fold(unit) == [Like.FoldChar(unit[0])];
    }
  }

  /** So "1.5秒" is read as one second. */
  lemma FractionOfSecondsIsDropped()
    ensures ParseDuration(SecondsText("1", "5")) == Some(1.0)
  {
    FractionIsDroppedIff("1", "5");
    assert "1"[..0] == "" && Value("1") == 1;
  }
}
