/**
 Byte ranges and the streaming loop of a local file (core/application/download_server_io.py);
 the range forms are those of section 14.1.2 of RFC 9110. What Python calls white space and
 what `int()` accepts are parameters.
 */
module ServeRange {
  import opened Options
  import Like
  import opened Texts

  datatype Range = Whole | Unsatisfiable | Span(start: int, end: int)

  type Parser = string -> Option<int>

  /** Index of the first dash, or the length. */
  function FirstDash(s: string): (i: nat)
    ensures i <= |s| && (i < |s| ==> s[i] == '-') && '-' !in s[..i]
  {
    if s == "" || s[0] == '-' then 0
    else
      var i := FirstDash(s[1..]);
      assert s[..i + 1] == [s[0]] + s[1..][..i];
      i + 1
  }

  /** `int(text)`, unless the text is empty. */
  function Bound(toInt: Parser, text: string, default: int): Option<int> {
    if text == "" then Some(default) else toInt(text)
  }

  function ParseSpec(toInt: Parser, first: string, last: string, total: int): Range {
    if first == "" then
      match toInt(last)
      case None => Whole
      case Some(n) =>
        if n <= 0 || total <= 0 then Unsatisfiable
        else Span(if total - n > 0 then total - n else 0, total - 1)
    else
      match (toInt(first), Bound(toInt, last, total - 1))
      case (Some(start), Some(end)) =>
        if start < 0 || start >= total || end < start then Unsatisfiable
        else Span(start, if end < total - 1 then end else total - 1)
      case (_, _) => Whole
  }

  const UNIT := "bytes="

  /** parse_range: None and the empty header mean the whole body. */
  function ParseRange(space: char -> bool, toInt: Parser, value: Option<string>, total: int): Range {
    if value.None? || value.value == "" then Whole
    else
      var spec := Strip(space, value.value);
      if !Like.StartsWith(Like.Fold(spec), UNIT) then Whole
      else
        var rest := Strip(space, spec[|UNIT|..]);
        if ',' in rest || '-' !in rest then Whole
        else
          var i := FirstDash(rest);
          ParseSpec(toInt, Strip(space, rest[..i]), Strip(space, rest[i + 1..]), total)
  }

  /** Whatever the header says, a span lies inside the body. */
  lemma SpansAreInside(space: char -> bool, toInt: Parser, value: Option<string>, total: int)
    ensures var r := ParseRange(space, toInt, value, total);
            r.Span? ==> 0 <= r.start <= r.end < total
  {
  }

  // ---------- Which headers mean what ----------

  /** The header is `bytes=first-last`, the unit in any case and blanks anywhere between. */
  ghost predicate Asks(space: char -> bool, value: Option<string>, first: string, last: string) {
    && value.Some?
    && exists spec :: Trims(space, value.value, spec)
                   && exists unit, body :: spec == unit + body && IsUnit(unit) && AsksFor(space, body, first, last)
  }

  ghost predicate IsUnit(unit: string) {
    |unit| == 6 && unit[5] == '=' && unit[0] in "bB" && unit[1] in "yY" && unit[2] in "tT"
    && unit[3] in "eE" && unit[4] in "sS"
  }

  /** One dash, or more of them in `last`, and no list of ranges. */
  ghost predicate AsksFor(space: char -> bool, body: string, first: string, last: string) {
    exists rest, before, after ::
      && Trims(space, body, rest) && rest == before + "-" + after
      && ',' !in rest && '-' !in before
      && Trims(space, before, first) && Trims(space, after, last)
  }

  lemma UnitIsFolded(s: string)
    ensures Like.StartsWith(Like.Fold(s), UNIT) <==> |s| >= 6 && IsUnit(s[..6])
  {
    var f := Like.Fold(s);
    if |s| >= 6 {
      assert f[..6] == UNIT <==> forall i | 0 <= i < 6 :: f[i] == UNIT[i];
      FoldedTo(s[0], 'b');
      FoldedTo(s[1], 'y');
      FoldedTo(s[2], 't');
      FoldedTo(s[3], 'e');
      FoldedTo(s[4], 's');
      assert Like.FoldChar(s[5]) == '=' <==> s[5] == '=';
      assert f[..6] == UNIT <==> IsUnit(s[..6]);
    }
  }

  lemma FoldedTo(c: char, low: char)
    requires 'a' <= low <= 'z'
    ensures Like.FoldChar(c) == low <==> c == low || c as int == low as int - 32
  {
  }
  lemma FirstDashAt(before: string, after: string)
    requires '-' !in before
    ensures var rest := before + "-" + after;
            && '-' in rest && FirstDash(rest) == |before|
            && rest[..FirstDash(rest)] == before && rest[FirstDash(rest) + 1..] == after
  {
    hide FirstDash;
    var rest := before + "-" + after;
    var i := FirstDash(rest);
    assert rest[|before|] == '-';
    assert forall j | 0 <= j < |before| :: rest[j] == before[j];
    assert forall j | 0 <= j < i :: rest[..i][j] == rest[j];
  }

  lemma BodyIsRead(space: char -> bool, body: string, first: string, last: string)
    requires AsksFor(space, body, first, last)
    ensures var rest := Strip(space, body);
            && ',' !in rest && '-' in rest
            && Strip(space, rest[..FirstDash(rest)]) == first && Strip(space, rest[FirstDash(rest) + 1..]) == last
  {
    hide Strip, Trims, FirstDash;
    var rest, before, after :| Trims(space, body, rest) && rest == before + "-" + after
      && ',' !in rest && '-' !in before && Trims(space, before, first) && Trims(space, after, last);
    StripIff(space, body, rest);
    StripIff(space, before, first);
    StripIff(space, after, last);
    FirstDashAt(before, after);
  }

  /** A header of that form is read by its two numbers. */
  lemma AskedIsRead(space: char -> bool, toInt: Parser, value: Option<string>, first: string, last: string, total: int)
    requires Asks(space, value, first, last)
    ensures ParseRange(space, toInt, value, total) == ParseSpec(toInt, first, last, total)
  {
    hide Strip, Trims, FirstDash, AsksFor, ParseSpec, Like.Fold, IsUnit;
    var spec :| Trims(space, value.value, spec)
             && exists unit, body :: spec == unit + body && IsUnit(unit) && AsksFor(space, body, first, last);
    var unit, body :| spec == unit + body && IsUnit(unit) && AsksFor(space, body, first, last);
    SixLong(unit);
    assert spec[..6] == unit && spec[6..] == body;
    StripIff(space, value.value, spec);
    NotEmpty(space, value.value, spec);
    UnitIsFolded(spec);
    BodyIsRead(space, body, first, last);
  }

  lemma SixLong(unit: string)
    requires IsUnit(unit)
    ensures |unit| == 6
  {
  }

  lemma NotEmpty(space: char -> bool, s: string, core: string)
    requires Trims(space, s, core) && core != ""
    ensures s != ""
  {
  }

  /** Any other header means the whole body. */
  lemma ElseWhole(space: char -> bool, toInt: Parser, value: Option<string>, total: int) returns (first: string, last: string)
    requires ParseRange(space, toInt, value, total) != Whole
    ensures Asks(space, value, first, last)
  {
    hide Strip, Trims, ParseSpec, FirstDash, Like.Fold, IsUnit;
    var spec := Strip(space, value.value);
    StripIff(space, value.value, spec);
    UnitIsFolded(spec);
    var body := spec[6..];
    assert spec == spec[..6] + body;
    var rest := Strip(space, body);
    StripIff(space, body, rest);
    HasDash(rest);
    var i := FirstDash(rest);
    first, last := Strip(space, rest[..i]), Strip(space, rest[i + 1..]);
    StripIff(space, rest[..i], first);
    StripIff(space, rest[i + 1..], last);
    assert rest == rest[..i] + "-" + rest[i + 1..];
    assert AsksFor(space, body, first, last);
  }

  lemma HasDash(s: string)
    requires '-' in s
    ensures FirstDash(s) < |s|
  {
    hide FirstDash;
    assert s[..|s|] == s;
  }

  /** A missing or empty header, and one without the unit, with a comma or without a dash. */
  lemma NoRangeAsked(space: char -> bool, toInt: Parser, value: Option<string>, total: int)
    requires value.None? || value.value == "" ||
             var spec := Strip(space, value.value);
             |spec| < 6 || !IsUnit(spec[..6]) || ',' in Strip(space, spec[6..]) || '-' !in Strip(space, spec[6..])
    ensures ParseRange(space, toInt, value, total) == Whole
  {
    hide Strip, Like.Fold, FirstDash, IsUnit, ParseSpec;
    if value.Some? {
      UnitIsFolded(Strip(space, value.value));
    }
  }

  /**
   The three forms of RFC 9110, for any accepted numbers: a closed range is clipped to the body,
   an open one runs to its end, a suffix takes the last bytes; what lies beyond the body is
   unsatisfiable, and a number that does not parse means the whole body.
   */
  lemma RangeForms(space: char -> bool, toInt: Parser, value: Option<string>, first: string, last: string, total: int)
    requires Asks(space, value, first, last)
    ensures var r := ParseRange(space, toInt, value, total);
      if first == "" then
        match toInt(last)
        case None => r == Whole
        case Some(n) =>
          r == if n > 0 && total > 0 then Span(if n < total then total - n else 0, total - 1) else Unsatisfiable
      else
        match toInt(first)
        case None => r == Whole
        case Some(a) =>
          if last == "" then r == if 0 <= a < total then Span(a, total - 1) else Unsatisfiable
          else match toInt(last)
            case None => r == Whole
            case Some(b) =>
              r == if 0 <= a < total && a <= b then Span(a, if b < total then b else total - 1) else Unsatisfiable
  {
    hide ParseRange, Asks;
    AskedIsRead(space, toInt, value, first, last, total);
  }

  lemma Padded(p: char -> bool, a: string, core: string, b: string)
    requires All(p, a) && All(p, b) && Bare(p, core)
    ensures Trims(p, a + core + b, core)
  {
  }

  lemma AroundDash(space: char -> bool, lead: string, first: string, last: string)
    requires All(space, lead) && !space('-') && Bare(space, first) && Bare(space, last)
    requires '-' !in first && ',' !in first && ',' !in last
    ensures AsksFor(space, lead + (first + "-" + last), first, last)
  {
    hide Trims;
    var rest := first + "-" + last;
    assert rest[0] == if first == "" then '-' else first[0];
    assert rest[|rest| - 1] == if last == "" then '-' else last[|last| - 1];
    Padded(space, lead, rest, "");
    Padded(space, "", first, "");
    Padded(space, "", last, "");
    assert "" + first + "" == first && "" + last + "" == last && lead + rest + "" == lead + rest;
  }

  lemma AfterUnit(space: char -> bool, a: string, unit: string, body: string, tail: string, first: string, last: string)
    requires All(space, a) && All(space, tail) && IsUnit(unit) && !space(unit[0])
    requires body != "" && !space(body[|body| - 1]) && AsksFor(space, body, first, last)
    ensures Asks(space, Some(a + (unit + body) + tail), first, last)
  {
    hide AsksFor;
    var spec := unit + body;
    assert spec[0] == unit[0] && spec[|spec| - 1] == body[|body| - 1];
    Padded(space, a, spec, tail);
  }

  /** The header `bytes=first-last`, its unit in any case, blanks around it and after the unit. */
  lemma WrittenHeaderAsks(space: char -> bool, a: string, unit: string, b: string, first: string, last: string, c: string)
    requires All(space, a) && All(space, b) && All(space, c)
    requires IsUnit(unit) && !space(unit[0]) && !space('-')
    requires Bare(space, first) && Bare(space, last) && '-' !in first && ',' !in first && ',' !in last
    ensures Asks(space, Some(a + (unit + (b + (first + "-" + last))) + c), first, last)
  {
    hide AsksFor, IsUnit, Trims, Asks;
    AroundDash(space, b, first, last);
    var body := b + (first + "-" + last);
    assert body[|body| - 1] == if last == "" then '-' else last[|last| - 1];
    AfterUnit(space, a, unit, body, c, first, last);
  }

  /** Both numbers parse; the second may be missing. */
  ghost predicate Readable(toInt: Parser, first: string, last: string) {
    if first == "" then toInt(last).Some?
    else toInt(first).Some? && (last == "" || toInt(last).Some?)
  }

  /** One of the comparisons fails. */
  ghost predicate Beyond(toInt: Parser, first: string, last: string, total: int)
    requires Readable(toInt, first, last)
  {
    if first == "" then toInt(last).value <= 0 || total <= 0
    else
      || toInt(first).value < 0 || toInt(first).value >= total
      || (last != "" && toInt(last).value < toInt(first).value)
  }

  /**
   When the whole body is sent, and when the range is refused, for every header: the one unless
   the header asks for a range with numbers that parse, the other if these lie outside the body.
   */
  lemma WholeAndUnsatisfiableIff(space: char -> bool, toInt: Parser, value: Option<string>, total: int)
    ensures ParseRange(space, toInt, value, total) == Whole
       <==> !exists first, last :: Asks(space, value, first, last) && Readable(toInt, first, last)
    ensures ParseRange(space, toInt, value, total) == Unsatisfiable
       <==> exists first, last :: Asks(space, value, first, last) && Readable(toInt, first, last)
                               && Beyond(toInt, first, last, total)
  {
    hide ParseRange, Asks;
    if ParseRange(space, toInt, value, total) != Whole {
      var _, _ := ElseWhole(space, toInt, value, total);
    }
    if first, last :| Asks(space, value, first, last) {
      forall f, l | Asks(space, value, f, l) ensures f == first && l == last {
        OneReading(space, value, f, l, first, last);
      }
      RangeForms(space, toInt, value, first, last, total);
    }
  }

  /** A header names at most one pair of bounds. */
  lemma OneReading(space: char -> bool, value: Option<string>, f: string, l: string, first: string, last: string)
    requires Asks(space, value, f, l) && Asks(space, value, first, last)
    ensures f == first && l == last
  {
    hide AsksFor, Trims;
    var u, b := AskedBody(space, value, f, l);
    var u', b' := AskedBody(space, value, first, last);
    assert (u + b)[6..] == b && (u' + b')[6..] == b';
    BodyIsRead(space, b, f, l);
    BodyIsRead(space, b', first, last);
  }

  lemma AskedBody(space: char -> bool, value: Option<string>, first: string, last: string) returns (unit: string, body: string)
    requires Asks(space, value, first, last)
    ensures |unit| == 6 && Strip(space, value.value) == unit + body && AsksFor(space, body, first, last)
  {
    hide AsksFor;
    var spec :| Trims(space, value.value, spec)
             && exists unit, body :: spec == unit + body && IsUnit(unit) && AsksFor(space, body, first, last);
    StripIff(space, value.value, spec);
    unit, body :| spec == unit + body && IsUnit(unit) && AsksFor(space, body, first, last);
  }

  // ---------- Streaming ----------

  type Byte = b: int | 0 <= b < 256

  const STREAM_CHUNK: nat := 65536

  datatype Response = Response(code: nat, length: nat, body: seq<Byte>)

  /** What the client must receive. */
  function Expected(content: seq<Byte>, r: Range): Response
    requires r.Span? ==> 0 <= r.start <= r.end < |content|
  {
    match r
    case Whole => Response(200, |content|, content)
    case Unsatisfiable => Response(416, 0, [])
    case Span(s, e) => Response(206, e - s + 1, content[s..e + 1])
  }

  /** One read of at most `n` bytes at `pos`: short count allowed, empty only at the end. */
  function Read(content: seq<Byte>, pos: nat, n: nat, short: nat): (chunk: seq<Byte>)
    requires n > 0
    ensures |chunk| <= n && pos + |chunk| <= (if pos <= |content| then |content| else pos)
    ensures pos < |content| ==> chunk != [] && chunk == content[pos..pos + |chunk|]
  {
    if pos >= |content| then []
    else
      var avail := if n < |content| - pos then n else |content| - pos;
      content[pos..pos + if short < avail then short + 1 else avail]
  }

  /** The chunk loop: whatever the short reads, exactly the bytes asked for. */
  method Stream(content: seq<Byte>, start: nat, length: nat, short: nat -> nat) returns (body: seq<Byte>)
    requires start + length <= |content|
    ensures body == content[start..start + length]
  {
    var remaining, pos, count := length, start, 0;
    body := [];
    while remaining > 0
      invariant 0 <= remaining && remaining + |body| == length && pos == start + |body|
      invariant body == content[start..pos]
      decreases remaining
    {
      var chunk := Read(content, pos, if STREAM_CHUNK < remaining then STREAM_CHUNK else remaining, short(count));
      if chunk == [] {
        break;
      }
      count := count + 1;
      remaining := remaining - |chunk|;
      assert content[start..pos + |chunk|] == content[start..pos] + content[pos..pos + |chunk|];
      pos := pos + |chunk|;
      body := body + chunk;
    }
  }

  /**
   serve_local_file: for any header and any pattern of short reads the body is exactly the
   announced bytes, as many as Content-Length says.
   */
  method ServeLocalFile(content: seq<Byte>, space: char -> bool, toInt: Parser, header: Option<string>,
                        short: nat -> nat)
    returns (resp: Response)
    ensures resp == Expected(content, ParseRange(space, toInt, header, |content|))
    ensures |resp.body| == resp.length
    ensures header == None ==> resp == Response(200, |content|, content)
  {
    hide ParseRange;
    var total := |content|;
    var span := ParseRange(space, toInt, header, total);
    SpansAreInside(space, toInt, header, total);
    if header.None? {
      NoRangeAsked(space, toInt, header, total);
    }
    if span.Unsatisfiable? {
      return Response(416, 0, []);
    }
    var start, end, code := 0, total - 1, 200;
    if span.Span? {
      start, end, code := span.start, span.end, 206;
    }
    var length := if end - start + 1 > 0 then end - start + 1 else 0;
    var body := Stream(content, start, length, short);
    assert content[0..|content|] == content;
    resp := Response(code, length, body);
  }
}
