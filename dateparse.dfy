/** The date handling of the article parser: `parse_datetime`, which reads a
    publication time such as "2025年03月27日 15:34" with the pattern
    `(\d{4})年(\d{2})月(\d{2})日\s+(\d{2}):(\d{2})` anchored at the start, and
    the part of `extract_article_info` that strips the page's title and time
    texts and renders the time as `%Y-%m-%d %H:%M:%S`. */
module DateParse {
  import opened Text
  import opened Wrappers

  /** A wall-clock time to the minute (the Asia/Shanghai zone attached by the
      script does not show in the rendered text). */
  datatype DateTime = DateTime(year: int, month: int, day: int, hour: int, minute: int)

  /** What `parse_datetime` does with a text: no match (it returns None), a
      match on which it raises (`datetime(...)` rejects the numbers with
      ValueError, or `localize` overflows), or a time. */
  datatype Parsed = NoMatch | Invalid | Time(time: DateTime)

  /** What `extract_article_info` returns when it does not fail. */
  datatype ArticleInfo = ArticleInfo(title: Option<string>, publishTime: Option<string>)

  // ---------------------------------------------------------------- digits

  /** A character `\d` accepts and `int()` reads: ASCII and fullwidth digits. */
  predicate IsDigit(c: char) {
    ('0' <= c <= '9') || ('\U{FF10}' <= c <= '\U{FF19}')
  }

  function DigitValue(c: char): (d: nat)
    requires IsDigit(c)
    ensures d < 10
  {
    if '0' <= c <= '9' then c as int - '0' as int else c as int - '\U{FF10}' as int
  }

  predicate AllDigits(s: string) {
    forall k :: 0 <= k < |s| ==> IsDigit(s[k])
  }

  function Pow10(w: nat): (p: nat)
    ensures p >= 1
  {
    if w == 0 then 1 else 10 * Pow10(w - 1)
  }

  /** `int(ds)` for a run of digits, most significant first. */
  function Value(ds: string): (n: nat)
    requires AllDigits(ds)
    ensures n < Pow10(|ds|)
  {
    if ds == [] then 0
    else
      var init := ds[..|ds| - 1];
      assert AllDigits(init);
      Value(init) * 10 + DigitValue(ds[|ds| - 1])
  }

  /** The ASCII digit for `d`. */
  function DigitChar(d: nat): (c: char)
    requires d < 10
    ensures '0' <= c <= '9' && DigitValue(c) == d
  {
    ('0' as int + d) as char
  }

  /** The value of two digits. */
  lemma TwoDigits(ds: string)
    requires |ds| == 2 && IsDigit(ds[0]) && IsDigit(ds[1])
    ensures AllDigits(ds) && Value(ds) == 10 * DigitValue(ds[0]) + DigitValue(ds[1])
  {
    assert ds[..1][..0] == [];
  }

  /** The value of four digits: the first two count hundreds. */
  lemma FourDigits(ds: string)
    requires |ds| == 4 && AllDigits(ds[..2]) && AllDigits(ds[2..])
    ensures AllDigits(ds) && Value(ds) == 100 * Value(ds[..2]) + Value(ds[2..])
  {
    assert ds[..3][..2] == ds[..2];
    assert AllDigits(ds) by {
      forall k | 0 <= k < 4 ensures IsDigit(ds[k]) {
        if k < 2 { assert ds[k] == ds[..2][k]; } else { assert ds[k] == ds[2..][k - 2]; }
      }
    }
    TwoDigits(ds[..2]);
    TwoDigits(ds[2..]);
  }

  /** `%02d` for a number below 100. */
  function Pad2(n: nat): string
    requires n < 100
  {
    [DigitChar(n / 10), DigitChar(n % 10)]
  }

  /** `%04d` (as `%Y` renders a year) for a number below 10000. */
  function Pad4(n: nat): string
    requires n < 10000
  {
    Pad2(n / 100) + Pad2(n % 100)
  }

  /** `%02d` writes two digits that read back as the number. */
  lemma ValuePad2(n: nat)
    requires n < 100
    ensures |Pad2(n)| == 2 && AllDigits(Pad2(n)) && Value(Pad2(n)) == n
  {
    TwoDigits(Pad2(n));
  }

  /** `%04d` writes four digits that read back as the number. */
  lemma ValuePad4(n: nat)
    requires n < 10000
    ensures |Pad4(n)| == 4 && AllDigits(Pad4(n)) && Value(Pad4(n)) == n
  {
    var r := Pad4(n);
    ValuePad2(n / 100);
    ValuePad2(n % 100);
    assert r[..2] == Pad2(n / 100) && r[2..] == Pad2(n % 100);
    FourDigits(r);
  }

  /** The ASCII digit of a digit's value is the digit itself. */
  lemma DigitCharOfValue(c: char)
    requires '0' <= c <= '9'
    ensures DigitChar(DigitValue(c)) == c
  {
  }

  /** Two ASCII digits, read and written back with `%02d`, are unchanged. */
  lemma PadValue2(ds: string)
    requires |ds| == 2 && '0' <= ds[0] <= '9' && '0' <= ds[1] <= '9'
    ensures AllDigits(ds) && Pad2(Value(ds)) == ds
  {
    TwoDigits(ds);
    DigitCharOfValue(ds[0]);
    DigitCharOfValue(ds[1]);
  }

  /** Four ASCII digits, read and written back with `%04d`, are unchanged. */
  lemma PadValue4(ds: string)
    requires |ds| == 4 && forall k :: 0 <= k < 4 ==> '0' <= ds[k] <= '9'
    ensures AllDigits(ds) && Pad4(Value(ds)) == ds
  {
    var hi, lo := ds[..2], ds[2..];
    assert hi[0] == ds[0] && hi[1] == ds[1] && lo[0] == ds[2] && lo[1] == ds[3];
    PadValue2(hi);
    PadValue2(lo);
    FourDigits(ds);
    var n := Value(ds);
    assert n / 100 == Value(hi) && n % 100 == Value(lo);
    assert ds == hi + lo;
  }

  // ---------------------------------------------------------------- the pattern

  /** `s[i..j]` is a run of digits. */
  predicate DigitsIn(s: string, i: nat, j: nat) {
    i <= j <= |s| && AllDigits(s[i..j])
  }

  /** `int(s[i..j])`. */
  function NumberIn(s: string, i: nat, j: nat): nat
    requires DigitsIn(s, i, j)
  {
    Value(s[i..j])
  }

  /** The fixed-width part before the whitespace: `\d{4}年\d{2}月\d{2}日`. */
  predicate DateHead(s: string) {
    && DigitsIn(s, 0, 4) && |s| > 4 && s[4] == '年'
    && DigitsIn(s, 5, 7) && |s| > 7 && s[7] == '月'
    && DigitsIn(s, 8, 10) && |s| > 10 && s[10] == '日'
  }

  /** The part after a whitespace run of `n` characters: `\d{2}:\d{2}`. */
  predicate ClockAfter(s: string, n: nat) {
    DigitsIn(s, 11 + n, 13 + n) && |s| > 13 + n && s[13 + n] == ':' && DigitsIn(s, 14 + n, 16 + n)
  }

  /** The pattern matches a prefix of `s` with `\s+` taking exactly `n`
      characters; `re.match` ignores whatever follows. */
  predicate MatchesWith(s: string, n: nat) {
    && n >= 1 && DateHead(s) && 11 + n <= |s| && AllSpace(s[11..11 + n])
    && ClockAfter(s, n)
  }

  /** The five groups of a match, read with `int()`. */
  function GroupsAt(s: string, n: nat): DateTime
    requires MatchesWith(s, n)
  {
    DateTime(NumberIn(s, 0, 4), NumberIn(s, 5, 7), NumberIn(s, 8, 10),
             NumberIn(s, 11 + n, 13 + n), NumberIn(s, 14 + n, 16 + n))
  }

  /** The length of the whitespace run starting at `i` (greedy `\s*`). */
  function SpaceRun(s: string, i: nat): (n: nat)
    requires i <= |s|
    ensures i + n <= |s| && AllSpace(s[i..i + n])
    ensures i + n == |s| || !IsSpace(s[i + n])
    decreases |s| - i
  {
    if i < |s| && IsSpace(s[i]) then
      var n := 1 + SpaceRun(s, i + 1);
      assert s[i..i + n] == [s[i]] + s[i + 1..i + n];
      n
    else 0
  }

  /** `re.match(pattern, s)`: the groups, or None. Because a digit is never
      whitespace, the greedy run is the only length `\s+` can take. */
  function MatchDate(s: string): (r: Option<DateTime>)
    ensures r.Some? <==> exists n :: MatchesWith(s, n)
    ensures forall n :: MatchesWith(s, n) ==> r == Some(GroupsAt(s, n))
  {
    if !DateHead(s) then None
    else
      var n := SpaceRun(s, 11);
      assert forall m: nat :: MatchesWith(s, m) ==> m == n by {
        forall m: nat | MatchesWith(s, m) ensures m == n {
          RunIsMaximal(s, n, m);
        }
      }
      if n >= 1 && ClockAfter(s, n) then
        assert MatchesWith(s, n);
        Some(GroupsAt(s, n))
      else None
  }

  /** A digit follows the whitespace of any match, so the whitespace of a
      match is exactly the maximal run. */
  lemma RunIsMaximal(s: string, n: nat, m: nat)
    requires 11 + n <= |s| && AllSpace(s[11..11 + n])
    requires 11 + n == |s| || !IsSpace(s[11 + n])
    requires MatchesWith(s, m)
    ensures m == n
  {
    assert forall k :: 11 <= k < 11 + n ==> IsSpace(s[k]) by {
      forall k | 11 <= k < 11 + n ensures IsSpace(s[k]) {
        assert s[k] == s[11..11 + n][k - 11];
      }
    }
    assert forall k :: 11 <= k < 11 + m ==> IsSpace(s[k]) by {
      forall k | 11 <= k < 11 + m ensures IsSpace(s[k]) {
        assert s[k] == s[11..11 + m][k - 11];
      }
    }
    assert !IsSpace(s[11 + m]) by {
      assert s[11 + m] == s[11 + m..13 + m][0];
    }
  }

  // ---------------------------------------------------------------- validity

  predicate IsLeap(year: int) {
    year % 4 == 0 && (year % 100 != 0 || year % 400 == 0)
  }

  function DaysInMonth(year: int, month: int): (days: int)
    requires 1 <= month <= 12
    ensures 28 <= days <= 31
  {
    if month == 2 then (if IsLeap(year) then 29 else 28)
    else if month == 4 || month == 6 || month == 9 || month == 11 then 30
    else 31
  }

  /** The arguments `datetime(year, month, day, hour, minute)` accepts
      without raising ValueError. */
  predicate ValidDateTime(d: DateTime) {
    && 1 <= d.year <= 9999
    && 1 <= d.month <= 12
    && 1 <= d.day <= DaysInMonth(d.year, d.month)
    && 0 <= d.hour <= 23
    && 0 <= d.minute <= 59
  }

  /** Whether pytz's `localize` can place the time in the Asia/Shanghai zone.
      It looks up the zone's offset one day before and one day after the
      naive time, and that step overflows `datetime`'s range (OverflowError)
      on 1 January of year 1 and on 31 December 9999. */
  predicate Localizable(d: DateTime) {
    && !(d.year == 1 && d.month == 1 && d.day == 1)
    && !(d.year == 9999 && d.month == 12 && d.day == 31)
  }

  /** A time `parse_datetime` returns rather than raising on. */
  predicate Accepted(d: DateTime) {
    ValidDateTime(d) && Localizable(d)
  }

  /** `parse_datetime`: no match, a match that raises (`datetime` rejects it
      or `localize` overflows), or the time. */
  function ParseDatetime(s: string): (r: Parsed)
    ensures r == NoMatch <==> forall n :: !MatchesWith(s, n)
    ensures r == Invalid <==> exists n :: MatchesWith(s, n) && !Accepted(GroupsAt(s, n))
    ensures r.Time? ==> Accepted(r.time)
    ensures forall n :: MatchesWith(s, n) && Accepted(GroupsAt(s, n)) ==> r == Time(GroupsAt(s, n))
  {
    match MatchDate(s)
    case None => NoMatch
    case Some(d) => if Accepted(d) then Time(d) else Invalid
  }

  // ---------------------------------------------------------------- rendering

  /** `strftime('%Y-%m-%d %H:%M:%S')`; the parsed time has no seconds. The
      19 characters are the digit fields of `d`, each reading back as its
      value, between the fixed separators, and "00" for the seconds. */
  function Format(d: DateTime): (r: string)
    requires ValidDateTime(d)
    ensures |r| == 19
    ensures r[4] == '-' && r[7] == '-' && r[10] == ' ' && r[13] == ':' && r[16] == ':'
    ensures AllDigits(r[0..4]) && Value(r[0..4]) == d.year
    ensures AllDigits(r[5..7]) && Value(r[5..7]) == d.month
    ensures AllDigits(r[8..10]) && Value(r[8..10]) == d.day
    ensures AllDigits(r[11..13]) && Value(r[11..13]) == d.hour
    ensures AllDigits(r[14..16]) && Value(r[14..16]) == d.minute
    ensures r[17..19] == "00"
  {
    var y, mo, da, h, mi := Pad4(d.year), Pad2(d.month), Pad2(d.day), Pad2(d.hour), Pad2(d.minute);
    ValuePad4(d.year);
    ValuePad2(d.month);
    ValuePad2(d.day);
    ValuePad2(d.hour);
    ValuePad2(d.minute);
    StampFields(y, mo, da, h, mi);
    y + ("-" + (mo + ("-" + (da + (" " + (h + (":" + (mi + ":00"))))))))
  }

  /** Where the fields sit in the rendered text. */
  lemma StampFields(y: string, mo: string, da: string, h: string, mi: string)
    requires |y| == 4 && |mo| == 2 && |da| == 2 && |h| == 2 && |mi| == 2
    ensures var r := y + ("-" + (mo + ("-" + (da + (" " + (h + (":" + (mi + ":00"))))))));
            && |r| == 19
            && r[4] == '-' && r[7] == '-' && r[10] == ' ' && r[13] == ':' && r[16] == ':'
            && r[0..4] == y && r[5..7] == mo && r[8..10] == da
            && r[11..13] == h && r[14..16] == mi && r[17..19] == "00"
  {
    var clock := h + (":" + (mi + ":00"));
    var rest := da + (" " + clock);
    var r := y + ("-" + (mo + ("-" + rest)));
    assert r[8..] == rest;
    assert r[8..10] == rest[..2] == da;
    assert r[11..] == clock;
    assert r[11..13] == clock[..2] == h;
    assert r[14..16] == clock[3..5] == mi;
  }

  /** `extract_article_info` after the page has been searched: `titleText` is
      the text of the title heading and `timeText` that of the publish-time
      element, each None when the element is missing. A match on which
      `parse_datetime` raises makes the whole call fail (None); a missing
      element or a text that does not match leaves that field None. */
  function ExtractArticleInfo(titleText: Option<string>, timeText: Option<string>): (r: Option<ArticleInfo>)
    ensures r == None <==> timeText.Some? && ParseDatetime(Strip(timeText.value)) == Invalid
    ensures r.Some? ==> r.value.title == (if titleText.Some? then Some(Strip(titleText.value)) else None)
    ensures r.Some? ==> (r.value.publishTime.Some? <==> timeText.Some? && ParseDatetime(Strip(timeText.value)).Time?)
    ensures r.Some? && r.value.publishTime.Some? ==>
              r.value.publishTime.value == Format(ParseDatetime(Strip(timeText.value)).time)
  {
    var title := if titleText.Some? then Some(Strip(titleText.value)) else None;
    if timeText.None? then Some(ArticleInfo(title, None))
    else
      match ParseDatetime(Strip(timeText.value))
      case NoMatch => Some(ArticleInfo(title, None))
      case Invalid => None
      case Time(d) => Some(ArticleInfo(title, Some(Format(d))))
  }

  // ---------------------------------------------------------------- properties

  /** A match with ASCII digits renders as its own digits, re-punctuated,
      with ":00" for the seconds. */
  lemma FormatKeepsDigits(s: string, n: nat)
    requires MatchesWith(s, n) && ValidDateTime(GroupsAt(s, n))
    requires forall k :: 0 <= k < |s| && IsDigit(s[k]) ==> '0' <= s[k] <= '9'
    ensures Format(GroupsAt(s, n))
            == s[0..4] + "-" + s[5..7] + "-" + s[8..10] + " "
               + s[11 + n..13 + n] + ":" + s[14 + n..16 + n] + ":00"
  {
    PadValue4(s[0..4]);
    PadValue2(s[5..7]);
    PadValue2(s[8..10]);
    PadValue2(s[11 + n..13 + n]);
    PadValue2(s[14 + n..16 + n]);
  }

  /** The page's text for a time given as digit strings, with `spaces`
      between the date and the clock. */
  function Join(y: string, m: string, d: string, spaces: string, h: string, mi: string): string {
    y + ("年" + (m + ("月" + (d + ("日" + (spaces + (h + (":" + mi))))))))
  }

  /** The page's own layout of a valid time. */
  function Layout(t: DateTime, spaces: string): string
    requires ValidDateTime(t)
  {
    Join(Pad4(t.year), Pad2(t.month), Pad2(t.day), spaces, Pad2(t.hour), Pad2(t.minute))
  }

  /** Digit strings of the right widths around a whitespace run match, each
      group being one of them. */
  lemma JoinMatches(y: string, m: string, d: string, spaces: string, h: string, mi: string)
    requires |y| == 4 && |m| == 2 && |d| == 2 && |h| == 2 && |mi| == 2
    requires AllDigits(y) && AllDigits(m) && AllDigits(d) && AllDigits(h) && AllDigits(mi)
    requires spaces != [] && AllSpace(spaces)
    ensures var s := Join(y, m, d, spaces, h, mi); var n := |spaces|;
            && MatchesWith(s, n)
            && s[0..4] == y && s[5..7] == m && s[8..10] == d
            && s[11 + n..13 + n] == h && s[14 + n..16 + n] == mi
  {
    var s := Join(y, m, d, spaces, h, mi);
    var n := |spaces|;
    var clock := h + (":" + mi);
    var rest := spaces + clock;
    var t := d + ("日" + rest);
    var u := m + ("月" + t);
    assert s == y + ("年" + u);
    assert s[0..4] == y;
    assert s[5..] == u;
    assert s[5..7] == u[..2] == m;
    assert s[8..] == t;
    assert s[8..10] == t[..2] == d;
    assert s[11..] == rest;
    assert s[11..11 + n] == rest[..n] == spaces;
    assert s[11 + n..] == clock;
    assert s[11 + n..13 + n] == clock[..2] == h;
    assert s[14 + n..16 + n] == mi;
  }

  /** The date groups of a match are the values of its date fields. */
  lemma DateGroups(s: string, n: nat, y: string, m: string, d: string)
    requires MatchesWith(s, n)
    requires s[0..4] == y && s[5..7] == m && s[8..10] == d
    ensures AllDigits(y) && AllDigits(m) && AllDigits(d)
    ensures GroupsAt(s, n).year == Value(y)
    ensures GroupsAt(s, n).month == Value(m)
    ensures GroupsAt(s, n).day == Value(d)
  {
  }

  /** The clock groups of a match are the values of its clock fields. */
  lemma ClockGroups(s: string, n: nat, h: string, mi: string)
    requires MatchesWith(s, n)
    requires s[11 + n..13 + n] == h && s[14 + n..16 + n] == mi
    ensures AllDigits(h) && AllDigits(mi)
    ensures GroupsAt(s, n).hour == Value(h)
    ensures GroupsAt(s, n).minute == Value(mi)
  {
  }

  /** What `parse_datetime` makes of the page's layout of digit strings. */
  lemma ParseJoin(y: string, m: string, d: string, spaces: string, h: string, mi: string)
    requires |y| == 4 && |m| == 2 && |d| == 2 && |h| == 2 && |mi| == 2
    requires AllDigits(y) && AllDigits(m) && AllDigits(d) && AllDigits(h) && AllDigits(mi)
    requires spaces != [] && AllSpace(spaces)
    ensures var g := DateTime(Value(y), Value(m), Value(d), Value(h), Value(mi));
            ParseDatetime(Join(y, m, d, spaces, h, mi)) == if Accepted(g) then Time(g) else Invalid
  {
    var s := Join(y, m, d, spaces, h, mi);
    JoinMatches(y, m, d, spaces, h, mi);
    DateGroups(s, |spaces|, y, m, d);
    ClockGroups(s, |spaces|, h, mi);
  }

  /** Every valid time, laid out as the page writes it, parses back to
      itself, except on the two days `localize` cannot place. */
  lemma ParseLayout(t: DateTime, spaces: string)
    requires ValidDateTime(t)
    requires spaces != [] && AllSpace(spaces)
    ensures ParseDatetime(Layout(t, spaces)) == if Localizable(t) then Time(t) else Invalid
  {
    ValuePad4(t.year);
    ValuePad2(t.month);
    ValuePad2(t.day);
    ValuePad2(t.hour);
    ValuePad2(t.minute);
    ParseJoin(Pad4(t.year), Pad2(t.month), Pad2(t.day), spaces, Pad2(t.hour), Pad2(t.minute));
  }

  /** Characters after the matched prefix do not change the result. */
  lemma TrailingIgnored(s: string, n: nat, tail: string)
    requires MatchesWith(s, n)
    ensures ParseDatetime(s + tail) == ParseDatetime(s)
  {
    var t := s + tail;
    assert s[11..11 + n] == t[11..11 + n];
    assert s[0..4] == t[0..4] && s[5..7] == t[5..7] && s[8..10] == t[8..10];
    assert s[11 + n..13 + n] == t[11 + n..13 + n] && s[14 + n..16 + n] == t[14 + n..16 + n];
    assert MatchesWith(t, n);
    assert GroupsAt(t, n) == GroupsAt(s, n);
  }

  /** The digit fields of 30 February 2025, 10:00. */
  lemma February30Values()
    ensures AllDigits("2025") && AllDigits("02") && AllDigits("30") && AllDigits("10") && AllDigits("00")
    ensures Value("2025") == 2025 && Value("02") == 2 && Value("30") == 30
    ensures Value("10") == 10 && Value("00") == 0
  {
    assert "2025"[..2] == "20" && "2025"[2..] == "25";
    TwoDigits("20");
    TwoDigits("25");
    FourDigits("2025");
    TwoDigits("02");
    TwoDigits("30");
    TwoDigits("10");
    TwoDigits("00");
  }

  /** The example in the script's comment parses to 27 March 2025, 15:34. */
  lemma ExampleParse()
    ensures ParseDatetime("2025年03月27日 15:34") == Time(DateTime(2025, 3, 27, 15, 34))
  {
    var t := DateTime(2025, 3, 27, 15, 34);
    assert Layout(t, " ") == "2025年03月27日 15:34";
    ParseLayout(t, " ");
  }

  /** That time as `strftime('%Y-%m-%d %H:%M:%S')` renders it. */
  lemma ExampleFormat()
    ensures Format(DateTime(2025, 3, 27, 15, 34)) == "2025-03-27 15:34:00"
  {
  }

  /** The article record for that example: the title stripped, the time
      rendered with zero seconds. */
  lemma ExampleExtract()
    ensures ExtractArticleInfo(Some(" T "), Some("2025年03月27日 15:34"))
            == Some(ArticleInfo(Some("T"), Some("2025-03-27 15:34:00")))
  {
    ExampleStripped();
    TitleStripped();
    ExampleParse();
    ExampleFormat();
  }

  /** The time text of that example has nothing to strip. */
  lemma ExampleStripped()
    ensures Strip("2025年03月27日 15:34") == "2025年03月27日 15:34"
  {
    var s := "2025年03月27日 15:34";
    assert s[0] == '2' && s[|s| - 1] == '4';
    StripTrimmed(s);
  }

  /** A title text with a space on each side. */
  lemma TitleStripped()
    ensures Strip(" T ") == "T"
  {
    assert " T "[1..] == "T ";
    TrimStartNoSpace("T ");
    assert TrimStart(" T ") == "T ";
    assert "T "[..1] == "T";
    TrimEndNoSpace("T");
    assert TrimEnd("T ") == "T";
  }

  /** A one-digit month does not match `\d{2}`. */
  lemma OneDigitMonthNoMatch()
    ensures ParseDatetime("2025年3月27日 15:34") == NoMatch
  {
    var s := "2025年3月27日 15:34";
    assert !IsDigit(s[6]);
    assert !DateHead(s) by { assert !AllDigits(s[5..7]) by { assert s[5..7][1] == s[6]; } }
  }

  /** 30 February matches the pattern, but `datetime` rejects it. */
  lemma February30Invalid()
    ensures ParseDatetime("2025年02月30日 10:00") == Invalid
  {
    February30Text();
    February30Fields();
  }

  /** The text of 30 February as the page lays it out. */
  lemma February30Text()
    ensures Join("2025", "02", "30", " ", "10", "00") == "2025年02月30日 10:00"
  {
  }

  /** The fields of 30 February, laid out by the page. */
  lemma February30Fields()
    ensures ParseDatetime(Join("2025", "02", "30", " ", "10", "00")) == Invalid
  {
    February30Values();
    ParseJoin("2025", "02", "30", " ", "10", "00");
  }

  /** ... and that makes the whole extraction fail. */
  lemma February30Fails()
    ensures ExtractArticleInfo(None, Some("2025年02月30日 10:00")) == None
  {
    var s := "2025年02月30日 10:00";
    February30Invalid();
    assert s[0] == '2' && s[|s| - 1] == '0';
    StripTrimmed(s);
  }

  /** 1 January of year 1 is a real date, but `localize` overflows on it. */
  lemma FirstDayInvalid()
    ensures ValidDateTime(DateTime(1, 1, 1, 0, 0))
    ensures ParseDatetime("0001年01月01日 00:00") == Invalid
  {
    var t := DateTime(1, 1, 1, 0, 0);
    assert Layout(t, " ") == "0001年01月01日 00:00";
    ParseLayout(t, " ");
  }
}
