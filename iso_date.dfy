/**
 * `DBConnector._parse_isodate`: `datetime.strptime(date_str, "%Y%m%d%H%M%S")`
 * with `None` for empty input and for every `ValueError`.
 *
 * `strptime` compiles the format into one regular expression, one group per
 * directive, each group a list of alternatives tried in order; the first match
 * found by backtracking is taken, and text left over after it is a
 * `ValueError` (no further backtracking). The values are then checked by the
 * `datetime` constructor. Both steps are modelled here.
 */
module IsoDate {
  import opened Wrappers

  datatype DateTime = DateTime(year: int, month: int, day: int, hour: int, minute: int, second: int)

  /** What one position of an alternative accepts. */
  datatype CharClass = Digit | Range(lo: char, hi: char) | Lit(c: char)

  type Alternative = seq<CharClass>
  type Group = seq<Alternative>

  predicate IsDigit(c: char)
  {
    '0' <= c <= '9'
  }

  predicate Accepts(cc: CharClass, c: char)
  {
    match cc
    case Digit => IsDigit(c)
    case Range(lo, hi) => lo <= c <= hi
    case Lit(l) => c == l
  }

  /** Whether alternative `alt` matches `s` starting at `p`. */
  predicate Fits(alt: Alternative, s: string, p: nat)
    decreases |alt|
  {
    p + |alt| <= |s| && (alt == [] || (Accepts(alt[0], s[p]) && Fits(alt[1..], s, p + 1)))
  }

  /** `%Y`: `\d\d\d\d`. */
  const YEAR: Group := [[Digit, Digit, Digit, Digit]]
  /** `%m`: `1[0-2]|0[1-9]|[1-9]`. */
  const MONTH: Group := [[Lit('1'), Range('0', '2')], [Lit('0'), Range('1', '9')], [Range('1', '9')]]
  /** `%d`: `3[01]|[12]\d|0[1-9]|[1-9]| [1-9]`. */
  const DAY: Group := [[Lit('3'), Range('0', '1')], [Range('1', '2'), Digit], [Lit('0'), Range('1', '9')],
                       [Range('1', '9')], [Lit(' '), Range('1', '9')]]
  /** `%H`: `2[0-3]|[01]\d|\d`. */
  const HOUR: Group := [[Lit('2'), Range('0', '3')], [Range('0', '1'), Digit], [Digit]]
  /** `%M`: `[0-5]\d|\d`. */
  const MINUTE: Group := [[Range('0', '5'), Digit], [Digit]]
  /** `%S`: `6[01]|[0-5]\d|\d`. */
  const SECOND: Group := [[Lit('6'), Range('0', '1')], [Range('0', '5'), Digit], [Digit]]

  /** The expression `strptime` builds for `"%Y%m%d%H%M%S"`. */
  const FORMAT: seq<Group> := [YEAR, MONTH, DAY, HOUR, MINUTE, SECOND]

  /** The text each group captured and where the match ends. */
  datatype Match = Match(captures: seq<string>, end: nat)

  /** The regular-expression engine's first match of the groups `gs` at `p`, in backtracking order. */
  function Search(gs: seq<Group>, s: string, p: nat): (m: Option<Match>)
    ensures m.Some? ==> |m.value.captures| == |gs| && p <= m.value.end <= |s|
    decreases |gs|, 1, 0
  {
    if gs == [] then (if p <= |s| then Some(Match([], p)) else None)
    else TryFrom(gs, 0, s, p)
  }

  /** Tries the alternatives of the first group from the `k`-th on, each followed by the rest of the groups. */
  function TryFrom(gs: seq<Group>, k: nat, s: string, p: nat): (m: Option<Match>)
    requires gs != []
    ensures m.Some? ==> |m.value.captures| == |gs| && p <= m.value.end <= |s|
    decreases |gs|, 0, |gs[0]| - k
  {
    if k >= |gs[0]| then None
    else
      var alt := gs[0][k];
      if Fits(alt, s, p) then
        match Search(gs[1..], s, p + |alt|)
        case Some(m) => Some(Match([s[p..p + |alt|]] + m.captures, m.end))
        case None => TryFrom(gs, k + 1, s, p)
      else TryFrom(gs, k + 1, s, p)
  }

  /** `int()` of a captured group: digits, possibly after the space that `%d` allows. */
  function Value(cap: string): int
  {
    if cap == [] then 0
    else Value(cap[..|cap| - 1]) * 10 + (if IsDigit(cap[|cap| - 1]) then cap[|cap| - 1] as int - '0' as int else 0)
  }

  predicate IsLeapYear(y: int)
  {
    y % 4 == 0 && (y % 100 != 0 || y % 400 == 0)
  }

  function DaysInMonth(y: int, m: int): int
  {
    if m == 2 then (if IsLeapYear(y) then 29 else 28)
    else if m == 4 || m == 6 || m == 9 || m == 11 then 30
    else 31
  }

  /** What the `datetime` constructor accepts (`MINYEAR` is 1, `MAXYEAR` 9999). */
  predicate Valid(d: DateTime)
  {
    && 1 <= d.year <= 9999
    && 1 <= d.month <= 12
    && 1 <= d.day <= DaysInMonth(d.year, d.month)
    && 0 <= d.hour <= 23
    && 0 <= d.minute <= 59
    && 0 <= d.second <= 59
  }

  /** `datetime.strptime(s, "%Y%m%d%H%M%S")`, with `None` standing for `ValueError`. */
  function Strptime(s: string): (r: Option<DateTime>)
    ensures r.Some? ==> Valid(r.value)
  {
    match Search(FORMAT, s, 0)
    case None => None
    case Some(m) =>
      if m.end != |s| then None
      else
        var c := m.captures;
        var d := DateTime(Value(c[0]), Value(c[1]), Value(c[2]), Value(c[3]), Value(c[4]), Value(c[5]));
        if Valid(d) then Some(d) else None
  }

  /** `_parse_isodate`: `None` for `None` or `""`, otherwise `strptime` with `ValueError` as `None`. */
  function ParseIsoDate(dateStr: Option<string>): (r: Option<DateTime>)
    ensures dateStr.None? || dateStr == Some("") ==> r.None?
    ensures r.Some? ==> Valid(r.value)
  {
    match dateStr
    case None => None
    case Some(s) => if s == "" then None else Strptime(s)
  }

  // ----- The archive's 14-digit form and the round trip -----

  function DigitChar(v: int): char
    requires 0 <= v <= 9
  {
    ('0' as int + v) as char
  }

  /** `v` written with exactly `width` digits, zero-padded. */
  function Padded(v: nat, width: nat): (s: string)
    requires v < Pow10(width)
    ensures |s| == width && forall k :: 0 <= k < |s| ==> IsDigit(s[k])
  {
    if width == 0 then "" else Padded(v / 10, width - 1) + [DigitChar(v % 10)]
  }

  function Pow10(n: nat): (r: nat)
    ensures r >= 1
  {
    if n == 0 then 1 else 10 * Pow10(n - 1)
  }

  /**
   * Fields that fit the 14-digit form and the two-digit alternatives of the
   * format: every valid date and time, and also impossible ones such as the
   * 30th of February, year 0 or second 60.
   */
  predicate Writable(d: DateTime)
  {
    && 0 <= d.year <= 9999
    && 1 <= d.month <= 12
    && 1 <= d.day <= 31
    && 0 <= d.hour <= 23
    && 0 <= d.minute <= 59
    && 0 <= d.second <= 61
  }

  /** The archive's `YYYYMMDDhhmmss` form, each field zero-padded. */
  function Format(d: DateTime): (s: string)
    requires Writable(d)
    ensures |s| == 14
  {
    Padded(d.year, 4) + Padded(d.month, 2) + Padded(d.day, 2)
      + Padded(d.hour, 2) + Padded(d.minute, 2) + Padded(d.second, 2)
  }

  lemma {:induction false} ValuePadded(v: nat, width: nat)
    requires v < Pow10(width)
    ensures Value(Padded(v, width)) == v
  {
    if width > 0 {
      var s := Padded(v, width);
      assert s[..|s| - 1] == Padded(v / 10, width - 1);
      ValuePadded(v / 10, width - 1);
    }
  }

  /** Alternatives before `j` do not fit, so trying from `k` is trying from `j`. */
  lemma {:induction false} SkipAlternatives(gs: seq<Group>, k: nat, j: nat, s: string, p: nat)
    requires gs != [] && k <= j <= |gs[0]|
    requires forall i :: k <= i < j ==> !Fits(gs[0][i], s, p)
    ensures TryFrom(gs, k, s, p) == TryFrom(gs, j, s, p)
    decreases j - k
  {
    if k < j {
      SkipAlternatives(gs, k + 1, j, s, p);
    }
  }

  /** Alternative `j` is the first that fits, and the remaining groups match after it. */
  lemma FirstFit(gs: seq<Group>, j: nat, s: string, p: nat, rest: Match)
    requires gs != [] && j < |gs[0]|
    requires forall i :: 0 <= i < j ==> !Fits(gs[0][i], s, p)
    requires Fits(gs[0][j], s, p)
    requires Search(gs[1..], s, p + |gs[0][j]|) == Some(rest)
    ensures Search(gs, s, p) == Some(Match([s[p..p + |gs[0][j]|]] + rest.captures, rest.end))
  {
    SkipAlternatives(gs, 0, j, s, p);
  }

  /** The two zero-padded digits of `v` at `p` match group `g` through its alternative `j`. */
  predicate TwoDigitsAt(s: string, p: nat, v: int)
  {
    0 <= v <= 99 && p + 2 <= |s| && s[p] == DigitChar(v / 10) && s[p + 1] == DigitChar(v % 10)
  }

  lemma TwoDigitsCapture(s: string, p: nat, v: int)
    requires TwoDigitsAt(s, p, v)
    ensures Value(s[p..p + 2]) == v
  {
    assert s[p..p + 2] == Padded(v, 2);
    ValuePadded(v, 2);
  }

  lemma PaddedTwo(v: nat)
    requires v < 100
    ensures Padded(v, 2) == [DigitChar(v / 10), DigitChar(v % 10)]
  {
  }

  /** Which alternative of each group a zero-padded two-digit value takes: the first that fits. */
  function TwoDigitAlternative(g: Group, v: int): nat
  {
    if g == MONTH then (if v >= 10 then 0 else 1)
    else if g == DAY then (if v >= 30 then 0 else if v >= 10 then 1 else 2)
    else if g == HOUR then (if v >= 20 then 0 else 1)
    else if g == MINUTE then 0
    else (if v >= 60 then 0 else 1)
  }

  predicate InGroupRange(g: Group, v: int)
  {
    if g == MONTH then 1 <= v <= 12
    else if g == DAY then 1 <= v <= 31
    else if g == HOUR then 0 <= v <= 23
    else if g == MINUTE then 0 <= v <= 59
    else 0 <= v <= 61
  }

  lemma GroupTakesTwoDigits(g: Group, s: string, p: nat, v: int)
    requires g in {MONTH, DAY, HOUR, MINUTE, SECOND}
    requires InGroupRange(g, v) && TwoDigitsAt(s, p, v)
    ensures TwoDigitAlternative(g, v) < |g|
    ensures |g[TwoDigitAlternative(g, v)]| == 2
    ensures Fits(g[TwoDigitAlternative(g, v)], s, p)
    ensures forall i :: 0 <= i < TwoDigitAlternative(g, v) ==> !Fits(g[i], s, p)
  {
    var j := TwoDigitAlternative(g, v);
    assert s[p] == DigitChar(v / 10) && s[p + 1] == DigitChar(v % 10);
    forall i | 0 <= i < j ensures !Fits(g[i], s, p) {
      assert !Accepts(g[i][0], s[p]);
    }
  }

  lemma {:induction false} SearchTail(gs: seq<Group>, s: string, p: nat, vs: seq<int>)
    requires |gs| == |vs| && p + 2 * |gs| == |s|
    requires forall k :: 0 <= k < |gs| ==> gs[k] in {MONTH, DAY, HOUR, MINUTE, SECOND}
    requires forall k :: 0 <= k < |gs| ==> InGroupRange(gs[k], vs[k]) && TwoDigitsAt(s, p + 2 * k, vs[k])
    ensures Search(gs, s, p).Some?
    ensures Search(gs, s, p).value.end == |s|
    ensures forall k :: 0 <= k < |gs| ==> Search(gs, s, p).value.captures[k] == s[p + 2 * k..p + 2 * k + 2]
    decreases |gs|
  {
    if gs != [] {
      var g := gs[0];
      GroupTakesTwoDigits(g, s, p, vs[0]);
      var j := TwoDigitAlternative(g, vs[0]);
      assert forall k :: 0 <= k < |gs| - 1 ==> gs[1..][k] == gs[k + 1] && vs[1..][k] == vs[k + 1];
      SearchTail(gs[1..], s, p + 2, vs[1..]);
      var rest := Search(gs[1..], s, p + 2).value;
      FirstFit(gs, j, s, p, rest);
    }
  }

  /** Where the fields of `Format(d)` sit. */
  lemma FormatLayout(d: DateTime)
    requires Writable(d)
    ensures Format(d)[..4] == Padded(d.year, 4)
    ensures TwoDigitsAt(Format(d), 4, d.month) && TwoDigitsAt(Format(d), 6, d.day)
    ensures TwoDigitsAt(Format(d), 8, d.hour) && TwoDigitsAt(Format(d), 10, d.minute)
    ensures TwoDigitsAt(Format(d), 12, d.second)
  {
    PaddedTwo(d.month); PaddedTwo(d.day); PaddedTwo(d.hour); PaddedTwo(d.minute); PaddedTwo(d.second);
  }

  /** On 14 characters laid out as `Format` lays them out, the first match takes four year digits, then two digits per field. */
  lemma LayoutCaptures(s: string, vs: seq<int>)
    requires |s| == 14 && |vs| == 5 && Fits(YEAR[0], s, 0)
    requires forall k :: 0 <= k < 5 ==> InGroupRange(FORMAT[k + 1], vs[k]) && TwoDigitsAt(s, 4 + 2 * k, vs[k])
    ensures var m := Search(FORMAT, s, 0);
      && m.Some? && m.value.end == 14 && m.value.captures[0] == s[..4]
      && forall k :: 0 <= k < 5 ==> m.value.captures[k + 1] == s[4 + 2 * k..4 + 2 * k + 2]
  {
    var gs := FORMAT[1..];
    assert gs == [MONTH, DAY, HOUR, MINUTE, SECOND];
    assert forall k :: 0 <= k < 5 ==> gs[k] == FORMAT[k + 1];
    SearchTail(gs, s, 4, vs);
    var rest := Search(gs, s, 4).value;
    FirstFit(FORMAT, 0, s, 0, rest);
    var m := Search(FORMAT, s, 0).value;
    forall k | 0 <= k < 5 ensures m.captures[k + 1] == s[4 + 2 * k..4 + 2 * k + 2] {
      assert m.captures[k + 1] == rest.captures[k];
    }
  }

  /** The first match of the whole format against `Format(d)` takes the four year digits, then two digits per field. */
  lemma FormatCaptures(d: DateTime)
    requires Writable(d)
    ensures var s := Format(d); var m := Search(FORMAT, s, 0);
      && m.Some? && m.value.end == 14 && m.value.captures[0] == s[..4]
      && forall k :: 0 <= k < 5 ==> m.value.captures[k + 1] == s[4 + 2 * k..4 + 2 * k + 2]
  {
    var s := Format(d);
    FormatLayout(d);
    var vs := [d.month, d.day, d.hour, d.minute, d.second];
    assert Fits(YEAR[0], s, 0);
    assert forall k :: 0 <= k < 5 ==> InGroupRange(FORMAT[k + 1], vs[k]) && TwoDigitsAt(s, 4 + 2 * k, vs[k]) by {
      assert TwoDigitsAt(s, 4 + 2 * 0, vs[0]) && TwoDigitsAt(s, 4 + 2 * 1, vs[1]) && TwoDigitsAt(s, 4 + 2 * 2, vs[2]);
      assert TwoDigitsAt(s, 4 + 2 * 3, vs[3]) && TwoDigitsAt(s, 4 + 2 * 4, vs[4]);
    }
    LayoutCaptures(s, vs);
  }

  /** The first match of the whole format against `Format(d)` captures its six fields. */
  lemma FormatMatches(d: DateTime)
    requires Writable(d)
    ensures Search(FORMAT, Format(d), 0).Some?
    ensures Search(FORMAT, Format(d), 0).value.end == 14
    ensures Value(Search(FORMAT, Format(d), 0).value.captures[0]) == d.year
    ensures var c := Search(FORMAT, Format(d), 0).value.captures;
      && Value(c[1]) == d.month && Value(c[2]) == d.day && Value(c[3]) == d.hour
      && Value(c[4]) == d.minute && Value(c[5]) == d.second
  {
    var s := Format(d);
    FormatCaptures(d);
    FormatLayout(d);
    ValuePadded(d.year, 4);
    var c := Search(FORMAT, s, 0).value.captures;
    assert c[1] == s[4..6] && c[2] == s[6..8] && c[3] == s[8..10] by {
      assert c[0 + 1] == s[4 + 2 * 0..4 + 2 * 0 + 2] && c[1 + 1] == s[4 + 2 * 1..4 + 2 * 1 + 2];
      assert c[2 + 1] == s[4 + 2 * 2..4 + 2 * 2 + 2];
    }
    assert c[4] == s[10..12] && c[5] == s[12..14] by {
      assert c[3 + 1] == s[4 + 2 * 3..4 + 2 * 3 + 2] && c[4 + 1] == s[4 + 2 * 4..4 + 2 * 4 + 2];
    }
    TwoDigitsCapture(s, 4, d.month);
    TwoDigitsCapture(s, 6, d.day);
    TwoDigitsCapture(s, 8, d.hour);
    TwoDigitsCapture(s, 10, d.minute);
    TwoDigitsCapture(s, 12, d.second);
  }

  /**
   * Parsing the 14-digit form gives the date and time back exactly when it is
   * a valid one (the round trip), and `None` when it is not (30th of February,
   * 29th of February outside a leap year, year 0, second 60 or 61).
   */
  lemma ParseFormatted(d: DateTime)
    requires Writable(d)
    ensures ParseIsoDate(Some(Format(d))) == if Valid(d) then Some(d) else None
  {
    FormatMatches(d);
  }

  /** When no alternative of the first group fits, nothing matches. */
  lemma NoFit(gs: seq<Group>, s: string, p: nat)
    requires gs != []
    requires forall i :: 0 <= i < |gs[0]| ==> !Fits(gs[0][i], s, p)
    ensures Search(gs, s, p) == None
  {
    SkipAlternatives(gs, 0, |gs[0]|, s, p);
  }

  /**
   * `strptime` backtracks into the one-digit alternatives, so a 12-digit
   * string is accepted too: minute and second take one digit each.
   */
  lemma TwelveDigitsAccepted()
    ensures ParseIsoDate(Some("202111111111")) == Some(DateTime(2021, 11, 11, 11, 1, 1))
  {
    TwelveDigitsMatch("202111111111");
    assert "2021"[..3] == "202" && "202"[..2] == "20" && "20"[..1] == "2" && "2"[..0] == "";
    assert "11"[..1] == "1" && "1"[..0] == "";
    assert Value("2") == 2;
    assert Value("20") == 20;
    assert Value("202") == 202;
    assert Value("2021") == 2021;
    assert Value("1") == 1;
    assert Value("11") == 11;
  }

  /** The first match against the 12-digit string: second and minute fall back to one digit. */
  lemma TwelveDigitsMatch(s: string)
    requires s == "202111111111"
    ensures Search(FORMAT, s, 0) == Some(Match(["2021", "11", "11", "11", "1", "1"], 12))
  {
    TwelveDigitsTail(s);
    var m4 := Match(["11", "11", "1", "1"], 12);
    var g5 := FORMAT[1..];
    assert g5 == [MONTH, DAY, HOUR, MINUTE, SECOND] && g5[1..] == [DAY, HOUR, MINUTE, SECOND];
    FirstFit(g5, 0, s, 4, m4);
    var m5 := Match(["11", "11", "11", "1", "1"], 12);
    assert s[4..6] == "11" && ["11"] + m4.captures == m5.captures;
    FirstFit(FORMAT, 0, s, 0, m5);
    assert s[0..4] == "2021" && ["2021"] + m5.captures == ["2021", "11", "11", "11", "1", "1"];
  }

  lemma TwelveDigitsTail(s: string)
    requires s == "202111111111"
    ensures Search([DAY, HOUR, MINUTE, SECOND], s, 6) == Some(Match(["11", "11", "1", "1"], 12))
  {
    TwelveDigitsSeconds(s);
    var g3, g4 := [HOUR, MINUTE, SECOND], [DAY, HOUR, MINUTE, SECOND];
    var m2 := Match(["1", "1"], 12);
    assert g3[1..] == [MINUTE, SECOND] && g4[1..] == g3;
    FirstFit(g3, 1, s, 8, m2);
    var m3 := Match(["11", "1", "1"], 12);
    assert s[8..10] == "11" && ["11"] + m2.captures == m3.captures;
    FirstFit(g4, 1, s, 6, m3);
    assert s[6..8] == "11" && ["11"] + m3.captures == ["11", "11", "1", "1"];
  }

  lemma TwelveDigitsSeconds(s: string)
    requires s == "202111111111"
    ensures Search([MINUTE, SECOND], s, 10) == Some(Match(["1", "1"], 12))
  {
    var g2 := [MINUTE, SECOND];
    assert g2[1..] == [SECOND] && [SECOND][1..] == [];
    FirstFit([SECOND], 2, s, 11, Match([], 12));
    assert s[11..12] == "1" && ["1"] + [] == ["1"];
    NoFit([SECOND], s, 12);
    assert TryFrom(g2, 0, s, 10) == TryFrom(g2, 1, s, 10);
    assert s[10..11] == "1" && ["1"] + ["1"] == ["1", "1"];
  }

  /** Month 13: `%m` takes the `1` alone, the match stops short of the end, and the result is a `ValueError`. */
  lemma MonthThirteenRejected()
    ensures ParseIsoDate(Some("20211301000000")) == None
  {
    MonthThirteenMatch("20211301000000");
  }

  /** The first match against the month-13 string ends at position 13 of 14. */
  lemma MonthThirteenMatch(s: string)
    requires s == "20211301000000"
    ensures Search(FORMAT, s, 0).Some? && Search(FORMAT, s, 0).value.end == 13
  {
    MonthThirteenTail(s);
    var m4 := Match(["30", "10", "00", "00"], 13);
    var g5 := FORMAT[1..];
    assert g5 == [MONTH, DAY, HOUR, MINUTE, SECOND] && g5[1..] == [DAY, HOUR, MINUTE, SECOND];
    FirstFit(g5, 2, s, 4, m4);
    var m5 := Match(["1", "30", "10", "00", "00"], 13);
    assert s[4..5] == "1" && ["1"] + m4.captures == m5.captures;
    FirstFit(FORMAT, 0, s, 0, m5);
  }

  lemma MonthThirteenTail(s: string)
    requires s == "20211301000000"
    ensures Search([DAY, HOUR, MINUTE, SECOND], s, 5) == Some(Match(["30", "10", "00", "00"], 13))
  {
    MonthThirteenMinutes(s);
    var g3, g4 := [HOUR, MINUTE, SECOND], [DAY, HOUR, MINUTE, SECOND];
    var m2 := Match(["00", "00"], 13);
    assert g3[1..] == [MINUTE, SECOND] && g4[1..] == g3;
    FirstFit(g3, 1, s, 7, m2);
    var m3 := Match(["10", "00", "00"], 13);
    assert s[7..9] == "10" && ["10"] + m2.captures == m3.captures;
    FirstFit(g4, 0, s, 5, m3);
    assert s[5..7] == "30" && ["30"] + m3.captures == ["30", "10", "00", "00"];
  }

  lemma MonthThirteenMinutes(s: string)
    requires s == "20211301000000"
    ensures Search([MINUTE, SECOND], s, 9) == Some(Match(["00", "00"], 13))
  {
    var g2 := [MINUTE, SECOND];
    assert g2[1..] == [SECOND] && [SECOND][1..] == [];
    FirstFit([SECOND], 1, s, 11, Match([], 13));
    assert s[11..13] == "00" && ["00"] + [] == ["00"];
    FirstFit(g2, 0, s, 9, Match(["00"], 13));
    assert s[9..11] == "00" && ["00"] + ["00"] == ["00", "00"];
  }
}
