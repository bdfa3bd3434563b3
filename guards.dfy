/**
 * The argument checks of the endpoint builder.  Each of the source's
 * `validate*` functions throws `IllegalArgumentException` on the first
 * argument it dislikes; here a guard returns a `Check` that either passes or
 * names the rejected argument.
 *
 * Every guard is specified by an ordered list of rules (argument name, whether
 * its condition holds): the guard rejects the first argument whose rule
 * fails.  Builders that run several guards one after another are specified by
 * the concatenation of their lists.
 */
module Guards {

  import opened Wrappers
  import opened JavaText
  import opened Decimal

  const ShortNameMaxLength := 32
  const AuthorNameMaxLength := 128
  const AuthorUrlMaxLength := 512
  const MaxPageTitleLength := 256
  const MaxContentSizeKb := 64 * 1024
  const MinYear := 2000
  /** Announced by the year guard's message; the guard itself accepts up to 21000. */
  const MaxYear := 2100

  /** The dummy argument passed to a guard for the checks an operation does not need. */
  const Plug := "plug"

  // ---------------------------------------------------------------------------
  // The condition on each argument.

  predicate ShortNameValid(shortName: string) {
    !IsBlank(shortName) && Utf16Length(shortName) <= ShortNameMaxLength
  }

  predicate AuthorNameValid(authorName: string) {
    Utf16Length(authorName) <= AuthorNameMaxLength
  }

  predicate AuthorUrlValid(authorUrl: string) {
    Utf16Length(authorUrl) <= AuthorUrlMaxLength
  }

  predicate TokenValid(accessToken: string) {
    !IsBlank(accessToken)
  }

  predicate TitleValid(title: string) {
    !IsBlank(title) && Utf16Length(title) <= MaxPageTitleLength
  }

  /**
   * The content condition as the source computes it: the UTF-8 size is
   * multiplied by 1024 in 32-bit `Int` arithmetic and compared with 64 * 1024.
   */
  predicate ContentValid(content: string) {
    !IsBlank(content) && Wrap32(|Utf8(content)| * 1024) <= MaxContentSizeKb
  }

  predicate PathValid(path: string) {
    !IsBlank(path)
  }

  predicate YearValid(year: int) {
    2000 <= year <= 21000
  }

  predicate MonthValid(month: int) {
    1 <= month <= 12
  }

  predicate DayValid(day: int) {
    1 <= day <= 31
  }

  predicate HourValid(hour: int) {
    0 <= hour <= 24
  }

  // ---------------------------------------------------------------------------
  // Ordered rule lists.

  datatype Rule = Rule(field: string, holds: bool)

  /** Outcome of a guard: it passes or rejects one argument. */
  datatype Check = Pass | Fail(field: string)

  /** The field of the first rule that does not hold, if any. */
  function FirstViolation(rules: seq<Rule>): (r: Option<string>)
    ensures r.None? <==> forall i :: 0 <= i < |rules| ==> rules[i].holds
    ensures r.Some? ==> exists i :: 0 <= i < |rules| && !rules[i].holds && rules[i].field == r.value
                                    && forall j :: 0 <= j < i ==> rules[j].holds
  {
    if rules == [] then None
    else if !rules[0].holds then Some(rules[0].field)
    else
      var r := FirstViolation(rules[1..]);
      if r.Some? then
        ghost var i :| 0 <= i < |rules[1..]| && !rules[1..][i].holds && rules[1..][i].field == r.value
                       && forall j :: 0 <= j < i ==> rules[1..][j].holds;
        assert forall j :: 0 <= j < i + 1 ==> rules[j].holds;
        r
      else r
  }

  /** What a guard enforcing `rules` returns. */
  function Verdict(rules: seq<Rule>): Check {
    var v := FirstViolation(rules);
    if v.Some? then Fail(v.value) else Pass
  }

  /** Running guard `first`, and `second` only when `first` passed. */
  function Then(first: Check, second: Check): Check {
    if first.Fail? then first else second
  }

  lemma FirstViolationCons(r: Rule, rest: seq<Rule>)
    ensures FirstViolation([r] + rest) == if r.holds then FirstViolation(rest) else Some(r.field)
  {
    assert ([r] + rest)[1..] == rest;
  }

  /** Two guards in a row enforce the concatenation of their lists. */
  lemma {:induction false} VerdictAppend(a: seq<Rule>, b: seq<Rule>)
    ensures Verdict(a + b) == Then(Verdict(a), Verdict(b))
  {
    if a == [] {
      assert a + b == b;
    } else {
      assert a + b == [a[0]] + (a[1..] + b);
      assert a == [a[0]] + a[1..];
      FirstViolationCons(a[0], a[1..] + b);
      FirstViolationCons(a[0], a[1..]);
      VerdictAppend(a[1..], b);
    }
  }

  lemma VerdictAppend3(a: seq<Rule>, b: seq<Rule>, c: seq<Rule>)
    ensures Verdict(a + b + c) == Then(Verdict(a), Then(Verdict(b), Verdict(c)))
  {
    VerdictAppend(a + b, c);
    VerdictAppend(a, b);
  }

  // ---------------------------------------------------------------------------
  // The source's guards.

  function TokenRules(accessToken: string): seq<Rule> {
    [Rule("accessToken", TokenValid(accessToken))]
  }

  /** `validateToken`. */
  function ValidateToken(accessToken: string): (c: Check)
    ensures c == Verdict(TokenRules(accessToken))
  {
    if IsBlank(accessToken) then Fail("accessToken") else Pass
  }

  function AccountRules(shortName: string, authorName: string, authorUrl: string): seq<Rule> {
    [Rule("shortName", ShortNameValid(shortName)),
     Rule("authorName", AuthorNameValid(authorName)),
     Rule("authorUrl", AuthorUrlValid(authorUrl))]
  }

  /**
   * `validateAccountParams`: short name, then author name, then author URL.
   * (The source's message for a long author URL names `authorName`; the
   * rejected argument is the URL.)
   */
  function ValidateAccountParams(shortName: string, authorName: string, authorUrl: string): Check {
    if IsBlank(shortName) || Utf16Length(shortName) > ShortNameMaxLength then Fail("shortName")
    else if Utf16Length(authorName) > AuthorNameMaxLength then Fail("authorName")
    else if Utf16Length(authorUrl) > AuthorUrlMaxLength then Fail("authorUrl")
    else Pass
  }

  lemma Verdict3(r0: Rule, r1: Rule, r2: Rule)
    ensures Verdict([r0, r1, r2]) == if !r0.holds then Fail(r0.field)
                                     else if !r1.holds then Fail(r1.field)
                                     else if !r2.holds then Fail(r2.field)
                                     else Pass
  {
    assert [r0, r1, r2] == [r0] + ([r1] + [r2]);
    FirstViolationCons(r0, [r1] + [r2]);
    FirstViolationCons(r1, [r2]);
    FirstViolationCons(r2, []);
  }

  /** The guard rejects exactly the first broken rule of its list. */
  lemma ValidateAccountParamsFollowsRules(shortName: string, authorName: string, authorUrl: string)
    ensures ValidateAccountParams(shortName, authorName, authorUrl) == Verdict(AccountRules(shortName, authorName, authorUrl))
  {
    var rules := AccountRules(shortName, authorName, authorUrl);
    Verdict3(rules[0], rules[1], rules[2]);
  }

  function PageRules(title: string, content: string, path: string): seq<Rule> {
    [Rule("title", TitleValid(title)),
     Rule("content", ContentValid(content)),
     Rule("path", PathValid(path))]
  }

  /** `validatePageParams`: title, then content, then path. */
  function ValidatePageParams(title: string, content: string, path: string): Check {
    if IsBlank(title) || Utf16Length(title) > MaxPageTitleLength then Fail("title")
    else if IsBlank(content) || Wrap32(|Utf8(content)| * 1024) > MaxContentSizeKb then Fail("content")
    else if IsBlank(path) then Fail("path")
    else Pass
  }

  lemma ValidatePageParamsFollowsRules(title: string, content: string, path: string)
    ensures ValidatePageParams(title, content, path) == Verdict(PageRules(title, content, path))
  {
    var rules := PageRules(title, content, path);
    Verdict3(rules[0], rules[1], rules[2]);
  }

  /** `validateYear` (the bound is 21000, not `MaxYear`). */
  function ValidateYear(year: int): Check {
    if !(2000 <= year <= 21000) then Fail("year") else Pass
  }

  /** `validateMonth`. */
  function ValidateMonth(month: int): Check {
    if !(1 <= month <= 12) then Fail("month") else Pass
  }

  /** `validateDay` (its message names the range 1..12; the check is 1..31). */
  function ValidateDay(day: int): Check {
    if !(1 <= day <= 31) then Fail("day") else Pass
  }

  /** `validateHour`. */
  function ValidateHour(hour: int): Check {
    if !(0 <= hour <= 24) then Fail("hour") else Pass
  }

  /** One rule for a time unit that was supplied, none for one that was not. */
  function UnitRule(field: string, supplied: bool, holds: bool): seq<Rule> {
    if supplied then [Rule(field, holds)] else []
  }

  function TimeRules(year: Option<int>, month: Option<int>, day: Option<int>, hour: int): seq<Rule> {
    UnitRule("year", year.Some?, year.Some? && YearValid(year.value))
    + UnitRule("month", month.Some?, month.Some? && MonthValid(month.value))
    + UnitRule("day", day.Some?, day.Some? && DayValid(day.value))
    + [Rule("hour", HourValid(hour))]
  }

  /** `validateTimeUnits`: each supplied unit in the order year, month, day; then the hour. */
  function ValidateTimeUnits(year: Option<int>, month: Option<int>, day: Option<int>, hour: int): Check {
    if year.Some? && ValidateYear(year.value).Fail? then ValidateYear(year.value)
    else if month.Some? && ValidateMonth(month.value).Fail? then ValidateMonth(month.value)
    else if day.Some? && ValidateDay(day.value).Fail? then ValidateDay(day.value)
    else ValidateHour(hour)
  }

  lemma UnitRuleVerdict(field: string, supplied: bool, holds: bool)
    ensures Verdict(UnitRule(field, supplied, holds)) == if supplied && !holds then Fail(field) else Pass
  {
    if supplied {
      FirstViolationCons(Rule(field, holds), []);
      assert UnitRule(field, supplied, holds) == [Rule(field, holds)] + [];
    }
  }

  lemma ValidateTimeUnitsFollowsRules(year: Option<int>, month: Option<int>, day: Option<int>, hour: int)
    ensures ValidateTimeUnits(year, month, day, hour) == Verdict(TimeRules(year, month, day, hour))
  {
    var y := UnitRule("year", year.Some?, year.Some? && YearValid(year.value));
    var m := UnitRule("month", month.Some?, month.Some? && MonthValid(month.value));
    var d := UnitRule("day", day.Some?, day.Some? && DayValid(day.value));
    var h := UnitRule("hour", true, HourValid(hour));
    assert TimeRules(year, month, day, hour) == y + m + d + h;
    VerdictAppend(y + m + d, h);
    VerdictAppend3(y, m, d);
    UnitRuleVerdict("year", year.Some?, year.Some? && YearValid(year.value));
    UnitRuleVerdict("month", month.Some?, month.Some? && MonthValid(month.value));
    UnitRuleVerdict("day", day.Some?, day.Some? && DayValid(day.value));
    UnitRuleVerdict("hour", true, HourValid(hour));
    var vy := if year.Some? then ValidateYear(year.value) else Pass;
    var vm := if month.Some? then ValidateMonth(month.value) else Pass;
    var vd := if day.Some? then ValidateDay(day.value) else Pass;
    assert Verdict(y) == vy && Verdict(m) == vm && Verdict(d) == vd;
    assert Verdict(h) == ValidateHour(hour);
    assert ValidateTimeUnits(year, month, day, hour) == Then(Then(vy, Then(vm, vd)), ValidateHour(hour));
  }

  // ---------------------------------------------------------------------------
  // Properties of the rules.

  /** The dummy argument passes every check it is used for. */
  lemma PlugPasses()
    ensures ShortNameValid(Plug) && TitleValid(Plug) && ContentValid(Plug) && PathValid(Plug)
  {
    NotBlankWitness(Plug, 0);
    assert InBmp(Plug);
    Utf16LengthBmp(Plug);
    assert forall i :: 0 <= i < |Plug| ==> Plug[i] as int < 0x80;
    Utf8Ascii(Plug);
  }

  /** On BMP text, a short name passes exactly when it is not blank and has at most 32 characters. */
  lemma ShortNameBoundary(shortName: string)
    requires InBmp(shortName)
    ensures ShortNameValid(shortName) <==> !IsBlank(shortName) && |shortName| <= 32
  {
    Utf16LengthBmp(shortName);
  }

  /**
   * The author fields are checked for length only: on BMP text an author name
   * passes exactly when it has at most 128 characters and an author URL at most
   * 512, blank or not.
   */
  lemma AuthorFieldsBoundary(authorName: string, authorUrl: string)
    requires InBmp(authorName) && InBmp(authorUrl)
    ensures AuthorNameValid(authorName) <==> |authorName| <= 128
    ensures AuthorUrlValid(authorUrl) <==> |authorUrl| <= 512
  {
    Utf16LengthBmp(authorName);
    Utf16LengthBmp(authorUrl);
  }

  /** On BMP text, a title passes exactly when it is not blank and has at most 256 characters. */
  lemma TitleBoundary(title: string)
    requires InBmp(title)
    ensures TitleValid(title) <==> !IsBlank(title) && |title| <= 256
  {
    Utf16LengthBmp(title);
  }

  /**
   * While the product does not overflow, the content check accepts non-blank
   * content of at most 64 bytes of UTF-8: the limit is in bytes, not kilobytes.
   */
  lemma ContentSizeRule(content: string)
    requires |Utf8(content)| < 0x20_0000
    ensures ContentValid(content) <==> !IsBlank(content) && |Utf8(content)| <= 64
  {
    assert 0 <= |Utf8(content)| * 1024 < 0x8000_0000;
  }

  /**
   * The 32-bit product wraps: non-blank content of exactly 2^22 bytes (4 MiB)
   * multiplies to 2^32, which is 0 as an `Int`, and passes.
   */
  lemma ContentSizeOverflow(content: string)
    requires |content| == 0x40_0000
    requires forall i :: 0 <= i < |content| ==> content[i] == 'a'
    ensures ContentValid(content)
  {
    Utf8Ascii(content);
    NotBlankWitness(content, 0);
    assert Wrap32(0x40_0000 * 1024) == 0;
  }

  /**
   * From 2^21 bytes (2 MiB) on the product wraps negative, and up to 4 MiB + 64
   * bytes it stays at most 64 * 1024 once wrapped: throughout that band every
   * non-blank content passes, whatever its size.
   */
  lemma ContentSizeWrapBand(content: string)
    requires 0x20_0000 <= |Utf8(content)| <= 0x40_0040
    ensures ContentValid(content) <==> !IsBlank(content)
  {
    var p := |Utf8(content)| * 1024;
    assert 0x8000_0000 <= p <= 0x1_0001_0000;
    assert Wrap32(p) == p - 0x1_0000_0000;
  }

  /** One byte past that band the wrapped product exceeds the limit again. */
  lemma ContentSizeWrapEnd(content: string)
    requires |Utf8(content)| == 0x40_0041
    ensures !ContentValid(content)
  {
    assert Wrap32(0x40_0041 * 1024) == 1024 * 65;
  }

  /** The year check ignores `MaxYear`: 2101 .. 21000 are accepted, 1999 and 21001 are not. */
  lemma YearBound()
    ensures YearValid(MaxYear + 1) && YearValid(21000)
    ensures !YearValid(MinYear - 1) && !YearValid(21001)
  {
  }

  /** The time units pass exactly when each supplied one is in its range and the hour is. */
  lemma TimeUnitsPassIff(year: Option<int>, month: Option<int>, day: Option<int>, hour: int)
    ensures ValidateTimeUnits(year, month, day, hour) == Pass <==>
              (year.None? || YearValid(year.value)) && (month.None? || MonthValid(month.value))
              && (day.None? || DayValid(day.value)) && HourValid(hour)
  {
    ValidateTimeUnitsFollowsRules(year, month, day, hour);
    var rules := TimeRules(year, month, day, hour);
    if Verdict(rules) == Pass {
      var k := |rules| - 1;
      assert rules[k] == Rule("hour", HourValid(hour));
      if year.Some? {
        assert rules[0] == Rule("year", YearValid(year.value));
      }
    }
  }
}
