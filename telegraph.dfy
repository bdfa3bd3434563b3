/**
 * The endpoint builder of the telegra.ph client (the `Telegraph` object): one
 * builder per API operation.  A builder first runs the source's guards, in the
 * source's order, and then appends the URL fragments one after another to a
 * string, as the source does with its `StringBuilder`.
 *
 * Each builder is specified declaratively by the ordered rule list of its
 * operation (which argument it rejects) and by the list of query parameters
 * its URL carries (`Endpoint` in module `Query`).
 */
module Telegraph {

  import opened Wrappers
  import opened JavaText
  import opened Decimal
  import opened Query
  import opened Guards
  import FormEncoding

  datatype Result = Ok(url: string) | InvalidArgument(field: string)

  /** What a builder returns: the first rejected argument, or the URL. */
  function Outcome(rules: seq<Rule>, url: string): Result {
    var c := Verdict(rules);
    if c.Fail? then InvalidArgument(c.field) else Ok(url)
  }

  /** `URLEncoder.encode(s, "UTF-8")`. */
  function Enc(s: string): string {
    FormEncoding.Encode(s)
  }

  /** Kotlin's `"$b"` for a `Boolean`. */
  function BoolString(b: bool): string {
    if b then "true" else "false"
  }

  // ---------------------------------------------------------------------------
  // Rules and parameters of each operation.

  function EditAccountInfoRules(accessToken: string, shortName: string, authorName: string, authorUrl: string): seq<Rule> {
    AccountRules(shortName, authorName, authorUrl) + TokenRules(accessToken)
  }

  /** createPage checks the token, the author fields, then title and content. */
  function CreatePageRules(accessToken: string, title: string, authorName: string, authorUrl: string,
                           content: string): seq<Rule> {
    TokenRules(accessToken) + AccountRules(Plug, authorName, authorUrl) + PageRules(title, content, Plug)
  }

  /** editPage checks the token, title, content and path, then the author fields. */
  function EditPageRules(accessToken: string, path: string, title: string, content: string,
                         authorName: string, authorUrl: string): seq<Rule> {
    TokenRules(accessToken) + PageRules(title, content, path) + AccountRules(Plug, authorName, authorUrl)
  }

  function ViewsRules(path: string, year: Option<int>, month: Option<int>, day: Option<int>, hour: int): seq<Rule> {
    PageRules(Plug, Plug, path) + TimeRules(year, month, day, hour)
  }

  /** `author_name` (encoded) and `author_url` (verbatim), each only when not blank. */
  function AuthorParams(authorName: string, authorUrl: string): seq<Param> {
    (if IsBlank(authorName) then [] else [Param("author_name", Enc(authorName))])
    + (if IsBlank(authorUrl) then [] else [Param("author_url", authorUrl)])
  }

  function CreateAccountParams(shortName: string, authorName: string, authorUrl: string): seq<Param> {
    [Param("short_name", Enc(shortName))] + AuthorParams(authorName, authorUrl)
  }

  function EditAccountInfoParams(accessToken: string, shortName: string, authorName: string, authorUrl: string): seq<Param> {
    [Param("access_token", Enc(accessToken))]
    + (if IsBlank(shortName) then [] else [Param("short_name", Enc(shortName))])
    + AuthorParams(authorName, authorUrl)
  }

  /** One requested field: encoded, between double quotes. */
  function Quote(field: string): string {
    "\"" + Enc(field) + "\""
  }

  function Quoted(fields: seq<string>): (r: seq<string>)
    ensures |r| == |fields|
    ensures forall i :: 0 <= i < |fields| ==> r[i] == Quote(fields[i])
  {
    seq(|fields|, i requires 0 <= i < |fields| => Quote(fields[i]))
  }

  /** `joinToString(",", "[", "]")` of the quoted fields: a JSON list literal. */
  function FieldsLiteral(fields: seq<string>): string {
    "[" + JoinWith(Quoted(fields), ',') + "]"
  }

  function GetAccountInfoParams(accessToken: string, fields: seq<string>): seq<Param> {
    [Param("access_token", Enc(accessToken))]
    + (if fields == [] then [] else [Param("fields", FieldsLiteral(fields))])
  }

  function TokenParams(accessToken: string): seq<Param> {
    [Param("access_token", Enc(accessToken))]
  }

  /** The parameters of createPage and editPage; `content` goes verbatim. */
  function PageParams(accessToken: string, title: string, authorName: string, authorUrl: string,
                      content: string, returnContent: bool): seq<Param> {
    [Param("access_token", Enc(accessToken)), Param("title", Enc(title))]
    + AuthorParams(authorName, authorUrl)
    + [Param("content", content), Param("return_content", BoolString(returnContent))]
  }

  /** getPageList sends its token verbatim. */
  function PageListParams(accessToken: string, offset: int, limit: int): seq<Param> {
    [Param("access_token", accessToken), Param("offset", IntToString(offset)), Param("limit", IntToString(limit))]
  }

  function UnitParam(name: string, value: Option<int>): seq<Param> {
    if value.Some? then [Param(name, IntToString(value.value))] else []
  }

  /** The supplied time units in the order year, month, day, then the hour. */
  function ViewsParams(year: Option<int>, month: Option<int>, day: Option<int>, hour: int): seq<Param> {
    UnitParam("year", year) + UnitParam("month", month) + UnitParam("day", day)
    + [Param("hour", IntToString(hour))]
  }

  // ---------------------------------------------------------------------------
  // Appending to the URL under construction.

  /** `append("?name=value")` right after the method path: the first parameter. */
  method AppendFirst(endpoint: string, ghost path: string, name: string, value: string) returns (url: string)
    requires endpoint == Root + path
    ensures url == Endpoint(path, [Param(name, value)])
  {
    EndpointSingle(path, Param(name, value));
    url := endpoint + "?" + name + "=" + value;
  }

  /** `append("&name=value")`: one more parameter after those the URL carries. */
  method AppendNext(endpoint: string, ghost path: string, ghost params: seq<Param>, name: string, value: string)
    returns (url: string)
    requires params != [] && endpoint == Endpoint(path, params)
    ensures url == Endpoint(path, params + [Param(name, value)])
  {
    EndpointSnoc(path, params, Param(name, value));
    url := endpoint + "&" + name + "=" + value;
  }

  /** `append("&author_name=…")` and `append("&author_url=…")`, each only when not blank. */
  method AppendAuthor(endpoint: string, ghost path: string, ghost params: seq<Param>, authorName: string, authorUrl: string)
    returns (url: string)
    requires params != [] && endpoint == Endpoint(path, params)
    ensures url == Endpoint(path, params + AuthorParams(authorName, authorUrl))
  {
    url := endpoint;
    ghost var ps := params;
    if !IsBlank(authorName) {
      url := AppendNext(url, path, ps, "author_name", Enc(authorName));
      ps := ps + [Param("author_name", Enc(authorName))];
    }
    if !IsBlank(authorUrl) {
      url := AppendNext(url, path, ps, "author_url", authorUrl);
      ps := ps + [Param("author_url", authorUrl)];
    }
    assert ps == params + AuthorParams(authorName, authorUrl);
  }

  // ---------------------------------------------------------------------------
  // The builders.

  /** `createAccount`. */
  method CreateAccount(shortName: string, authorName: string := "", authorUrl: string := "") returns (r: Result)
    ensures r == Outcome(AccountRules(shortName, authorName, authorUrl),
                         Endpoint("createAccount", CreateAccountParams(shortName, authorName, authorUrl)))
  {
    ValidateAccountParamsFollowsRules(shortName, authorName, authorUrl);
    var check := ValidateAccountParams(shortName, authorName, authorUrl);
    if check.Fail? {
      return InvalidArgument(check.field);
    }
    var endpoint := AppendFirst(Root + "createAccount", "createAccount", "short_name", Enc(shortName));
    endpoint := AppendAuthor(endpoint, "createAccount", [Param("short_name", Enc(shortName))], authorName, authorUrl);
    return Ok(endpoint);
  }

  /** `editAccountInfo`: the account checks first, then the token. */
  method EditAccountInfo(accessToken: string, shortName: string, authorName: string := "", authorUrl: string := "")
    returns (r: Result)
    ensures r == Outcome(EditAccountInfoRules(accessToken, shortName, authorName, authorUrl),
                         Endpoint("editAccountInfo", EditAccountInfoParams(accessToken, shortName, authorName, authorUrl)))
  {
    ValidateAccountParamsFollowsRules(shortName, authorName, authorUrl);
    VerdictAppend(AccountRules(shortName, authorName, authorUrl), TokenRules(accessToken));
    var check := ValidateAccountParams(shortName, authorName, authorUrl);
    if check.Fail? {
      return InvalidArgument(check.field);
    }
    check := ValidateToken(accessToken);
    if check.Fail? {
      return InvalidArgument(check.field);
    }
    var endpoint := AppendFirst(Root + "editAccountInfo", "editAccountInfo", "access_token", Enc(accessToken));
    ghost var params := [Param("access_token", Enc(accessToken))];
    if !IsBlank(shortName) {
      endpoint := AppendNext(endpoint, "editAccountInfo", params, "short_name", Enc(shortName));
      params := params + [Param("short_name", Enc(shortName))];
    }
    endpoint := AppendAuthor(endpoint, "editAccountInfo", params, authorName, authorUrl);
    assert params + AuthorParams(authorName, authorUrl) == EditAccountInfoParams(accessToken, shortName, authorName, authorUrl);
    return Ok(endpoint);
  }

  /** `getAccountInfo`: the requested fields, quoted and encoded one by one, as a list literal. */
  method GetAccountInfo(accessToken: string, fields: seq<string> := []) returns (r: Result)
    ensures r == Outcome(TokenRules(accessToken),
                         Endpoint("getAccountInfo", GetAccountInfoParams(accessToken, fields)))
  {
    var check := ValidateToken(accessToken);
    if check.Fail? {
      return InvalidArgument(check.field);
    }
    var endpoint := AppendFirst(Root + "getAccountInfo", "getAccountInfo", "access_token", Enc(accessToken));
    if |fields| > 0 {
      var handled: seq<string> := [];
      var i := 0;
      while i < |fields|
        invariant 0 <= i <= |fields|
        invariant |handled| == i
        invariant forall j :: 0 <= j < i ==> handled[j] == Quote(fields[j])
      {
        handled := handled + ["\"" + Enc(fields[i]) + "\""];
        i := i + 1;
      }
      assert handled == Quoted(fields);
      endpoint := AppendNext(endpoint, "getAccountInfo", [Param("access_token", Enc(accessToken))],
                             "fields", "[" + JoinWith(handled, ',') + "]");
    }
    return Ok(endpoint);
  }

  /** `revokeAccessToken`. */
  method RevokeAccessToken(accessToken: string) returns (r: Result)
    ensures r == Outcome(TokenRules(accessToken), Endpoint("revokeAccessToken", TokenParams(accessToken)))
  {
    var check := ValidateToken(accessToken);
    if check.Fail? {
      return InvalidArgument(check.field);
    }
    var endpoint := AppendFirst(Root + "revokeAccessToken", "revokeAccessToken", "access_token", Enc(accessToken));
    return Ok(endpoint);
  }

  /**
   * The fragments createPage and editPage append after the method path:
   * token and title encoded, the author fields when not blank, then the
   * content verbatim and the return flag.
   */
  method AppendPageParams(endpoint: string, ghost path: string, accessToken: string, title: string,
                          authorName: string, authorUrl: string, content: string, returnContent: bool)
    returns (url: string)
    requires endpoint == Root + path
    ensures url == Endpoint(path, PageParams(accessToken, title, authorName, authorUrl, content, returnContent))
  {
    url := AppendFirst(endpoint, path, "access_token", Enc(accessToken));
    ghost var params := [Param("access_token", Enc(accessToken))];
    url := AppendNext(url, path, params, "title", Enc(title));
    params := params + [Param("title", Enc(title))];
    url := AppendAuthor(url, path, params, authorName, authorUrl);
    params := params + AuthorParams(authorName, authorUrl);
    url := AppendNext(url, path, params, "content", content);
    params := params + [Param("content", content)];
    url := AppendNext(url, path, params, "return_content", BoolString(returnContent));
    params := params + [Param("return_content", BoolString(returnContent))];
    assert params == PageParams(accessToken, title, authorName, authorUrl, content, returnContent);
  }

  /** `createPage`: token, then the author fields, then title and content. */
  method CreatePage(accessToken: string, title: string, authorName: string := "", authorUrl: string := "",
                    content: string, returnContent: bool := false) returns (r: Result)
    ensures r == Outcome(CreatePageRules(accessToken, title, authorName, authorUrl, content),
                         Endpoint("createPage", PageParams(accessToken, title, authorName, authorUrl, content, returnContent)))
  {
    ValidateAccountParamsFollowsRules(Plug, authorName, authorUrl);
    ValidatePageParamsFollowsRules(title, content, Plug);
    VerdictAppend3(TokenRules(accessToken), AccountRules(Plug, authorName, authorUrl), PageRules(title, content, Plug));
    var check := ValidateToken(accessToken);
    if check.Fail? {
      return InvalidArgument(check.field);
    }
    check := ValidateAccountParams(Plug, authorName, authorUrl);
    if check.Fail? {
      return InvalidArgument(check.field);
    }
    check := ValidatePageParams(title, content, Plug);
    if check.Fail? {
      return InvalidArgument(check.field);
    }
    var url := AppendPageParams(Root + "createPage", "createPage", accessToken, title, authorName, authorUrl,
                                content, returnContent);
    return Ok(url);
  }

  /** `editPage`: token, then title, content and path, then the author fields. */
  method EditPage(accessToken: string, path: string, title: string, content: string,
                  authorName: string := "", authorUrl: string := "", returnContent: bool := false) returns (r: Result)
    ensures r == Outcome(EditPageRules(accessToken, path, title, content, authorName, authorUrl),
                         Endpoint("editPage/" + path, PageParams(accessToken, title, authorName, authorUrl, content, returnContent)))
  {
    ValidateAccountParamsFollowsRules(Plug, authorName, authorUrl);
    ValidatePageParamsFollowsRules(title, content, path);
    VerdictAppend3(TokenRules(accessToken), PageRules(title, content, path), AccountRules(Plug, authorName, authorUrl));
    var check := ValidateToken(accessToken);
    if check.Fail? {
      return InvalidArgument(check.field);
    }
    check := ValidatePageParams(title, content, path);
    if check.Fail? {
      return InvalidArgument(check.field);
    }
    check := ValidateAccountParams(Plug, authorName, authorUrl);
    if check.Fail? {
      return InvalidArgument(check.field);
    }
    var url := AppendPageParams(Root + "editPage/" + path, "editPage/" + path, accessToken, title,
                                authorName, authorUrl, content, returnContent);
    return Ok(url);
  }

  /** `getPage`. */
  method GetPage(path: string, returnContent: bool := false) returns (r: Result)
    ensures r == Outcome(PageRules(Plug, Plug, path),
                         Endpoint("getPage/" + path, [Param("return_content", BoolString(returnContent))]))
  {
    ValidatePageParamsFollowsRules(Plug, Plug, path);
    var check := ValidatePageParams(Plug, Plug, path);
    if check.Fail? {
      return InvalidArgument(check.field);
    }
    var endpoint := AppendFirst(Root + "getPage/" + path, "getPage/" + path, "return_content", BoolString(returnContent));
    return Ok(endpoint);
  }

  /** `getPageList`: the token is appended without encoding. */
  method GetPageList(accessToken: string, offset: Int32 := 0, limit: Int32 := 50) returns (r: Result)
    ensures r == Outcome(TokenRules(accessToken), Endpoint("getPageList", PageListParams(accessToken, offset, limit)))
  {
    var check := ValidateToken(accessToken);
    if check.Fail? {
      return InvalidArgument(check.field);
    }
    var endpoint := AppendFirst(Root + "getPageList", "getPageList", "access_token", accessToken);
    ghost var params := [Param("access_token", accessToken)];
    endpoint := AppendNext(endpoint, "getPageList", params, "offset", IntToString(offset));
    params := params + [Param("offset", IntToString(offset))];
    endpoint := AppendNext(endpoint, "getPageList", params, "limit", IntToString(limit));
    params := params + [Param("limit", IntToString(limit))];
    assert params == PageListParams(accessToken, offset, limit);
    return Ok(endpoint);
  }

  /** The guards of every getViews variant: the path, then the supplied time units. */
  lemma ViewsVerdict(path: string, year: Option<int>, month: Option<int>, day: Option<int>, hour: int)
    ensures Verdict(ViewsRules(path, year, month, day, hour))
         == Then(ValidatePageParams(Plug, Plug, path), ValidateTimeUnits(year, month, day, hour))
  {
    ValidatePageParamsFollowsRules(Plug, Plug, path);
    ValidateTimeUnitsFollowsRules(year, month, day, hour);
    VerdictAppend(PageRules(Plug, Plug, path), TimeRules(year, month, day, hour));
  }

  /** `getViews(path, year, month, day, hour)`. */
  method GetViews(path: string, year: Int32, month: Int32, day: Int32, hour: Int32) returns (r: Result)
    ensures r == Outcome(ViewsRules(path, Some(year), Some(month), Some(day), hour),
                         Endpoint("getViews/" + path, ViewsParams(Some(year), Some(month), Some(day), hour)))
  {
    ViewsVerdict(path, Some(year), Some(month), Some(day), hour);
    var check := ValidatePageParams(Plug, Plug, path);
    if check.Fail? {
      return InvalidArgument(check.field);
    }
    check := ValidateTimeUnits(Some(year), Some(month), Some(day), hour);
    if check.Fail? {
      return InvalidArgument(check.field);
    }
    var endpoint := AppendFirst(Root + "getViews/" + path, "getViews/" + path, "year", IntToString(year));
    ghost var params := [Param("year", IntToString(year))];
    endpoint := AppendNext(endpoint, "getViews/" + path, params, "month", IntToString(month));
    params := params + [Param("month", IntToString(month))];
    endpoint := AppendNext(endpoint, "getViews/" + path, params, "day", IntToString(day));
    params := params + [Param("day", IntToString(day))];
    endpoint := AppendNext(endpoint, "getViews/" + path, params, "hour", IntToString(hour));
    params := params + [Param("hour", IntToString(hour))];
    assert params == ViewsParams(Some(year), Some(month), Some(day), hour);
    return Ok(endpoint);
  }

  /** `getViews(path, hour)`. */
  method GetViewsByHour(path: string, hour: Int32) returns (r: Result)
    ensures r == Outcome(ViewsRules(path, None, None, None, hour),
                         Endpoint("getViews/" + path, ViewsParams(None, None, None, hour)))
  {
    ViewsVerdict(path, None, None, None, hour);
    var check := ValidatePageParams(Plug, Plug, path);
    if check.Fail? {
      return InvalidArgument(check.field);
    }
    check := ValidateTimeUnits(None, None, None, hour);
    if check.Fail? {
      return InvalidArgument(check.field);
    }
    var endpoint := AppendFirst(Root + "getViews/" + path, "getViews/" + path, "hour", IntToString(hour));
    assert [Param("hour", IntToString(hour))] == ViewsParams(None, None, None, hour);
    return Ok(endpoint);
  }

  /** `getViews(path, day, hour)`. */
  method GetViewsByDayHour(path: string, day: Int32, hour: Int32) returns (r: Result)
    ensures r == Outcome(ViewsRules(path, None, None, Some(day), hour),
                         Endpoint("getViews/" + path, ViewsParams(None, None, Some(day), hour)))
  {
    ViewsVerdict(path, None, None, Some(day), hour);
    var check := ValidatePageParams(Plug, Plug, path);
    if check.Fail? {
      return InvalidArgument(check.field);
    }
    check := ValidateTimeUnits(None, None, Some(day), hour);
    if check.Fail? {
      return InvalidArgument(check.field);
    }
    var endpoint := AppendFirst(Root + "getViews/" + path, "getViews/" + path, "day", IntToString(day));
    ghost var params := [Param("day", IntToString(day))];
    endpoint := AppendNext(endpoint, "getViews/" + path, params, "hour", IntToString(hour));
    params := params + [Param("hour", IntToString(hour))];
    assert params == ViewsParams(None, None, Some(day), hour);
    return Ok(endpoint);
  }

  /** `getViews(path, month, day, hour)`. */
  method GetViewsByMonthDayHour(path: string, month: Int32, day: Int32, hour: Int32) returns (r: Result)
    ensures r == Outcome(ViewsRules(path, None, Some(month), Some(day), hour),
                         Endpoint("getViews/" + path, ViewsParams(None, Some(month), Some(day), hour)))
  {
    ViewsVerdict(path, None, Some(month), Some(day), hour);
    var check := ValidatePageParams(Plug, Plug, path);
    if check.Fail? {
      return InvalidArgument(check.field);
    }
    check := ValidateTimeUnits(None, Some(month), Some(day), hour);
    if check.Fail? {
      return InvalidArgument(check.field);
    }
    var endpoint := AppendFirst(Root + "getViews/" + path, "getViews/" + path, "month", IntToString(month));
    ghost var params := [Param("month", IntToString(month))];
    endpoint := AppendNext(endpoint, "getViews/" + path, params, "day", IntToString(day));
    params := params + [Param("day", IntToString(day))];
    endpoint := AppendNext(endpoint, "getViews/" + path, params, "hour", IntToString(hour));
    params := params + [Param("hour", IntToString(hour))];
    assert params == ViewsParams(None, Some(month), Some(day), hour);
    return Ok(endpoint);
  }

  // ---------------------------------------------------------------------------
  // Properties of the builders.

  /** Every builder that takes an access token refuses a blank one, so no URL is produced. */
  lemma BlankTokenRejected(accessToken: string, shortName: string, path: string, title: string, content: string,
                           authorName: string, authorUrl: string)
    requires IsBlank(accessToken)
    ensures Verdict(TokenRules(accessToken)) == Fail("accessToken")
    ensures Verdict(CreatePageRules(accessToken, title, authorName, authorUrl, content)) == Fail("accessToken")
    ensures Verdict(EditPageRules(accessToken, path, title, content, authorName, authorUrl)) == Fail("accessToken")
    ensures Verdict(EditAccountInfoRules(accessToken, shortName, authorName, authorUrl)).Fail?
  {
    VerdictAppend3(TokenRules(accessToken), AccountRules(Plug, authorName, authorUrl), PageRules(title, content, Plug));
    VerdictAppend3(TokenRules(accessToken), PageRules(title, content, path), AccountRules(Plug, authorName, authorUrl));
    VerdictAppend(AccountRules(shortName, authorName, authorUrl), TokenRules(accessToken));
  }

  /** createPage passes its guards exactly when token, author fields, title and content are valid. */
  lemma CreatePagePassIff(accessToken: string, title: string, authorName: string, authorUrl: string, content: string)
    ensures Verdict(CreatePageRules(accessToken, title, authorName, authorUrl, content)) == Pass <==>
              TokenValid(accessToken) && AuthorNameValid(authorName) && AuthorUrlValid(authorUrl)
              && TitleValid(title) && ContentValid(content)
  {
    PlugPasses();
    var rules := CreatePageRules(accessToken, title, authorName, authorUrl, content);
    assert rules[0].holds == TokenValid(accessToken) && rules[2].holds == AuthorNameValid(authorName);
    assert rules[3].holds == AuthorUrlValid(authorUrl) && rules[4].holds == TitleValid(title);
    assert rules[5].holds == ContentValid(content);
  }

  /** editPage passes its guards exactly when token, title, content, path and author fields are valid. */
  lemma EditPagePassIff(accessToken: string, path: string, title: string, content: string,
                        authorName: string, authorUrl: string)
    ensures Verdict(EditPageRules(accessToken, path, title, content, authorName, authorUrl)) == Pass <==>
              TokenValid(accessToken) && TitleValid(title) && ContentValid(content) && PathValid(path)
              && AuthorNameValid(authorName) && AuthorUrlValid(authorUrl)
  {
    PlugPasses();
    var rules := EditPageRules(accessToken, path, title, content, authorName, authorUrl);
    assert rules[0].holds == TokenValid(accessToken) && rules[1].holds == TitleValid(title);
    assert rules[2].holds == ContentValid(content) && rules[3].holds == PathValid(path);
    assert rules[5].holds == AuthorNameValid(authorName) && rules[6].holds == AuthorUrlValid(authorUrl);
  }

  /**
   * getPage and every getViews variant check the path and only the time units
   * they receive: they pass exactly when the path is not blank, each supplied
   * unit is in range and the hour is in 0..24.
   */
  lemma ViewsPassIff(path: string, year: Option<int>, month: Option<int>, day: Option<int>, hour: int)
    ensures Verdict(PageRules(Plug, Plug, path)) == Pass <==> PathValid(path)
    ensures Verdict(ViewsRules(path, year, month, day, hour)) == Pass <==>
              PathValid(path) && (year.None? || YearValid(year.value)) && (month.None? || MonthValid(month.value))
              && (day.None? || DayValid(day.value)) && HourValid(hour)
  {
    PlugPasses();
    ValidatePageParamsFollowsRules(Plug, Plug, path);
    ViewsVerdict(path, year, month, day, hour);
    TimeUnitsPassIff(year, month, day, hour);
  }

  /** The source's test for a bad year is refused for its month: 3000 is an accepted year. */
  lemma YearTestFailsOnMonth()
    ensures Verdict(ViewsRules("Sample-Page-12-15", Some(3000), Some(15), Some(15), 15)) == Fail("month")
  {
    PlugPasses();
    NotBlankWitness("Sample-Page-12-15", 0);
    ViewsVerdict("Sample-Page-12-15", Some(3000), Some(15), Some(15), 15);
  }

  /** With both author fields blank the createAccount URL is the short name alone. */
  lemma CreateAccountBare(shortName: string, authorName: string, authorUrl: string)
    requires IsBlank(authorName) && IsBlank(authorUrl)
    ensures Endpoint("createAccount", CreateAccountParams(shortName, authorName, authorUrl))
         == Root + "createAccount?" + "short_name=" + Enc(shortName)
  {
    var p := Param("short_name", Enc(shortName));
    assert CreateAccountParams(shortName, authorName, authorUrl) == [p];
    EndpointSingle("createAccount", p);
    assert "createAccount" + "?" == "createAccount?";
    assert "short_name" + "=" == "short_name=";
  }

  /**
   * editAccountInfo's short name is optional in its signature, but the account
   * guard refuses a blank one: every URL it builds carries `short_name`.
   */
  lemma EditAccountInfoAlwaysSendsShortName(accessToken: string, shortName: string, authorName: string, authorUrl: string)
    requires Verdict(EditAccountInfoRules(accessToken, shortName, authorName, authorUrl)) == Pass
    ensures |EditAccountInfoParams(accessToken, shortName, authorName, authorUrl)| >= 2
    ensures EditAccountInfoParams(accessToken, shortName, authorName, authorUrl)[1] == Param("short_name", Enc(shortName))
  {
    VerdictAppend(AccountRules(shortName, authorName, authorUrl), TokenRules(accessToken));
    ValidateAccountParamsFollowsRules(shortName, authorName, authorUrl);
  }

  /** An encoded value never holds a query delimiter. */
  lemma EncSeparable(name: string, s: string)
    requires '&' !in name && '=' !in name && '#' !in name
    ensures Separable(Param(name, Enc(s)))
  {
    FormEncoding.EncodeHasNoDelimiter(s);
    assert FormEncoding.Delimiter('&') && FormEncoding.Delimiter('#');
  }

  /**
   * A server reads a createAccount URL back into the parameters it was built
   * from when the verbatim author URL holds no `&` and no `#`; the short name
   * and author name then decode to the arguments (`FormEncoding.EncodeRoundTrip`).
   */
  lemma CreateAccountReadBack(shortName: string, authorName: string, authorUrl: string)
    requires '&' !in authorUrl && '#' !in authorUrl
    ensures ParseEndpoint(Endpoint("createAccount", CreateAccountParams(shortName, authorName, authorUrl)))
         == Some(("createAccount", CreateAccountParams(shortName, authorName, authorUrl)))
  {
    CreateAccountParamsSeparable(shortName, authorName, authorUrl);
    ParseEndpointRoundTrip("createAccount", CreateAccountParams(shortName, authorName, authorUrl));
  }

  /** Every createAccount parameter is one of the three the builder appends. */
  lemma CreateAccountParamsShape(shortName: string, authorName: string, authorUrl: string)
    ensures forall k :: 0 <= k < |CreateAccountParams(shortName, authorName, authorUrl)| ==>
      CreateAccountParams(shortName, authorName, authorUrl)[k] in
        {Param("short_name", Enc(shortName)), Param("author_name", Enc(authorName)), Param("author_url", authorUrl)}
  {
  }

  lemma CreateAccountParamsSeparable(shortName: string, authorName: string, authorUrl: string)
    requires '&' !in authorUrl && '#' !in authorUrl
    ensures forall k :: 0 <= k < |CreateAccountParams(shortName, authorName, authorUrl)| ==>
      Separable(CreateAccountParams(shortName, authorName, authorUrl)[k])
  {
    EncSeparable("short_name", shortName);
    EncSeparable("author_name", authorName);
    CreateAccountParamsShape(shortName, authorName, authorUrl);
  }

  lemma CreateAccountParamsNoFragment(shortName: string, authorName: string, authorUrl: string)
    requires '#' !in authorUrl
    ensures NoFragment(CreateAccountParams(shortName, authorName, authorUrl))
  {
    EncSeparable("short_name", shortName);
    EncSeparable("author_name", authorName);
    CreateAccountParamsShape(shortName, authorName, authorUrl);
  }

  /**
   * The author URL is appended without encoding: one that holds `&` makes the
   * server read more parameters than createAccount sent.
   */
  lemma CreateAccountAuthorUrlAmpersand(shortName: string, authorName: string, authorUrl: string)
    requires '&' in authorUrl && '#' !in authorUrl
    ensures ParseEndpoint(Endpoint("createAccount", CreateAccountParams(shortName, authorName, authorUrl))).Some?
    ensures |ParseEndpoint(Endpoint("createAccount", CreateAccountParams(shortName, authorName, authorUrl))).value.1|
          > |CreateAccountParams(shortName, authorName, authorUrl)|
  {
    var params := CreateAccountParams(shortName, authorName, authorUrl);
    var i :| 0 <= i < |authorUrl| && authorUrl[i] == '&';
    NotBlankWitness(authorUrl, i);
    CreateAccountParamsNoFragment(shortName, authorName, authorUrl);
    ParseEndpointStray("createAccount", params, |params| - 1);
  }

  /**
   * An author URL with a `#` (a link to an anchor) cuts the createAccount URL
   * short: the server does not read back the parameters that were sent.
   */
  lemma CreateAccountAuthorUrlFragment(shortName: string, authorName: string, authorUrl: string)
    requires '#' in authorUrl
    ensures ParseEndpoint(Endpoint("createAccount", CreateAccountParams(shortName, authorName, authorUrl)))
         != Some(("createAccount", CreateAccountParams(shortName, authorName, authorUrl)))
  {
    var params := CreateAccountParams(shortName, authorName, authorUrl);
    var i :| 0 <= i < |authorUrl| && authorUrl[i] == '#';
    NotBlankWitness(authorUrl, i);
    ParseEndpointFragment("createAccount", params, |params| - 1);
  }

  /**
   * createPage sends its content JSON verbatim: a text node holding `#` cuts
   * the URL short, and the server does not read back the page that was sent.
   */
  lemma CreatePageContentFragment(accessToken: string, title: string, authorName: string, authorUrl: string,
                                  content: string, returnContent: bool)
    requires '#' in content
    ensures ParseEndpoint(Endpoint("createPage", PageParams(accessToken, title, authorName, authorUrl, content, returnContent)))
         != Some(("createPage", PageParams(accessToken, title, authorName, authorUrl, content, returnContent)))
  {
    var params := PageParams(accessToken, title, authorName, authorUrl, content, returnContent);
    ParseEndpointFragment("createPage", params, |params| - 2);
  }

  /** A decimal rendering holds no query delimiter. */
  lemma IntParamSeparable(name: string, n: int)
    requires '&' !in name && '=' !in name && '#' !in name
    ensures Separable(Param(name, IntToString(n)))
  {
  }

  /**
   * A server reads a getViews URL back into its parameters and parses the
   * hour back, whenever the page path holds no `?` and no `#`.
   */
  lemma GetViewsReadBack(path: string, year: Option<int>, month: Option<int>, day: Option<int>, hour: int)
    requires '?' !in path && '#' !in path
    ensures ParseEndpoint(Endpoint("getViews/" + path, ViewsParams(year, month, day, hour)))
         == Some(("getViews/" + path, ViewsParams(year, month, day, hour)))
    ensures ParseInt(ViewsParams(year, month, day, hour)[|ViewsParams(year, month, day, hour)| - 1].value) == Some(hour)
  {
    ViewsParamsSeparable(year, month, day, hour);
    ParseEndpointRoundTrip("getViews/" + path, ViewsParams(year, month, day, hour));
    IntToStringRoundTrip(hour);
  }

  lemma ViewsParamsSeparable(year: Option<int>, month: Option<int>, day: Option<int>, hour: int)
    ensures forall i :: 0 <= i < |ViewsParams(year, month, day, hour)| ==> Separable(ViewsParams(year, month, day, hour)[i])
  {
    var y, m, d := UnitParam("year", year), UnitParam("month", month), UnitParam("day", day);
    var h := [Param("hour", IntToString(hour))];
    UnitParamSeparable("year", year);
    UnitParamSeparable("month", month);
    UnitParamSeparable("day", day);
    IntParamSeparable("hour", hour);
    assert ViewsParams(year, month, day, hour) == ((y + m) + d) + h;
    SeparableAppend(y, m);
    SeparableAppend(y + m, d);
    SeparableAppend((y + m) + d, h);
  }

  lemma UnitParamSeparable(name: string, value: Option<int>)
    requires '&' !in name && '=' !in name && '#' !in name
    ensures forall i :: 0 <= i < |UnitParam(name, value)| ==> Separable(UnitParam(name, value)[i])
  {
    if value.Some? {
      IntParamSeparable(name, value.value);
    }
  }

  lemma SeparableAppend(a: seq<Param>, b: seq<Param>)
    requires forall i :: 0 <= i < |a| ==> Separable(a[i])
    requires forall i :: 0 <= i < |b| ==> Separable(b[i])
    ensures forall i :: 0 <= i < |a + b| ==> Separable((a + b)[i])
  {
    forall i | 0 <= i < |a + b|
      ensures Separable((a + b)[i])
    {
      if i < |a| {
        assert (a + b)[i] == a[i];
      } else {
        assert (a + b)[i] == b[i - |a|];
      }
    }
  }

  /**
   * The fields literal reads back: between its brackets, splitting at `,`
   * gives the quoted fields in order, and each decodes to the requested name.
   */
  lemma FieldsLiteralReadBack(fields: seq<string>)
    requires fields != []
    ensures |FieldsLiteral(fields)| >= 2
    ensures FieldsLiteral(fields)[0] == '[' && FieldsLiteral(fields)[|FieldsLiteral(fields)| - 1] == ']'
    ensures Split(FieldsLiteral(fields)[1..|FieldsLiteral(fields)| - 1], ',') == Quoted(fields)
    ensures forall i :: 0 <= i < |fields| ==>
              FormEncoding.Decode(Quoted(fields)[i][1..|Quoted(fields)[i]| - 1]) == Some(fields[i])
  {
    var lit := FieldsLiteral(fields);
    assert lit[1..|lit| - 1] == JoinWith(Quoted(fields), ',');
    forall i | 0 <= i < |fields|
      ensures ',' !in Quoted(fields)[i]
      ensures FormEncoding.Decode(Quoted(fields)[i][1..|Quoted(fields)[i]| - 1]) == Some(fields[i])
    {
      FormEncoding.EncodeHasNoDelimiter(fields[i]);
      assert FormEncoding.Delimiter(',');
      assert Quoted(fields)[i][1..|Quoted(fields)[i]| - 1] == Enc(fields[i]);
      FormEncoding.EncodeRoundTrip(fields[i]);
    }
    SplitJoinWith(Quoted(fields), ',');
  }

  /** The parameters of the source's getViews test for a full date, in the order that test expects. */
  lemma GetViewsExample()
    ensures ViewsParams(Some(2016), Some(10), Some(14), 12)
         == [Param("year", "2016"), Param("month", "10"), Param("day", "14"), Param("hour", "12")]
  {
    IntToStringExamples();
  }

  /** The default offset and limit of getPageList are sent as `0` and `50`; the token goes verbatim. */
  lemma GetPageListDefaults(accessToken: string)
    ensures PageListParams(accessToken, 0, 50)
         == [Param("access_token", accessToken), Param("offset", "0"), Param("limit", "50")]
  {
    IntToStringExamples();
  }
}
