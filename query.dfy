/**
 * The shape every telegra.ph endpoint has: the fixed root, a method path,
 * `?`, then `name=value` parameters joined by `&`.  The builder writes these
 * strings with successive `append` calls; `Endpoint` says which parameters,
 * in which order, a URL carries, and `ParseEndpoint` is how the service
 * reads them back.
 */
module Query {

  import opened Wrappers

  /** `endpointRoot`: the service's fixed base address. */
  const Root: string := "https://api.telegra.ph/"

  datatype Param = Param(name: string, value: string)

  /** `name=value`. */
  function Render(p: Param): string {
    p.name + "=" + p.value
  }

  /** Kotlin's `joinToString(sep)`: the parts in order, `sep` between neighbours. */
  function JoinWith(parts: seq<string>, sep: char): string {
    if parts == [] then ""
    else if |parts| == 1 then parts[0]
    else parts[0] + [sep] + JoinWith(parts[1..], sep)
  }

  function Rendered(params: seq<Param>): (r: seq<string>)
    ensures |r| == |params|
    ensures forall i :: 0 <= i < |params| ==> r[i] == Render(params[i])
  {
    seq(|params|, i requires 0 <= i < |params| => Render(params[i]))
  }

  /** The parameters, rendered and joined by `&`, in order. */
  function Join(params: seq<Param>): string {
    JoinWith(Rendered(params), '&')
  }

  /** The URL of method `path` carrying `params`. */
  function Endpoint(path: string, params: seq<Param>): string {
    Root + path + "?" + Join(params)
  }

  // ---------------------------------------------------------------------------
  // Reading a URL back.

  function Occurrences(s: string, c: char): nat {
    if s == [] then 0 else (if s[0] == c then 1 else 0) + Occurrences(s[1..], c)
  }

  /** The first position of `c` in `s`, or -1. */
  function FirstIndex(s: string, c: char): (r: int)
    ensures -1 <= r < |s|
    ensures r < 0 ==> c !in s
    ensures r >= 0 ==> s[r] == c && forall j :: 0 <= j < r ==> s[j] != c
  {
    if s == [] then -1
    else if s[0] == c then 0
    else
      var r := FirstIndex(s[1..], c);
      if r < 0 then -1 else r + 1
  }

  /** The first `c` is at `k` when `s[k]` is one and nothing before it is. */
  lemma FirstIndexAt(s: string, c: char, k: nat)
    requires k < |s| && s[k] == c
    requires forall j :: 0 <= j < k ==> s[j] != c
    ensures FirstIndex(s, c) == k
  {
  }

  /** The pieces of `s` between occurrences of `sep`. */
  function Split(s: string, sep: char): (parts: seq<string>)
    ensures |parts| >= 1
  {
    if s == [] then [[]]
    else
      var rest := Split(s[1..], sep);
      if s[0] == sep then [[]] + rest else [[s[0]] + rest[0]] + rest[1..]
  }

  /** A query field `name=value` (split at the first `=`; no `=` means an empty value). */
  function Field(s: string): Param {
    var i := FirstIndex(s, '=');
    if i < 0 then Param(s, "") else Param(s[..i], s[i + 1..])
  }

  function Fields(parts: seq<string>): (r: seq<Param>)
    ensures |r| == |parts|
  {
    seq(|parts|, i requires 0 <= i < |parts| => Field(parts[i]))
  }

  /**
   * What a server receives of `url`: the text before the first `#`, since a
   * client keeps the fragment to itself.
   */
  function BeforeFragment(url: string): (r: string)
    ensures '#' !in r
    ensures '#' !in url ==> r == url
    ensures |r| <= |url| && r == url[..|r|]
  {
    var h := FirstIndex(url, '#');
    if h < 0 then url
    else
      assert forall c :: c in url[..h] ==> exists j :: 0 <= j < h && url[j] == c;
      url[..h]
  }

  /** The method path and the parameters a server reads from `url`. */
  function ParseEndpoint(url: string): Option<(string, seq<Param>)> {
    var received := BeforeFragment(url);
    if |received| < |Root| || received[..|Root|] != Root then None
    else
      var rest := received[|Root|..];
      var q := FirstIndex(rest, '?');
      if q < 0 then None
      else Some((rest[..q], Fields(Split(rest[q + 1..], '&'))))
  }

  /** A parameter the server reads back as written: no `&` or `#` anywhere, no `=` in its name. */
  predicate Separable(p: Param) {
    '&' !in p.name && '=' !in p.name && '&' !in p.value && '#' !in p.name && '#' !in p.value
  }

  /** No `#` in any name or value. */
  predicate NoFragment(params: seq<Param>) {
    forall i :: 0 <= i < |params| ==> '#' !in params[i].name && '#' !in params[i].value
  }

  lemma {:induction false} SplitWithout(p: string, sep: char)
    requires sep !in p
    ensures Split(p, sep) == [p]
  {
    if p != [] {
      SplitWithout(p[1..], sep);
      assert [p[0]] + p[1..] == p;
    }
  }

  lemma {:induction false} SplitJoined(p: string, sep: char, q: string)
    requires sep !in p
    ensures Split(p + [sep] + q, sep) == [p] + Split(q, sep)
  {
    if p == [] {
      assert p + [sep] + q == [sep] + q;
      assert ([sep] + q)[1..] == q;
    } else {
      var s := p + [sep] + q;
      assert s[1..] == p[1..] + [sep] + q;
      SplitJoined(p[1..], sep, q);
      assert [p[0]] + p[1..] == p;
    }
  }

  lemma FieldOfRender(p: Param)
    requires '=' !in p.name
    ensures Field(Render(p)) == p
  {
    var s := Render(p);
    var k := |p.name|;
    assert s[k] == '=';
    assert s[..k] == p.name;
    FirstIndexAt(s, '=', k);
    assert s[k + 1..] == p.value;
  }

  /** Splitting undoes joining when no part holds the separator. */
  lemma {:induction false} SplitJoinWith(parts: seq<string>, sep: char)
    requires parts != []
    requires forall i :: 0 <= i < |parts| ==> sep !in parts[i]
    ensures Split(JoinWith(parts, sep), sep) == parts
  {
    if |parts| == 1 {
      SplitWithout(parts[0], sep);
    } else {
      SplitJoinWith(parts[1..], sep);
      SplitJoined(parts[0], sep, JoinWith(parts[1..], sep));
      assert [parts[0]] + parts[1..] == parts;
    }
  }

  lemma {:induction false} JoinWithSnoc(parts: seq<string>, x: string, sep: char)
    requires parts != []
    ensures JoinWith(parts + [x], sep) == JoinWith(parts, sep) + [sep] + x
  {
    if |parts| > 1 {
      assert (parts + [x])[1..] == parts[1..] + [x];
      JoinWithSnoc(parts[1..], x, sep);
    }
  }

  /** A URL with one parameter: `root`, path, `?name=value`. */
  lemma EndpointSingle(path: string, p: Param)
    ensures Endpoint(path, [p]) == Root + path + "?" + p.name + "=" + p.value
  {
    assert Rendered([p]) == [Render(p)];
  }

  /** Appending `&name=value` to a URL adds one parameter at the end. */
  lemma EndpointSnoc(path: string, params: seq<Param>, p: Param)
    requires params != []
    ensures Endpoint(path, params + [p]) == Endpoint(path, params) + "&" + p.name + "=" + p.value
  {
    assert Rendered(params + [p]) == Rendered(params) + [Render(p)];
    JoinWithSnoc(Rendered(params), Render(p), '&');
  }

  /** A server finds the method path, then splits the joined parameters at every `&`. */
  lemma ParseEndpointQuery(path: string, params: seq<Param>)
    requires '?' !in path && '#' !in path
    requires NoFragment(params)
    ensures ParseEndpoint(Endpoint(path, params)) == Some((path, Fields(Split(Join(params), '&'))))
  {
    var url := Endpoint(path, params);
    assert '#' !in url by {
      JoinAbsent(params, '#');
      assert '#' !in Root;
      assert url == Root + path + "?" + Join(params);
    }
    assert url[..|Root|] == Root;
    var rest := url[|Root|..];
    assert rest == path + "?" + Join(params);
    var q := |path|;
    assert rest[q] == '?';
    FirstIndexAt(rest, '?', q);
    assert rest[..q] == path;
    assert rest[q + 1..] == Join(params);
  }

  /**
   * A server reads back exactly the path and the parameters the URL was
   * built from, provided the method path has no `?` and no parameter holds a
   * stray `&` (or an `=` in its name).
   */
  lemma ParseEndpointRoundTrip(path: string, params: seq<Param>)
    requires '?' !in path && '#' !in path
    requires params != []
    requires forall i :: 0 <= i < |params| ==> Separable(params[i])
    ensures ParseEndpoint(Endpoint(path, params)) == Some((path, params))
  {
    ParseEndpointQuery(path, params);
    forall i | 0 <= i < |params|
      ensures '&' !in Rendered(params)[i]
    {
      assert Rendered(params)[i] == params[i].name + "=" + params[i].value;
    }
    SplitJoinWith(Rendered(params), '&');
    var parts := Split(Join(params), '&');
    forall i | 0 <= i < |params|
      ensures Field(parts[i]) == params[i]
    {
      FieldOfRender(params[i]);
    }
    assert Fields(parts) == params;
  }

  /**
   * A value that holds `&` is cut in two by the server: it reads more
   * parameters than the URL was built from.
   */
  lemma ParseEndpointStray(path: string, params: seq<Param>, k: nat)
    requires '?' !in path && '#' !in path
    requires NoFragment(params)
    requires k < |params| && '&' in params[k].value
    ensures ParseEndpoint(Endpoint(path, params)).Some?
    ensures |ParseEndpoint(Endpoint(path, params)).value.1| > |params|
  {
    ParseEndpointQuery(path, params);
    SplitCount(Join(params), '&');
    JoinWithOccurrences(Rendered(params), '&', k);
    var p := params[k];
    assert Rendered(params)[k] == (p.name + "=") + p.value;
    OccurrencesAppend(p.name + "=", p.value, '&');
    OccurrencesAbsent(p.value, '&');
  }

  /**
   * A value that holds `#` never reaches the server whole: whatever the
   * server reads, it is not the parameters the URL was built from.
   */
  lemma ParseEndpointFragment(path: string, params: seq<Param>, k: nat)
    requires k < |params| && '#' in params[k].value
    ensures ParseEndpoint(Endpoint(path, params)) != Some((path, params))
  {
    var url := Endpoint(path, params);
    var received := BeforeFragment(url);
    if |received| >= |Root| && received[..|Root|] == Root {
      var rest := received[|Root|..];
      var q := FirstIndex(rest, '?');
      if q >= 0 {
        var query := rest[q + 1..];
        assert '#' !in query by {
          assert forall c :: c in query ==> c in received;
        }
        var parts := Split(query, '&');
        SplitAbsent(query, '&', '#');
        var read := Fields(parts);
        assert |read| <= k || '#' !in read[k].value by {
          if k < |read| {
            FieldAbsent(parts[k], '#');
          }
        }
      }
    }
  }

  /** A character absent from the text is absent from every piece of it. */
  lemma {:induction false} SplitAbsent(s: string, sep: char, c: char)
    requires c !in s
    ensures forall i :: 0 <= i < |Split(s, sep)| ==> c !in Split(s, sep)[i]
  {
    if s != [] {
      assert c !in s[1..] by {
        assert forall x :: x in s[1..] ==> x in s;
      }
      SplitAbsent(s[1..], sep, c);
    }
  }

  /** A character absent from a field's text is absent from its value. */
  lemma FieldAbsent(s: string, c: char)
    requires c !in s
    ensures c !in Field(s).value
  {
    var i := FirstIndex(s, '=');
    if i >= 0 {
      assert forall x :: x in s[i + 1..] ==> x in s;
    }
  }

  /** A character in no name or value, and not a delimiter, is absent from the joined query. */
  lemma JoinAbsent(params: seq<Param>, c: char)
    requires c != '&' && c != '='
    requires forall i :: 0 <= i < |params| ==> c !in params[i].name && c !in params[i].value
    ensures c !in Join(params)
  {
    var parts := Rendered(params);
    forall i | 0 <= i < |parts|
      ensures c !in parts[i]
    {
      assert parts[i] == params[i].name + "=" + params[i].value;
    }
    JoinWithAbsent(parts, '&', c);
  }

  lemma {:induction false} JoinWithAbsent(parts: seq<string>, sep: char, c: char)
    requires c != sep
    requires forall i :: 0 <= i < |parts| ==> c !in parts[i]
    ensures c !in JoinWith(parts, sep)
  {
    if |parts| > 1 {
      JoinWithAbsent(parts[1..], sep, c);
      assert parts[0] == parts[..1][0];
    }
  }

  /** Joining puts one separator between neighbours and keeps those inside each part. */
  lemma {:induction false} JoinWithOccurrences(parts: seq<string>, sep: char, k: nat)
    requires k < |parts|
    ensures Occurrences(JoinWith(parts, sep), sep) >= |parts| - 1 + Occurrences(parts[k], sep)
  {
    if |parts| > 1 {
      var rest := JoinWith(parts[1..], sep);
      OccurrencesAppend(parts[0] + [sep], rest, sep);
      OccurrencesAppend(parts[0], [sep], sep);
      assert [sep][1..] == [];
      if k == 0 {
        JoinWithOccurrences(parts[1..], sep, 0);
      } else {
        JoinWithOccurrences(parts[1..], sep, k - 1);
      }
    }
  }

  lemma {:induction false} OccurrencesAppend(s: string, t: string, c: char)
    ensures Occurrences(s + t, c) == Occurrences(s, c) + Occurrences(t, c)
  {
    if s == [] {
      assert s + t == t;
    } else {
      assert (s + t)[1..] == s[1..] + t;
      OccurrencesAppend(s[1..], t, c);
    }
  }

  /** Every `&` of the text starts a new piece. */
  lemma {:induction false} SplitCount(s: string, sep: char)
    ensures |Split(s, sep)| == Occurrences(s, sep) + 1
  {
    if s != [] {
      SplitCount(s[1..], sep);
    }
  }

  lemma {:induction false} OccurrencesAbsent(s: string, c: char)
    ensures c !in s <==> Occurrences(s, c) == 0
  {
    if s != [] {
      OccurrencesAbsent(s[1..], c);
      assert s == [s[0]] + s[1..];
    }
  }
}
