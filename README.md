# telegraph-cli in Dafny

A model of the two pieces of the telegra.ph client `telegraph-cli` that do more than
forward calls to libraries, with proofs about them:

* **The endpoint builder.** This is the `Telegraph` object. Each API operation
  (`createAccount`, `editAccountInfo`, `getAccountInfo`, `revokeAccessToken`,
  `createPage`, `editPage`, `getPage`, `getPageList` and the four `getViews` overloads)
  works in two steps:
  * It first runs its argument guards in the source's order. The first failed guard
    throws `IllegalArgumentException`, which the model represents as
    `InvalidArgument(field)`.
  * It then appends the request URL piece by piece to a `StringBuilder`.

  Each builder is a Dafny `method` that appends in the same order. Its `ensures`
  clause ties the result to two declarative descriptions:
  * the operation's ordered guard list (`Guards.Verdict`);
  * the list of query parameters its URL carries (`Query.Endpoint`).

  Lemmas about those two descriptions state the guarantees:
  * which inputs each operation accepts;
  * that a blank token is refused everywhere;
  * that a server parsing the URL recovers the parameters, for the cases where this holds:
    createAccount with an author URL free of `&` and `#`, getViews with a page path free of
    `?` and `#`, and the getAccountInfo fields literal. For the other cases, lemmas show
    how the verbatim values break the query: an `&` adds parameters, and a `#` cuts the
    URL short.
  * that `URLEncoder.encode` can be reversed.
* **The content-node JSON codec.** These are Gson's `NodeSerializer`, `NodeDeserializer`
  and `NodeListDeserializer`. They work on a JSON value tree (`JsonTree.Json`), not on
  text. Telegra.ph content nodes are `ContentNode.Node` values.
  * The serializer and the node deserializer are recursive functions.
  * The list deserializer's `forEach` loop is a method, proved equal to its
    specification function.
  * Lemmas state:
    * the round trip (decoding what was serialized gives back the node or the list);
    * the converse: JSON in the serializer's own shape decodes, and serializing the result
      gives the same JSON back;
    * that JSON validity (no repeated object key) and map-shaped attributes match in
      both directions;
    * the test fixture.

Modules:

| module | contents |
|---|---|
| `Wrappers` | `Option` |
| `JavaText` | Kotlin's `isBlank`, Java's UTF-16 `String.length`, UTF-8 `toByteArray`, and a UTF-8 decoder with a round-trip proof |
| `FormEncoding` | `URLEncoder.encode(s, "UTF-8")`, and its decoder with a round-trip proof |
| `Decimal` | Kotlin `Int` (32-bit wrap-around) and `Int.toString`, and a parser with a round-trip proof |
| `Query` | URL = root + path + `?` + `name=value` pairs joined by `&`, and the server-side reading of such a URL |
| `Guards` | the constants, the validators as ordered rule lists, and their first-failure verdict |
| `Telegraph` | the builders and their properties |
| `JsonTree` | Gson's `JsonElement` tree, `JsonObject.get`, `getAsString` |
| `ContentNode` | `Node` (text or element) |
| `NodeCodec` | the serializer, the deserializers and their properties |

Where the behaviour described for the library differs from its code, the model follows
the code:

* **Year range.** `validateYear` accepts years 2000..21000, not 2000..2100. `MAX_YEAR`
  (2100) appears only in the error message.
* **Content size.** The content limit compares the UTF-8 byte count, multiplied by
  1024 in 32-bit `Int` arithmetic, with `64 * 1024`. Below 2 MiB (2^21 bytes) the effect
  is a 64-byte limit. From 2^21 bytes on the product wraps negative, so every non-blank
  content from 2 MiB up to 4 MiB + 64 bytes passes.
* **Unencoded values.** Several values are appended without encoding:
  * the `author_url` value;
  * the page path and `content` in every builder;
  * the access token in `getPageList`.
* **`editAccountInfo` short name.** The short name looks optional in
  `editAccountInfo`'s signature. However, the account guard refuses a blank short name,
  so `short_name` is always sent.
* **Node deserializer.** Any JSON primitive (number and boolean included) becomes a
  text node. A JSON array or `null` passed to the node deserializer gives `null`, not a
  failure.
* **`getViews` year test.** The test meant for a bad year (3000) is refused because of
  its month, since 3000 is an accepted year.

## Model

| member | source | states |
|---|---|---|
| `JavaText.NotBlankWitness` | requests/src/main/java/pakisan/telegraphcli/requests/Telegraph.kt:81 | a string with one non-whitespace character is not blank for `isBlank` |
| `JavaText.Utf16Length` | requests/src/main/java/pakisan/telegraphcli/requests/Telegraph.kt:81 | Java's `length` lies between the number of characters and twice that number |
| `JavaText.Utf16LengthBmp` | requests/src/main/java/pakisan/telegraphcli/requests/Telegraph.kt:229 | within the Basic Multilingual Plane, `length` is the number of characters |
| `JavaText.Utf8Char` | requests/src/main/java/pakisan/telegraphcli/requests/Telegraph.kt:233-234 | a character takes 1 to 4 UTF-8 bytes, and exactly one when it is ASCII |
| `JavaText.Utf8` | requests/src/main/java/pakisan/telegraphcli/requests/Telegraph.kt:233-234 | `toByteArray(UTF-8)` has between n and 4n bytes for n characters |
| `JavaText.Utf8Append` | requests/src/main/java/pakisan/telegraphcli/requests/Telegraph.kt:233-234 | UTF-8 encoding distributes over concatenation |
| `JavaText.Utf8Ascii` | requests/src/main/java/pakisan/telegraphcli/requests/Telegraph.kt:233-234 | an ASCII string encodes byte for byte |
| `JavaText.Utf8RoundTrip` | requests/src/main/java/pakisan/telegraphcli/requests/Telegraph.kt:233-234 | decoding the UTF-8 bytes of a string gives the string back |
| `FormEncoding.PercentByte` | requests/src/main/java/pakisan/telegraphcli/requests/Telegraph.kt:68 | a byte is escaped as `%` and two hex digits |
| `FormEncoding.PercentBytes` | requests/src/main/java/pakisan/telegraphcli/requests/Telegraph.kt:68 | escaping n bytes gives 3n characters, all URL-safe |
| `FormEncoding.EncodeChar` | requests/src/main/java/pakisan/telegraphcli/requests/Telegraph.kt:68 | every encoded character is URL-safe (unreserved, `+` or `%`) |
| `FormEncoding.Encode` | requests/src/main/java/pakisan/telegraphcli/requests/Telegraph.kt:68 | `URLEncoder.encode` never shortens its input and emits only URL-safe characters |
| `FormEncoding.FormSafeIsNoDelimiter` | requests/src/main/java/pakisan/telegraphcli/requests/Telegraph.kt:68 | no URL-safe character is a query or URL delimiter |
| `FormEncoding.EncodeHasNoDelimiter` | requests/src/main/java/pakisan/telegraphcli/requests/Telegraph.kt:68 | an encoded value holds no `&`, `=`, `?`, `#`, `/`, space, quote, comma, bracket or colon |
| `FormEncoding.EncodeUnreserved` | requests/src/main/java/pakisan/telegraphcli/requests/Telegraph.kt:68 | letters, digits and `.-*_` are left unchanged |
| `FormEncoding.EncodeAppend` | requests/src/main/java/pakisan/telegraphcli/requests/Telegraph.kt:68 | encoding distributes over concatenation |
| `FormEncoding.EncodeDecodesToUtf8` | requests/src/main/java/pakisan/telegraphcli/requests/Telegraph.kt:68 | percent-decoding the encoding gives the UTF-8 bytes of the input |
| `FormEncoding.EncodeRoundTrip` | requests/src/main/java/pakisan/telegraphcli/requests/Telegraph.kt:68 | decoding the encoding gives the input back |
| `FormEncoding.EncodeInjective` | requests/src/main/java/pakisan/telegraphcli/requests/Telegraph.kt:68 | two different strings never encode alike |
| `FormEncoding.EncodeSpaceBetween` | requests/src/test/java/pakisan/telegraphcli/requests/test/account/CreateAccountTest.kt:64 | a space between two unreserved words becomes `+` (as for the author name "Jimmy Hart") |
| `FormEncoding.EncodeAmpersand` | requests/src/main/java/pakisan/telegraphcli/requests/Telegraph.kt:68 | `&` is escaped as `%26` |
| `Decimal.Wrap32` | requests/src/main/java/pakisan/telegraphcli/requests/Telegraph.kt:233-234 | Kotlin `Int` arithmetic: the result is congruent to the true value modulo 2^32, and equal to it when it fits |
| `Decimal.Digits` | requests/src/main/java/pakisan/telegraphcli/requests/Telegraph.kt:323-324 | a natural number renders as at least one digit with no leading zero |
| `Decimal.IntToString` | requests/src/main/java/pakisan/telegraphcli/requests/Telegraph.kt:323-324 | an `Int` renders as digits with an optional leading minus |
| `Decimal.DigitsRoundTrip` | requests/src/main/java/pakisan/telegraphcli/requests/Telegraph.kt:351-354 | the digits of a natural number read back as that number |
| `Decimal.IntToStringRoundTrip` | requests/src/main/java/pakisan/telegraphcli/requests/Telegraph.kt:351-354 | the rendering of any integer parses back to it |
| `Decimal.IntToStringExamples` | requests/src/test/java/pakisan/telegraphcli/requests/test/view/GetViewsTest.kt:31-39 | 2016, 10, 14, 12, 0, 50 and -15 render as the tests spell them |
| `Query.EndpointSingle` | requests/src/main/java/pakisan/telegraphcli/requests/Telegraph.kt:67-68 | a one-parameter URL is root, path, `?`, `name=value` |
| `Query.EndpointSnoc` | requests/src/main/java/pakisan/telegraphcli/requests/Telegraph.kt:69-74 | appending `&name=value` to a URL adds that parameter at the end |
| `Query.FieldOfRender` | requests/src/main/java/pakisan/telegraphcli/requests/Telegraph.kt:68 | `name=value` reads back as the parameter when the name has no `=` |
| `Query.SplitJoinWith` | requests/src/main/java/pakisan/telegraphcli/requests/Telegraph.kt:160 | splitting a joined list at a separator that none of the parts holds gives the parts back |
| `Query.ParseEndpointQuery` | requests/src/main/java/pakisan/telegraphcli/requests/Telegraph.kt:67-74 | with no `#` anywhere, a server reads the path, then the query split at every `&` |
| `Query.ParseEndpointRoundTrip` | requests/src/main/java/pakisan/telegraphcli/requests/Telegraph.kt:67-74 | with no `?` or `#` in the path, and no `&` or `#` in any parameter or `=` in its name, the server reads back exactly the parameters |
| `Query.ParseEndpointStray` | requests/src/main/java/pakisan/telegraphcli/requests/Telegraph.kt:72-74 | a value holding `&` (and no `#` anywhere) makes the server read more parameters than were appended |
| `Query.BeforeFragment` | requests/src/main/java/pakisan/telegraphcli/requests/Telegraph.kt:72-74 | what reaches the server is a prefix of the URL with no `#` in it, the whole URL when it holds none |
| `Query.ParseEndpointFragment` | requests/src/main/java/pakisan/telegraphcli/requests/Telegraph.kt:72-74 | a value holding `#` keeps the server from reading back the parameters that were appended |
| `Query.SplitCount` | requests/src/main/java/pakisan/telegraphcli/requests/Telegraph.kt:67-74 | a split gives one more part than there are separators |
| `Guards.FirstViolation` | requests/src/main/java/pakisan/telegraphcli/requests/Telegraph.kt:80-93 | sequential guards: no violation exactly when every rule holds, otherwise a failed rule's field |
| `Guards.FirstViolationCons` | requests/src/main/java/pakisan/telegraphcli/requests/Telegraph.kt:80-93 | the first rule decides when it fails, and the rest decide otherwise |
| `Guards.VerdictAppend` | requests/src/main/java/pakisan/telegraphcli/requests/Telegraph.kt:207-209 | running one guard group after another is the verdict of their concatenated rules |
| `Guards.ValidateToken` | requests/src/main/java/pakisan/telegraphcli/requests/Telegraph.kt:131-135 | `validateToken` is the one-rule list "token not blank" |
| `Guards.ValidateAccountParamsFollowsRules` | requests/src/main/java/pakisan/telegraphcli/requests/Telegraph.kt:80-93 | `validateAccountParams` checks the short name, then the author name, then the author URL, and stops at the first failure |
| `Guards.ValidatePageParamsFollowsRules` | requests/src/main/java/pakisan/telegraphcli/requests/Telegraph.kt:228-241 | `validatePageParams` checks the title, then the content, then the path |
| `Guards.UnitRuleVerdict` | requests/src/main/java/pakisan/telegraphcli/requests/Telegraph.kt:429-437 | a time unit fails only when it is supplied and out of range |
| `Guards.ValidateTimeUnitsFollowsRules` | requests/src/main/java/pakisan/telegraphcli/requests/Telegraph.kt:427-439 | `validateTimeUnits` checks the supplied year, month and day, in that order, then always the hour |
| `Guards.PlugPasses` | requests/src/main/java/pakisan/telegraphcli/requests/Telegraph.kt:208-209 | the placeholder "plug" passes every check it stands in for |
| `Guards.ShortNameBoundary` | requests/src/main/java/pakisan/telegraphcli/requests/Telegraph.kt:81 | within the Basic Multilingual Plane, a short name is accepted exactly when it is non-blank and at most 32 characters long |
| `Guards.AuthorFieldsBoundary` | requests/src/main/java/pakisan/telegraphcli/requests/Telegraph.kt:85-92 | within the Basic Multilingual Plane, the author name is accepted up to 128 characters and the author URL up to 512, blank included |
| `Guards.TitleBoundary` | requests/src/main/java/pakisan/telegraphcli/requests/Telegraph.kt:229 | within the Basic Multilingual Plane, a title is accepted exactly when it is non-blank and at most 256 characters long |
| `Guards.ContentSizeRule` | requests/src/main/java/pakisan/telegraphcli/requests/Telegraph.kt:233-234 | below the overflow, content is accepted exactly when it is non-blank and at most 64 UTF-8 bytes |
| `Guards.ContentSizeOverflow` | requests/src/main/java/pakisan/telegraphcli/requests/Telegraph.kt:233-234 | content of 2^22 bytes passes because the byte count times 1024 wraps to zero |
| `Guards.ContentSizeWrapBand` | requests/src/main/java/pakisan/telegraphcli/requests/Telegraph.kt:233-234 | from 2^21 bytes up to 4 MiB + 64 bytes, content passes exactly when it is non-blank, whatever its size |
| `Guards.ContentSizeWrapEnd` | requests/src/main/java/pakisan/telegraphcli/requests/Telegraph.kt:233-234 | at 4 MiB + 65 bytes the wrapped product exceeds the limit and the content is refused |
| `Guards.YearBound` | requests/src/main/java/pakisan/telegraphcli/requests/Telegraph.kt:399-403 | 2101 and 21000 are accepted years; 1999 and 21001 are not |
| `Guards.TimeUnitsPassIff` | requests/src/main/java/pakisan/telegraphcli/requests/Telegraph.kt:399-439 | the time units pass exactly when each supplied unit and the hour are in range |
| `Telegraph.AppendFirst` | requests/src/main/java/pakisan/telegraphcli/requests/Telegraph.kt:67-68 | appending `?name=value` after the method path gives the one-parameter URL |
| `Telegraph.AppendNext` | requests/src/main/java/pakisan/telegraphcli/requests/Telegraph.kt:69-71 | appending `&name=value` adds that parameter at the end of the URL's list |
| `Telegraph.AppendAuthor` | requests/src/main/java/pakisan/telegraphcli/requests/Telegraph.kt:215-220 | the author name (encoded) and the author URL (verbatim) are appended only when not blank |
| `Telegraph.AppendPageParams` | requests/src/main/java/pakisan/telegraphcli/requests/Telegraph.kt:212-222 | appends token and title (encoded), author fields, then content (verbatim) and `return_content` |
| `Telegraph.CreateAccount` | requests/src/main/java/pakisan/telegraphcli/requests/Telegraph.kt:64-77 | refuses the first bad account argument; otherwise the URL carries the encoded short name and the non-blank author fields |
| `Telegraph.EditAccountInfo` | requests/src/main/java/pakisan/telegraphcli/requests/Telegraph.kt:109-128 | checks the account arguments, then the token; the URL carries the encoded token, the short name and the non-blank author fields |
| `Telegraph.GetAccountInfo` | requests/src/main/java/pakisan/telegraphcli/requests/Telegraph.kt:149-164 | the loop quotes each field in order; `fields` is sent as a bracketed list only when some field is requested |
| `Telegraph.RevokeAccessToken` | requests/src/main/java/pakisan/telegraphcli/requests/Telegraph.kt:178-186 | refuses a blank token; otherwise the URL carries the encoded token only |
| `Telegraph.CreatePage` | requests/src/main/java/pakisan/telegraphcli/requests/Telegraph.kt:205-225 | checks the token, the author fields, then title and content; the URL carries the page parameters |
| `Telegraph.EditPage` | requests/src/main/java/pakisan/telegraphcli/requests/Telegraph.kt:260-280 | checks the token, title, content and path, then the author fields; the path is appended verbatim after `editPage/` |
| `Telegraph.GetPage` | requests/src/main/java/pakisan/telegraphcli/requests/Telegraph.kt:294-302 | refuses a blank path; otherwise the URL is `getPage/` + path with `return_content` |
| `Telegraph.GetPageList` | requests/src/main/java/pakisan/telegraphcli/requests/Telegraph.kt:317-327 | refuses a blank token; otherwise the URL carries the verbatim token, offset and limit in decimal |
| `Telegraph.GetViews` | requests/src/main/java/pakisan/telegraphcli/requests/Telegraph.kt:345-357 | checks the path, year, month, day and hour; the URL carries all four units in that order |
| `Telegraph.GetViewsByHour` | requests/src/main/java/pakisan/telegraphcli/requests/Telegraph.kt:360-369 | checks the path and hour only; the URL carries only the hour |
| `Telegraph.GetViewsByDayHour` | requests/src/main/java/pakisan/telegraphcli/requests/Telegraph.kt:372-382 | checks path, day and hour; the URL carries day and hour |
| `Telegraph.GetViewsByMonthDayHour` | requests/src/main/java/pakisan/telegraphcli/requests/Telegraph.kt:385-396 | checks path, month, day and hour; the URL carries month, day and hour |
| `Telegraph.ViewsVerdict` | requests/src/main/java/pakisan/telegraphcli/requests/Telegraph.kt:346-347 | the getViews guards are the path check followed by the time-unit checks |
| `Telegraph.BlankTokenRejected` | requests/src/main/java/pakisan/telegraphcli/requests/Telegraph.kt:131-135 | every token-taking operation refuses a blank token; all but editAccountInfo name the token first |
| `Telegraph.CreatePagePassIff` | requests/src/main/java/pakisan/telegraphcli/requests/Telegraph.kt:207-209 | createPage's guards pass exactly when token, author fields, title and content are valid |
| `Telegraph.EditPagePassIff` | requests/src/main/java/pakisan/telegraphcli/requests/Telegraph.kt:262-264 | editPage's guards pass exactly when token, title, content, path and author fields are valid |
| `Telegraph.ViewsPassIff` | requests/src/main/java/pakisan/telegraphcli/requests/Telegraph.kt:346-347 | getPage passes exactly for a non-blank path; getViews also needs each supplied unit and the hour in range |
| `Telegraph.YearTestFailsOnMonth` | requests/src/test/java/pakisan/telegraphcli/requests/test/view/GetViewsTest.kt:88-93 | the request with year 3000 and month 15 is refused for its month, not its year |
| `Telegraph.CreateAccountBare` | requests/src/main/java/pakisan/telegraphcli/requests/Telegraph.kt:67-68 | with blank author fields the URL is `createAccount?short_name=` and the encoded short name |
| `Telegraph.EditAccountInfoAlwaysSendsShortName` | requests/src/main/java/pakisan/telegraphcli/requests/Telegraph.kt:111-118 | whenever editAccountInfo builds a URL, its second parameter is the encoded short name |
| `Telegraph.EncSeparable` | requests/src/main/java/pakisan/telegraphcli/requests/Telegraph.kt:68 | an encoded value can be read back as a query parameter |
| `Telegraph.CreateAccountReadBack` | requests/src/main/java/pakisan/telegraphcli/requests/Telegraph.kt:64-77 | with no `&` or `#` in the author URL, a server reads back exactly the createAccount parameters (the author URL as raw text) |
| `Telegraph.CreateAccountAuthorUrlAmpersand` | requests/src/main/java/pakisan/telegraphcli/requests/Telegraph.kt:72-74 | an author URL holding `&` (and no `#`) makes the server read more parameters than were sent |
| `Telegraph.CreateAccountAuthorUrlFragment` | requests/src/main/java/pakisan/telegraphcli/requests/Telegraph.kt:72-74 | an author URL holding `#` keeps the server from reading back the createAccount parameters |
| `Telegraph.CreatePageContentFragment` | requests/src/main/java/pakisan/telegraphcli/requests/Telegraph.kt:221-222 | content holding `#` keeps the server from reading back the createPage parameters |
| `Telegraph.IntParamSeparable` | requests/src/main/java/pakisan/telegraphcli/requests/Telegraph.kt:351-354 | a decimal value can be read back as a query parameter |
| `Telegraph.GetViewsReadBack` | requests/src/main/java/pakisan/telegraphcli/requests/Telegraph.kt:350-354 | with no `?` or `#` in the path, a server reads back the getViews parameters, and the last one parses back to the hour |
| `Telegraph.FieldsLiteralReadBack` | requests/src/main/java/pakisan/telegraphcli/requests/Telegraph.kt:156-161 | the fields literal is bracketed, splits at commas into the quoted fields, and each decodes back to the requested field |
| `Telegraph.GetViewsExample` | requests/src/test/java/pakisan/telegraphcli/requests/test/view/GetViewsTest.kt:31-39 | getViews(2016, 10, 14, 12) sends year=2016, month=10, day=14, hour=12 |
| `Telegraph.GetPageListDefaults` | requests/src/test/java/pakisan/telegraphcli/requests/test/page/GetPageListTest.kt:31-37 | the default offset and limit are sent as `offset=0` and `limit=50` |
| `JsonTree.Get` | data/src/main/java/pakisan/telegraphcli/data/gson/NodeDeserializer.kt:46-48 | `JsonObject.get` is absent exactly when no member has the key, and in an object it gives that member's value |
| `JsonTree.AsString` | data/src/main/java/pakisan/telegraphcli/data/gson/NodeDeserializer.kt:39 | `getAsString` succeeds on every primitive, gives a string's own text, and throws on null, objects and arrays that do not hold exactly one element |
| `NodeCodec.EncodeNode` | data/src/main/java/pakisan/telegraphcli/data/gson/NodeSerializer.kt:38-49 | text becomes that JSON string; an element becomes an object with exactly `tag` (a string), `attrs` and `children`, in that order, and child i is the encoding of child i |
| `NodeCodec.Serialize` | data/src/main/java/pakisan/telegraphcli/data/gson/NodeSerializer.kt:35-57 | the result is JSON null exactly for a null node; otherwise it is the node's encoding |
| `NodeCodec.DecodeAttrMembers` | data/src/main/java/pakisan/telegraphcli/data/gson/NodeDeserializer.kt:41-47 | the attribute object reads exactly when all its values are primitives, giving the same names in the same order with their string forms |
| `NodeCodec.DecodeNode` | data/src/main/java/pakisan/telegraphcli/data/gson/NodeDeserializer.kt:36-56 | null exactly for arrays and JSON null; a primitive gives a text node with its string form; an object decodes exactly when its `tag` member reads as a string, its `attrs` as a string map and its `children` (if present) as a node list, and the element is built from those three readings (no `children` is the empty list) |
| `NodeCodec.DecodeChildren` | data/src/main/java/pakisan/telegraphcli/data/gson/NodeDeserializer.kt:48 | JSON null children are the empty list; anything else is read by the list deserializer |
| `NodeCodec.DecodeNodeList` | data/src/main/java/pakisan/telegraphcli/data/gson/NodeListDeserializer.kt:36-55 | any non-array, and the empty array, gives the empty list; an array is decoded element-wise |
| `NodeCodec.DecodeItems` | data/src/main/java/pakisan/telegraphcli/data/gson/NodeListDeserializer.kt:44-47 | the list reads exactly when every element decodes to a node; it then has the array's length, and node i is the decoding of element i |
| `NodeCodec.DeserializeNodeList` | data/src/main/java/pakisan/telegraphcli/data/gson/NodeListDeserializer.kt:38-54 | the `forEach` loop that adds one node per element computes `DecodeNodeList` |
| `NodeCodec.AttrsRoundTrip` | data/src/main/java/pakisan/telegraphcli/data/gson/NodeDeserializer.kt:47 | serialized attributes read back as the same list |
| `NodeCodec.RoundTrip` | data/src/test/java/pakisan/telegraphcli/data/test/page/node/NodeTest.kt:72-81 | decoding a serialized node gives the node back |
| `NodeCodec.ChildrenRoundTrip` | data/src/main/java/pakisan/telegraphcli/data/gson/NodeSerializer.kt:46 | an array of serialized children reads back as those children |
| `NodeCodec.ForestRoundTrip` | data/src/test/java/pakisan/telegraphcli/data/test/page/node/NodeTest.kt:84-94 | decoding a serialized node list gives the list back |
| `NodeCodec.EncodeValid` | data/src/main/java/pakisan/telegraphcli/data/gson/NodeSerializer.kt:43-48 | the serializer's JSON repeats no object key exactly when every attribute list of the node has distinct names |
| `NodeCodec.DecodeWellFormed` | data/src/main/java/pakisan/telegraphcli/data/gson/NodeDeserializer.kt:44-50 | a node decoded from JSON that repeats no key has distinct attribute names throughout |
| `NodeCodec.EncodeCanonical` | data/src/main/java/pakisan/telegraphcli/data/gson/NodeSerializer.kt:38-49 | everything the serializer writes is a string or an object with exactly `tag`, `attrs` (strings) and `children` (such JSON), in that order |
| `NodeCodec.DecodeEncode` | data/src/main/java/pakisan/telegraphcli/data/gson/NodeDeserializer.kt:38-51 | JSON of that shape decodes, and serializing the decoded node gives the same JSON back |
| `NodeCodec.ParagraphEncodes` | data/src/test/java/pakisan/telegraphcli/data/test/page/node/NodeTest.kt:47-64 | the test paragraph serializes to the expected tree |
| `NodeCodec.ParagraphDecodes` | data/src/test/java/pakisan/telegraphcli/data/test/page/node/NodeTest.kt:47-64 | the expected tree reads back as the paragraph |
| `NodeCodec.ParagraphListDecodes` | data/src/test/java/pakisan/telegraphcli/data/test/page/node/NodeTest.kt:84-94 | a two-element array of the tree reads back as a list of two paragraphs |

## Left out

- HTTP requests, responses and the `Response` envelope types. The builders return URLs, and sending them is not part of this model.
- `@Synchronized`: each builder is modelled as a single-threaded computation.
- Gson's JSON text formatting and parsing: pretty printing, whitespace and escaping. The codec works on the JSON value tree.
- The reflection-driven Gson wrappers (`GNode`, `GNodeElement`, `GPage` and the others) and the data records (`Account`, `Page`). `NodeElement` is not part of this model. An absent or null `attrs` or `children` is taken as empty.
- Children are decoded with the list deserializer registered, as `GNode` does. A Gson instance without it (as in `GNodeElement`) uses Gson's own collection reader, which this model does not cover.
- NodeCodec.AttrValue: a JSON null attribute value (which Gson stores as a null map entry) is treated as a failure. The same goes for Gson's array-of-pairs map form for `attrs`.
- NodeCodec.EncodeNode: a node value that is neither a string nor a `NodeElement` cannot be represented by the `Node` datatype, so the serializer's `else -> null` branch is not modelled.
- `isBlank` treats as whitespace the characters that `Character.isWhitespace` or `Character.isSpaceChar` accept on a current JDK. JDK-version differences, such as U+180E, are not modelled.
- The source's URL-level tests compare whole URLs. The model states those examples at the parameter-list level (`Telegraph.GetViewsExample`, `Telegraph.GetPageListDefaults`, `Telegraph.CreateAccountBare`), which `Query.Endpoint` renders.
- FormEncoding.Encode: a Dafny `char` is a Unicode scalar value, so strings with an unpaired UTF-16 surrogate are not modelled. Java encodes such a surrogate as `?` (`%3F`).
- FormEncoding.EncodeInjective: holds for strings of scalar values only. On Java strings with unpaired surrogates the encoder is not injective (`"\uD800"` and `"?"` both encode to `%3F`).
- FormEncoding.EncodeRoundTrip: holds for strings of scalar values only, for the same reason.
- JavaText.Utf8: `toByteArray(UTF-8)` on an unpaired surrogate (written as `?`) is not modelled, for the same reason.
- Telegraph.CreateAccountReadBack: the author URL is read back as the raw query text. A server that form-decodes the query would turn `+` into a space and decode `%XY` escapes, and that step is not modelled.
- Query.ParseEndpoint: the server model splits the query at `&` and `=` only. It does not form-decode names or values.
