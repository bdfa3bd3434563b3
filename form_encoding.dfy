/**
 * `java.net.URLEncoder.encode(s, "UTF-8")`: the
 * application/x-www-form-urlencoded encoding of section 17.13.4.1 of HTML 4.01
 * as the JDK implements it.  Letters, digits and `.`, `-`, `*`, `_` are kept,
 * a space becomes `+`, and every other character becomes one `%XY` triplet
 * (upper-case hex) per byte of its UTF-8 encoding.
 *
 * The partner of the encoder is the decoder a server applies to a query value
 * (`+` is a space, `%XY` a byte, the bytes are UTF-8); decoding an encoded
 * string gives the string back.
 */
module FormEncoding {

  import opened Wrappers
  import opened JavaText

  /** Characters `URLEncoder` leaves as they are (space aside). */
  predicate Unreserved(c: char) {
    || 'a' <= c <= 'z'
    || 'A' <= c <= 'Z'
    || '0' <= c <= '9'
    || c == '.' || c == '-' || c == '*' || c == '_'
  }

  /** Characters that can appear in the encoder's output. */
  predicate FormSafe(c: char) {
    Unreserved(c) || c == '+' || c == '%'
  }

  /** `Character.forDigit(d, 16)` upper-cased, as `URLEncoder` writes it. */
  function HexDigit(d: int): (c: char)
    requires 0 <= d < 16
    ensures Unreserved(c)
  {
    if d < 10 then ('0' as int + d) as char else ('A' as int + d - 10) as char
  }

  /** One byte written as `%XY`. */
  function PercentByte(b: Byte): (r: string)
    ensures |r| == 3 && r[0] == '%'
    ensures Unreserved(r[1]) && Unreserved(r[2])
  {
    ['%', HexDigit(b / 16), HexDigit(b % 16)]
  }

  function PercentBytes(bs: seq<Byte>): (r: string)
    ensures |r| == 3 * |bs|
    ensures forall i :: 0 <= i < |r| ==> FormSafe(r[i])
  {
    if bs == [] then [] else PercentByte(bs[0]) + PercentBytes(bs[1..])
  }

  /** The encoding of one character. */
  function EncodeChar(c: char): (r: string)
    ensures forall i :: 0 <= i < |r| ==> FormSafe(r[i])
  {
    if Unreserved(c) then [c]
    else if c == ' ' then "+"
    else PercentBytes(Utf8Char(c))
  }

  /**
   * `URLEncoder.encode(s, "UTF-8")`.  Its output is made of form-safe
   * characters only, so it never holds a query delimiter.
   */
  function Encode(s: string): (r: string)
    ensures |s| <= |r|
    ensures forall i :: 0 <= i < |r| ==> FormSafe(r[i])
  {
    if s == [] then [] else EncodeChar(s[0]) + Encode(s[1..])
  }

  /** The delimiters of a query string, of a JSON list literal and of a URL. */
  predicate Delimiter(c: char) {
    c in "&=?#/ \",[]:"
  }

  lemma FormSafeIsNoDelimiter(c: char)
    requires FormSafe(c)
    ensures !Delimiter(c)
  {
  }

  /** No delimiter survives encoding. */
  lemma EncodeHasNoDelimiter(s: string)
    ensures forall i :: 0 <= i < |Encode(s)| ==> !Delimiter(Encode(s)[i])
  {
    forall i | 0 <= i < |Encode(s)|
      ensures !Delimiter(Encode(s)[i])
    {
      FormSafeIsNoDelimiter(Encode(s)[i]);
    }
  }

  /** A string of unreserved characters is its own encoding. */
  lemma {:induction false} EncodeUnreserved(s: string)
    requires forall i :: 0 <= i < |s| ==> Unreserved(s[i])
    ensures Encode(s) == s
  {
    if s != [] {
      EncodeUnreserved(s[1..]);
    }
  }

  lemma {:induction false} EncodeAppend(s: string, t: string)
    ensures Encode(s + t) == Encode(s) + Encode(t)
  {
    if s != [] {
      assert (s + t)[1..] == s[1..] + t;
      EncodeAppend(s[1..], t);
    } else {
      assert s + t == t;
    }
  }

  // ---------------------------------------------------------------------------
  // The decoder a server applies to a form-encoded value.

  function HexValue(c: char): Option<int> {
    if '0' <= c <= '9' then Some(c as int - '0' as int)
    else if 'A' <= c <= 'F' then Some(c as int - 'A' as int + 10)
    else if 'a' <= c <= 'f' then Some(c as int - 'a' as int + 10)
    else None
  }

  lemma HexValueOfDigit(d: int)
    requires 0 <= d < 16
    ensures HexValue(HexDigit(d)) == Some(d)
  {
  }

  function Prepend(bs: seq<Byte>, r: Option<seq<Byte>>): Option<seq<Byte>> {
    if r.None? then None else Some(bs + r.value)
  }

  /** The bytes a form-encoded string stands for: `+` a space, `%XY` a byte. */
  function DecodeBytes(t: string): Option<seq<Byte>>
    decreases |t|
  {
    if t == [] then Some([])
    else if t[0] == '+' then Prepend([0x20], DecodeBytes(t[1..]))
    else if t[0] == '%' then
      if |t| < 3 then None
      else
        var hi, lo := HexValue(t[1]), HexValue(t[2]);
        if hi.None? || lo.None? || !(0 <= hi.value < 16 && 0 <= lo.value < 16) then None
        else Prepend([hi.value * 16 + lo.value], DecodeBytes(t[3..]))
    else if t[0] as int < 0x80 then Prepend([t[0] as int], DecodeBytes(t[1..]))
    else None
  }

  /** `URLDecoder.decode(t, "UTF-8")` on the strings the encoder produces. */
  function Decode(t: string): Option<string> {
    var bs := DecodeBytes(t);
    if bs.None? then None else Utf8Decode(bs.value)
  }

  lemma PercentByteDecodes(b: Byte, rest: string)
    ensures DecodeBytes(PercentByte(b) + rest) == Prepend([b], DecodeBytes(rest))
  {
    var t := PercentByte(b) + rest;
    HexValueOfDigit(b / 16);
    HexValueOfDigit(b % 16);
    assert t[1] == HexDigit(b / 16) && t[2] == HexDigit(b % 16);
    assert t[3..] == rest;
  }

  lemma {:induction false} PercentBytesDecode(bs: seq<Byte>, rest: string)
    ensures DecodeBytes(PercentBytes(bs) + rest) == Prepend(bs, DecodeBytes(rest))
  {
    if bs == [] {
      assert PercentBytes(bs) + rest == rest;
      if DecodeBytes(rest).Some? {
        assert [] + DecodeBytes(rest).value == DecodeBytes(rest).value;
      }
    } else {
      var tail := PercentBytes(bs[1..]) + rest;
      assert PercentBytes(bs) + rest == PercentByte(bs[0]) + tail;
      PercentByteDecodes(bs[0], tail);
      PercentBytesDecode(bs[1..], rest);
      var r := DecodeBytes(rest);
      if r.Some? {
        assert [bs[0]] + (bs[1..] + r.value) == bs + r.value;
      }
    }
  }

  lemma EncodeCharDecodes(c: char, rest: string)
    ensures DecodeBytes(EncodeChar(c) + rest) == Prepend(Utf8Char(c), DecodeBytes(rest))
  {
    if Unreserved(c) {
      assert (EncodeChar(c) + rest)[1..] == rest;
    } else if c == ' ' {
      assert (EncodeChar(c) + rest)[1..] == rest;
    } else {
      PercentBytesDecode(Utf8Char(c), rest);
    }
  }

  lemma {:induction false} EncodeDecodesToUtf8(s: string)
    ensures DecodeBytes(Encode(s)) == Some(Utf8(s))
  {
    if s != [] {
      EncodeCharDecodes(s[0], Encode(s[1..]));
      EncodeDecodesToUtf8(s[1..]);
      assert [s[0]] + s[1..] == s;
      Utf8Append([s[0]], s[1..]);
      assert Utf8([s[0]]) == Utf8Char(s[0]) by {
        assert [s[0]][..0] == [];
      }
    }
  }

  /** The encoding is lossless: a server decoding the value gets `s` back. */
  lemma EncodeRoundTrip(s: string)
    ensures Decode(Encode(s)) == Some(s)
  {
    EncodeDecodesToUtf8(s);
    Utf8RoundTrip(s);
  }

  /** Hence two different strings never encode alike. */
  lemma EncodeInjective(s: string, t: string)
    requires Encode(s) == Encode(t)
    ensures s == t
  {
    EncodeRoundTrip(s);
    EncodeRoundTrip(t);
  }

  /**
   * A space between two words of unreserved characters becomes `+`, as in the
   * author name "Jimmy Hart" of the source's account tests.
   */
  lemma EncodeSpaceBetween(first: string, last: string)
    requires forall i :: 0 <= i < |first| ==> Unreserved(first[i])
    requires forall i :: 0 <= i < |last| ==> Unreserved(last[i])
    ensures Encode(first + " " + last) == first + "+" + last
  {
    EncodeUnreserved(first);
    EncodeUnreserved(last);
    assert Encode(" ") == "+" by {
      assert " "[1..] == [];
    }
    EncodeAppend(first, " ");
    EncodeAppend(first + " ", last);
  }

  /** An ampersand is escaped, so it cannot end a query parameter. */
  lemma EncodeAmpersand()
    ensures Encode("a&b") == "a%26b"
  {
    assert "a&b" == "a" + "&" + "b";
    EncodeAppend("a" + "&", "b");
    EncodeAppend("a", "&");
    EncodeUnreserved("a");
    EncodeUnreserved("b");
    assert Encode("&") == EncodeChar('&') + Encode([]);
    assert Utf8Char('&') == [0x26];
    assert PercentBytes([0x26]) == PercentByte(0x26) + PercentBytes([]);
  }
}
