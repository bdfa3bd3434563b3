/**
 * The pieces of the Java/Kotlin string API that the endpoint builder relies on:
 * `Char.isWhitespace`, `CharSequence.isBlank`, `String.length` (UTF-16 code
 * units) and `String.toByteArray(UTF-8)`.
 *
 * A Dafny `char` is a Unicode scalar value, so a `string` here is a sequence of
 * code points; the Java lengths are computed from it explicitly.
 */
module JavaText {

  import opened Wrappers

  /** An unsigned byte, as produced by a charset encoder. */
  type Byte = b: int | 0 <= b < 256

  /**
   * Kotlin's `Char.isWhitespace()` on the JVM: `Character.isWhitespace` or
   * `Character.isSpaceChar`, i.e. the ASCII controls TAB..CR and FS..US, and
   * the Unicode space, line and paragraph separators.
   */
  predicate IsWhitespace(c: char) {
    var n := c as int;
    || 0x09 <= n <= 0x0D
    || 0x1C <= n <= 0x20
    || n == 0xA0
    || n == 0x1680
    || 0x2000 <= n <= 0x200A
    || n == 0x2028 || n == 0x2029
    || n == 0x202F || n == 0x205F
    || n == 0x3000
  }

  /** Kotlin's `isBlank()`: empty, or made of whitespace only. */
  predicate IsBlank(s: string) {
    forall i :: 0 <= i < |s| ==> IsWhitespace(s[i])
  }

  /** A string with a non-whitespace character is not blank. */
  lemma NotBlankWitness(s: string, i: nat)
    requires i < |s| && !IsWhitespace(s[i])
    ensures !IsBlank(s)
  {
  }

  /** Number of UTF-16 code units of one code point. */
  function Utf16Units(c: char): (n: nat)
    ensures n == 1 || n == 2
    ensures n == 2 <==> c as int >= 0x10000
  {
    if c as int < 0x10000 then 1 else 2
  }

  /** Java's `String.length`: the number of UTF-16 code units. */
  function Utf16Length(s: string): (n: nat)
    ensures |s| <= n <= 2 * |s|
  {
    if s == [] then 0 else Utf16Length(s[..|s| - 1]) + Utf16Units(s[|s| - 1])
  }

  /** A string of Basic Multilingual Plane characters only. */
  predicate InBmp(s: string) {
    forall i :: 0 <= i < |s| ==> s[i] as int < 0x10000
  }

  /** On BMP text Java's length is the number of characters. */
  lemma {:induction false} Utf16LengthBmp(s: string)
    requires InBmp(s)
    ensures Utf16Length(s) == |s|
  {
    if s != [] {
      Utf16LengthBmp(s[..|s| - 1]);
    }
  }

  /** The UTF-8 encoding of one code point (RFC 3629, section 3). */
  function Utf8Char(c: char): (bs: seq<Byte>)
    ensures 1 <= |bs| <= 4
    ensures |bs| == 1 <==> c as int < 0x80
  {
    var n := c as int;
    if n < 0x80 then
      [n]
    else if n < 0x800 then
      [0xC0 + n / 64, 0x80 + n % 64]
    else if n < 0x10000 then
      [0xE0 + n / 4096, 0x80 + (n / 64) % 64, 0x80 + n % 64]
    else
      [0xF0 + n / 262144, 0x80 + (n / 4096) % 64, 0x80 + (n / 64) % 64, 0x80 + n % 64]
  }

  /** `String.toByteArray(Charsets.UTF_8)`. */
  function Utf8(s: string): (bs: seq<Byte>)
    ensures |s| <= |bs| <= 4 * |s|
  {
    if s == [] then [] else Utf8(s[..|s| - 1]) + Utf8Char(s[|s| - 1])
  }

  lemma {:induction false} Utf8Append(s: string, t: string)
    ensures Utf8(s + t) == Utf8(s) + Utf8(t)
  {
    if t == [] {
      assert s + t == s;
    } else {
      var t' := t[..|t| - 1];
      assert (s + t)[..|s + t| - 1] == s + t';
      assert (s + t)[|s + t| - 1] == t[|t| - 1];
      calc {
        Utf8(s + t);
        Utf8(s + t') + Utf8Char(t[|t| - 1]);
        { Utf8Append(s, t'); }
        Utf8(s) + Utf8(t') + Utf8Char(t[|t| - 1]);
        Utf8(s) + Utf8(t);
      }
    }
  }

  /** An ASCII string is its own UTF-8 encoding, byte for character. */
  lemma {:induction false} Utf8Ascii(s: string)
    requires forall i :: 0 <= i < |s| ==> s[i] as int < 0x80
    ensures |Utf8(s)| == |s|
    ensures forall i :: 0 <= i < |s| ==> Utf8(s)[i] == s[i] as int
  {
    if s != [] {
      Utf8Ascii(s[..|s| - 1]);
    }
  }

  /**
   * Decoding of well-formed UTF-8 back to code points: the leading byte says
   * how many continuation bytes follow.  Used to show that `Utf8` loses
   * nothing.
   */
  function Utf8Decode(bs: seq<Byte>): (r: Option<string>)
    decreases |bs|
  {
    if bs == [] then Some([])
    else
      var len := if bs[0] < 0x80 then 1 else if bs[0] < 0xE0 then 2 else if bs[0] < 0xF0 then 3 else 4;
      if |bs| < len then None
      else
        var cp := ScalarOf(bs[..len]);
        var rest := Utf8Decode(bs[len..]);
        if cp.None? || rest.None? then None else Some([cp.value] + rest.value)
  }

  /** The code point held by one complete UTF-8 sequence, if it is a scalar value. */
  function ScalarOf(unit: seq<Byte>): Option<char>
    requires 1 <= |unit| <= 4
  {
    var n := UnitValue(unit);
    if 0 <= n < 0xD800 || 0xE000 <= n < 0x11_0000 then Some(n as char) else None
  }

  /** The number spelled by a leading byte and its continuation bytes. */
  function UnitValue(unit: seq<Byte>): int
    requires 1 <= |unit| <= 4
  {
    var b0: int := unit[0];
    if |unit| == 1 then b0
    else if |unit| == 2 then (b0 - 0xC0) * 64 + Low6(unit[1])
    else if |unit| == 3 then (b0 - 0xE0) * 4096 + Low6(unit[1]) * 64 + Low6(unit[2])
    else (b0 - 0xF0) * 262144 + Low6(unit[1]) * 4096 + Low6(unit[2]) * 64 + Low6(unit[3])
  }

  /** The payload of a continuation byte. */
  function Low6(b: Byte): int {
    b - 0x80
  }

  lemma Utf8CharDecodes(c: char)
    ensures ScalarOf(Utf8Char(c)) == Some(c)
  {
    var n := c as int;
    var q1, r1 := n / 64, n % 64;
    var q2, r2 := q1 / 64, q1 % 64;
    var q3, r3 := q2 / 64, q2 % 64;
    assert n == q1 * 64 + r1;
    assert q1 == q2 * 64 + r2;
    assert q2 == q3 * 64 + r3;
    if n < 0x80 {
    } else if n < 0x800 {
      assert UnitValue(Utf8Char(c)) == q1 * 64 + r1;
    } else if n < 0x10000 {
      assert n / 4096 == q2;
      assert UnitValue(Utf8Char(c)) == q2 * 4096 + r2 * 64 + r1;
    } else {
      assert n / 4096 == q2 && n / 262144 == q3;
      assert UnitValue(Utf8Char(c)) == q3 * 262144 + r3 * 4096 + r2 * 64 + r1;
    }
  }

  /** `Utf8` is lossless: decoding its output gives the string back. */
  lemma {:induction false} Utf8RoundTrip(s: string)
    decreases |s|, 0
    ensures Utf8Decode(Utf8(s)) == Some(s)
  {
    if s != [] {
      Utf8ConsDecodes(s[0], s[1..]);
      assert [s[0]] + s[1..] == s;
    }
  }

  lemma {:induction false} Utf8ConsDecodes(c: char, s: string)
    decreases |s|, 1
    ensures Utf8Decode(Utf8([c] + s)) == Some([c] + s)
  {
    Utf8Append([c], s);
    assert Utf8([c]) == Utf8Char(c) by {
      assert [c][..0] == [];
    }
    var bs := Utf8Char(c) + Utf8(s);
    Utf8CharDecodes(c);
    assert bs[..|Utf8Char(c)|] == Utf8Char(c);
    assert bs[|Utf8Char(c)|..] == Utf8(s);
    Utf8RoundTrip(s);
  }
}
