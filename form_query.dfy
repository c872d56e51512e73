/**
 * `formatQuery`: a search term encoded with ECMAScript `encodeURIComponent`
 * (ECMA-262, 2015 edition, section 18.2.6.5, via the Encode operation of
 * section 18.2.6.1.1) whose `%20` escapes are then rewritten to `+`, the space
 * convention of application/x-www-form-urlencoded.
 *
 * Characters are Unicode scalar values, so a lone surrogate, the one input on
 * which `encodeURIComponent` throws, cannot be written down here.
 */
module FormQuery {
  import opened Wrappers
  import Text

  type Byte = b: int | 0 <= b < 256

  /** The characters `encodeURIComponent` copies: letters, digits and - _ . ! ~ * ' ( ). */
  predicate IsUnreserved(c: char) {
    || 'A' <= c <= 'Z' || 'a' <= c <= 'z' || '0' <= c <= '9'
    || c == '-' || c == '_' || c == '.' || c == '!' || c == '~'
    || c == '*' || c == '\'' || c == '(' || c == ')'
  }

  predicate IsScalar(n: int) {
    0 <= n < 0xD800 || 0xE000 <= n < 0x11_0000
  }

  predicate IsContinuation(b: Byte) {
    0x80 <= b < 0xC0
  }

  /** The UTF-8 bytes of one character (RFC 3629, section 3). */
  function Utf8(c: char): (bs: seq<Byte>)
    ensures 1 <= |bs| <= 4
    ensures |bs| == 1 <==> c as int < 0x80
  {
    var n := c as int;
    if n < 0x80 then [n]
    else if n < 0x800 then [0xC0 + n / 64, 0x80 + n % 64]
    else if n < 0x1_0000 then [0xE0 + n / 4096, 0x80 + n / 64 % 64, 0x80 + n % 64]
    else [0xF0 + n / 0x4_0000, 0x80 + n / 4096 % 64, 0x80 + n / 64 % 64, 0x80 + n % 64]
  }

  function Utf8Encode(s: string): seq<Byte> {
    if s == [] then [] else Utf8(s[0]) + Utf8Encode(s[1..])
  }

  /** An upper-case hexadecimal digit, as the Encode operation writes it; a decoder reads back `d`. */
  function HexDigit(d: int): (c: char)
    requires 0 <= d < 16
    ensures IsHexDigit(c) && !('a' <= c <= 'f') && HexValue(c) == d
  {
    if d < 10 then ('0' as int + d) as char else ('A' as int + d - 10) as char
  }

  predicate IsHexDigit(c: char) {
    '0' <= c <= '9' || 'A' <= c <= 'F' || 'a' <= c <= 'f'
  }

  function HexValue(c: char): int
    requires IsHexDigit(c)
  {
    if '0' <= c <= '9' then c as int - '0' as int
    else if 'A' <= c <= 'F' then c as int - 'A' as int + 10
    else c as int - 'a' as int + 10
  }

  /** The escape "%XY" of one byte. */
  function Escape(b: Byte): string {
    ['%', HexDigit(b / 16), HexDigit(b % 16)]
  }

  function EscapeAll(bs: seq<Byte>): string {
    if bs == [] then "" else Escape(bs[0]) + EscapeAll(bs[1..])
  }

  function EncodeChar(c: char): string {
    if IsUnreserved(c) then [c] else EscapeAll(Utf8(c))
  }

  /** ECMAScript encodeURIComponent: unreserved characters kept, every other character as escapes of its UTF-8 bytes. */
  function EncodeUriComponent(s: string): string {
    if s == [] then "" else EncodeChar(s[0]) + EncodeUriComponent(s[1..])
  }

  /** The global regular-expression rewrite of "%20": each match, found scanning left to right without overlap, becomes "+". */
  function ReplaceEncodedSpaces(s: string): string {
    if |s| >= 3 && s[..3] == "%20" then "+" + ReplaceEncodedSpaces(s[3..])
    else if s == [] then ""
    else [s[0]] + ReplaceEncodedSpaces(s[1..])
  }

  /**
   * `formatQuery(str)`: `undefined` and the empty string (the falsy inputs) give "",
   * anything else its encoding with `%20` rewritten to `+`.
   */
  function FormatQuery(str: Option<string>): (r: string)
    ensures r == "" <==> str.None? || str.value == ""
  {
    var esc := if str.Some? && str.value != "" then Some(EncodeUriComponent(str.value)) else None;
    if esc.Some? && esc.value != "" then ReplaceEncodedSpaces(esc.value) else ""
  }

  // ---------------------------------------------------------------------------
  // The reference definition, character by character: encodeURIComponent with each
  // space written as "+" (the space convention of form encoding).

  function FormEncodeChar(c: char): string {
    if c == ' ' then "+" else EncodeChar(c)
  }

  function FormEncode(s: string): string {
    if s == [] then "" else FormEncodeChar(s[0]) + FormEncode(s[1..])
  }

  // ---------------------------------------------------------------------------
  // Decoding: "+" back to a space, then percent-decoding, then UTF-8 decoding.

  function Prepend<T>(p: seq<T>, o: Option<seq<T>>): Option<seq<T>> {
    match o
    case None => None
    case Some(t) => Some(p + t)
  }

  /**
   * The bytes a form-encoded string stands for: "+" is a space, "%XY" the byte XY,
   * any other character its own UTF-8 bytes; a "%" without two hex digits is malformed.
   */
  function FormDecodeBytes(r: string): Option<seq<Byte>>
    decreases |r|
  {
    if r == [] then Some([])
    else if r[0] == '%' then
      if |r| >= 3 && IsHexDigit(r[1]) && IsHexDigit(r[2]) then
        Prepend([HexValue(r[1]) * 16 + HexValue(r[2])], FormDecodeBytes(r[3..]))
      else None
    else if r[0] == '+' then Prepend([0x20], FormDecodeBytes(r[1..]))
    else Prepend(Utf8(r[0]), FormDecodeBytes(r[1..]))
  }

  /** UTF-8 decoding that rejects truncated, overlong and surrogate sequences. */
  function Utf8Decode(bs: seq<Byte>): Option<string>
    decreases |bs|
  {
    if bs == [] then Some("")
    else if bs[0] < 0x80 then Prepend([bs[0] as char], Utf8Decode(bs[1..]))
    else if 0xC0 <= bs[0] < 0xE0 && |bs| >= 2 && IsContinuation(bs[1]) then
      var n := (bs[0] as int - 0xC0) * 64 + (bs[1] as int - 0x80);
      if 0x80 <= n then Prepend([n as char], Utf8Decode(bs[2..])) else None
    else if 0xE0 <= bs[0] < 0xF0 && |bs| >= 3 && IsContinuation(bs[1]) && IsContinuation(bs[2]) then
      var n := ((bs[0] as int - 0xE0) * 64 + (bs[1] as int - 0x80)) * 64 + (bs[2] as int - 0x80);
      if 0x800 <= n && IsScalar(n) then Prepend([n as char], Utf8Decode(bs[3..])) else None
    else if 0xF0 <= bs[0] < 0xF8 && |bs| >= 4
            && IsContinuation(bs[1]) && IsContinuation(bs[2]) && IsContinuation(bs[3]) then
      var n := (((bs[0] as int - 0xF0) * 64 + (bs[1] as int - 0x80)) * 64 + (bs[2] as int - 0x80)) * 64
               + (bs[3] as int - 0x80);
      if 0x1_0000 <= n && IsScalar(n) then Prepend([n as char], Utf8Decode(bs[4..])) else None
    else None
  }

  /** Decoding of a whole form-encoded query string. */
  function FormDecode(r: string): Option<string> {
    match FormDecodeBytes(r)
    case None => None
    case Some(bs) => Utf8Decode(bs)
  }

  // ---------------------------------------------------------------------------
  // formatQuery agrees with form encoding.

  /** The rewrite passes one escape: "%20" becomes "+", any other escape is kept. */
  lemma {:induction false} ReplaceAfterEscape(b: Byte, rest: string)
    ensures ReplaceEncodedSpaces(Escape(b) + rest)
         == (if b == 0x20 then "+" else Escape(b)) + ReplaceEncodedSpaces(rest)
  {
    var s := Escape(b) + rest;
    var h1, h2 := HexDigit(b / 16), HexDigit(b % 16);
    assert s[..3] == Escape(b);
    if b != 0x20 {
      assert s[..3] != "%20";
      var s1, s2 := [h1, h2] + rest, [h2] + rest;
      assert s[1..] == s1 && s1[1..] == s2 && s2[1..] == rest;
      assert ReplaceEncodedSpaces(s) == ['%'] + ReplaceEncodedSpaces(s1);
      assert ReplaceEncodedSpaces(s1) == [h1] + ReplaceEncodedSpaces(s2) by {
        assert s1[0] == h1 != '%';
      }
      assert ReplaceEncodedSpaces(s2) == [h2] + ReplaceEncodedSpaces(rest) by {
        assert s2[0] == h2 != '%';
      }
    } else {
      assert s[3..] == rest;
    }
  }

  lemma {:induction false} ReplaceAfterEscapes(bs: seq<Byte>, rest: string)
    requires 0x20 !in bs
    ensures ReplaceEncodedSpaces(EscapeAll(bs) + rest) == EscapeAll(bs) + ReplaceEncodedSpaces(rest)
  {
    if bs != [] {
      calc {
        ReplaceEncodedSpaces(EscapeAll(bs) + rest);
        { assert EscapeAll(bs) + rest == Escape(bs[0]) + (EscapeAll(bs[1..]) + rest); }
        ReplaceEncodedSpaces(Escape(bs[0]) + (EscapeAll(bs[1..]) + rest));
        { ReplaceAfterEscape(bs[0], EscapeAll(bs[1..]) + rest); }
        Escape(bs[0]) + ReplaceEncodedSpaces(EscapeAll(bs[1..]) + rest);
        { ReplaceAfterEscapes(bs[1..], rest); }
        EscapeAll(bs) + ReplaceEncodedSpaces(rest);
      }
    } else {
      assert EscapeAll(bs) + rest == rest;
    }
  }

  /** Only the space has a UTF-8 encoding that contains the byte 0x20. */
  lemma Utf8NoSpaceByte(c: char)
    requires c != ' '
    ensures 0x20 !in Utf8(c)
  {
  }

  lemma {:induction false} ReplaceAfterChar(c: char, rest: string)
    ensures ReplaceEncodedSpaces(EncodeChar(c) + rest) == FormEncodeChar(c) + ReplaceEncodedSpaces(rest)
  {
    if IsUnreserved(c) {
      assert (EncodeChar(c) + rest)[1..] == rest;
    } else if c == ' ' {
      assert Utf8(c) == [0x20];
      assert EscapeAll(Utf8(c)) == Escape(0x20);
      ReplaceAfterEscape(0x20, rest);
    } else {
      Utf8NoSpaceByte(c);
      ReplaceAfterEscapes(Utf8(c), rest);
    }
  }

  /** Rewriting "%20" to "+" in the output of encodeURIComponent is exactly encoding each space as "+". */
  lemma {:induction false} ReplaceOfEncodeIsFormEncode(s: string)
    ensures ReplaceEncodedSpaces(EncodeUriComponent(s)) == FormEncode(s)
  {
    if s != [] {
      ReplaceAfterChar(s[0], EncodeUriComponent(s[1..]));
      ReplaceOfEncodeIsFormEncode(s[1..]);
    }
  }

  /** formatQuery of any string is its character-by-character encoding with spaces as "+". */
  lemma FormatQueryIsFormEncode(s: string)
    ensures FormatQuery(Some(s)) == FormEncode(s)
  {
    ReplaceOfEncodeIsFormEncode(s);
  }

  /** On letters, digits, the marks - _ . ! ~ * ' ( ) and spaces, formatQuery only turns each space into "+". */
  lemma {:induction false} FormatQueryOfPlainText(s: string)
    requires forall i :: 0 <= i < |s| ==> IsUnreserved(s[i]) || s[i] == ' '
    ensures FormatQuery(Some(s)) == seq(|s|, i requires 0 <= i < |s| => if s[i] == ' ' then '+' else s[i])
  {
    FormatQueryIsFormEncode(s);
    PlainFormEncode(s);
  }

  lemma {:induction false} PlainFormEncode(s: string)
    requires forall i :: 0 <= i < |s| ==> IsUnreserved(s[i]) || s[i] == ' '
    ensures FormEncode(s) == seq(|s|, i requires 0 <= i < |s| => if s[i] == ' ' then '+' else s[i])
  {
    if s != [] {
      PlainFormEncode(s[1..]);
    }
  }

  /** Position `i` of `r` is no space, and a "%" there opens a complete escape other than "%20". */
  ghost predicate SafeAt(r: string, i: int)
    requires 0 <= i < |r|
  {
    r[i] != ' ' && (r[i] == '%' ==> i + 2 < |r| && !(r[i + 1] == '2' && r[i + 2] == '0'))
  }

  ghost predicate IsFormSafe(r: string) {
    forall i :: 0 <= i < |r| ==> SafeAt(r, i)
  }

  lemma FormSafeConcat(a: string, b: string)
    requires IsFormSafe(a) && IsFormSafe(b)
    ensures IsFormSafe(a + b)
  {
    forall i | 0 <= i < |a + b|
      ensures SafeAt(a + b, i)
    {
      if i < |a| {
        assert SafeAt(a, i);
        if a[i] == '%' {
          assert (a + b)[i + 1] == a[i + 1] && (a + b)[i + 2] == a[i + 2];
        }
      } else {
        var j := i - |a|;
        assert SafeAt(b, j);
        if b[j] == '%' {
          assert (a + b)[i + 1] == b[j + 1] && (a + b)[i + 2] == b[j + 2];
        }
      }
    }
  }

  lemma {:induction false} EscapesAreFormSafe(bs: seq<Byte>)
    requires 0x20 !in bs
    ensures IsFormSafe(EscapeAll(bs))
  {
    if bs != [] {
      EscapesAreFormSafe(bs[1..]);
      FormSafeConcat(Escape(bs[0]), EscapeAll(bs[1..]));
    }
  }

  lemma {:induction false} FormEncodeIsFormSafe(s: string)
    ensures IsFormSafe(FormEncode(s))
  {
    if s != [] {
      var c := s[0];
      if c != ' ' && !IsUnreserved(c) {
        Utf8NoSpaceByte(c);
        EscapesAreFormSafe(Utf8(c));
      }
      FormEncodeIsFormSafe(s[1..]);
      FormSafeConcat(FormEncodeChar(c), FormEncode(s[1..]));
    }
  }

  /** The output of formatQuery contains no space and no "%20". */
  lemma FormatQueryHasNoSpace(s: string)
    ensures ' ' !in FormatQuery(Some(s))
    ensures forall k :: !Text.OccursAt(FormatQuery(Some(s)), "%20", k)
  {
    var r := FormatQuery(Some(s));
    FormatQueryIsFormEncode(s);
    FormEncodeIsFormSafe(s);
    forall i | 0 <= i < |r|
      ensures r[i] != ' '
    {
      assert SafeAt(r, i);
    }
    forall k
      ensures !Text.OccursAt(r, "%20", k)
    {
      if 0 <= k && k + 3 <= |r| {
        assert SafeAt(r, k);
        var w := r[k..k + 3];
        assert w[0] == r[k] && w[1] == r[k + 1] && w[2] == r[k + 2];
        assert w != "%20";
      }
    }
  }

  // ---------------------------------------------------------------------------
  // Round trip: "+" to space, percent-decoding and UTF-8 decoding give back the input.

  lemma {:induction false} DecodeEscapes(bs: seq<Byte>, rest: string)
    ensures FormDecodeBytes(EscapeAll(bs) + rest) == Prepend(bs, FormDecodeBytes(rest))
  {
    if bs != [] {
      var r := EscapeAll(bs) + rest;
      var tail := EscapeAll(bs[1..]) + rest;
      assert r == Escape(bs[0]) + tail;
      assert r[0] == '%' && r[1] == HexDigit(bs[0] / 16) && r[2] == HexDigit(bs[0] % 16);
      assert r[3..] == tail;
      assert FormDecodeBytes(r) == Prepend([bs[0]], FormDecodeBytes(tail));
      DecodeEscapes(bs[1..], rest);
      match FormDecodeBytes(rest)
      case None =>
      case Some(t) =>
        assert [bs[0]] + (bs[1..] + t) == bs + t;
    } else {
      assert EscapeAll(bs) + rest == rest;
      assert FormDecodeBytes(rest).Some? ==> bs + FormDecodeBytes(rest).value == FormDecodeBytes(rest).value;
    }
  }

  lemma {:induction false} DecodeFormChar(c: char, rest: string)
    ensures FormDecodeBytes(FormEncodeChar(c) + rest) == Prepend(Utf8(c), FormDecodeBytes(rest))
  {
    if c == ' ' {
      assert (FormEncodeChar(c) + rest)[1..] == rest;
    } else if IsUnreserved(c) {
      assert (FormEncodeChar(c) + rest)[1..] == rest;
    } else {
      DecodeEscapes(Utf8(c), rest);
    }
  }

  lemma {:induction false} DecodeFormBytes(s: string)
    ensures FormDecodeBytes(FormEncode(s)) == Some(Utf8Encode(s))
  {
    if s != [] {
      DecodeFormChar(s[0], FormEncode(s[1..]));
      DecodeFormBytes(s[1..]);
    }
  }

  lemma Utf8DecodeChar(c: char, rest: seq<Byte>)
    ensures Utf8Decode(Utf8(c) + rest) == Prepend([c], Utf8Decode(rest))
  {
    var bs := Utf8(c) + rest;
    var n := c as int;
    if n < 0x80 {
      assert bs[1..] == rest;
    } else if n < 0x800 {
      assert bs[2..] == rest;
    } else if n < 0x1_0000 {
      assert bs[3..] == rest;
      assert (n / 4096) * 64 + n / 64 % 64 == n / 64;
    } else {
      assert bs[4..] == rest;
      assert (n / 0x4_0000) * 64 + n / 4096 % 64 == n / 4096;
      assert (n / 4096) * 64 + n / 64 % 64 == n / 64;
    }
  }

  lemma {:induction false} Utf8RoundTrip(s: string)
    ensures Utf8Decode(Utf8Encode(s)) == Some(s)
  {
    if s != [] {
      Utf8DecodeChar(s[0], Utf8Encode(s[1..]));
      Utf8RoundTrip(s[1..]);
      assert [s[0]] + s[1..] == s;
    }
  }

  /** Mapping "+" back to a space and percent-decoding the output of formatQuery gives back its input. */
  lemma FormatQueryRoundTrip(s: string)
    ensures FormDecode(FormatQuery(Some(s))) == Some(s)
  {
    FormatQueryIsFormEncode(s);
    DecodeFormBytes(s);
    Utf8RoundTrip(s);
  }
}
