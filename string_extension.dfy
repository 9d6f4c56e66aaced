/**
 * The `String` and `Optional<String>` extensions: `isNumeric`, `isAlphanumeric(ignoreDiacritics:)`,
 * `percentEscaped()` and `isEmptyOrNil`.
 *
 * Foundation's character sets are modelled on their ASCII part: `decimalDigits` is '0'..'9' and
 * `alphanumerics` is 'A'..'Z', 'a'..'z', '0'..'9'.
 */
module StringExtension {
  import opened Wrappers
  import opened Utf8
  import opened Seqs

  /** A Foundation `CharacterSet`, as its membership test. */
  type CharacterSet = char -> bool

  predicate IsDecimalDigit(c: char) { '0' <= c <= '9' }

  predicate IsAsciiLetter(c: char) { 'A' <= c <= 'Z' || 'a' <= c <= 'z' }

  /** `CharacterSet.alphanumerics`, restricted to ASCII. */
  predicate IsAlphanumericChar(c: char) { IsAsciiLetter(c) || IsDecimalDigit(c) }

  /** `CharacterSet.inverted`. */
  function Inverted(members: CharacterSet): CharacterSet { c => !members(c) }

  /** `rangeOfCharacter(from:)`: where the first character of `s` that lies in `set` is, if any. */
  function RangeOfCharacter(s: string, members: CharacterSet): (r: Option<nat>)
    ensures r.None? <==> forall i :: 0 <= i < |s| ==> !members(s[i])
    ensures r.Some? ==> r.value < |s| && members(s[r.value]) && forall j :: 0 <= j < r.value ==> !members(s[j])
  {
    if s == [] then None
    else if members(s[0]) then Some(0)
    else match RangeOfCharacter(s[1..], members)
      case None => None
      case Some(i) => Some(i + 1)
  }

  /** `isNumeric`: non-empty and free of characters outside `decimalDigits`. */
  function IsNumeric(s: string): (r: bool)
    ensures r <==> s != [] && forall i :: 0 <= i < |s| ==> IsDecimalDigit(s[i])
  {
    s != [] && RangeOfCharacter(s, Inverted(IsDecimalDigit)).None?
  }

  /** The regular-expression class `[^a-zA-Z0-9]`. */
  predicate IsOutsideRegexAlphanumerics(c: char) { !IsAlphanumericChar(c) }

  /**
   * `isAlphanumeric(ignoreDiacritics:)`. The condition reads `(!isEmpty && ignoreDiacritics) ? regex : set`,
   * since `&&` binds tighter than `?:`; so the empty string takes the character-set branch, which finds
   * nothing and answers true.
   */
  function IsAlphanumeric(s: string, ignoreDiacritics: bool): (r: bool)
    ensures s == [] ==> r
    ensures r <==> forall i :: 0 <= i < |s| ==> IsAlphanumericChar(s[i])
  {
    if s != [] && ignoreDiacritics then RangeOfCharacter(s, IsOutsideRegexAlphanumerics).None?
    else RangeOfCharacter(s, Inverted(IsAlphanumericChar)).None?
  }

  /**
   * The set `percentEscaped` lets through: `alphanumerics` plus "-._* ". Percent encoding ignores
   * allowed characters outside 7-bit ASCII, so this ASCII set is the one that takes effect.
   */
  predicate IsAllowed(c: char) { IsAlphanumericChar(c) || c == '-' || c == '.' || c == '_' || c == '*' || c == ' ' }

  /** An upper-case hexadecimal digit. */
  function HexDigit(d: int): (c: char)
    requires 0 <= d < 16
    ensures IsAlphanumericChar(c)
  {
    if d < 10 then (0x30 + d) as char else (0x41 + d - 10) as char
  }

  /** "%XX" for one byte. */
  function PercentEncodeByte(b: byte): string
  {
    ['%', HexDigit(b as int / 16), HexDigit(b as int % 16)]
  }

  function PercentEncodeBytes(bs: seq<byte>): string
  {
    if bs == [] then [] else PercentEncodeByte(bs[0]) + PercentEncodeBytes(bs[1..])
  }

  /** What `addingPercentEncoding` makes of one character. */
  function EncodeCharacter(c: char, allowed: CharacterSet): string
  {
    if allowed(c) then [c] else PercentEncodeBytes(EncodeChar(c))
  }

  /** `addingPercentEncoding(withAllowedCharacters:)`: characters outside `allowed` become their UTF-8 bytes as %XX. */
  function AddingPercentEncoding(s: string, allowed: CharacterSet): string
  {
    FlatMap((c: char) => EncodeCharacter(c, allowed), s)
  }

  /** `replacingOccurrences(of:with:)` for a one-character target and replacement. */
  function ReplacingOccurrences(s: string, target: char, replacement: char): string
  {
    if s == [] then []
    else [if s[0] == target then replacement else s[0]] + ReplacingOccurrences(s[1..], target, replacement)
  }

  /** `percentEscaped()`. */
  function PercentEscaped(s: string): string
  {
    ReplacingOccurrences(AddingPercentEncoding(s, IsAllowed), ' ', '+')
  }

  /** `Optional<String>.isEmptyOrNil`. */
  function IsEmptyOrNil(s: Option<string>): (r: bool)
    ensures r <==> s == None || s == Some("")
  {
    match s
    case None => true
    case Some(v) => v == []
  }

  // ---------------------------------------------------------------------------------------------
  // What `percentEscaped` does to each character

  lemma {:induction false} ReplacingOccurrencesAppend(s: string, t: string, target: char, replacement: char)
    ensures ReplacingOccurrences(s + t, target, replacement)
         == ReplacingOccurrences(s, target, replacement) + ReplacingOccurrences(t, target, replacement)
  {
    if s == [] {
      assert s + t == t;
    } else {
      var st := s + t;
      assert st[0] == s[0];
      assert st[1..] == s[1..] + t;
      ReplacingOccurrencesAppend(s[1..], t, target, replacement);
      assert ReplacingOccurrences(st, target, replacement)
          == [if s[0] == target then replacement else s[0]] + ReplacingOccurrences(s[1..] + t, target, replacement);
    }
  }

  lemma AddingPercentEncodingAppend(s: string, t: string, allowed: CharacterSet)
    ensures AddingPercentEncoding(s + t, allowed) == AddingPercentEncoding(s, allowed) + AddingPercentEncoding(t, allowed)
  {
    FlatMapAppend((c: char) => EncodeCharacter(c, allowed), s, t);
  }

  lemma {:induction false} PercentEncodeBytesAlphabet(bs: seq<byte>)
    ensures forall i :: 0 <= i < |PercentEncodeBytes(bs)| ==>
      PercentEncodeBytes(bs)[i] == '%' || IsAlphanumericChar(PercentEncodeBytes(bs)[i])
  {
    if bs != [] {
      PercentEncodeBytesAlphabet(bs[1..]);
    }
  }

  lemma {:induction false} ReplacingOccurrencesNoOp(s: string, target: char, replacement: char)
    requires target !in s
    ensures ReplacingOccurrences(s, target, replacement) == s
  {
    if s != [] {
      ReplacingOccurrencesNoOp(s[1..], target, replacement);
      assert s == [s[0]] + s[1..];
    }
  }

  /** `percentEscaped` works character by character. */
  lemma PercentEscapedAppend(s: string, t: string)
    ensures PercentEscaped(s + t) == PercentEscaped(s) + PercentEscaped(t)
  {
    AddingPercentEncodingAppend(s, t, IsAllowed);
    ReplacingOccurrencesAppend(AddingPercentEncoding(s, IsAllowed), AddingPercentEncoding(t, IsAllowed), ' ', '+');
  }

  /**
   * The byte serializer of the WHATWG URL Standard, section 5.2: the unreserved characters
   * (ASCII alphanumerics and "*-._") pass unchanged, a space becomes '+', and every other character
   * becomes its UTF-8 bytes written as %XX.
   */
  lemma PercentEscapedChar(c: char)
    ensures IsAllowed(c) && c != ' ' ==> PercentEscaped([c]) == [c]
    ensures c == ' ' ==> PercentEscaped([c]) == "+"
    ensures !IsAllowed(c) ==> PercentEscaped([c]) == PercentEncodeBytes(EncodeChar(c))
  {
    assert [c][1..] == [] && [c][0] == c;
    assert AddingPercentEncoding([], IsAllowed) == [];
    var encoded := AddingPercentEncoding([c], IsAllowed);
    if IsAllowed(c) {
      assert encoded == [c] + [];
      assert ReplacingOccurrences([c], ' ', '+') == [if c == ' ' then '+' else c] + ReplacingOccurrences([], ' ', '+');
    } else {
      assert encoded == PercentEncodeBytes(EncodeChar(c)) + [];
      PercentEncodeBytesAlphabet(EncodeChar(c));
      assert ' ' !in encoded;
      ReplacingOccurrencesNoOp(encoded, ' ', '+');
    }
  }

  /** '+' is not unreserved, so it is escaped and cannot be confused with an encoded space. */
  lemma PlusIsEscaped()
    ensures PercentEscaped("+") == "%2B"
  {
    PercentEscapedChar('+');
    assert EncodeChar('+') == [0x2B];
  }

  /** The output consists of unreserved characters, '+' and '%' only; in particular it holds no space. */
  lemma {:induction false} PercentEscapedAlphabet(s: string)
    ensures forall i :: 0 <= i < |PercentEscaped(s)| ==>
      var c := PercentEscaped(s)[i];
      (IsAllowed(c) && c != ' ') || c == '+' || c == '%'
    ensures ' ' !in PercentEscaped(s)
  {
    if s != [] {
      PercentEscapedAlphabet(s[1..]);
      assert s == [s[0]] + s[1..];
      PercentEscapedAppend([s[0]], s[1..]);
      PercentEscapedChar(s[0]);
      if !IsAllowed(s[0]) {
        PercentEncodeBytesAlphabet(EncodeChar(s[0]));
      }
    }
  }

  // ---------------------------------------------------------------------------------------------
  // Decoding: the application/x-www-form-urlencoded parser of the WHATWG URL Standard, section 5.1

  predicate IsHexByte(b: byte) { 0x30 <= b <= 0x39 || 0x41 <= b <= 0x46 || 0x61 <= b <= 0x66 }

  function HexValue(b: byte): (d: int)
    requires IsHexByte(b)
    ensures 0 <= d < 16
  {
    if b <= 0x39 then b as int - 0x30 else if b <= 0x46 then b as int - 0x41 + 10 else b as int - 0x61 + 10
  }

  /** '+' becomes a space and %XX becomes the byte XX; every other byte stands for itself. */
  function FormDecodeBytes(b: seq<byte>): seq<byte>
    decreases |b|
  {
    if b == [] then []
    else if b[0] == 0x2B then [0x20] + FormDecodeBytes(b[1..])
    else if b[0] == 0x25 && |b| >= 3 && IsHexByte(b[1]) && IsHexByte(b[2]) then
      [(HexValue(b[1]) * 16 + HexValue(b[2])) as byte] + FormDecodeBytes(b[3..])
    else [b[0]] + FormDecodeBytes(b[1..])
  }

  /** Decoding a form-encoded string gives the bytes it stands for. */
  function FormDecode(t: string): seq<byte>
  {
    FormDecodeBytes(Encode(t))
  }

  lemma HexDigitDecodes(d: int)
    requires 0 <= d < 16
    ensures EncodeChar(HexDigit(d)) == [HexDigit(d) as int as byte]
    ensures IsHexByte(HexDigit(d) as int as byte) && HexValue(HexDigit(d) as int as byte) == d
  {
  }

  /** The escape of one byte is three ASCII bytes that decode back to it. */
  lemma EncodedByteDecodes(b: byte, rest: seq<byte>)
    ensures FormDecodeBytes(Encode(PercentEncodeByte(b)) + rest) == [b] + FormDecodeBytes(rest)
  {
    var hi, lo := HexDigit(b as int / 16), HexDigit(b as int % 16);
    var triple := PercentEncodeByte(b);
    var bytes := [0x25 as byte, hi as int as byte, lo as int as byte];
    assert Encode(triple) == bytes by {
      HexDigitDecodes(b as int / 16);
      HexDigitDecodes(b as int % 16);
      assert triple == ['%'] + ([hi] + [lo]);
      EncodeAppend(['%'], [hi] + [lo]);
      EncodeAppend([hi], [lo]);
      assert Encode(['%']) == [0x25];
      assert Encode([hi]) == [hi as int as byte];
      assert Encode([lo]) == [lo as int as byte];
    }
    HexDigitDecodes(b as int / 16);
    HexDigitDecodes(b as int % 16);
    var whole := bytes + rest;
    assert whole[3..] == rest;
    assert (HexValue(hi as int as byte) * 16 + HexValue(lo as int as byte)) as byte == b;
  }

  lemma {:induction false} DecodePercentEncodedBytes(bs: seq<byte>, rest: seq<byte>)
    ensures FormDecodeBytes(Encode(PercentEncodeBytes(bs)) + rest) == bs + FormDecodeBytes(rest)
  {
    if bs != [] {
      var b, more := bs[0], bs[1..];
      var tail := Encode(PercentEncodeBytes(more)) + rest;
      assert Encode(PercentEncodeBytes(bs)) + rest == Encode(PercentEncodeByte(b)) + tail by {
        EncodeAppend(PercentEncodeByte(b), PercentEncodeBytes(more));
      }
      EncodedByteDecodes(b, tail);
      DecodePercentEncodedBytes(more, rest);
      assert bs == [b] + more;
    } else {
      assert Encode(PercentEncodeBytes(bs)) + rest == rest;
    }
  }

  /** Decoding the escape of one character, with anything after it, yields that character's UTF-8 bytes first. */
  lemma DecodeEscapedChar(c: char, rest: seq<byte>)
    ensures FormDecodeBytes(Encode(PercentEscaped([c])) + rest) == EncodeChar(c) + FormDecodeBytes(rest)
  {
    PercentEscapedChar(c);
    assert Encode([c]) == EncodeChar(c);
    if c == ' ' {
      assert Encode("+") == [0x2B];
      assert ([0x2B as byte] + rest)[1..] == rest;
    } else if IsAllowed(c) {
      var b := c as int as byte;
      assert Encode([c]) == [b];
      assert b != 0x2B && b != 0x25;
      assert ([b] + rest)[1..] == rest;
    } else {
      DecodePercentEncodedBytes(EncodeChar(c), rest);
    }
  }

  /** Escaping and encoding a non-empty string splits at its first character. */
  lemma EscapedHeadSplit(s: string)
    requires s != []
    ensures Encode(PercentEscaped(s)) == Encode(PercentEscaped([s[0]])) + Encode(PercentEscaped(s[1..]))
  {
    var c, more := s[0], s[1..];
    assert s == [c] + more;
    PercentEscapedAppend([c], more);
    EncodeAppend(PercentEscaped([c]), PercentEscaped(more));
  }

  /** How the decoding of a split escape composes: the first piece decodes, then the rest. */
  lemma {:induction false} DecodeChain(whole: seq<byte>, head: seq<byte>, tail: seq<byte>, rest: seq<byte>, first: seq<byte>, others: seq<byte>)
    requires whole == head + tail
    requires FormDecodeBytes(head + (tail + rest)) == first + FormDecodeBytes(tail + rest)
    requires FormDecodeBytes(tail + rest) == others + FormDecodeBytes(rest)
    ensures FormDecodeBytes(whole + rest) == (first + others) + FormDecodeBytes(rest)
  {
    assert whole + rest == head + (tail + rest);
  }

  /** Decoding an escaped string, with anything after it, yields the string's UTF-8 bytes first. */
  lemma {:induction false} DecodeEscaped(s: string, rest: seq<byte>)
    ensures FormDecodeBytes(Encode(PercentEscaped(s)) + rest) == Encode(s) + FormDecodeBytes(rest)
  {
    if s != [] {
      var head, tail := Encode(PercentEscaped([s[0]])), Encode(PercentEscaped(s[1..]));
      EscapedHeadSplit(s);
      DecodeEscapedChar(s[0], tail + rest);
      DecodeEscaped(s[1..], rest);
      DecodeChain(Encode(PercentEscaped(s)), head, tail, rest, EncodeChar(s[0]), Encode(s[1..]));
    } else {
      assert Encode(PercentEscaped(s)) + rest == rest;
    }
  }

  /** Round trip: form-decoding `percentEscaped(s)` gives back the UTF-8 bytes of `s`. */
  lemma PercentEscapedRoundTrip(s: string)
    ensures FormDecode(PercentEscaped(s)) == Encode(s)
  {
    DecodeEscaped(s, []);
    assert Encode(PercentEscaped(s)) + [] == Encode(PercentEscaped(s));
  }
}
