/**
 * The three representations of a 24-bit colour and the conversions between
 * them: a string of hexadecimal digits (`hex_to_rgb`, `rgb_to_hex`,
 * `is_valid_hex`), an (r, g, b) triple of bytes, and the decimal index
 * produced by `int(hex, 16)` and rendered back by `f"{n:06X}"`.
 */
module HexCodec {

  /** The largest decimal index, 0xFFFFFF. */
  const MAX_DEC: int := 16777215

  type Byte = x: int | 0 <= x < 256
  type Index = n: int | 0 <= n <= MAX_DEC

  datatype Rgb = Rgb(r: Byte, g: Byte, b: Byte)

  /** The decimal index of a colour: r * 65536 + g * 256 + b. */
  function Pack(c: Rgb): Index
  {
    c.r * 65536 + c.g * 256 + c.b
  }

  function Pow16(k: nat): (p: nat)
    ensures p >= 1
  {
    if k == 0 then 1 else 16 * Pow16(k - 1)
  }

  // ---------------------------------------------------------------------
  // Digits

  /** A digit `int(_, 16)` accepts, in either case. */
  predicate IsHexDigit(c: char)
  {
    '0' <= c <= '9' || 'A' <= c <= 'F' || 'a' <= c <= 'f'
  }

  /** A digit that the `X` format specifier emits. */
  predicate IsUpperHexDigit(c: char)
  {
    '0' <= c <= '9' || 'A' <= c <= 'F'
  }

  predicate AllHexDigits(s: string)
  {
    forall i :: 0 <= i < |s| ==> IsHexDigit(s[i])
  }

  /** Only upper-case hexadecimal digits: the form every formatted code takes. */
  predicate IsCanonical(s: string)
  {
    forall i :: 0 <= i < |s| ==> IsUpperHexDigit(s[i])
  }

  function DigitValue(c: char): (v: nat)
    requires IsHexDigit(c)
    ensures v < 16
  {
    if '0' <= c <= '9' then c as int - '0' as int
    else if 'A' <= c <= 'F' then c as int - 'A' as int + 10
    else c as int - 'a' as int + 10
  }

  function DigitChar(v: nat): (c: char)
    requires v < 16
    ensures IsUpperHexDigit(c) && DigitValue(c) == v
  {
    if v < 10 then ('0' as int + v) as char else ('A' as int + v - 10) as char
  }

  /** `str.upper` on one character, for the ASCII letters. */
  function UpperChar(c: char): (u: char)
    ensures IsHexDigit(c) ==> IsUpperHexDigit(u) && DigitValue(u) == DigitValue(c)
    ensures IsUpperHexDigit(c) ==> u == c
  {
    if 'a' <= c <= 'z' then (c as int - 32) as char else c
  }

  /** `str.upper`, for strings whose letters are ASCII. */
  function Upper(s: string): (u: string)
    ensures |u| == |s|
    ensures forall i :: 0 <= i < |s| ==> u[i] == UpperChar(s[i])
  {
    if s == [] then [] else [UpperChar(s[0])] + Upper(s[1..])
  }

  // ---------------------------------------------------------------------
  // `int(s, 16)` and `f"{n:0wX}"`

  /** `int(s, 16)` on a string of hexadecimal digits (the empty string gives 0). */
  function ParseHex(s: string): (n: nat)
    requires AllHexDigits(s)
    ensures n < Pow16(|s|)
  {
    if s == [] then 0
    else ParseHex(s[..|s| - 1]) * 16 + DigitValue(s[|s| - 1])
  }

  /**
   * `f"{n:0{width}X}"`: upper-case hexadecimal, zero-padded to at least
   * `width` digits and longer when `n` needs more.
   */
  function FormatHex(n: nat, width: nat): (s: string)
    ensures IsCanonical(s) && AllHexDigits(s)
    ensures |s| >= 1 && |s| >= width
    ensures ParseHex(s) == n
    ensures width >= 1 && n < Pow16(width) ==> |s| == width
    ensures n >= Pow16(width) ==> s[0] != '0'
    decreases n, width
  {
    if n < 16 && width <= 1 then [DigitChar(n)]
    else
      var prefix := FormatHex(n / 16, if width > 0 then width - 1 else 0);
      var s := prefix + [DigitChar(n % 16)];
      assert s[..|s| - 1] == prefix;
      s
  }

  // ---------------------------------------------------------------------
  // `is_valid_hex`: `re.fullmatch(r"[0-9A-Fa-f]{6}", h)`

  /** The character class `[0-9A-Fa-f]` as the ranges the pattern lists. */
  const HEX_CLASS: seq<(char, char)> := [('0', '9'), ('A', 'F'), ('a', 'f')]

  predicate InClass(c: char, ranges: seq<(char, char)>)
  {
    exists k :: 0 <= k < |ranges| && ranges[k].0 <= c <= ranges[k].1
  }

  /** Does `s` match the pattern `[class]{n}` in full? */
  predicate FullMatchRepeat(s: string, ranges: seq<(char, char)>, n: nat)
  {
    if n == 0 then s == []
    else s != [] && InClass(s[0], ranges) && FullMatchRepeat(s[1..], ranges, n - 1)
  }

  /** `is_valid_hex(s)`: exactly six hexadecimal digits of either case. */
  predicate IsValidHex(s: string)
    ensures IsValidHex(s) <==> |s| == 6 && AllHexDigits(s)
    ensures IsValidHex(s) ==> HasHexPrefix(s)
  {
    FullMatchHexClass(s, 6);
    assert |s| == 6 ==> s[..6] == s;
    FullMatchRepeat(s, HEX_CLASS, 6)
  }

  lemma InHexClass(c: char)
    ensures InClass(c, HEX_CLASS) <==> IsHexDigit(c)
  {
    if IsHexDigit(c) {
      if '0' <= c <= '9' { assert HEX_CLASS[0].0 <= c <= HEX_CLASS[0].1; }
      else if 'A' <= c <= 'F' { assert HEX_CLASS[1].0 <= c <= HEX_CLASS[1].1; }
      else { assert HEX_CLASS[2].0 <= c <= HEX_CLASS[2].1; }
    }
  }

  lemma {:induction false} FullMatchHexClass(s: string, n: nat)
    ensures FullMatchRepeat(s, HEX_CLASS, n) <==> |s| == n && AllHexDigits(s)
    decreases n
  {
    if n > 0 && s != [] {
      InHexClass(s[0]);
      FullMatchHexClass(s[1..], n - 1);
      if AllHexDigits(s) {
        assert forall i :: 0 <= i < |s[1..]| ==> s[1..][i] == s[i + 1];
      }
      if IsHexDigit(s[0]) && AllHexDigits(s[1..]) {
        assert forall i :: 1 <= i < |s| ==> s[i] == s[1..][i - 1];
      }
    }
  }

  // ---------------------------------------------------------------------
  // `hex_to_rgb` and `rgb_to_hex`

  /** What `hex_to_rgb` needs: its first six characters are hexadecimal digits. */
  predicate HasHexPrefix(s: string)
  {
    |s| >= 6 && AllHexDigits(s[..6])
  }

  /**
   * `hex_to_rgb`: the channels are read from `s[0:2]`, `s[2:4]` and `s[4:6]`;
   * any characters after the sixth are ignored.
   */
  function HexToRgb(s: string): (c: Rgb)
    requires HasHexPrefix(s)
  {
    assert forall k :: 0 <= k < 6 ==> s[k] == s[..6][k];
    assert Pow16(2) == 256;
    Rgb(ParseHex(s[0..2]), ParseHex(s[2..4]), ParseHex(s[4..6]))
  }

  /** `rgb_to_hex`, also the inline `f"{r:02X}{g:02X}{b:02X}"`. */
  function RgbToHex(c: Rgb): (s: string)
    ensures |s| == 6 && IsCanonical(s) && AllHexDigits(s) && HasHexPrefix(s)
    ensures HexToRgb(s) == c
  {
    assert Pow16(2) == 256;
    var hr, hg, hb := FormatHex(c.r, 2), FormatHex(c.g, 2), FormatHex(c.b, 2);
    var s := hr + hg + hb;
    assert s[0..2] == hr && s[2..4] == hg && s[4..6] == hb;
    s
  }

  // ---------------------------------------------------------------------
  // The decimal index: `int(hex, 16)` and `f"{n:06X}"`

  /** `int(s.upper(), 16)` for a code that `is_valid_hex` accepted. */
  function HexToIndex(s: string): (n: Index)
    requires IsValidHex(s)
    ensures n == Pack(HexToRgb(s))
  {
    ParseHexIsPack(s);
    ParseHex(s)
  }

  /** Upper-casing keeps a code valid and keeps its value. */
  lemma UpperValid(s: string)
    requires IsValidHex(s)
    ensures IsValidHex(Upper(s)) && IsCanonical(Upper(s))
    ensures HexToIndex(Upper(s)) == HexToIndex(s)
    ensures HexToRgb(Upper(s)) == HexToRgb(s)
  {
    ParseHexUpper(s);
    var c, d := HexToRgb(s), HexToRgb(Upper(s));
    assert HexToIndex(s) == ParseHex(s) == Pack(c);
    assert HexToIndex(Upper(s)) == ParseHex(Upper(s)) == Pack(d);
    PackInjective(c, d);
  }

  /** `f"{n:06X}"` for an index in range. */
  function IndexToHex(n: Index): (s: string)
    ensures |s| == 6 && IsCanonical(s) && IsValidHex(s)
    ensures HexToIndex(s) == n
  {
    var s := FormatHex(n, 6);
    assert Pow16(6) == 16777216;
    s
  }

  // ---------------------------------------------------------------------
  // Properties

  /** The arithmetic step of `ParseHexConcat`, over plain integers. */
  lemma ShiftDigit(n: int, n': int, x: int, p: int, q: int, y: int, y': int, d: int)
    requires n == n' * 16 + d && n' == x * p + y'
    requires y == y' * 16 + d && q == 16 * p
    ensures n == x * q + y
  {
  }

  lemma AllHexConcat(a: string, b: string)
    requires AllHexDigits(a) && AllHexDigits(b)
    ensures AllHexDigits(a + b)
  {
    forall i | 0 <= i < |a + b| ensures IsHexDigit((a + b)[i]) {
      if i < |a| { assert (a + b)[i] == a[i]; } else { assert (a + b)[i] == b[i - |a|]; }
    }
  }

  /** Appending a digit multiplies the value by 16 and adds the digit. */
  lemma ParseHexSnoc(s: string, c: char)
    requires AllHexDigits(s) && IsHexDigit(c)
    ensures AllHexDigits(s + [c]) && ParseHex(s + [c]) == ParseHex(s) * 16 + DigitValue(c)
  {
    AllHexConcat(s, [c]);
    var t := s + [c];
    assert t[..|t| - 1] == s && t[|t| - 1] == c;
  }

  lemma {:induction false} ParseHexConcat(a: string, b: string)
    requires AllHexDigits(a) && AllHexDigits(b)
    ensures AllHexDigits(a + b)
    ensures ParseHex(a + b) == ParseHex(a) * Pow16(|b|) + ParseHex(b)
    decreases |b|
  {
    AllHexConcat(a, b);
    if b == [] {
      assert a + b == a;
    } else {
      var b', c := b[..|b| - 1], b[|b| - 1];
      assert b == b' + [c] && a + b == (a + b') + [c];
      ParseHexConcat(a, b');
      ParseHexSnoc(a + b', c);
      ParseHexSnoc(b', c);
      ShiftDigit(ParseHex(a + b), ParseHex(a + b'), ParseHex(a), Pow16(|b'|), Pow16(|b|),
        ParseHex(b), ParseHex(b'), DigitValue(c));
    }
  }

  /** `int(s, 16)` of a six-digit code is r * 65536 + g * 256 + b of its channels. */
  lemma ParseHexIsPack(s: string)
    requires |s| == 6 && AllHexDigits(s)
    ensures HasHexPrefix(s) && ParseHex(s) == Pack(HexToRgb(s))
  {
    assert s[..6] == s;
    assert s == s[0..2] + s[2..4] + s[4..6];
    assert Pow16(2) == 256;
    ParseHexConcat(s[0..2], s[2..4]);
    ParseHexConcat(s[0..2] + s[2..4], s[4..6]);
  }

  /**
   * `hex_to_rgb` reads the channels whose decimal index is `int(s[:6], 16)`:
   * later characters play no part.
   */
  lemma HexToRgbPack(s: string)
    requires HasHexPrefix(s)
    ensures Pack(HexToRgb(s)) == ParseHex(s[..6])
  {
    var t := s[..6];
    ParseHexIsPack(t);
    assert t[0..2] == s[0..2] && t[2..4] == s[2..4] && t[4..6] == s[4..6];
    assert HexToRgb(t) == HexToRgb(s);
  }

  lemma {:induction false} ParseHexUpper(s: string)
    requires AllHexDigits(s)
    ensures AllHexDigits(Upper(s)) && ParseHex(Upper(s)) == ParseHex(s)
    decreases |s|
  {
    if s != [] {
      var p := s[..|s| - 1];
      assert Upper(s)[..|s| - 1] == Upper(p);
      ParseHexUpper(p);
    }
  }

  /** An upper-case digit is determined by its value. */
  lemma UpperDigitUnique(c: char, e: char)
    requires IsUpperHexDigit(c) && IsUpperHexDigit(e) && DigitValue(c) == DigitValue(e)
    ensures c == e
  {
  }

  /** Formatting the parsed value of hexadecimal digits gives them back, upper-cased. */
  lemma FormatParse(s: string)
    requires AllHexDigits(s) && |s| >= 1
    ensures FormatHex(ParseHex(s), |s|) == Upper(s)
  {
    ParseHexUpper(s);
    var f := FormatHex(ParseHex(s), |s|);
    assert |f| == |s|;
    CanonicalUnique(f, Upper(s));
  }

  /** Two upper-case digit strings of the same length and value are the same string. */
  lemma {:induction false} CanonicalUnique(t: string, u: string)
    requires IsCanonical(t) && IsCanonical(u) && |t| == |u|
    requires ParseHex(t) == ParseHex(u)
    ensures t == u
    decreases |t|
  {
    if t != [] {
      var t', u' := t[..|t| - 1], u[..|u| - 1];
      var x, y := t[|t| - 1], u[|u| - 1];
      DigitSplitUnique(ParseHex(t'), DigitValue(x), ParseHex(u'), DigitValue(y));
      CanonicalUnique(t', u');
      UpperDigitUnique(x, y);
      assert t == t' + [x] && u == u' + [y];
    }
  }

  /** A value splits uniquely into its quotient and remainder by 16. */
  lemma DigitSplitUnique(q: int, d: int, q': int, d': int)
    requires 0 <= d < 16 && 0 <= d' < 16 && q * 16 + d == q' * 16 + d'
    ensures q == q' && d == d'
  {
  }

  /** `rgb_to_hex(*hex_to_rgb(s))` is `s.upper()` for every valid code. */
  lemma RgbHexRoundTrip(s: string)
    requires IsValidHex(s)
    ensures RgbToHex(HexToRgb(s)) == Upper(s)
  {
    assert s == s[0..2] + s[2..4] + s[4..6];
    FormatParse(s[0..2]);
    FormatParse(s[2..4]);
    FormatParse(s[4..6]);
    assert Upper(s) == Upper(s[0..2]) + Upper(s[2..4]) + Upper(s[4..6]);
  }

  /** `f"{int(s, 16):06X}"` is `s.upper()` for every valid code. */
  lemma IndexHexRoundTrip(s: string)
    requires IsValidHex(s)
    ensures IndexToHex(HexToIndex(s)) == Upper(s)
  {
    FormatParse(s);
  }

  lemma SplitByte(p: int, x: Byte, q: int, y: Byte)
    requires p * 256 + x == q * 256 + y
    ensures p == q && x == y
  {
  }

  /** Distinct colours have distinct decimal indexes. */
  lemma PackInjective(c: Rgb, d: Rgb)
    requires Pack(c) == Pack(d)
    ensures c == d
  {
    SplitByte(c.r * 256 + c.g, c.b, d.r * 256 + d.g, d.b);
    SplitByte(c.r, c.g, d.r, d.g);
  }

  /** The channels of `f"{n:06X}"` recombine to `n`. */
  lemma IndexChannels(n: Index)
    ensures Pack(HexToRgb(IndexToHex(n))) == n
  {
    ParseHexIsPack(IndexToHex(n));
  }

  /** The decimal index determines the code, and the code the channels. */
  lemma IndexToHexOfPack(c: Rgb)
    ensures IndexToHex(Pack(c)) == RgbToHex(c)
  {
    var s := RgbToHex(c);
    IndexHexRoundTrip(s);
    assert Upper(s) == s;
  }
}
