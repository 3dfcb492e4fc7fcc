/**
 * The integer colour transforms: the negative of a decimal index, the mix of
 * two colours (`mix_colors`), the gradient between two colours
 * (`generate_gradient`), the harmony scheme of a colour (`generate_scheme`)
 * and the scheme of a drawn random base (`generate_random_scheme`), together
 * with the names of the files their results are exported to.
 */
module ColorMath {
  import opened HexCodec
  import opened DecimalText

  /** `v` lies between `a` and `b`, whichever is the larger. */
  predicate Between(v: int, a: int, b: int)
  {
    (a <= v <= b) || (b <= v <= a)
  }

  function Min(x: int, y: int): int { if x <= y then x else y }
  function Max(x: int, y: int): int { if x >= y then x else y }

  /** `clamp_color`: `max(0, min(255, val))`. */
  function Clamp(v: int): (c: Byte)
    ensures 0 <= v <= 255 ==> c == v
    ensures v > 255 ==> c == 255
    ensures v < 0 ==> c == 0
  {
    Max(0, Min(255, v))
  }

  /** 255 minus every channel. */
  function Complement(c: Rgb): Rgb
  {
    Rgb(255 - c.r, 255 - c.g, 255 - c.b)
  }

  lemma ComplementInvolution(c: Rgb)
    ensures Complement(Complement(c)) == c
  {
  }

  // ---------------------------------------------------------------------
  // The negative

  /**
   * The negative of a decimal index, `MAX_DEC - n`: it is the index of the
   * colour whose every channel is 255 minus the original's.
   */
  function Negative(n: Index): (m: Index)
    ensures HexToRgb(IndexToHex(m)) == Complement(HexToRgb(IndexToHex(n)))
  {
    var m := MAX_DEC - n;
    NegativeChannels(n, m);
    m
  }

  lemma NegativeChannels(n: Index, m: Index)
    requires m == MAX_DEC - n
    ensures HexToRgb(IndexToHex(m)) == Complement(HexToRgb(IndexToHex(n)))
  {
    var c, d := HexToRgb(IndexToHex(n)), HexToRgb(IndexToHex(m));
    IndexChannels(n);
    IndexChannels(m);
    assert Pack(c) == n && Pack(d) == m;
    assert Pack(Complement(c)) == MAX_DEC - Pack(c);
    PackInjective(d, Complement(c));
  }

  lemma NegativeInvolution(n: Index)
    ensures Negative(Negative(n)) == n
  {
  }

  /** `f"{MAX_DEC - int(h, 16):06X}"`, the negative of a valid code. */
  function NegativeHex(h: string): (neg: string)
    requires IsValidHex(h)
    ensures IsValidHex(neg) && IsCanonical(neg)
    ensures HexToRgb(neg) == Complement(HexToRgb(h))
  {
    IndexHexRoundTrip(h);
    UpperValid(h);
    IndexToHex(Negative(HexToIndex(h)))
  }

  // ---------------------------------------------------------------------
  // Mixing

  /** The channel-wise floor average `(a + b) // 2`. */
  function MixRgb(a: Rgb, b: Rgb): (m: Rgb)
    ensures Between(m.r, a.r, b.r) && Between(m.g, a.g, b.g) && Between(m.b, a.b, b.b)
    ensures 2 * m.r <= a.r + b.r <= 2 * m.r + 1
    ensures 2 * m.g <= a.g + b.g <= 2 * m.g + 1
    ensures 2 * m.b <= a.b + b.b <= 2 * m.b + 1
  {
    Rgb((a.r + b.r) / 2, (a.g + b.g) / 2, (a.b + b.b) / 2)
  }

  /** What `mix_colors` computes: the mixed code, its negative and the export file name. */
  datatype Mix = Mix(mixed: string, negative: string, exportName: string)

  function MixFilename(hex1: string, hex2: string): string
  {
    "hexplorer_mix_" + hex1 + "_" + hex2 + ".json"
  }

  /**
   * `mix_colors(hex1, hex2)`. Only the first six characters of each code are
   * read, so a longer second operand is mixed by its leading six digits.
   */
  function MixColors(hex1: string, hex2: string): (m: Mix)
    requires HasHexPrefix(hex1) && HasHexPrefix(hex2)
    ensures IsValidHex(m.mixed) && IsCanonical(m.mixed)
    ensures HexToRgb(m.mixed) == MixRgb(HexToRgb(hex1), HexToRgb(hex2))
    ensures IsValidHex(m.negative) && IsCanonical(m.negative)
    ensures HexToRgb(m.negative) == Complement(HexToRgb(m.mixed))
    ensures m.exportName == MixFilename(hex1, hex2)
  {
    var mixed := RgbToHex(MixRgb(HexToRgb(hex1), HexToRgb(hex2)));
    Mix(mixed, NegativeHex(mixed), MixFilename(hex1, hex2))
  }

  lemma MixCommutative(hex1: string, hex2: string)
    requires HasHexPrefix(hex1) && HasHexPrefix(hex2)
    ensures MixColors(hex1, hex2).mixed == MixColors(hex2, hex1).mixed
    ensures MixColors(hex1, hex2).negative == MixColors(hex2, hex1).negative
  {
  }

  /** Mixing a code with itself gives the code back, upper-cased. */
  lemma MixSelf(h: string)
    requires IsValidHex(h)
    ensures MixColors(h, h).mixed == Upper(h)
  {
    RgbHexRoundTrip(h);
  }

  /** The channels of a code given as its three digit pairs. */
  lemma CodeChannels(hr: string, hg: string, hb: string, c: Rgb)
    requires |hr| == 2 && |hg| == 2 && |hb| == 2
    requires AllHexDigits(hr) && AllHexDigits(hg) && AllHexDigits(hb)
    requires ParseHex(hr) == c.r && ParseHex(hg) == c.g && ParseHex(hb) == c.b
    ensures IsValidHex(hr + hg + hb) && HexToRgb(hr + hg + hb) == c
  {
    var h := hr + hg + hb;
    assert h[0..2] == hr && h[2..4] == hg && h[4..6] == hb;
    assert AllHexDigits(h) by {
      forall i | 0 <= i < 6 ensures IsHexDigit(h[i]) {
        if i < 2 { assert h[i] == hr[i]; }
        else if i < 4 { assert h[i] == hg[i - 2]; }
        else { assert h[i] == hb[i - 4]; }
      }
    }
  }

  lemma ParsePair(h: string, v: nat)
    requires |h| == 2 && AllHexDigits(h) && DigitValue(h[0]) * 16 + DigitValue(h[1]) == v
    ensures ParseHex(h) == v
  {
    assert h[..1][..0] == [];
  }

  lemma RedAndBlueChannels()
    ensures HasHexPrefix("FF0000") && HexToRgb("FF0000") == Rgb(255, 0, 0)
    ensures HasHexPrefix("0000FF") && HexToRgb("0000FF") == Rgb(0, 0, 255)
  {
    ParsePair("FF", 255);
    ParsePair("00", 0);
    CodeChannels("FF", "00", "00", Rgb(255, 0, 0));
    assert "FF" + "00" + "00" == "FF0000";
    CodeChannels("00", "00", "FF", Rgb(0, 0, 255));
    assert "00" + "00" + "FF" == "0000FF";
  }

  lemma PurpleCode()
    ensures RgbToHex(Rgb(127, 0, 127)) == "7F007F"
  {
    assert FormatHex(127, 2) == "7F";
    assert FormatHex(0, 2) == "00";
    assert "7F" + "00" + "7F" == "7F007F";
  }

  /** Red and blue mix to `7F007F`: each half of 255 is floored to 127. */
  lemma MixRedBlue()
    ensures MixColors("FF0000", "0000FF").mixed == "7F007F"
  {
    RedAndBlueChannels();
    assert MixRgb(Rgb(255, 0, 0), Rgb(0, 0, 255)) == Rgb(127, 0, 127);
    PurpleCode();
  }

  // ---------------------------------------------------------------------
  // Gradients

  lemma MulMonotone(k: int, a: int, b: int)
    requires k > 0 && a <= b
    ensures k * a <= k * b
  {
  }

  /** Division by a positive `k` keeps a value between `lo * k` and `hi * k` between `lo` and `hi`. */
  lemma DivBetween(x: int, k: int, lo: int, hi: int)
    requires k > 0 && lo * k <= x <= hi * k
    ensures lo <= x / k <= hi
  {
    var q := x / k;
    assert q * k <= x < q * k + k;
    if q < lo {
      MulMonotone(k, q + 1, lo);
      assert false;
    }
    if q > hi {
      MulMonotone(k, hi + 1, q);
      assert false;
    }
  }

  lemma MulDiv(m: int, k: int)
    requires k > 0
    ensures (m * k) / k == m
  {
    DivBetween(m * k, k, m, m);
  }

  /** A product `d * i` with `0 <= i <= steps` lies between 0 and `d * steps`. */
  lemma ProductBetween(d: int, i: nat, steps: nat)
    requires i <= steps
    ensures Between(d * i, 0, d * steps)
  {
    if d >= 0 {
      assert d * i <= d * steps by { if d > 0 { MulMonotone(d, i, steps); } }
    } else {
      assert -d * i <= -d * steps by { MulMonotone(-d, i, steps); }
    }
  }

  /** A fraction `i / steps` of a difference `d` lies between 0 and `d`. */
  lemma FractionBetween(d: int, i: nat, steps: nat)
    requires steps >= 1 && i <= steps
    ensures Between((d * i) / steps, 0, d)
  {
    ProductBetween(d, i, steps);
    if d >= 0 {
      DivBetween(d * i, steps, 0, d);
    } else {
      DivBetween(d * i, steps, d, 0);
    }
  }

  /** The interpolated channel stays between the two end channels and meets them at the ends. */
  lemma LerpBetween(a: Byte, b: Byte, i: nat, steps: nat)
    requires steps >= 1 && i <= steps
    ensures var v := a + ((b - a) * i) / steps;
      Between(v, a, b) && (i == 0 ==> v == a) && (i == steps ==> v == b)
  {
    FractionBetween(b - a, i, steps);
    if i == steps {
      MulDiv(b - a, steps);
    }
  }

  /**
   * `int(a + (b - a) * i / steps)`: the value is never negative, so Python's
   * truncation is the floor that `/` computes for a positive divisor.
   */
  function Lerp(a: Byte, b: Byte, i: nat, steps: nat): (v: Byte)
    requires steps >= 1 && i <= steps
    ensures Between(v, a, b)
    ensures i == 0 ==> v == a
    ensures i == steps ==> v == b
  {
    LerpBetween(a, b, i, steps);
    a + ((b - a) * i) / steps
  }

  /**
   * The interpolated channel is the floor of `a + (b - a) * i / steps`: the
   * exact fraction lies in `[v, v + 1)`.
   */
  lemma LerpTruncates(a: Byte, b: Byte, i: nat, steps: nat)
    requires steps >= 1 && i <= steps
    ensures var v := Lerp(a, b, i, steps);
      steps * (v - a) <= (b - a) * i < steps * (v - a) + steps
  {
    var x := (b - a) * i;
    assert x == (x / steps) * steps + x % steps;
  }

  function LerpRgb(c1: Rgb, c2: Rgb, i: nat, steps: nat): Rgb
    requires steps >= 1 && i <= steps
  {
    Rgb(Lerp(c1.r, c2.r, i, steps), Lerp(c1.g, c2.g, i, steps), Lerp(c1.b, c2.b, i, steps))
  }

  /** The code of step `i` of the gradient from `c1` to `c2`. */
  function StepCode(c1: Rgb, c2: Rgb, i: nat, steps: nat): (code: string)
    requires steps >= 1 && i <= steps
    ensures IsValidHex(code) && IsCanonical(code) && HasHexPrefix(code)
    ensures HexToRgb(code) == LerpRgb(c1, c2, i, steps)
  {
    RgbToHex(LerpRgb(c1, c2, i, steps))
  }

  /** The codes `generate_gradient(hex1, hex2, steps)` lists, step 0 to step `steps`. */
  function Gradient(hex1: string, hex2: string, steps: nat): seq<string>
    requires HasHexPrefix(hex1) && HasHexPrefix(hex2) && steps >= 1
  {
    seq(steps + 1, i requires 0 <= i <= steps => StepCode(HexToRgb(hex1), HexToRgb(hex2), i, steps))
  }

  /**
   * A gradient has `steps + 1` valid codes; the first has the channels of
   * `hex1`, the last those of `hex2`, and every channel of every code lies
   * between the channels of the two ends.
   */
  lemma GradientShape(hex1: string, hex2: string, steps: nat)
    requires HasHexPrefix(hex1) && HasHexPrefix(hex2) && steps >= 1
    ensures |Gradient(hex1, hex2, steps)| == steps + 1
    ensures HexToRgb(Gradient(hex1, hex2, steps)[0]) == HexToRgb(hex1)
    ensures HexToRgb(Gradient(hex1, hex2, steps)[steps]) == HexToRgb(hex2)
    ensures forall i :: 0 <= i <= steps ==>
      var c, c1, c2 := HexToRgb(Gradient(hex1, hex2, steps)[i]), HexToRgb(hex1), HexToRgb(hex2);
      IsValidHex(Gradient(hex1, hex2, steps)[i]) && IsCanonical(Gradient(hex1, hex2, steps)[i]) &&
      Between(c.r, c1.r, c2.r) && Between(c.g, c1.g, c2.g) && Between(c.b, c1.b, c2.b)
  {
  }

  /** For valid end codes the gradient starts and ends at the codes themselves, upper-cased. */
  lemma GradientEnds(hex1: string, hex2: string, steps: nat)
    requires IsValidHex(hex1) && IsValidHex(hex2) && steps >= 1
    ensures Gradient(hex1, hex2, steps)[0] == Upper(hex1)
    ensures Gradient(hex1, hex2, steps)[steps] == Upper(hex2)
  {
    GradientShape(hex1, hex2, steps);
    RgbHexRoundTrip(hex1);
    RgbHexRoundTrip(hex2);
  }

  function GradientFilename(hex1: string, hex2: string, steps: nat): string
  {
    "hexplorer_gradient_" + hex1 + hex2 + DecimalString(steps) + ".json"
  }

  /** Two gradients between six-digit codes share a file name only when they coincide. */
  lemma GradientFilenameInjective(a1: string, a2: string, m: nat, b1: string, b2: string, n: nat)
    requires |a1| == |a2| == |b1| == |b2| == 6
    requires GradientFilename(a1, a2, m) == GradientFilename(b1, b2, n)
    ensures a1 == b1 && a2 == b2 && m == n
  {
    var f, g := GradientFilename(a1, a2, m), GradientFilename(b1, b2, n);
    assert f[19..25] == a1 && g[19..25] == b1;
    assert f[25..31] == a2 && g[25..31] == b2;
    assert f[31..|f| - 5] == DecimalString(m) && g[31..|g| - 5] == DecimalString(n);
  }

  lemma AppendKeeps(s: seq<string>, x: string)
    ensures |s + [x]| == |s| + 1 && (s + [x])[|s|] == x
    ensures forall k :: 0 <= k < |s| ==> (s + [x])[k] == s[k]
  {
  }

  /** Appending the code of step `i` to the codes of steps `0` to `i - 1` gives those of `0` to `i`. */
  lemma AppendStepCode(codes: seq<string>, c1: Rgb, c2: Rgb, i: nat, steps: nat)
    requires steps >= 1 && i <= steps && |codes| == i
    requires forall k :: 0 <= k < i ==> codes[k] == StepCode(c1, c2, k, steps)
    ensures |codes + [StepCode(c1, c2, i, steps)]| == i + 1
    ensures forall k :: 0 <= k < i + 1 ==> (codes + [StepCode(c1, c2, i, steps)])[k] == StepCode(c1, c2, k, steps)
  {
    AppendKeeps(codes, StepCode(c1, c2, i, steps));
  }

  /**
   * The loop of `generate_gradient`: one code is appended per step
   * `i` in `range(steps + 1)`.
   */
  method GenerateGradient(hex1: string, hex2: string, steps: nat) returns (codes: seq<string>)
    requires HasHexPrefix(hex1) && HasHexPrefix(hex2) && steps >= 1
    ensures codes == Gradient(hex1, hex2, steps)
    ensures |codes| == steps + 1
    ensures HexToRgb(codes[0]) == HexToRgb(hex1) && HexToRgb(codes[steps]) == HexToRgb(hex2)
  {
    var c1, c2 := HexToRgb(hex1), HexToRgb(hex2);
    codes := [];
    for i := 0 to steps + 1
      invariant |codes| == i
      invariant forall k :: 0 <= k < i ==> codes[k] == StepCode(c1, c2, k, steps)
    {
      AppendStepCode(codes, c1, c2, i, steps);
      codes := codes + [StepCode(c1, c2, i, steps)];
    }
    GradientOfCodes(hex1, hex2, steps, codes);
  }

  /** Codes computed step by step as `generate_gradient` does form the gradient. */
  lemma GradientOfCodes(hex1: string, hex2: string, steps: nat, codes: seq<string>)
    requires HasHexPrefix(hex1) && HasHexPrefix(hex2) && steps >= 1 && |codes| == steps + 1
    requires forall k :: 0 <= k < steps + 1 ==>
      codes[k] == StepCode(HexToRgb(hex1), HexToRgb(hex2), k, steps)
    ensures codes == Gradient(hex1, hex2, steps)
    ensures HexToRgb(codes[0]) == HexToRgb(hex1) && HexToRgb(codes[steps]) == HexToRgb(hex2)
  {
    GradientShape(hex1, hex2, steps);
  }

  // ---------------------------------------------------------------------
  // Harmony schemes

  datatype NamedColor = NamedColor(name: string, color: Rgb)

  /** The entry names in the order both scheme generators list them. */
  const SCHEME_NAMES: seq<string> :=
    ["Complementary", "Analogous 1", "Analogous 2", "Triadic 1", "Triadic 2", "Tetradic 1", "Tetradic 2"]

  function Names(s: seq<NamedColor>): seq<string>
  {
    seq(|s|, k requires 0 <= k < |s| => s[k].name)
  }

  /** `(b, r, g)`: each channel moves one place to the right. */
  function RotateRight(c: Rgb): Rgb { Rgb(c.b, c.r, c.g) }

  /** `(g, b, r)`: each channel moves one place to the left. */
  function RotateLeft(c: Rgb): Rgb { Rgb(c.g, c.b, c.r) }

  lemma RotationsInverse(c: Rgb)
    ensures RotateLeft(RotateRight(c)) == c && RotateRight(RotateLeft(c)) == c
    ensures RotateRight(RotateRight(RotateRight(c))) == c
  {
  }

  /** The seven entries of `generate_scheme` for the colour of `hex_code`. */
  function HarmonyScheme(c: Rgb): (s: seq<NamedColor>)
    ensures |s| == 7 && Names(s) == SCHEME_NAMES
  {
    [ NamedColor("Complementary", Complement(c)),
      NamedColor("Analogous 1", Rgb(c.r, Min(c.g + 30, 255), c.b)),
      NamedColor("Analogous 2", Rgb(c.r, Max(c.g - 30, 0), c.b)),
      NamedColor("Triadic 1", RotateRight(c)),
      NamedColor("Triadic 2", RotateLeft(c)),
      NamedColor("Tetradic 1", Rgb(255 - c.r, 255 - c.g, c.b)),
      NamedColor("Tetradic 2", Rgb(c.r, c.g, 255 - c.b)) ]
  }

  /**
   * What the scheme entries mean: Complementary undoes itself, the two
   * triadic entries undo each other, the analogous entries move only green,
   * by at most 30, stopping at the ends of the byte range, and the tetradic
   * entries complement red and green, or blue only.
   */
  lemma HarmonySchemeProperties(c: Rgb)
    ensures HarmonyScheme(HarmonyScheme(c)[0].color)[0].color == c
    ensures HarmonyScheme(HarmonyScheme(c)[3].color)[4].color == c
    ensures HarmonyScheme(HarmonyScheme(c)[4].color)[3].color == c
    ensures var a := HarmonyScheme(c)[1].color;
      a.r == c.r && a.b == c.b && c.g <= a.g <= c.g + 30 && (a.g == c.g + 30 || a.g == 255)
    ensures var a := HarmonyScheme(c)[2].color;
      a.r == c.r && a.b == c.b && c.g - 30 <= a.g <= c.g && (a.g == c.g - 30 || a.g == 0)
    ensures var comp, t := HarmonyScheme(c)[0].color, HarmonyScheme(c)[5].color;
      t.r == comp.r && t.g == comp.g && t.b == c.b
    ensures var comp, t := HarmonyScheme(c)[0].color, HarmonyScheme(c)[6].color;
      t.r == c.r && t.g == c.g && t.b == comp.b
  {
  }

  /** The scheme of black: white, green 0x1E, and black again (green cannot go below 0). */
  lemma HarmonySchemeOfBlack()
    ensures RgbToHex(HarmonyScheme(Rgb(0, 0, 0))[0].color) == "FFFFFF"
    ensures RgbToHex(HarmonyScheme(Rgb(0, 0, 0))[1].color) == "001E00"
    ensures RgbToHex(HarmonyScheme(Rgb(0, 0, 0))[2].color) == "000000"
  {
    var s := HarmonyScheme(Rgb(0, 0, 0));
    assert s[0].color == Rgb(255, 255, 255) && s[1].color == Rgb(0, 30, 0) && s[2].color == Rgb(0, 0, 0);
    BlackSchemeCodes();
  }

  /** The codes of white, of green 30 and of black. */
  lemma BlackSchemeCodes()
    ensures RgbToHex(Rgb(255, 255, 255)) == "FFFFFF"
    ensures RgbToHex(Rgb(0, 30, 0)) == "001E00"
    ensures RgbToHex(Rgb(0, 0, 0)) == "000000"
  {
    CodeOfBytes(Rgb(255, 255, 255), "FF", "FF", "FF", "FFFFFF");
    CodeOfBytes(Rgb(0, 30, 0), "00", "1E", "00", "001E00");
    CodeOfBytes(Rgb(0, 0, 0), "00", "00", "00", "000000");
  }

  /** The code of a colour whose channels are 255, 30 or 0, spelt out digit by digit. */
  lemma CodeOfBytes(c: Rgb, x: string, y: string, z: string, code: string)
    requires c.r in {0, 30, 255} && c.g in {0, 30, 255} && c.b in {0, 30, 255}
    requires x == ByteCode(c.r) && y == ByteCode(c.g) && z == ByteCode(c.b) && code == x + y + z
    ensures RgbToHex(c) == code
  {
    ByteCodes();
    RgbToHexOfDigits(c, x, y, z, code);
  }

  /** The two-digit codes written out for the channel values 255, 30 and 0. */
  function ByteCode(v: int): string
  {
    if v == 255 then "FF" else if v == 30 then "1E" else "00"
  }

  /** The two-digit codes of the channel values 255, 30 and 0. */
  lemma ByteCodes()
    ensures FormatHex(255, 2) == "FF" && FormatHex(30, 2) == "1E" && FormatHex(0, 2) == "00"
  {
  }

  /** The code of a colour is the concatenation of its channels' two-digit codes. */
  lemma RgbToHexOfDigits(c: Rgb, x: string, y: string, z: string, code: string)
    requires FormatHex(c.r, 2) == x && FormatHex(c.g, 2) == y && FormatHex(c.b, 2) == z
    requires code == x + y + z
    ensures RgbToHex(c) == code
  {
  }

  /**
   * What the scheme of a random base is: the base code has the drawn index;
   * the first five entries are those of `generate_scheme` for the base;
   * "Tetradic 1" repeats Complementary; "Tetradic 2" is Complementary with
   * green raised by 30, stopping at 255.
   */
  predicate IsRandomScheme(baseDec: int, baseHex: string, schemes: seq<NamedColor>)
  {
    && IsValidHex(baseHex) && IsCanonical(baseHex) && HexToIndex(baseHex) == baseDec
    && |schemes| == 7 && Names(schemes) == SCHEME_NAMES
    && schemes[..5] == HarmonyScheme(HexToRgb(baseHex))[..5]
    && schemes[5].color == schemes[0].color
    && var comp, t := schemes[0].color, schemes[6].color;
       t.r == comp.r && t.b == comp.b && comp.g <= t.g <= comp.g + 30 && (t.g == comp.g + 30 || t.g == 255)
  }

  /**
   * `generate_random_scheme` given the drawn base index: the base code, and
   * the scheme filled in entry by entry. Its "Tetradic" entries are not the
   * ones `generate_scheme` computes.
   */
  method GenerateRandomScheme(baseDec: int) returns (baseHex: string, schemes: seq<NamedColor>)
    requires 0 <= baseDec <= MAX_DEC
    ensures IsRandomScheme(baseDec, baseHex, schemes)
  {
    baseHex := IndexToHex(baseDec);
    var c := HexToRgb(baseHex);
    var comp := Complement(c);
    schemes := [NamedColor("Complementary", comp)];
    schemes := schemes + [NamedColor("Analogous 1", Rgb(c.r, Clamp(c.g + 30), c.b))];
    schemes := schemes + [NamedColor("Analogous 2", Rgb(c.r, Clamp(c.g - 30), c.b))];
    schemes := schemes + [NamedColor("Triadic 1", RotateRight(c))];
    schemes := schemes + [NamedColor("Triadic 2", RotateLeft(c))];
    schemes := schemes + [NamedColor("Tetradic 1", comp)];
    schemes := schemes + [NamedColor("Tetradic 2", Rgb(comp.r, Clamp(comp.g + 30), comp.b))];
  }

  /**
   * The tetradic entries of a random scheme in terms of the base colour:
   * the complement, and the complement with green raised by 30 up to 255.
   */
  lemma RandomSchemeTetradic(baseDec: int, baseHex: string, schemes: seq<NamedColor>)
    requires IsRandomScheme(baseDec, baseHex, schemes)
    ensures var c := HexToRgb(baseHex);
      schemes[5].color == Complement(c) &&
      schemes[6].color == Rgb(255 - c.r, Min(255, 285 - c.g), 255 - c.b)
  {
    assert schemes[0] == schemes[..5][0];
  }

  /**
   * The two generators never agree on a tetradic entry: for every base the
   * random scheme's "Tetradic 1" and "Tetradic 2" differ from those of
   * `generate_scheme`, since a channel cannot equal 255 minus itself.
   */
  lemma TetradicRulesDiffer(baseDec: int, baseHex: string, schemes: seq<NamedColor>)
    requires IsRandomScheme(baseDec, baseHex, schemes)
    ensures schemes[5].color != HarmonyScheme(HexToRgb(baseHex))[5].color
    ensures schemes[6].color != HarmonyScheme(HexToRgb(baseHex))[6].color
  {
    RandomSchemeTetradic(baseDec, baseHex, schemes);
    TetradicEntriesDiffer(HexToRgb(baseHex));
  }

  lemma TetradicEntriesDiffer(c: Rgb)
    ensures Complement(c) != HarmonyScheme(c)[5].color
    ensures Rgb(255 - c.r, Min(255, 285 - c.g), 255 - c.b) != HarmonyScheme(c)[6].color
  {
  }

  function ExportFilename(hex: string): string
  {
    "hexplorer_" + hex + ".json"
  }

  /** `export_color` writes distinct codes to distinct files. */
  lemma ExportFilenameInjective(h1: string, h2: string)
    requires ExportFilename(h1) == ExportFilename(h2)
    ensures h1 == h2
  {
    var f := ExportFilename(h1);
    assert f[10..|f| - 5] == h1;
    assert ExportFilename(h2)[10..|f| - 5] == h2;
  }
}
