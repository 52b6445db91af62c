/** Properties of the colour generator that relate several of its operations:
    packing and unpacking, hex parsing against hex writing, the entry points
    against each other, and the generated sequences against a reader that
    recovers the layer and the components from them. */
module ColorsFacts {
  import opened Wrappers
  import opened Text
  import Sgr
  import opened Colors

  // ---------------------------------------------------------------------------
  // Packed integers
  // ---------------------------------------------------------------------------

  /** A number written as a high part and a low byte divides back into them. */
  lemma SplitLowByte(high: int, low: int)
    requires InByteRange(low)
    ensures (high * 256 + low) / 256 == high && (high * 256 + low) % 256 == low
  {
  }

  /** A number written as a high part and two low bytes divides back into them. */
  lemma SplitLowTwoBytes(high: int, low: int)
    requires 0 <= low < 65536
    ensures (high * 65536 + low) / 65536 == high
  {
  }

  /** The packed form of a colour is the byte-wise base-256 reading of it. */
  lemma PackBytes(red: int, green: int, blue: int)
    requires InByteRange(red) && InByteRange(green) && InByteRange(blue)
    ensures PackRgb(red, green, blue) % 256 == blue
    ensures PackRgb(red, green, blue) / 256 % 256 == green
    ensures PackRgb(red, green, blue) / 65536 == red
  {
    var color := PackRgb(red, green, blue);
    assert color == (red * 256 + green) * 256 + blue;
    SplitLowByte(red * 256 + green, blue);
    SplitLowByte(red, green);
    assert color == red * 65536 + (green * 256 + blue);
    SplitLowTwoBytes(red, green * 256 + blue);
  }

  /** Unpacking a packed colour gives back its three components. */
  lemma UnpackPack(red: int, green: int, blue: int)
    requires InByteRange(red) && InByteRange(green) && InByteRange(blue)
    ensures IntToRgb(PackRgb(red, green, blue)) == Ok([red, green, blue])
  {
    var color := PackRgb(red, green, blue);
    var v := IntToRgb(color).value;
    PackBytes(red, green, blue);
    PackBytes(v[0], v[1], v[2]);
    assert v == [v[0], v[1], v[2]];
  }

  /** The packed entry points are the RGB entry points applied to the bytes of
      the packed value, and fail with the packed-range error outside 0..2^24-1. */
  lemma PackedIsRgb(color: int)
    ensures 0 <= color <= MaxPacked ==>
      FgPacked(color) == FgRgb(color / 65536, color / 256 % 256, color % 256) &&
      BgPacked(color) == BgRgb(color / 65536, color / 256 % 256, color % 256)
    ensures !(0 <= color <= MaxPacked) ==>
      FgPacked(color) == Err(IllegalArgument(PackedRangeMessage)) &&
      BgPacked(color) == Err(IllegalArgument(PackedRangeMessage))
  {
    if 0 <= color <= MaxPacked {
      var v := IntToRgb(color).value;
      PackBytes(v[0], v[1], v[2]);
      assert v == [color / 65536, color / 256 % 256, color % 256];
    }
  }

  /** Passing a colour packed or as components makes no difference. */
  lemma PackedOfRgb(red: int, green: int, blue: int)
    requires InByteRange(red) && InByteRange(green) && InByteRange(blue)
    ensures FgPacked(PackRgb(red, green, blue)) == FgRgb(red, green, blue)
    ensures BgPacked(PackRgb(red, green, blue)) == BgRgb(red, green, blue)
  {
    UnpackPack(red, green, blue);
  }

  // ---------------------------------------------------------------------------
  // Hex strings
  // ---------------------------------------------------------------------------

  /** The canonical hex form of a byte: two lower-case digits. */
  function HexByte(v: int): (s: string)
    requires InByteRange(v)
    ensures |s| == 2 && AllHexDigits(s)
    ensures 16 * HexDigitValue(s[0]) + HexDigitValue(s[1]) == v
  {
    [HexDigitChar(v / 16), HexDigitChar(v % 16)]
  }

  /** The canonical '#rrggbb' form of a colour, lower case. */
  function ToHexColor(red: int, green: int, blue: int): (s: string)
    requires InByteRange(red) && InByteRange(green) && InByteRange(blue)
    ensures MatchesHexColor(s)
  {
    "#" + HexByte(red) + HexByte(green) + HexByte(blue)
  }

  /** A string with its ASCII capitals made lower case. */
  function LowerString(s: string): (l: string)
    ensures |l| == |s|
    ensures forall i :: 0 <= i < |s| ==> l[i] == LowerAscii(s[i])
  {
    seq(|s|, i requires 0 <= i < |s| => LowerAscii(s[i]))
  }

  /** Parsing the hex form of a colour gives back its components. */
  lemma HexRoundTrip(red: int, green: int, blue: int)
    requires InByteRange(red) && InByteRange(green) && InByteRange(blue)
    ensures HexToRgb(ToHexColor(red, green, blue)) == Ok([red, green, blue])
  {
  }

  /** Parsing ignores case: a string and its lower-case form are accepted or
      rejected together and give the same components. */
  lemma HexCaseInsensitive(s: string)
    ensures HexToRgb(LowerString(s)) == HexToRgb(s)
  {
  }

  /** Writing back the components of an accepted hex string gives its lower-case form. */
  lemma HexCanonicalForm(s: string)
    requires MatchesHexColor(s)
    ensures |HexToRgb(s).value| == 3
    ensures ToHexColor(HexToRgb(s).value[0], HexToRgb(s).value[1], HexToRgb(s).value[2]) == LowerString(s)
  {
    var v := HexToRgb(s).value;
    var l := LowerString(s);
    HexByteOfPair(s, 1);
    HexByteOfPair(s, 3);
    HexByteOfPair(s, 5);
    assert l == l[..1] + l[1..3] + l[3..5] + l[5..];
  }

  /** Writing back the byte of an accepted digit pair gives the pair in lower case. */
  lemma HexByteOfPair(s: string, i: nat)
    requires i + 1 < |s| && IsHexDigit(s[i]) && IsHexDigit(s[i + 1])
    ensures HexByte(HexByteAt(s, i)) == LowerString(s)[i..i + 2]
  {
    var hi, lo := HexDigitValue(s[i]), HexDigitValue(s[i + 1]);
    SplitLowDigit(hi, lo);
    HexDigitCharOfValue(s[i]);
    HexDigitCharOfValue(s[i + 1]);
  }

  /** A byte written as two hex digits splits back into those digits. */
  lemma SplitLowDigit(hi: int, lo: int)
    requires 0 <= lo < 16
    ensures (16 * hi + lo) / 16 == hi && (16 * hi + lo) % 16 == lo
  {
  }

  /** Writing the value of a hex digit gives the digit in lower case. */
  lemma HexDigitCharOfValue(c: char)
    requires IsHexDigit(c)
    ensures HexDigitChar(HexDigitValue(c)) == LowerAscii(c)
  {
  }

  /** The value of a digit string split in two. */
  lemma {:induction false} HexValueAppend(a: string, b: string)
    requires AllHexDigits(a) && AllHexDigits(b)
    ensures AllHexDigits(a + b)
    ensures HexValue(a + b) == HexValue(a) * Pow16(|b|) + HexValue(b)
    decreases |b|
  {
    if b != [] {
      var ab, b' := a + b, b[..|b| - 1];
      var d := HexDigitValue(b[|b| - 1]);
      assert ab[..|ab| - 1] == a + b' && ab[|ab| - 1] == b[|b| - 1];
      HexValueAppend(a, b');
      assert HexValue(ab) == HexValue(a + b') * 16 + d;
      assert HexValue(b) == HexValue(b') * 16 + d;
      ShiftDigit(HexValue(a), Pow16(|b'|), HexValue(b'), d);
    } else {
      assert a + b == a;
    }
  }

  /** Appending a digit to the low part of a two-part number. */
  lemma ShiftDigit(high: int, scale: int, low: int, d: int)
    ensures (high * scale + low) * 16 + d == high * (16 * scale) + (low * 16 + d)
  {
  }

  function Pow16(n: nat): nat {
    if n == 0 then 1 else 16 * Pow16(n - 1)
  }

  /** Three two-digit groups written one after another denote the packed form of
      the three bytes they write. */
  lemma ThreePairsArePacked(r: string, g: string, b: string)
    requires |r| == 2 && |g| == 2 && |b| == 2
    requires AllHexDigits(r) && AllHexDigits(g) && AllHexDigits(b)
    ensures AllHexDigits(r + g + b)
    ensures HexValue(r) < 256 && HexValue(g) < 256 && HexValue(b) < 256
    ensures HexValue(r + g + b) == PackRgb(HexValue(r), HexValue(g), HexValue(b))
  {
    assert Pow16(2) == 256;
    HexPairValue(r);
    HexPairValue(g);
    HexPairValue(b);
    HexValueAppend(r, g);
    HexValueAppend(r + g, b);
  }

  /** The six digits of an accepted hex string denote the packed form of its three bytes. */
  lemma HexDigitsArePacked(s: string)
    requires MatchesHexColor(s)
    ensures AllHexDigits(s[1..])
    ensures HexValue(s[1..]) == PackRgb(HexByteAt(s, 1), HexByteAt(s, 3), HexByteAt(s, 5))
  {
    var r, g, b := s[1..3], s[3..5], s[5..7];
    assert s[1..] == r + g + b;
    ThreePairsArePacked(r, g, b);
    HexPairValue(r);
    HexPairValue(g);
    HexPairValue(b);
  }

  /** An accepted hex string is the packed value written in base 16: parsing it
      agrees with unpacking the number its six digits denote. */
  lemma HexIsPackedBase16(s: string)
    requires MatchesHexColor(s)
    ensures AllHexDigits(s[1..])
    ensures HexToRgb(s) == IntToRgb(HexValue(s[1..]))
    ensures FgHex(s) == FgPacked(HexValue(s[1..])) && BgHex(s) == BgPacked(HexValue(s[1..]))
  {
    HexDigitsArePacked(s);
    UnpackPack(HexByteAt(s, 1), HexByteAt(s, 3), HexByteAt(s, 5));
  }

  /** The hex entry points are the RGB entry points applied to the parsed
      components, and fail with the hex-format error on anything else. */
  lemma HexIsRgb(s: string)
    ensures MatchesHexColor(s) ==>
      FgHex(s) == FgRgb(HexByteAt(s, 1), HexByteAt(s, 3), HexByteAt(s, 5)) &&
      BgHex(s) == BgRgb(HexByteAt(s, 1), HexByteAt(s, 3), HexByteAt(s, 5))
    ensures !MatchesHexColor(s) ==>
      FgHex(s) == Err(IllegalArgument(HexFormatMessage)) &&
      BgHex(s) == Err(IllegalArgument(HexFormatMessage))
  {
  }

  // ---------------------------------------------------------------------------
  // Reading a sequence back
  // ---------------------------------------------------------------------------

  /** What an escape sequence selects: the layer code and the components. */
  datatype Painted = Painted(level: string, components: seq<int>)

  /** Canonical decimal parameters, each a byte. */
  function ReadComponents(ps: seq<string>): Option<seq<int>>
    decreases |ps|
  {
    if ps == [] then Some([])
    else
      match ParseDec(ps[0])
      case None => None
      case Some(v) =>
        if v > 255 then None
        else
          match ReadComponents(ps[1..])
          case None => None
          case Some(vs) => Some([v] + vs)
  }

  /** The decimal renderings of the components. */
  function DecAll(cs: seq<int>): (ps: seq<string>)
    requires AllInByteRange(cs)
    ensures |ps| == |cs|
    ensures forall i :: 0 <= i < |cs| ==> ps[i] == Dec(cs[i])
  {
    seq(|cs|, i requires 0 <= i < |cs| => Dec(cs[i]))
  }

  /** Reads an indexed or RGB colour sequence: parameters level, 5, index or
      level, 2, red, green, blue, every component a canonical decimal byte. */
  function Decode(s: string): Option<Painted> {
    match Sgr.Parameters(s)
    case None => None
    case Some(ps) =>
      if (|ps| == 3 && ps[1] == AnsiColorMode8Bit) || (|ps| == 5 && ps[1] == AnsiColorModeRgb) then
        match ReadComponents(ps[2..])
        case None => None
        case Some(cs) => Some(Painted(ps[0], cs))
      else None
  }

  /** Reading the renderings of in-range components gives the components back,
      and only such renderings read. */
  lemma {:induction false} ReadComponentsExact(ps: seq<string>, cs: seq<int>)
    ensures AllInByteRange(cs) ==> ReadComponents(DecAll(cs)) == Some(cs)
    ensures ReadComponents(ps) == Some(cs) ==> AllInByteRange(cs) && ps == DecAll(cs)
    decreases |ps| + |cs|
  {
    if AllInByteRange(cs) && cs != [] {
      ParseDecRoundTrip(cs[0], Dec(cs[0]));
      ReadComponentsExact([], cs[1..]);
      assert DecAll(cs)[1..] == DecAll(cs[1..]);
      assert [cs[0]] + cs[1..] == cs;
    }
    if ReadComponents(ps) == Some(cs) && ps != [] {
      var v := ParseDec(ps[0]).value;
      var vs := ReadComponents(ps[1..]).value;
      ParseDecRoundTrip(v, ps[0]);
      ReadComponentsExact(ps[1..], vs);
      assert cs == [v] + vs;
      assert ps == [ps[0]] + ps[1..];
    }
  }

  /** Decimal renderings are SGR parameters: they never contain the separator. */
  lemma DecIsParameter(n: nat)
    ensures Sgr.IsParameter(Dec(n))
  {
  }

  /** Every indexed or RGB sequence build emits reads back as the level and the
      components it was built from. */
  lemma DecodeBuild(level: string, colors: seq<int>)
    requires Sgr.IsParameter(level)
    requires AllInByteRange(colors) && (|colors| == 1 || |colors| == 3)
    ensures BuildResult(level, colors).Ok?
    ensures Decode(BuildResult(level, colors).value) == Some(Painted(level, colors))
  {
    BuildFormat(level, colors);
    var mode := if |colors| == 1 then AnsiColorMode8Bit else AnsiColorModeRgb;
    var ps := [level, mode] + DecAll(colors);
    forall i | 0 <= i < |colors| ensures Sgr.IsParameter(DecAll(colors)[i]) {
      DecIsParameter(colors[i]);
    }
    assert ps == if |colors| == 1 then [level, mode, Dec(colors[0])]
                 else [level, mode, Dec(colors[0]), Dec(colors[1]), Dec(colors[2])];
    Sgr.ParametersOfSequence(ps);
    assert ps[2..] == DecAll(colors);
    ReadComponentsExact([], colors);
  }

  /** Whatever reads as a colour sequence is exactly what build emits for the
      level and components read: the reader accepts nothing else. */
  lemma BuildDecode(s: string)
    requires Decode(s).Some?
    ensures BuildResult(Decode(s).value.level, Decode(s).value.components) == Ok(s)
  {
    var ps := Sgr.Parameters(s).value;
    var p := Decode(s).value;
    ReadComponentsExact(ps[2..], p.components);
    Sgr.SequenceOfParameters(s);
    BuildFormat(p.level, p.components);
    assert ps == [ps[0], ps[1]] + ps[2..];
    if |ps| == 3 {
      assert ps == [p.level, AnsiColorMode8Bit, Dec(p.components[0])];
    } else {
      assert ps == [p.level, AnsiColorModeRgb, Dec(p.components[0]), Dec(p.components[1]), Dec(p.components[2])];
    }
  }

  // ---------------------------------------------------------------------------
  // Entry points, end to end
  // ---------------------------------------------------------------------------

  /** Every foreground entry point emits, on success, a sequence that reads back
      as layer 38 with the components of its converted input. */
  lemma ForegroundDecodes(index: int, red: int, green: int, blue: int, color: int, hex: string)
    ensures FgIndex(index).Ok? ==> Decode(FgIndex(index).value) == Some(Painted(AnsiForeground, [index]))
    ensures FgRgb(red, green, blue).Ok? ==>
      Decode(FgRgb(red, green, blue).value) == Some(Painted(AnsiForeground, [red, green, blue]))
    ensures FgPacked(color).Ok? ==>
      Decode(FgPacked(color).value) == Some(Painted(AnsiForeground, IntToRgb(color).value))
    ensures FgHex(hex).Ok? ==>
      Decode(FgHex(hex).value) == Some(Painted(AnsiForeground, HexToRgb(hex).value))
  {
    assert Sgr.IsParameter(AnsiForeground);
    if FgIndex(index).Ok? { DecodeBuild(AnsiForeground, [index]); }
    if FgRgb(red, green, blue).Ok? { DecodeBuild(AnsiForeground, [red, green, blue]); }
    if FgPacked(color).Ok? { DecodeBuild(AnsiForeground, IntToRgb(color).value); }
    if FgHex(hex).Ok? { DecodeBuild(AnsiForeground, HexToRgb(hex).value); }
  }

  /** Every background entry point emits, on success, a sequence that reads back
      as layer 48 with the components of its converted input. */
  lemma BackgroundDecodes(index: int, red: int, green: int, blue: int, color: int, hex: string)
    ensures BgIndex(index).Ok? ==> Decode(BgIndex(index).value) == Some(Painted(AnsiBackground, [index]))
    ensures BgRgb(red, green, blue).Ok? ==>
      Decode(BgRgb(red, green, blue).value) == Some(Painted(AnsiBackground, [red, green, blue]))
    ensures BgPacked(color).Ok? ==>
      Decode(BgPacked(color).value) == Some(Painted(AnsiBackground, IntToRgb(color).value))
    ensures BgHex(hex).Ok? ==>
      Decode(BgHex(hex).value) == Some(Painted(AnsiBackground, HexToRgb(hex).value))
  {
    assert Sgr.IsParameter(AnsiBackground);
    if BgIndex(index).Ok? { DecodeBuild(AnsiBackground, [index]); }
    if BgRgb(red, green, blue).Ok? { DecodeBuild(AnsiBackground, [red, green, blue]); }
    if BgPacked(color).Ok? { DecodeBuild(AnsiBackground, IntToRgb(color).value); }
    if BgHex(hex).Ok? { DecodeBuild(AnsiBackground, HexToRgb(hex).value); }
  }
}
