/** The colour generator: ANSI escape sequences that set the terminal's
    foreground or background colour from a palette index, red/green/blue
    components, a packed 24-bit value or a '#rrggbb' hex string, and the
    sequence that resets the colours. Every entry point is a pure function of
    its arguments; the one place that works step by step, `Build`, is a method
    proved equal to the function `BuildResult` that the entry points use. */
module Colors {
  import opened Wrappers
  import opened Text
  import Sgr

  // ---------------------------------------------------------------------------
  // Constants
  // ---------------------------------------------------------------------------

  const AnsiEscapeSequence: string := [27 as char]
  const AnsiForeground: string := "38"
  const AnsiBackground: string := "48"
  const AnsiColorMode8Bit: string := "5"
  const AnsiColorModeRgb: string := "2"

  const ComponentRangeMessage: string := "Color component or index must be >= 0 and <= 255"
  const PackedRangeMessage: string := "Color must be >= 0 and <= 16777215"
  const HexFormatMessage: string := "Color must be in the format '#ffcc00'"
  /** Message of the `MissingFormatArgumentException` (an `IllegalArgumentException`)
      that `String.format` throws when a template has more `%s` than arguments. */
  const MissingArgumentMessage: string := "Format specifier '%s'"

  /** The largest packed colour, 2^24 - 1. */
  const MaxPacked: int := 16777215

  // ---------------------------------------------------------------------------
  // Sequence builder
  // ---------------------------------------------------------------------------

  predicate InByteRange(v: int) {
    0 <= v <= 255
  }

  predicate AllInByteRange(colors: seq<int>) {
    forall i :: 0 <= i < |colors| ==> InByteRange(colors[i])
  }

  /** `String.format(MAIN_TEMPLATE, level, mode, body)`, MAIN_TEMPLATE being ESC "[%s;%s;%sm". */
  function MainTemplate(level: string, mode: string, body: string): string {
    AnsiEscapeSequence + "[" + level + ";" + mode + ";" + body + "m"
  }

  /** `String.format(RGB_TEMPLATE, args)`, RGB_TEMPLATE being "%s;%s;%s": fewer than
      three arguments throw, arguments beyond the third are ignored. */
  function RgbTemplate(args: seq<int>): Result<string> {
    if |args| < 3 then Err(IllegalArgument(MissingArgumentMessage))
    else Ok(IntString(args[0]) + ";" + IntString(args[1]) + ";" + IntString(args[2]))
  }

  /** `String.format(EIGHT_BIT_TEMPLATE, args)`, EIGHT_BIT_TEMPLATE being "%s". */
  function EightBitTemplate(args: seq<int>): Result<string> {
    if |args| < 1 then Err(IllegalArgument(MissingArgumentMessage)) else Ok(IntString(args[0]))
  }

  /** What `build(level, colors)` returns, or the exception it throws. The
      mode is chosen by the length alone; the range check comes first and
      fails on any component outside 0..255. */
  function BuildResult(level: string, colors: seq<int>): Result<string> {
    var colorMode := if |colors| > 1 then AnsiColorModeRgb else AnsiColorMode8Bit;
    if !AllInByteRange(colors) then Err(IllegalArgument(ComponentRangeMessage))
    else
      var body :- if |colors| > 1 then RgbTemplate(colors) else EightBitTemplate(colors);
      Ok(MainTemplate(level, colorMode, body))
  }

  /** `build`: checks each component in turn while copying it into the
      argument array for `String.format`, then formats. */
  method Build(level: string, colors: seq<int>) returns (r: Result<string>)
    ensures r == BuildResult(level, colors)
  {
    var colorMode := if |colors| > 1 then AnsiColorModeRgb else AnsiColorMode8Bit;
    var varargs := new int[|colors|];
    for i := 0 to |colors|
      invariant forall k :: 0 <= k < i ==> InByteRange(colors[k]) && varargs[k] == colors[k]
    {
      if colors[i] < 0 || colors[i] > 255 {
        return Err(IllegalArgument(ComponentRangeMessage));
      }
      varargs[i] := colors[i];
    }
    var formatted := if |colors| > 1 then RgbTemplate(varargs[..]) else EightBitTemplate(varargs[..]);
    if formatted.Err? {
      return Err(formatted.error);
    }
    r := Ok(MainTemplate(level, colorMode, formatted.value));
  }

  /** MAIN_TEMPLATE is CSI, three separated parameters and the SGR final byte. */
  lemma MainTemplateShape(level: string, mode: string, body: string)
    ensures MainTemplate(level, mode, body) == Sgr.Csi + (level + ";" + (mode + ";" + body)) + "m"
  {
  }

  /** Filling MAIN_TEMPLATE with a body of joined parameters gives the SGR
      sequence whose parameters are the level, the mode and those parameters. */
  lemma MainTemplateIsSgr(level: string, mode: string, rest: seq<string>)
    requires |rest| >= 1
    ensures MainTemplate(level, mode, Sgr.Join(rest)) == Sgr.Sequence([level, mode] + rest)
  {
    Sgr.JoinTwoMore(level, mode, rest);
    MainTemplateShape(level, mode, Sgr.Join(rest));
  }

  /** The build contract in terms of the ECMA-48 SGR format: it fails exactly
      on an out-of-range component or a component count the templates cannot
      take (none, or two), and otherwise emits the SGR sequence whose
      parameters are the level, the mode and the decimal components. */
  lemma BuildFormat(level: string, colors: seq<int>)
    ensures !AllInByteRange(colors) ==> BuildResult(level, colors) == Err(IllegalArgument(ComponentRangeMessage))
    ensures BuildResult(level, colors).Ok? <==> AllInByteRange(colors) && |colors| != 0 && |colors| != 2
    ensures AllInByteRange(colors) && (|colors| == 0 || |colors| == 2) ==>
      BuildResult(level, colors) == Err(IllegalArgument(MissingArgumentMessage))
    ensures AllInByteRange(colors) && |colors| == 1 ==>
      BuildResult(level, colors) == Ok(Sgr.Sequence([level, AnsiColorMode8Bit, Dec(colors[0])]))
    ensures AllInByteRange(colors) && |colors| >= 3 ==>
      BuildResult(level, colors)
      == Ok(Sgr.Sequence([level, AnsiColorModeRgb, Dec(colors[0]), Dec(colors[1]), Dec(colors[2])]))
  {
    if AllInByteRange(colors) && |colors| == 1 {
      MainTemplateIsSgr(level, AnsiColorMode8Bit, [Dec(colors[0])]);
      assert [level, AnsiColorMode8Bit] + [Dec(colors[0])] == [level, AnsiColorMode8Bit, Dec(colors[0])];
    }
    if AllInByteRange(colors) && |colors| >= 3 {
      var a, b, c := Dec(colors[0]), Dec(colors[1]), Dec(colors[2]);
      Sgr.JoinCons(b, [c]);
      Sgr.JoinCons(a, [b, c]);
      assert [a] + [b, c] == [a, b, c];
      assert [b] + [c] == [b, c];
      assert Sgr.Join([a, b, c]) == a + ";" + b + ";" + c;
      MainTemplateIsSgr(level, AnsiColorModeRgb, [a, b, c]);
      assert [level, AnsiColorModeRgb] + [a, b, c] == [level, AnsiColorModeRgb, a, b, c];
    }
  }

  // ---------------------------------------------------------------------------
  // Reset
  // ---------------------------------------------------------------------------

  /** `reset()`: the SGR sequence with the single parameter 0 (default rendition). */
  function Reset(): (r: string)
    ensures |r| == 4
    ensures Sgr.Parameters(r) == Some(["0"])
  {
    var r := AnsiEscapeSequence + "[0m";
    assert r[..2] == Sgr.Csi && r[2..|r| - 1] == "0";
    Sgr.SplitParameter("0");
    r
  }

  // ---------------------------------------------------------------------------
  // Converters
  // ---------------------------------------------------------------------------

  function Pow2(n: nat): (p: nat)
    ensures p >= 1
  {
    if n == 0 then 1 else 2 * Pow2(n - 1)
  }

  /** Java's `x >> n` on an `int`: an arithmetic shift, that is the floor of
      x / 2^n, which is what Dafny's `/` gives for a positive divisor. */
  function ShiftRight(x: int, n: nat): int {
    x / Pow2(n)
  }

  /** Java's `x & 0xFF` on an `int`: the low eight bits of the two's-complement
      form, that is x modulo 256 with a non-negative remainder. */
  function Low8(x: int): (b: int)
    ensures InByteRange(b)
  {
    x % 256
  }

  /** The packed 24-bit form of a colour: red in the high byte, blue in the low byte. */
  function PackRgb(red: int, green: int, blue: int): int
    requires InByteRange(red) && InByteRange(green) && InByteRange(blue)
  {
    red * 65536 + green * 256 + blue
  }

  /** `intToRgb(color)`: fails exactly outside 0..16777215; otherwise three
      bytes that pack back to `color`. */
  function IntToRgb(color: int): (r: Result<seq<int>>)
    ensures r.Ok? <==> 0 <= color <= MaxPacked
    ensures r.Err? ==> r.error == IllegalArgument(PackedRangeMessage)
    ensures r.Ok? ==> |r.value| == 3 && AllInByteRange(r.value)
    ensures r.Ok? ==> PackRgb(r.value[0], r.value[1], r.value[2]) == color
  {
    if color < 0 || color > MaxPacked then Err(IllegalArgument(PackedRangeMessage))
    else
      assert Pow2(8) == 256 && Pow2(16) == 65536;
      var red := Low8(ShiftRight(color, 16));
      var green := Low8(ShiftRight(color, 8));
      var blue := Low8(color);
      assert red == color / 65536 && green == (color / 256) % 256 && blue == color % 256;
      Ok([red, green, blue])
  }

  /** `hexColor.matches(HEX_COLOR_REGEX)`: '#' and exactly six characters of
      `[A-Fa-f0-9]`, with nothing before or after. */
  predicate MatchesHexColor(s: string) {
    |s| == 7 && s[0] == '#' && AllHexDigits(s[1..])
  }

  /** The byte written by the two hex digits at `i` and `i + 1`. */
  function HexByteAt(s: string, i: nat): int
    requires i + 1 < |s| && IsHexDigit(s[i]) && IsHexDigit(s[i + 1])
  {
    16 * HexDigitValue(s[i]) + HexDigitValue(s[i + 1])
  }

  /** `hexToRgb(hexColor)`: fails exactly when the string is not a hex colour;
      otherwise the bytes written by the three digit pairs, in order. */
  function HexToRgb(hexColor: string): (r: Result<seq<int>>)
    ensures r.Ok? <==> MatchesHexColor(hexColor)
    ensures r.Err? ==> r.error == IllegalArgument(HexFormatMessage)
    ensures r.Ok? ==> |r.value| == 3 && AllInByteRange(r.value)
    ensures r.Ok? ==>
      r.value == [HexByteAt(hexColor, 1), HexByteAt(hexColor, 3), HexByteAt(hexColor, 5)]
  {
    if !MatchesHexColor(hexColor) then Err(IllegalArgument(HexFormatMessage))
    else
      HexPairValue(hexColor[1..3]);
      HexPairValue(hexColor[3..5]);
      HexPairValue(hexColor[5..7]);
      Ok([HexValue(hexColor[1..3]), HexValue(hexColor[3..5]), HexValue(hexColor[5..7])])
  }

  // ---------------------------------------------------------------------------
  // Public entry points
  // ---------------------------------------------------------------------------

  /** `fg(short index)`: ESC[38;5;{index}m, the SGR sequence with parameters 38, 5 and the index. */
  function FgIndex(index: int): (r: Result<string>)
    ensures r.Ok? <==> InByteRange(index)
    ensures r.Err? ==> r.error == IllegalArgument(ComponentRangeMessage)
    ensures r.Ok? ==> r.value == Sgr.Sequence([AnsiForeground, AnsiColorMode8Bit, Dec(index)])
  {
    BuildFormat(AnsiForeground, [index]);
    BuildResult(AnsiForeground, [index])
  }

  /** `fg(int red, int green, int blue)`: ESC[38;2;{red};{green};{blue}m, the SGR
      sequence with parameters 38, 2 and the three components. */
  function FgRgb(red: int, green: int, blue: int): (r: Result<string>)
    ensures r.Ok? <==> InByteRange(red) && InByteRange(green) && InByteRange(blue)
    ensures r.Err? ==> r.error == IllegalArgument(ComponentRangeMessage)
    ensures r.Ok? ==>
      r.value == Sgr.Sequence([AnsiForeground, AnsiColorModeRgb, Dec(red), Dec(green), Dec(blue)])
  {
    BuildFormat(AnsiForeground, [red, green, blue]);
    BuildResult(AnsiForeground, [red, green, blue])
  }

  /** `fg(int color)`: the packed colour, unpacked, in RGB mode. */
  function FgPacked(color: int): Result<string> {
    var rgb :- IntToRgb(color);
    BuildResult(AnsiForeground, rgb)
  }

  /** `fg(String hexColor)`: the hex colour, parsed, in RGB mode. */
  function FgHex(hexColor: string): Result<string> {
    var rgb :- HexToRgb(hexColor);
    BuildResult(AnsiForeground, rgb)
  }

  /** `bg(short index)`: ESC[48;5;{index}m, the SGR sequence with parameters 48, 5 and the index. */
  function BgIndex(index: int): (r: Result<string>)
    ensures r.Ok? <==> InByteRange(index)
    ensures r.Err? ==> r.error == IllegalArgument(ComponentRangeMessage)
    ensures r.Ok? ==> r.value == Sgr.Sequence([AnsiBackground, AnsiColorMode8Bit, Dec(index)])
  {
    BuildFormat(AnsiBackground, [index]);
    BuildResult(AnsiBackground, [index])
  }

  /** `bg(int red, int green, int blue)`: ESC[48;2;{red};{green};{blue}m, the SGR
      sequence with parameters 48, 2 and the three components. */
  function BgRgb(red: int, green: int, blue: int): (r: Result<string>)
    ensures r.Ok? <==> InByteRange(red) && InByteRange(green) && InByteRange(blue)
    ensures r.Err? ==> r.error == IllegalArgument(ComponentRangeMessage)
    ensures r.Ok? ==>
      r.value == Sgr.Sequence([AnsiBackground, AnsiColorModeRgb, Dec(red), Dec(green), Dec(blue)])
  {
    BuildFormat(AnsiBackground, [red, green, blue]);
    BuildResult(AnsiBackground, [red, green, blue])
  }

  /** `bg(int color)`. */
  function BgPacked(color: int): Result<string> {
    var rgb :- IntToRgb(color);
    BuildResult(AnsiBackground, rgb)
  }

  /** `bg(String hexColor)`. */
  function BgHex(hexColor: string): Result<string> {
    var rgb :- HexToRgb(hexColor);
    BuildResult(AnsiBackground, rgb)
  }
}
