# ansicolors in Dafny

A model of `Colors`, a small Java library that builds ANSI escape sequences for
terminal colours. The library sets the foreground (`fg`) or the background (`bg`)
from one of four inputs:

- a palette index;
- red, green and blue components;
- a packed 24-bit integer;
- a `#rrggbb` hex string.

`reset()` returns the sequence that restores the default colours.

Every result is an SGR control sequence, the "Select Graphic Rendition" sequence of
ECMA-48 (section 8.3.117). It is written as ESC `[`, then the parameters separated
by `;`, then `m`. The first parameter is `38` for the foreground or `48` for the
background. Mode `5` is followed by one palette index. Mode `2` is followed by three
components.

Files and modules:

- `wrappers.dfy` (`Wrappers`): `Result` and `Option`. Java's
  `IllegalArgumentException` is `Err(IllegalArgument(message))`, with the source's
  exact messages.
- `text.dfy` (`Text`): stand-ins for library calls.
  - Decimal rendering (`Dec`, `IntString`) stands in for what `String.format("%s", …)`
    prints for an `Integer`.
  - Its reader (`ParseDec`) is there for the round-trip lemmas.
  - Hex-digit values (`HexDigitValue`, `HexValue`) stand in for `Integer.parseInt(…, 16)`.
- `sgr.dfy` (`Sgr`): the reference format of the SGR sequence, independent of the
  library. It holds the CSI, the parameter join and split, and a parser. Splitting
  undoes joining and joining undoes splitting.
- `colors.dfy` (`Colors`): the class itself.
  - The constants.
  - `build` as the method `Build`, with the range-checking loop that fills the
    `varargs` array. It is proved equal to the function `BuildResult`, which the
    entry points use.
  - `reset`, `intToRgb`, `hexToRgb`, and the index, RGB, packed and hex overloads of
    `fg` and `bg`.
  - `HEX_COLOR_REGEX` becomes the predicate `MatchesHexColor`.
  - Java's `>>` and `& 0xFF` become `ShiftRight` (floor division by a power of two)
    and `Low8` (remainder modulo 256). On Java `int`s, those are exact.
- `colors_facts.dfy` (`ColorsFacts`): lemmas that relate several operations:
  - packing and unpacking;
  - hex writing and hex parsing, and case-insensitivity;
  - the entry points against each other;
  - a reader `Decode` that recovers the layer and the components from a generated
    sequence. Build and `Decode` are proved to be inverses for a level without `;` and
    one or three components. With four or more components, build drops the extras, so
    only the first three read back.
- `colors_examples.dfy` (`ColorsExamples`): fixed values. They include the documented
  gold colour (`#ffcc00`, `16763904`, `(255, 204, 0)`), the exact bytes of two
  sequences, and inputs just outside each range.

Where the code goes beyond the documented design, the model follows the code.
`build` chooses RGB mode whenever there is more than one component. It does not
check that there are exactly one or three. `String.format` then throws
`MissingFormatArgumentException`, an `IllegalArgumentException`, when it gets no
components or two. It silently ignores any components after the third. No public
entry point passes such an array. `BuildResult` and `BuildFormat` model these cases
anyway.

## Model

| member | source | states |
|---|---|---|
| `Colors.Build` | Colors.java:58-71 | The loop that checks each component while copying it into the argument array returns exactly what `BuildResult` says: the same sequence, or the same exception. |
| `Colors.BuildFormat` | Colors.java:58-70 | build fails with the component-range message exactly when some component is outside 0..255, and then emits nothing. With no components or two, it fails with the missing-format-argument message. Otherwise the result is the SGR sequence with parameters level, `5` and the decimal index for one component, or level, `2` and the first three decimal components for three or more. |
| `Colors.MainTemplateIsSgr` | Colors.java:47 | Filling MAIN_TEMPLATE gives the SGR sequence whose parameters are the level, the mode and the joined body. |
| `Colors.Reset` | Colors.java:82-84 | reset is four characters long and parses as an SGR sequence with the single parameter `0`. |
| `Colors.IntToRgb` | Colors.java:254-263 | intToRgb fails exactly when `color < 0` or `color > 16777215`, and only with the packed-range message. Otherwise it returns three bytes, each in 0..255, with `red*65536 + green*256 + blue == color`. |
| `Colors.HexToRgb` | Colors.java:271-280 | hexToRgb fails exactly when the string is not `#` followed by exactly six characters of `[A-Fa-f0-9]`, and only with the hex-format message. Otherwise it returns the three bytes written by the digit pairs at positions 1-2, 3-4 and 5-6, each in 0..255. |
| `Colors.FgIndex` | Colors.java:98-100 | fg(index) fails exactly when the index is outside 0..255. Otherwise it is the SGR sequence with parameters `38`, `5` and the decimal index. |
| `Colors.FgRgb` | Colors.java:115-117 | fg(r, g, b) fails exactly when a component is outside 0..255. Otherwise it is the SGR sequence with parameters `38`, `2` and the three decimal components. |
| `Colors.BgIndex` | Colors.java:179-181 | bg(index) is like fg(index), with layer code `48`. |
| `Colors.BgRgb` | Colors.java:196-198 | bg(r, g, b) is like fg(r, g, b), with layer code `48`. |
| `Text.ParseDecRoundTrip` | Colors.java:70 | The decimal rendering that `%s` produces for a component reads back as that component. A canonical digit string reads as `n` exactly when it is the rendering of `n`, so renderings are unambiguous. |
| `Text.HexPairValue` | Colors.java:276-278 | `Integer.parseInt` of two hex digits is 16 times the high digit plus the low digit, which is below 256. |
| `ColorsFacts.UnpackPack` | Colors.java:259-262 | Unpacking `r*65536 + g*256 + b` gives back `(r, g, b)` for any bytes r, g and b. |
| `ColorsFacts.PackedIsRgb` | Colors.java:131-133 | fg(color) and bg(color) equal fg and bg of `(color / 65536, color / 256 % 256, color % 256)` for color in 0..16777215. Outside that range both fail with the packed-range message. |
| `ColorsFacts.PackedOfRgb` | Colors.java:212-214 | fg and bg of a packed colour equal fg and bg of its components. |
| `ColorsFacts.HexIsRgb` | Colors.java:146-148 | fg(hex) and bg(hex) equal fg and bg of the three parsed bytes. On any string that is not a hex colour, both fail with the hex-format message. |
| `ColorsFacts.HexRoundTrip` | Colors.java:276-279 | Parsing the lower-case `#rrggbb` form of any three bytes gives those bytes back. |
| `ColorsFacts.HexCaseInsensitive` | Colors.java:271-280 | A string and its lower-case form are accepted or rejected together, and they give the same components. |
| `ColorsFacts.HexCanonicalForm` | Colors.java:276-279 | Writing back the components of an accepted hex string gives the string in lower case. |
| `ColorsFacts.ThreePairsArePacked` | Colors.java:276-279 | Three two-digit hex groups written in a row denote `red*65536 + green*256 + blue` for the bytes the groups denote, each below 256. |
| `ColorsFacts.HexDigitsArePacked` | Colors.java:276-279 | The six digits of an accepted hex string are all hex digits, and their base-16 value is `red*65536 + green*256 + blue` for the three bytes hexToRgb reads. |
| `ColorsFacts.HexIsPackedBase16` | Colors.java:271-280 | An accepted hex string is the packed value written in base 16. hexToRgb equals intToRgb of the number the six digits denote, and fg(hex) and bg(hex) equal fg and bg of that number. |
| `ColorsFacts.DecodeBuild` | Colors.java:58-70 | Every indexed or RGB sequence that build emits reads back as the level and the components it was built from. |
| `ColorsFacts.BuildDecode` | Colors.java:58-70 | Every string that reads as a colour sequence is exactly what build emits for the level and components read. |
| `ColorsFacts.ForegroundDecodes` | Colors.java:98-148 | The successful output of every fg overload reads back as layer `38` with the components of its converted input. |
| `ColorsFacts.BackgroundDecodes` | Colors.java:179-229 | The successful output of every bg overload reads back as layer `48` with the components of its converted input. |
| `ColorsExamples.GoldConversions` | Colors.java:254-280 | `16763904`, `#ffcc00` and `#FFCC00` all convert to `(255, 204, 0)`. |
| `ColorsExamples.GoldEntryPoints` | Colors.java:119-148 | fg("#ffcc00") and fg(16763904) both equal fg(255, 204, 0). |
| `ColorsExamples.GoldSequence` | Colors.java:102-117 | fg(255, 204, 0) is exactly ESC `[38;2;255;204;0m`. |
| `ColorsExamples.IndexSequence` | Colors.java:167-181 | bg((short) 220) is exactly ESC `[48;5;220m`. |
| `ColorsExamples.PackedLiteral` | Colors.java:212-214 | bg(220) with a bare int literal is the packed overload, so it equals bg(0, 0, 220). |
| `ColorsExamples.PackedLiteralIsNotIndex` | Colors.java:179-181 | bg(0, 0, 220) and bg((short) 220) are different sequences. |
| `ColorsExamples.PackedBlack` | Colors.java:259-262 | fg(0), the packed overload, is black: it equals fg(0, 0, 0). |
| `ColorsExamples.PackedWhite` | Colors.java:259-262 | fg(16777215), the packed overload, is white: it equals fg(255, 255, 255). |
| `ColorsExamples.PackedOutside` | Colors.java:255-257 | fg(-1) and fg(16777216) fail with the packed-range message. |
| `ColorsExamples.RejectedHex` | Colors.java:272-274 | `ffcc00` (no `#`), `#xyz123` (non-hex characters) and `#ffcc0` (too short) fail with the hex-format message. |
| `ColorsExamples.RejectedComponents` | Colors.java:63-66 | fg((short) 256), an index of 256, and a component of -1 fail with the component-range message. |

## Left out

- `hsvToRgb` and the `fg(double, double, double)` / `bg(double, double, double)` overloads are not modelled. They compute with IEEE doubles, a floating `%` and truncating `(int)` casts, and Dafny's exact `real` cannot reproduce their bit-exact results.
- `String.format`, `String.matches` and `Integer.parseInt` are not modelled as library code. They are replaced by explicit definitions: `MainTemplate`, `RgbTemplate`, `EightBitTemplate` and `IntString`; `MatchesHexColor`; and `HexValue`.
- `Integer.parseInt` accepts a leading sign and non-ASCII digits. `HexValue` models neither, because the regex check before it admits only ASCII hex digits.
- The Java `short` and `int` widths of the arguments are not modelled. Inputs are unbounded `int`, and the range checks in `build` and `intToRgb` do the validating. Overflow at the call boundary, such as a cast to `short` in the caller, happens before the library is entered.
- The `int[]` arrays that `intToRgb` and `hexToRgb` return, and the `colors` array that `build` receives, are immutable sequences here. The source allocates them fresh and never changes them after creation, so nothing about aliasing is lost.
- Java chooses among the `fg` and `bg` overloads by argument type. The model gives each overload its own name instead: `FgIndex`/`BgIndex` for `short`, `FgRgb`/`BgRgb` for three `int`s, `FgPacked`/`BgPacked` for one `int`, and `FgHex`/`BgHex` for `String`. A bare int literal such as `bg(220)` selects the packed `int` overload in Java, so it is `BgPacked(220)`. `PackedLiteral` and `PackedLiteralIsNotIndex` show that this equals bg(0, 0, 220), not the index sequence. The index overload needs `bg((short) 220)`.
- `hexToRgb(null)` throws `NullPointerException` at the `matches` call (Colors.java:272), not `IllegalArgumentException`. A Dafny `string` cannot be null, so that case is not modelled.
- The usage examples in the documentation comments print with `System.out`. That is I/O and is not modelled.
- `FgPacked`, `FgHex`, `BgPacked` and `BgHex` have no `ensures` of their own. Their contracts are the lemmas `PackedIsRgb`, `PackedOfRgb`, `HexIsRgb`, `HexIsPackedBase16`, `ForegroundDecodes` and `BackgroundDecodes`.
