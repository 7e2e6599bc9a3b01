# ColorManager gradient text — a Dafny model

This project models the gradient text colouriser of ColorManager. `getText(text, un, deux)`
takes two named colours from the `Colors` enum and looks up their `#RRGGBB` codes. It decodes
both codes with `Color.decode`. It then interpolates one colour per character of the text
(`generateGradient` / `interpolateColor`) and puts each colour's text token in front of the
matching character (`applyGradientToText`). Finally it joins the pieces with an empty separator.

Files:

- `awt_color.dfy`, module `AwtColor`: the parts of `java.awt.Color` the code calls.
  `Decode` models `Color.decode` on `#RRGGBB` literals. `NewColor` models the range-checked
  constructor `new Color(r, g, b)`. Exceptions are the `Err` case of a `Result`. `Encode`
  writes a colour back out as a literal; it is the reference inverse used in the round-trip lemmas.
- `catalog.dfy`, module `Catalog`: the `Colors` enum as a datatype with 24 constructors.
  `HexCode` is `getHexCode`. The constructor argument and the `hexCode` field are folded into
  the `match` in `HexCode`.
- `color_manager.dfy`, module `ColorManager`: the colouriser. `GenerateGradient`,
  `ApplyGradientToText` and `GetText` are methods. The first two keep the original's loops,
  which build their lists step by step. The specification functions the methods are proved
  against are `ColorAt`, `GradientEntry`, `ColoredFragments` and `Join`. The lemmas state the
  properties in terms of those functions.

How the model represents the original's arithmetic and external calls:

- The fraction `i / (double)(steps - 1)` is the exact rational `Ratio(i, steps - 1)`. When
  `steps == 1` it is `NaN`, because `0 / 0.0` is NaN in Java.
- `(int)(s + (e - s) * f)` is computed exactly as `TruncDiv(s * den + (e - s) * num, den)`,
  which truncates toward zero. The `(int)` of NaN is 0.
- The text of `TextColor.color(r, g, b)` comes from the `colorToken` function of a `Styling`
  value. The text of `TextDecoration.BOLD` and `ITALIC` comes from its two marker strings.
  All three belong to the external text library; the model treats them as parameters.
- Text is a `seq<char>`. Its length and indices stand for `text.length()` and `charAt`.

Two behaviours follow the code rather than what a reader might expect:

- A one-character text does not get the start colour. Its fraction is `0 / 0.0 = NaN`, so
  every channel casts to 0 and the character is coloured black, `(0, 0, 0)`.
  See `ColorManager.ColorAt` and `ColorManager.RedToBlueOneCharacter`.
- `getText` uses the enum directly. It cannot be given a raw hex string.

## Model

| member | source | states |
|---|---|---|
| `AwtColor.Decode` | src/fr/niavlys/dev/cm/main/ColorManager.java:12-13 | Decoding succeeds exactly when the string is `#` followed by six hex digits, in either case. Otherwise the result is a NumberFormat error that names the input. |
| `AwtColor.DecodeEncode` | src/fr/niavlys/dev/cm/main/ColorManager.java:12-13 | Round trip: every colour decodes back from its canonical `#RRGGBB` spelling. |
| `AwtColor.EncodeDecode` | src/fr/niavlys/dev/cm/main/ColorManager.java:12-13 | Round trip: every upper-case literal decodes, and writing the decoded colour out gives the literal back. |
| `AwtColor.DecodeIgnoresCase` | src/fr/niavlys/dev/cm/main/ColorManager.java:12-13 | The case of the digits does not matter. A literal with lower-case digits decodes to the same colour as its upper-case spelling, which is canonical. So each literal the decoder accepts has a fixed value. |
| `AwtColor.LowerCaseSample` | src/fr/niavlys/dev/cm/main/ColorManager.java:12-13 | `#ff8000` decodes to (255, 128, 0), the same colour as `#FF8000`. |
| `AwtColor.NewColor` | src/fr/niavlys/dev/cm/main/ColorManager.java:42 | `new Color(r, g, b)` succeeds exactly when every channel is in 0..255, and then holds those channels. Otherwise the result is IllegalArgument. |
| `ColorManager.StepFraction` | src/fr/niavlys/dev/cm/main/ColorManager.java:16 | The fraction for index i is NaN exactly when steps == 1. Otherwise it is i / (steps - 1), which lies in [0, 1]. |
| `ColorManager.TruncDiv` | src/fr/niavlys/dev/cm/main/ColorManager.java:39-41 | The `(int)` cast truncates toward zero. For a non-negative value it is the floor; for a negative value it is the ceiling. |
| `ColorManager.CastChannel` | src/fr/niavlys/dev/cm/main/ColorManager.java:39-41 | One channel of `(int)(s + (e - s) * fraction)`. A NaN fraction casts to 0. For a fraction in [0, 1] the channel lies between the start and end channels, inclusive. |
| `ColorManager.CastChannelEndpoints` | src/fr/niavlys/dev/cm/main/ColorManager.java:39-41 | Fraction 0 gives exactly the start channel and fraction 1 gives exactly the end channel. |
| `ColorManager.CastChannelMonotone` | src/fr/niavlys/dev/cm/main/ColorManager.java:39-41 | A larger fraction moves a channel toward the end channel: non-decreasing if end > start, non-increasing if end < start. |
| `ColorManager.InterpolateColor` | src/fr/niavlys/dev/cm/main/ColorManager.java:38-43 | For a fraction in [0, 1], `new Color` never rejects the result, and every channel lies between the endpoints. A NaN fraction gives black. |
| `ColorManager.ColorAt` | src/fr/niavlys/dev/cm/main/ColorManager.java:15-17 | With two or more steps, every channel of every entry lies between the endpoint channels, so it is in 0..255. With exactly one step the entry is (0, 0, 0). |
| `ColorManager.GradientEndpoints` | src/fr/niavlys/dev/cm/main/ColorManager.java:15-17 | With two or more steps, entry 0 is exactly the start colour and entry steps-1 is exactly the end colour. |
| `ColorManager.GradientMonotone` | src/fr/niavlys/dev/cm/main/ColorManager.java:15-17 | Along the gradient each channel is non-decreasing if end > start, non-increasing if end < start, and constant if they are equal. |
| `ColorManager.UniformWhenEndpointsEqual` | src/fr/niavlys/dev/cm/main/ColorManager.java:38-42 | Equal endpoints give every entry the same colour. From two steps on, that colour is the endpoint itself. |
| `ColorManager.RedToBlueFourSteps` | src/fr/niavlys/dev/cm/main/ColorManager.java:39-41 | From #FF0000 to #0000FF over four steps, index 1 is (170, 0, 85). |
| `ColorManager.TruncatesHalfway` | src/fr/niavlys/dev/cm/main/ColorManager.java:39-41 | Channels are truncated, not rounded: halfway from 0 to 255 over three steps is 127, not 128. |
| `ColorManager.Prefix` | src/fr/niavlys/dev/cm/main/ColorManager.java:19-21 | Without decorations the prefix is empty. With bold it starts with the bold mark. With italic it ends with the italic mark. |
| `ColorManager.GradientEntry` | src/fr/niavlys/dev/cm/main/ColorManager.java:16-23 | Entry i is the prefix followed by the token of colour i. From two steps on, the first entry carries the start colour and the last entry carries the end colour. A one-step gradient carries black. |
| `ColorManager.GenerateGradient` | src/fr/niavlys/dev/cm/main/ColorManager.java:11-26 | The start code is decoded first, then the end code. A code that `Color.decode` rejects aborts with that code's error. Otherwise the list has exactly max(steps, 0) entries, in index order. Entry i is the decoration prefix followed by the token of colour i. |
| `ColorManager.ApplyGradientToText` | src/fr/niavlys/dev/cm/main/ColorManager.java:28-36 | Both codes are decoded before any list is built, so a bad code fails even for empty text. Otherwise there is one fragment per character: gradient entry i followed by character i. Nothing is dropped, added or reordered. |
| `ColorManager.ColoredFragments` | src/fr/niavlys/dev/cm/main/ColorManager.java:32-33 | There is one fragment per character of the text. Fragment i ends with character i. |
| `ColorManager.PlainFragments` | src/fr/niavlys/dev/cm/main/ColorManager.java:19-23 | With bold = italic = false, as getText passes them, the prefix is empty. Each fragment is just the colour token followed by its character. |
| `ColorManager.GetText` | src/fr/niavlys/dev/cm/main/ColorManager.java:45-47 | getText never fails for enum colours. It returns the fragments joined with "". Empty text gives "". |
| `ColorManager.Join` | src/fr/niavlys/dev/cm/main/ColorManager.java:46 | `String.join`: the first part leads. The length is the parts' total plus one separator per gap between neighbours. |
| `ColorManager.UncolorJoin` | src/fr/niavlys/dev/cm/main/ColorManager.java:46 | When fragments of equal width are joined with "", the result has their total length. Every fragment's last character can be read back from it, in order. |
| `ColorManager.GetTextStripsToText` | src/fr/niavlys/dev/cm/main/ColorManager.java:45-47 | If every colour token has the same width, removing the tokens from getText's output gives back the original text. |
| `ColorManager.TwoCharacterText` | src/fr/niavlys/dev/cm/main/ColorManager.java:28-35 | A two-character text gets exactly the start colour on its first character and the end colour on its second. |
| `ColorManager.RedToBlueTwoCharacters` | src/fr/niavlys/dev/cm/main/ColorManager.java:28-35 | "AB" from RED to BLUE: 'A' carries (255, 0, 0) and 'B' carries (0, 0, 255). |
| `ColorManager.RedToBlueOneCharacter` | src/fr/niavlys/dev/cm/main/ColorManager.java:16 | "A" from RED to BLUE carries (0, 0, 0), not the start colour. |
| `Catalog.Colors.HexCode` | src/cm/main/Colors.java:4-37 | Every constant's code is `#` followed by exactly six upper-case hex digits. |
| `Catalog.Colors.Ordinal` | src/cm/main/Colors.java:3-27 | Each constant sits at its declaration position in the list of constants. |
| `Catalog.ExactlyTwentyFour` | src/cm/main/Colors.java:4-27 | There are exactly 24 constants, each listed once. |
| `Catalog.HexCodeDecodes` | src/cm/main/Colors.java:4-27 | Every constant's code decodes, and it is the canonical spelling of the colour it decodes to. |
| `Catalog.SharedHexCodes` | src/cm/main/Colors.java:5-26 | Names and codes are not one-to-one. GREEN and LIME share a code, as do CYAN and AQUA, and LIGHT_GRAY and SILVER. |
| `Catalog.PrimaryColorsDecode` | src/cm/main/Colors.java:4-6 | RED decodes to (255, 0, 0) and BLUE decodes to (0, 0, 255). |

## Left out

- `AwtColor.Decode` accepts only the `#RRGGBB` form. `java.awt.Color.decode` (through `Integer.decode`)
  also accepts `0x`/`0X` prefixes, decimal, octal, a leading sign, `#` followed by fewer or more digits,
  and non-ASCII Unicode digits. The model reports all of these as NumberFormat errors. The enum only
  supplies `#RRGGBB` codes.
- IEEE-754 doubles: the fraction and the interpolation are computed exactly. Rare off-by-one
  channels caused by double rounding just below an integer are not modelled. The one
  non-finite case that can occur, NaN for a single step, is modelled.
- Saturation of the `(int)` cast outside the 32-bit range is not modelled. For fractions in
  [0, 1] the value always lies between two channels, so saturation never applies.
- The exact text of `TextColor.color(r, g, b).toString()` and of `TextDecoration.BOLD` /
  `ITALIC` is not modelled. They come from the external text library and are parameters here
  (`Styling`). `GetTextStripsToText` assumes that every token has the same width.
- Null arguments (a null text or colour, which throw NullPointerException) are not modelled.
  Dafny values are never null.
- Text is modelled as `seq<char>`, one element per `charAt` index. A character outside the
  Basic Multilingual Plane is two UTF-16 units in Java, so the original colours each half
  separately. A lone surrogate unit cannot be written as a Dafny `char`.
- The vendored text library (Component, builders, keys, pattern replacement) and the audience
  and message-type interfaces are not part of this model. They hold no logic of the colouriser.
