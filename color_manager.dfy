/**
 * The gradient text colouriser: decode two hex colours, interpolate one colour
 * per character, prefix each character with the colour's token and join the
 * pieces without a separator.
 *
 * The double arithmetic of the original is computed exactly: the fraction
 * i / (double)(steps - 1) is the rational i / (steps - 1), or NaN when it is
 * 0 / 0.0, and the (int) cast is truncation toward zero (NaN casts to 0).
 */
module ColorManager {
  import opened AwtColor
  import opened Catalog

  /**
   * The text library, reduced to what the colouriser asks of it: the text of
   * TextColor.color(r, g, b) and of the BOLD and ITALIC decorations.
   */
  datatype Styling = Styling(colorToken: Rgb -> string, boldMark: string, italicMark: string)

  type Positive = n: int | n > 0 witness 1

  /** A fraction as the original computes it in double: num / den, or NaN. */
  datatype Fraction = Ratio(num: nat, den: Positive) | NaN

  /** x lies between the endpoints s and e, inclusive, whichever is larger. */
  predicate Between(s: int, e: int, x: int) {
    (s <= e ==> s <= x <= e) && (e <= s ==> e <= x <= s)
  }

  /** Moving from x to y goes the same way as moving from s to e (or stays put). */
  predicate Towards(s: int, e: int, x: int, y: int) {
    (s <= e ==> x <= y) && (e <= s ==> y <= x)
  }

  /** i / (double)(steps - 1) for index i of a gradient of the given length. */
  function StepFraction(i: nat, steps: int): (f: Fraction)
    requires i < steps
    ensures f.NaN? <==> steps == 1
    ensures f.Ratio? ==> f.num == i && f.num <= f.den && f.den == steps - 1
  {
    if steps == 1 then NaN else Ratio(i, steps - 1)
  }

  /** The (int) cast of the exact quotient a / d: truncation toward zero. */
  function TruncDiv(a: int, d: Positive): (q: int)
    ensures 0 <= a ==> 0 <= q * d <= a < q * d + d
    ensures a <= 0 ==> q * d - d < a <= q * d <= 0
  {
    if a >= 0 then a / d else -((-a) / d)
  }

  /**
   * (int)(s + (e - s) * f) for one channel: NaN casts to 0, and a fraction in
   * [0, 1] gives a value between the two endpoints.
   */
  function CastChannel(s: Channel, e: Channel, f: Fraction): (c: int)
    ensures f.NaN? ==> c == 0
    ensures f.Ratio? && f.num <= f.den ==> Between(s, e, c)
  {
    match f
    case NaN => 0
    case Ratio(num, den) =>
      TruncatedBetween(s, e, num, den);
      TruncDiv(s * den + (e - s) * num, den)
  }

  lemma MulMonotone(x: int, y: int, d: nat)
    requires x <= y
    ensures x * d <= y * d
  {
  }

  lemma MulCancel(x: int, y: int, d: Positive)
    requires x * d < y * d
    ensures x < y
  {
  }

  /** Floor division by d is bounded by any bounds of a that are multiples of d. */
  lemma DivBetween(a: int, d: Positive, lo: int, hi: int)
    requires lo * d <= a <= hi * d
    ensures lo <= a / d <= hi
  {
    var q := a / d;
    assert q * d <= a < q * d + d;
    assert (q + 1) * d == q * d + d && (hi + 1) * d == hi * d + d;
    MulCancel(lo, q + 1, d);
    MulCancel(q, hi + 1, d);
  }

  /** Floor division by d is monotone in the dividend. */
  lemma DivMonotone(a: int, b: int, d: Positive)
    requires a <= b
    ensures a / d <= b / d
  {
    var qa, qb := a / d, b / d;
    assert qa * d <= a && b < qb * d + d;
    MulCancel(qa, qb + 1, d);
  }

  /** The numerator s * den + (e - s) * num stays between s * den and e * den. */
  lemma NumeratorBetween(s: Channel, e: Channel, num: nat, den: Positive)
    requires num <= den
    ensures var a := s * den + (e - s) * num;
      (s <= e ==> s * den <= a <= e * den) && (e <= s ==> e * den <= a <= s * den)
  {
    if s <= e {
      MulMonotone(num, den, e - s);
    } else {
      MulMonotone(num, den, s - e);
    }
  }

  /** For num <= den the truncated quotient of the interpolation numerator lies between the endpoints. */
  lemma TruncatedBetween(s: Channel, e: Channel, num: nat, den: Positive)
    ensures num <= den ==> Between(s, e, TruncDiv(s * den + (e - s) * num, den))
  {
    if num <= den {
      var a := s * den + (e - s) * num;
      NumeratorBetween(s, e, num, den);
      MulMonotone(0, if s <= e then s else e, den);
      if s <= e {
        DivBetween(a, den, s, e);
      } else {
        DivBetween(a, den, e, s);
      }
    }
  }

  /**
   * interpolateColor: never rejected by new Color for a fraction in [0, 1],
   * each channel lying between the endpoints; NaN gives black.
   */
  function InterpolateColor(start: Rgb, end: Rgb, f: Fraction): (r: Result<Rgb>)
    ensures f.NaN? ==> r == Ok(Rgb(0, 0, 0))
    ensures f.Ratio? && f.num <= f.den ==>
      && r.Ok?
      && Between(start.red, end.red, r.value.red)
      && Between(start.green, end.green, r.value.green)
      && Between(start.blue, end.blue, r.value.blue)
  {
    NewColor(
      CastChannel(start.red, end.red, f),
      CastChannel(start.green, end.green, f),
      CastChannel(start.blue, end.blue, f))
  }

  /**
   * The colour of entry i of a gradient of the given length. With two or more
   * steps every channel lies between the endpoints; a single step gets black,
   * because 0 / 0.0 is NaN and (int) NaN is 0.
   */
  function ColorAt(start: Rgb, end: Rgb, steps: int, i: nat): (c: Rgb)
    requires i < steps
    ensures steps == 1 ==> c == Rgb(0, 0, 0)
    ensures steps >= 2 ==>
      && Between(start.red, end.red, c.red)
      && Between(start.green, end.green, c.green)
      && Between(start.blue, end.blue, c.blue)
  {
    InterpolateColor(start, end, StepFraction(i, steps)).value
  }

  /** Fraction 0 gives exactly the start channel and fraction 1 exactly the end channel. */
  lemma CastChannelEndpoints(s: Channel, e: Channel, den: Positive)
    ensures CastChannel(s, e, Ratio(0, den)) == s
    ensures CastChannel(s, e, Ratio(den, den)) == e
  {
    assert s * den + (e - s) * 0 == s * den;
    DivBetween(s * den, den, s, s);
    assert s * den + (e - s) * den == e * den;
    DivBetween(e * den, den, e, e);
  }

  /** A larger fraction moves a channel further from the start, toward the end. */
  lemma CastChannelMonotone(s: Channel, e: Channel, i: nat, j: nat, den: Positive)
    requires i <= j <= den
    ensures Towards(s, e, CastChannel(s, e, Ratio(i, den)), CastChannel(s, e, Ratio(j, den)))
  {
    var ai := s * den + (e - s) * i;
    var aj := s * den + (e - s) * j;
    CastIsFloor(s, e, i, den);
    CastIsFloor(s, e, j, den);
    NumeratorMonotone(s, e, i, j, den);
    if s <= e {
      DivMonotone(ai, aj, den);
    }
    if e <= s {
      DivMonotone(aj, ai, den);
    }
  }

  /** For a fraction in [0, 1] the numerator is non-negative, so the cast is a floor division. */
  lemma CastIsFloor(s: Channel, e: Channel, num: nat, den: Positive)
    requires num <= den
    ensures CastChannel(s, e, Ratio(num, den)) == (s * den + (e - s) * num) / den
    ensures 0 <= s * den + (e - s) * num
  {
    NumeratorBetween(s, e, num, den);
    MulMonotone(0, if s <= e then s else e, den);
  }

  lemma NumeratorMonotone(s: Channel, e: Channel, i: nat, j: nat, den: Positive)
    requires i <= j
    ensures s <= e ==> s * den + (e - s) * i <= s * den + (e - s) * j
    ensures e <= s ==> s * den + (e - s) * j <= s * den + (e - s) * i
  {
    if s <= e {
      MulMonotone(i, j, e - s);
    } else {
      MulMonotone(i, j, s - e);
    }
  }

  /** With two or more steps the first entry is exactly the start colour and the last exactly the end colour. */
  lemma GradientEndpoints(start: Rgb, end: Rgb, steps: int)
    ensures steps >= 2 ==> ColorAt(start, end, steps, 0) == start
    ensures steps >= 2 ==> ColorAt(start, end, steps, steps - 1) == end
  {
    if steps >= 2 {
      var den := steps - 1;
      CastChannelEndpoints(start.red, end.red, den);
      CastChannelEndpoints(start.green, end.green, den);
      CastChannelEndpoints(start.blue, end.blue, den);
    }
  }

  /**
   * Each channel moves monotonically along the gradient: non-decreasing when
   * the end channel is larger, non-increasing when smaller, constant when equal.
   */
  lemma GradientMonotone(start: Rgb, end: Rgb, steps: int, i: nat, j: nat)
    requires steps >= 2 && i <= j < steps
    ensures Towards(start.red, end.red, ColorAt(start, end, steps, i).red, ColorAt(start, end, steps, j).red)
    ensures Towards(start.green, end.green, ColorAt(start, end, steps, i).green, ColorAt(start, end, steps, j).green)
    ensures Towards(start.blue, end.blue, ColorAt(start, end, steps, i).blue, ColorAt(start, end, steps, j).blue)
  {
    var den := steps - 1;
    CastChannelMonotone(start.red, end.red, i, j, den);
    CastChannelMonotone(start.green, end.green, i, j, den);
    CastChannelMonotone(start.blue, end.blue, i, j, den);
  }

  /** Equal endpoints colour every entry alike (the colour itself from two steps on). */
  lemma UniformWhenEndpointsEqual(c: Rgb, steps: int, i: nat, j: nat)
    requires i < steps && j < steps
    ensures ColorAt(c, c, steps, i) == ColorAt(c, c, steps, j)
    ensures steps >= 2 ==> ColorAt(c, c, steps, i) == c
  {
  }

  /** Red to blue over four steps: index 1 is (170, 0, 85), a third of the way. */
  lemma RedToBlueFourSteps()
    ensures ColorAt(Rgb(255, 0, 0), Rgb(0, 0, 255), 4, 1) == Rgb(170, 0, 85)
  {
    ColorAtChannels(Rgb(255, 0, 0), Rgb(0, 0, 255), 4, 1);
    assert CastChannel(255, 0, Ratio(1, 3)) == 170 by { assert TruncDiv(510, 3) == 170; }
    assert CastChannel(0, 255, Ratio(1, 3)) == 85 by { assert TruncDiv(255, 3) == 85; }
    assert CastChannel(0, 0, Ratio(1, 3)) == 0 by { assert TruncDiv(0, 3) == 0; }
  }

  /** Channels are truncated, not rounded: halfway from 0 to 255 is 127, not 128. */
  lemma TruncatesHalfway()
    ensures ColorAt(Rgb(0, 0, 0), Rgb(255, 255, 255), 3, 1) == Rgb(127, 127, 127)
  {
    ColorAtChannels(Rgb(0, 0, 0), Rgb(255, 255, 255), 3, 1);
    assert CastChannel(0, 255, Ratio(1, 2)) == 127 by { assert TruncDiv(255, 2) == 127; }
  }

  /** The colour at index i is the three cast channels, accepted by new Color. */
  lemma ColorAtChannels(start: Rgb, end: Rgb, steps: int, i: nat)
    requires i < steps
    ensures var f := StepFraction(i, steps);
      ColorAt(start, end, steps, i)
      == Rgb(CastChannel(start.red, end.red, f), CastChannel(start.green, end.green, f), CastChannel(start.blue, end.blue, f))
  {
  }

  lemma JoinHead(parts: seq<string>)
    requires |parts| >= 1
    ensures Join("", parts) == parts[0] + Join("", parts[1..])
  {
    if |parts| == 1 {
      assert parts[1..] == [];
    }
  }

  /** Keeps the character after every w-character block: strips fixed-width colour tokens. */
  function Uncolor(s: string, w: nat): string
    decreases |s|
  {
    if |s| <= w then [] else [s[w]] + Uncolor(s[w + 1..], w)
  }

  /**
   * Joining fragments of width w + 1 with "" lays them end to end: the result
   * has their total length, and stripping w characters before each kept one
   * gives back the last character of every fragment, in order.
   */
  lemma {:induction false} UncolorJoin(parts: seq<string>, w: nat)
    requires forall k :: 0 <= k < |parts| ==> |parts[k]| == w + 1
    ensures |Join("", parts)| == |parts| * (w + 1)
    ensures Uncolor(Join("", parts), w) == seq(|parts|, k requires 0 <= k < |parts| => parts[k][w])
  {
    if |parts| > 0 {
      var rest := Join("", parts[1..]);
      JoinHead(parts);
      UncolorJoin(parts[1..], w);
      var joined := parts[0] + rest;
      assert |joined| == (w + 1) + (|parts| - 1) * (w + 1) == |parts| * (w + 1);
      assert joined[w] == parts[0][w];
      assert joined[w + 1..] == rest;
    }
  }

  /**
   * When every colour token has the same width w, removing the tokens from the
   * output of getText gives back the text: nothing is dropped, added or reordered.
   */
  lemma GetTextStripsToText(text: string, start: Rgb, end: Rgb, style: Styling, w: nat)
    requires forall c :: |style.colorToken(c)| == w
    ensures |Join("", ColoredFragments(text, start, end, false, false, style))| == |text| * (w + 1)
    ensures Uncolor(Join("", ColoredFragments(text, start, end, false, false, style)), w) == text
  {
    var parts := ColoredFragments(text, start, end, false, false, style);
    forall k | 0 <= k < |parts|
      ensures |parts[k]| == w + 1 && parts[k][w] == text[k]
    {
      assert parts[k] == style.colorToken(ColorAt(start, end, |text|, k)) + [text[k]];
    }
    UncolorJoin(parts, w);
  }

  /** getText passes bold = italic = false, so every fragment is a colour token followed by its character. */
  lemma PlainFragments(text: string, start: Rgb, end: Rgb, style: Styling)
    ensures |ColoredFragments(text, start, end, false, false, style)| == |text|
    ensures forall i :: 0 <= i < |text| ==>
      ColoredFragments(text, start, end, false, false, style)[i] == style.colorToken(ColorAt(start, end, |text|, i)) + [text[i]]
  {
    assert Prefix(false, false, style) == "";
  }

  /** Two characters get exactly the two endpoint colours, in order. */
  lemma TwoCharacterText(text: string, start: Rgb, end: Rgb, style: Styling)
    requires |text| == 2
    ensures ColoredFragments(text, start, end, false, false, style)
         == [style.colorToken(start) + [text[0]], style.colorToken(end) + [text[1]]]
  {
    GradientEndpoints(start, end, 2);
    PlainFragments(text, start, end, style);
  }

  /** Two characters from RED to BLUE: 'A' carries (255, 0, 0) and 'B' carries (0, 0, 255). */
  lemma RedToBlueTwoCharacters(style: Styling)
    ensures ColoredFragments("AB", Decode(RED.HexCode()).value, Decode(BLUE.HexCode()).value, false, false, style)
         == [style.colorToken(Rgb(255, 0, 0)) + "A", style.colorToken(Rgb(0, 0, 255)) + "B"]
  {
    PrimaryColorsDecode();
    TwoCharacterText("AB", Rgb(255, 0, 0), Rgb(0, 0, 255), style);
  }

  /** One character from RED to BLUE gets black, not the start colour. */
  lemma RedToBlueOneCharacter(style: Styling)
    ensures ColoredFragments("A", Decode(RED.HexCode()).value, Decode(BLUE.HexCode()).value, false, false, style)
         == [style.colorToken(Rgb(0, 0, 0)) + "A"]
  {
    PrimaryColorsDecode();
    PlainFragments("A", Rgb(255, 0, 0), Rgb(0, 0, 255), style);
    var parts := ColoredFragments("A", Rgb(255, 0, 0), Rgb(0, 0, 255), false, false, style);
    assert parts[0] == style.colorToken(Rgb(0, 0, 0)) + "A";
  }

  /**
   * The decoration text placed before every colour token: empty without
   * decorations, the bold mark first and the italic mark last.
   */
  function Prefix(bold: bool, italic: bool, style: Styling): (p: string)
    ensures !bold && !italic ==> p == ""
    ensures bold ==> |style.boldMark| <= |p| && p[..|style.boldMark|] == style.boldMark
    ensures italic ==> |style.italicMark| <= |p| && p[|p| - |style.italicMark|..] == style.italicMark
  {
    (if bold then style.boldMark else "") + (if italic then style.italicMark else "")
  }

  /**
   * The string generateGradient stores at index i: the decorations, then the
   * token of colour i. From two steps on the first entry carries the start
   * colour and the last the end colour; a single entry carries black.
   */
  function GradientEntry(start: Rgb, end: Rgb, steps: int, i: nat, bold: bool, italic: bool, style: Styling): (g: string)
    requires i < steps
    ensures |Prefix(bold, italic, style)| <= |g| && g[..|Prefix(bold, italic, style)|] == Prefix(bold, italic, style)
    ensures steps >= 2 && i == 0 ==> g == Prefix(bold, italic, style) + style.colorToken(start)
    ensures steps >= 2 && i == steps - 1 ==> g == Prefix(bold, italic, style) + style.colorToken(end)
    ensures steps == 1 ==> g == Prefix(bold, italic, style) + style.colorToken(Rgb(0, 0, 0))
  {
    GradientEndpoints(start, end, steps);
    Prefix(bold, italic, style) + style.colorToken(ColorAt(start, end, steps, i))
  }

  /**
   * The strings applyGradientToText returns: one per character, each the
   * gradient entry for that index followed by the character itself.
   */
  function ColoredFragments(text: string, start: Rgb, end: Rgb, bold: bool, italic: bool, style: Styling): (r: seq<string>)
    ensures |r| == |text|
    ensures forall i :: 0 <= i < |r| ==> |r[i]| > 0 && r[i][|r[i]| - 1] == text[i]
  {
    seq(|text|, i requires 0 <= i < |text| => GradientEntry(start, end, |text|, i, bold, italic, style) + [text[i]])
  }

  /** The summed lengths of the parts. */
  function TotalLength(parts: seq<string>): nat {
    if |parts| == 0 then 0 else |parts[0]| + TotalLength(parts[1..])
  }

  /**
   * String.join(sep, parts): the parts with sep between neighbours, so the
   * first part leads and the length is the parts' total plus one separator
   * per gap.
   */
  function Join(sep: string, parts: seq<string>): (j: string)
    ensures |j| == TotalLength(parts) + (if |parts| == 0 then 0 else (|parts| - 1) * |sep|)
    ensures |parts| > 0 ==> j[..|parts[0]|] == parts[0]
  {
    if |parts| == 0 then ""
    else if |parts| == 1 then parts[0]
    else parts[0] + sep + Join(sep, parts[1..])
  }

  /**
   * generateGradient: both codes are decoded first, start before end, and a
   * code Color.decode rejects aborts the call; otherwise one entry per loop
   * iteration, in index order, steps entries in all (none when steps <= 0).
   */
  method GenerateGradient(startHex: string, endHex: string, steps: int, bold: bool, italic: bool, style: Styling)
    returns (r: Result<seq<string>>)
    ensures Decode(startHex).Err? ==> r == Err(Decode(startHex).error)
    ensures Decode(startHex).Ok? && Decode(endHex).Err? ==> r == Err(Decode(endHex).error)
    ensures Decode(startHex).Ok? && Decode(endHex).Ok? ==>
      && r.Ok?
      && |r.value| == (if steps > 0 then steps else 0)
      && forall i :: 0 <= i < |r.value| ==>
           r.value[i] == GradientEntry(Decode(startHex).value, Decode(endHex).value, steps, i, bold, italic, style)
  {
    var startColor := Decode(startHex);
    if startColor.Err? {
      return Err(startColor.error);
    }
    var endColor := Decode(endHex);
    if endColor.Err? {
      return Err(endColor.error);
    }
    var gradient: seq<string> := [];
    var i := 0;
    while i < steps
      invariant 0 <= i <= (if steps > 0 then steps else 0)
      invariant |gradient| == i
      invariant forall k :: 0 <= k < i ==>
        gradient[k] == GradientEntry(startColor.value, endColor.value, steps, k, bold, italic, style)
    {
      var stepColor := InterpolateColor(startColor.value, endColor.value, StepFraction(i, steps));
      var chatColor := style.colorToken(stepColor.value);
      var prefix := "";
      if bold {
        prefix := prefix + style.boldMark;
      }
      if italic {
        prefix := prefix + style.italicMark;
      }
      gradient := gradient + [prefix + chatColor];
      i := i + 1;
    }
    return Ok(gradient);
  }

  /**
   * applyGradientToText: the codes are decoded before anything is built, so a
   * bad code fails even for empty text; otherwise fragment i is gradient entry i
   * followed by character i, one fragment per character.
   */
  method ApplyGradientToText(text: string, startHex: string, endHex: string, bold: bool, italic: bool, style: Styling)
    returns (r: Result<seq<string>>)
    ensures Decode(startHex).Err? ==> r == Err(Decode(startHex).error)
    ensures Decode(startHex).Ok? && Decode(endHex).Err? ==> r == Err(Decode(endHex).error)
    ensures Decode(startHex).Ok? && Decode(endHex).Ok? ==>
      r == Ok(ColoredFragments(text, Decode(startHex).value, Decode(endHex).value, bold, italic, style))
  {
    var textLength := |text|;
    var gradient := GenerateGradient(startHex, endHex, textLength, bold, italic, style);
    if gradient.Err? {
      return Err(gradient.error);
    }
    var result: seq<string> := [];
    for i := 0 to textLength
      invariant |result| == i
      invariant forall k :: 0 <= k < i ==> result[k] == gradient.value[k] + [text[k]]
    {
      result := result + [gradient.value[i] + [text[i]]];
    }
    assert result == ColoredFragments(text, Decode(startHex).value, Decode(endHex).value, bold, italic, style);
    return Ok(result);
  }

  /**
   * getText: never fails for catalogue colours; the result is every
   * character's colour token followed by the character, joined with "", and
   * empty text gives the empty string.
   */
  method GetText(text: string, un: Colors, deux: Colors, style: Styling) returns (s: string)
    ensures s == Join("", ColoredFragments(text, Decode(un.HexCode()).value, Decode(deux.HexCode()).value, false, false, style))
    ensures text == [] ==> s == []
  {
    HexCodeDecodes(un);
    HexCodeDecodes(deux);
    var fragments := ApplyGradientToText(text, un.HexCode(), deux.HexCode(), false, false, style);
    s := Join("", fragments.value);
  }
}
