/**
 * The two parts of java.awt.Color that the gradient code relies on: decoding a
 * "#RRGGBB" literal (Color.decode) and the range-checked constructor
 * new Color(r, g, b). Exceptions become the Err case of a Result.
 */
module AwtColor {

  /** One colour channel; java.awt.Color holds values in 0..255 only. */
  type Channel = x: int | 0 <= x <= 255

  datatype Rgb = Rgb(red: Channel, green: Channel, blue: Channel)

  /** The exceptions the colour code can raise. */
  datatype Error =
    | NumberFormat(input: string)  // Color.decode: the string is not a colour literal
    | IllegalArgument              // new Color(r, g, b): some channel lies outside 0..255

  datatype Result<T> = Ok(value: T) | Err(error: Error)

  predicate IsHexDigit(ch: char) {
    '0' <= ch <= '9' || 'a' <= ch <= 'f' || 'A' <= ch <= 'F'
  }

  predicate IsUpperHexDigit(ch: char) {
    '0' <= ch <= '9' || 'A' <= ch <= 'F'
  }

  function HexDigitValue(ch: char): (v: nat)
    requires IsHexDigit(ch)
    ensures v < 16
  {
    if '0' <= ch <= '9' then ch as int - '0' as int
    else if 'a' <= ch <= 'f' then ch as int - 'a' as int + 10
    else ch as int - 'A' as int + 10
  }

  /** The upper-case digit for v; reading it back gives v. */
  function UpperHexDigit(v: nat): (ch: char)
    requires v < 16
    ensures IsUpperHexDigit(ch) && HexDigitValue(ch) == v
  {
    if v < 10 then ('0' as int + v) as char else ('A' as int + v - 10) as char
  }

  /** "#" followed by exactly six hexadecimal digits, in either case. */
  predicate IsHexColor(s: string) {
    |s| == 7 && s[0] == '#' && forall k :: 1 <= k < 7 ==> IsHexDigit(s[k])
  }

  /** "#" followed by exactly six upper-case hexadecimal digits. */
  predicate IsCanonicalHexColor(s: string) {
    |s| == 7 && s[0] == '#' && forall k :: 1 <= k < 7 ==> IsUpperHexDigit(s[k])
  }

  function HexByte(hi: char, lo: char): Channel
    requires IsHexDigit(hi) && IsHexDigit(lo)
  {
    16 * HexDigitValue(hi) + HexDigitValue(lo)
  }

  /**
   * Color.decode on the "#RRGGBB" form: it succeeds exactly on hex colour
   * literals, and otherwise fails with a NumberFormatException naming the input.
   */
  function Decode(s: string): (r: Result<Rgb>)
    ensures r.Ok? <==> IsHexColor(s)
    ensures r.Err? ==> r.error == NumberFormat(s)
  {
    if IsHexColor(s) then
      Ok(Rgb(HexByte(s[1], s[2]), HexByte(s[3], s[4]), HexByte(s[5], s[6])))
    else
      Err(NumberFormat(s))
  }

  /** The canonical "#RRGGBB" spelling of a colour: the reference inverse of Decode. */
  function Encode(c: Rgb): (s: string)
    ensures IsCanonicalHexColor(s)
  {
    ['#',
     UpperHexDigit(c.red / 16), UpperHexDigit(c.red % 16),
     UpperHexDigit(c.green / 16), UpperHexDigit(c.green % 16),
     UpperHexDigit(c.blue / 16), UpperHexDigit(c.blue % 16)]
  }

  /** ch with 'a'..'f' mapped to 'A'..'F'; every other character unchanged. */
  function UpperChar(ch: char): char {
    if 'a' <= ch <= 'f' then (ch as int - 'a' as int + 'A' as int) as char else ch
  }

  function UpperCased(s: string): (t: string)
    ensures |t| == |s|
  {
    seq(|s|, k requires 0 <= k < |s| => UpperChar(s[k]))
  }

  /** new Color(r, g, b): IllegalArgumentException unless every channel is in 0..255. */
  function NewColor(r: int, g: int, b: int): (c: Result<Rgb>)
    ensures c.Ok? <==> 0 <= r <= 255 && 0 <= g <= 255 && 0 <= b <= 255
    ensures c.Ok? ==> c.value.red == r && c.value.green == g && c.value.blue == b
    ensures c.Err? ==> c.error == IllegalArgument
  {
    if 0 <= r <= 255 && 0 <= g <= 255 && 0 <= b <= 255 then Ok(Rgb(r, g, b))
    else Err(IllegalArgument)
  }

  /** Every colour survives being written out and decoded again. */
  lemma DecodeEncode(c: Rgb)
    ensures Decode(Encode(c)) == Ok(c)
  {
    var s := Encode(c);
    assert HexByte(s[1], s[2]) == c.red;
    assert HexByte(s[3], s[4]) == c.green;
    assert HexByte(s[5], s[6]) == c.blue;
  }

  lemma UpperHexDigitOf(ch: char)
    requires IsUpperHexDigit(ch)
    ensures UpperHexDigit(HexDigitValue(ch)) == ch
  {
  }

  /** A canonical literal decodes, and writing the result out gives the literal back. */
  lemma EncodeDecode(s: string)
    requires IsCanonicalHexColor(s)
    ensures Decode(s).Ok? && Encode(Decode(s).value) == s
  {
    var c := Decode(s).value;
    forall k | 1 <= k < 7
      ensures UpperHexDigit(HexDigitValue(s[k])) == s[k]
    {
      UpperHexDigitOf(s[k]);
    }
    assert c.red / 16 == HexDigitValue(s[1]) && c.red % 16 == HexDigitValue(s[2]);
    assert c.green / 16 == HexDigitValue(s[3]) && c.green % 16 == HexDigitValue(s[4]);
    assert c.blue / 16 == HexDigitValue(s[5]) && c.blue % 16 == HexDigitValue(s[6]);
    assert Encode(c) == s;
  }

  /** Decoding ignores the case of the digits: a literal and its upper-case spelling give the same colour. */
  lemma DecodeIgnoresCase(s: string)
    requires IsHexColor(s)
    ensures IsCanonicalHexColor(UpperCased(s))
    ensures Decode(UpperCased(s)) == Decode(s)
  {
    var t := UpperCased(s);
    forall k | 1 <= k < 7
      ensures IsUpperHexDigit(t[k]) && HexDigitValue(t[k]) == HexDigitValue(s[k])
    {
      assert t[k] == UpperChar(s[k]);
    }
  }

  /** A lower-case sample: "#ff8000" is (255, 128, 0), the colour of "#FF8000". */
  lemma LowerCaseSample()
    ensures Decode("#ff8000") == Ok(Rgb(255, 128, 0))
    ensures Decode("#ff8000") == Decode("#FF8000")
  {
    DecodeIgnoresCase("#ff8000");
    assert UpperCased("#ff8000") == "#FF8000";
  }
}
