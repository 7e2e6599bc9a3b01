/**
 * The enum of named colours. Each constant carries the hex code passed to its
 * constructor, and getHexCode hands that code back unchanged; the match in
 * HexCode is that constructor argument, constant by constant.
 */
module Catalog {
  import opened AwtColor

  datatype Colors =
    | RED | GREEN | BLUE | YELLOW | CYAN | WHITE | BLACK | GRAY | DARK_GRAY
    | LIGHT_GRAY | ORANGE | PINK | PURPLE | BROWN | LIME | MAROON | LIGHT_BLUE
    | LIGHT_GREEN | LIGHT_YELLOW | LIGHT_PINK | LIGHT_PURPLE | SILVER | AQUA
    | MAGENTA
  {
    /** getHexCode: always "#" followed by six upper-case hex digits. */
    function HexCode(): (h: string)
      ensures IsCanonicalHexColor(h)
    {
      match this
      case RED => "#FF0000"
      case GREEN => "#00FF00"
      case BLUE => "#0000FF"
      case YELLOW => "#FFFF00"
      case CYAN => "#00FFFF"
      case WHITE => "#FFFFFF"
      case BLACK => "#000000"
      case GRAY => "#808080"
      case DARK_GRAY => "#404040"
      case LIGHT_GRAY => "#C0C0C0"
      case ORANGE => "#FFA500"
      case PINK => "#FFC0CB"
      case PURPLE => "#800080"
      case BROWN => "#A52A2A"
      case LIME => "#00FF00"
      case MAROON => "#800000"
      case LIGHT_BLUE => "#ADD8E6"
      case LIGHT_GREEN => "#90EE90"
      case LIGHT_YELLOW => "#FFFFE0"
      case LIGHT_PINK => "#FFB6C1"
      case LIGHT_PURPLE => "#D3D3D3"
      case SILVER => "#C0C0C0"
      case AQUA => "#00FFFF"
      case MAGENTA => "#FF00FF"
    }

    /** ordinal(): the position of the constant in declaration order. */
    function Ordinal(): (n: nat)
      ensures n < |AllColors| && AllColors[n] == this
    {
      match this
      case RED => 0
      case GREEN => 1
      case BLUE => 2
      case YELLOW => 3
      case CYAN => 4
      case WHITE => 5
      case BLACK => 6
      case GRAY => 7
      case DARK_GRAY => 8
      case LIGHT_GRAY => 9
      case ORANGE => 10
      case PINK => 11
      case PURPLE => 12
      case BROWN => 13
      case LIME => 14
      case MAROON => 15
      case LIGHT_BLUE => 16
      case LIGHT_GREEN => 17
      case LIGHT_YELLOW => 18
      case LIGHT_PINK => 19
      case LIGHT_PURPLE => 20
      case SILVER => 21
      case AQUA => 22
      case MAGENTA => 23
    }
  }

  /** The constants in declaration order, as Colors.values() lists them. */
  const AllColors: seq<Colors> :=
    [RED, GREEN, BLUE, YELLOW, CYAN, WHITE, BLACK, GRAY, DARK_GRAY,
     LIGHT_GRAY, ORANGE, PINK, PURPLE, BROWN, LIME, MAROON, LIGHT_BLUE,
     LIGHT_GREEN, LIGHT_YELLOW, LIGHT_PINK, LIGHT_PURPLE, SILVER, AQUA,
     MAGENTA]

  /** There are exactly 24 constants: the list holds each of them once. */
  lemma ExactlyTwentyFour()
    ensures |AllColors| == 24
    ensures forall c: Colors :: c in AllColors
    ensures forall i, j :: 0 <= i < j < |AllColors| ==> AllColors[i] != AllColors[j]
  {
    forall c: Colors
      ensures c in AllColors
    {
      assert AllColors[c.Ordinal()] == c;
    }
  }

  /**
   * Every constant's code is accepted by Color.decode, and it is the canonical
   * spelling of the colour it decodes to.
   */
  lemma HexCodeDecodes(c: Colors)
    ensures Decode(c.HexCode()).Ok?
    ensures Encode(Decode(c.HexCode()).value) == c.HexCode()
  {
    EncodeDecode(c.HexCode());
  }

  /** Distinct names may share a code: the table is not injective. */
  lemma SharedHexCodes()
    ensures GREEN != LIME && GREEN.HexCode() == LIME.HexCode()
    ensures CYAN != AQUA && CYAN.HexCode() == AQUA.HexCode()
    ensures LIGHT_GRAY != SILVER && LIGHT_GRAY.HexCode() == SILVER.HexCode()
  {
  }

  /** Two decoded samples: RED is (255, 0, 0) and BLUE is (0, 0, 255). */
  lemma PrimaryColorsDecode()
    ensures Decode(RED.HexCode()) == Ok(Rgb(255, 0, 0))
    ensures Decode(BLUE.HexCode()) == Ok(Rgb(0, 0, 255))
  {
  }
}
