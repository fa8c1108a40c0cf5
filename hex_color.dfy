/** `hexToRgba` of src/App.jsx: the `#rrggbb` value of the colour input becomes the CSS
    stroke style `rgba(r, g, b, opacity)`, each channel read with parseInt in radix 16
    from a two-character slice. */
module HexColor {
  import opened JsNumbers
  import opened Raster

  /** `s.slice(start, end)` for `0 <= start <= end`: both bounds are clamped to the length. */
  function Slice(s: string, start: nat, end: nat): (t: string)
    requires start <= end
    ensures |t| == if end <= |s| then end - start else if start <= |s| then |s| - start else 0
    ensures forall i :: 0 <= i < |t| ==> t[i] == s[start + i]
  {
    var a := if start < |s| then start else |s|;
    var b := if end < |s| then end else |s|;
    seq(b - a, k requires 0 <= k < b - a => s[a + k])
  }

  /** The three channel numbers read from a colour string; NaN where a slice holds no
      hexadecimal digit. */
  datatype Channels = Channels(r: Option<int>, g: Option<int>, b: Option<int>)

  function ReadChannels(hex: string): Channels {
    Channels(ReadChannel(hex, 1), ReadChannel(hex, 3), ReadChannel(hex, 5))
  }

  /** `parseInt(hex.slice(i, i + 2), 16)`. */
  function ReadChannel(hex: string, i: nat): Option<int> {
    ParseInt(Slice(hex, i, i + 2), 16)
  }

  /** How a template literal writes an integer-valued number: its decimal numeral with a
      minus sign when negative, and "NaN" for NaN. */
  function NumberText(n: Option<int>): (s: string)
    ensures |s| > 0
  {
    match n
    case None => "NaN"
    case Some(v) => if v < 0 then "-" + Decimal(-v) else Decimal(v)
  }

  /** hexToRgba(hex, opacity); `opacity` is the text JavaScript writes for the opacity
      number. For a well-formed `#rrggbb` (either case) each channel is written as the
      decimal value of its two hexadecimal digits. */
  function HexToRgba(hex: string, opacity: string): (style: string)
    ensures IsHexColour(hex) ==>
      style == "rgba(" + Decimal(16 * DigitValue(hex[1]) + DigitValue(hex[2])) + ", " +
               Decimal(16 * DigitValue(hex[3]) + DigitValue(hex[4])) + ", " +
               Decimal(16 * DigitValue(hex[5]) + DigitValue(hex[6])) + ", " + opacity + ")"
  {
    WellFormedChannels(hex);
    var c := ReadChannels(hex);
    "rgba(" + NumberText(c.r) + ", " + NumberText(c.g) + ", " + NumberText(c.b) + ", " + opacity + ")"
  }

  lemma WellFormedChannels(hex: string)
    ensures IsHexColour(hex) ==> ReadChannels(hex) == Channels(
      Some(16 * DigitValue(hex[1]) + DigitValue(hex[2])),
      Some(16 * DigitValue(hex[3]) + DigitValue(hex[4])),
      Some(16 * DigitValue(hex[5]) + DigitValue(hex[6])))
  {
    if IsHexColour(hex) {
      ReadWellFormed(hex);
    }
  }

  /** A well-formed colour: `#` and six hexadecimal digits. */
  predicate IsHexColour(hex: string) {
    |hex| == 7 && hex[0] == '#' && forall i :: 1 <= i < 7 ==> DigitValue(hex[i]) < 16
  }

  /** The lower-case `#rrggbb` text that a colour input reports for a colour: each
      channel as two hexadecimal digits. */
  function ColourText(r: byte, g: byte, b: byte): (hex: string)
    ensures IsHexColour(hex)
    ensures 16 * DigitValue(hex[1]) + DigitValue(hex[2]) == r
    ensures 16 * DigitValue(hex[3]) + DigitValue(hex[4]) == g
    ensures 16 * DigitValue(hex[5]) + DigitValue(hex[6]) == b
  {
    ['#', DigitChar(r / 16), DigitChar(r % 16), DigitChar(g / 16), DigitChar(g % 16), DigitChar(b / 16), DigitChar(b % 16)]
  }

  /** Each channel of a well-formed colour is the value of its two digits, in 0..255. */
  lemma ReadWellFormed(hex: string)
    requires IsHexColour(hex)
    ensures ReadChannels(hex).r == Some(16 * DigitValue(hex[1]) + DigitValue(hex[2]))
    ensures ReadChannels(hex).g == Some(16 * DigitValue(hex[3]) + DigitValue(hex[4]))
    ensures ReadChannels(hex).b == Some(16 * DigitValue(hex[5]) + DigitValue(hex[6]))
    ensures 16 * DigitValue(hex[1]) + DigitValue(hex[2]) <= 255
    ensures 16 * DigitValue(hex[3]) + DigitValue(hex[4]) <= 255
    ensures 16 * DigitValue(hex[5]) + DigitValue(hex[6]) <= 255
  {
    assert DigitValue(hex[1]) < 16 && DigitValue(hex[2]) < 16;
    assert DigitValue(hex[3]) < 16 && DigitValue(hex[4]) < 16;
    assert DigitValue(hex[5]) < 16 && DigitValue(hex[6]) < 16;
    ReadPair(hex, 1);
    ReadPair(hex, 3);
    ReadPair(hex, 5);
  }

  /** The two characters at `i`, when both are hexadecimal digits, read as their value. */
  lemma ReadPair(hex: string, i: nat)
    requires i + 2 <= |hex| && DigitValue(hex[i]) < 16 && DigitValue(hex[i + 1]) < 16
    ensures ReadChannel(hex, i) == Some(16 * DigitValue(hex[i]) + DigitValue(hex[i + 1]))
    ensures 0 <= 16 * DigitValue(hex[i]) + DigitValue(hex[i + 1]) <= 255
  {
    var sl := Slice(hex, i, i + 2);
    assert sl[0] == hex[i] && sl[1] == hex[i + 1];
    ParseHexPair(sl);
  }

  /** Reading the channels of a colour's text gives the colour back. */
  lemma ReadColourText(r: byte, g: byte, b: byte)
    ensures ReadChannels(ColourText(r, g, b)) == Channels(Some(r), Some(g), Some(b))
  {
    ReadWellFormed(ColourText(r, g, b));
  }

  /** The stroke style of a colour lists its three channels in decimal. */
  lemma RgbaOfColourText(r: byte, g: byte, b: byte, opacity: string)
    ensures HexToRgba(ColourText(r, g, b), opacity) ==
      "rgba(" + Decimal(r) + ", " + Decimal(g) + ", " + Decimal(b) + ", " + opacity + ")"
  {
    ReadColourText(r, g, b);
  }

  /** A value too short to hold a channel's digits reads as NaN there: "#ff" gives
      `rgba(255, NaN, NaN, ...)`. */
  lemma ShortValueIsNaN(hex: string)
    requires |hex| <= 3
    ensures ReadChannels(hex).g == None && ReadChannels(hex).b == None
  {
    assert Slice(hex, 3, 5) == [] && Slice(hex, 5, 7) == [];
    assert ReadChannel(hex, 3) == None && ReadChannel(hex, 5) == None;
  }

  /** The initial colour `#ff0000` reads as red 255, green 0 and blue 0. */
  lemma DefaultColour()
    ensures ReadChannels("#ff0000") == Channels(Some(255), Some(0), Some(0))
  {
    assert ColourText(255, 0, 0) == "#ff0000";
    ReadColourText(255, 0, 0);
  }
}
