/**
 * The colour picker page: the hexadecimal <-> RGB conversions, the clamped
 * edit of one RGB component, and the effect that re-derives RGB and HSL
 * whenever the colour text changes.
 */
module ColorPicker {
  import opened Options
  import opened Chars
  import opened HexText

  datatype Rgb = Rgb(r: int, g: int, b: int)

  /** The `"r" | "g" | "b"` argument of the component editor. */
  datatype Component = R | G | B

  predicate InByteRange(c: Rgb)
  {
    0 <= c.r < 256 && 0 <= c.g < 256 && 0 <= c.b < 256
  }

  predicate AllHexDigits(s: string)
  {
    forall i :: 0 <= i < |s| ==> IsHexDigit(s[i])
  }

  /** The text `^#?([a-f\d]{2})([a-f\d]{2})([a-f\d]{2})$` matches case-insensitively. */
  predicate IsHexColor(hex: string)
  {
    || (|hex| == 6 && AllHexDigits(hex))
    || (|hex| == 7 && hex[0] == '#' && AllHexDigits(hex[1..]))
  }

  /** The six digits of a hexadecimal colour, without its optional `#`. */
  function DigitsOf(hex: string): (d: string)
    requires IsHexColor(hex)
    ensures |d| == 6 && AllHexDigits(d)
    ensures hex == d || hex == "#" + d
  {
    if |hex| == 7 then hex[1..] else hex
  }

  /**
   * `hexToRgb`: the three two-digit groups read in base 16, or `None`
   * (the source's `null`) for any text the pattern rejects.
   */
  function HexToRgb(hex: string): (c: Option<Rgb>)
    ensures c.Some? <==> IsHexColor(hex)
    ensures c.Some? ==> InByteRange(c.value)
  {
    if IsHexColor(hex) then
      var d := DigitsOf(hex);
      Some(Rgb(PairValue(d[0], d[1]), PairValue(d[2], d[3]), PairValue(d[4], d[5])))
    else
      None
  }

  /** `rgbToHex`: `#` followed by each component's `toString(16).padStart(2, "0")`. */
  function RgbToHex(c: Rgb): string
  {
    "#" + Hex2(c.r) + Hex2(c.g) + Hex2(c.b)
  }

  /** For components in 0..255 the text is `#` and six lower-case digits, two per component. */
  lemma {:induction false} RgbToHexShape(c: Rgb)
    requires InByteRange(c)
    ensures var h := RgbToHex(c);
      && |h| == 7 && h[0] == '#'
      && h[1..3] == [Digit(c.r / 16), Digit(c.r % 16)]
      && h[3..5] == [Digit(c.g / 16), Digit(c.g % 16)]
      && h[5..7] == [Digit(c.b / 16), Digit(c.b % 16)]
      && (forall i :: 1 <= i < 7 ==> IsHexDigit(h[i]) && !IsUpper(h[i]))
      && IsHexColor(h)
  {
    Hex2OfByte(c.r);
    Hex2OfByte(c.g);
    Hex2OfByte(c.b);
    var h := RgbToHex(c);
    assert h[1..] == Hex2(c.r) + Hex2(c.g) + Hex2(c.b);
  }

  /** Writing a colour and reading it back gives the colour. */
  lemma {:induction false} HexRoundTrip(c: Rgb)
    requires InByteRange(c)
    ensures HexToRgb(RgbToHex(c)) == Some(c)
  {
    RgbToHexShape(c);
    var h := RgbToHex(c);
    var d := DigitsOf(h);
    assert d == Hex2(c.r) + Hex2(c.g) + Hex2(c.b);
    PairValueOfHex2(c.r);
    PairValueOfHex2(c.g);
    PairValueOfHex2(c.b);
  }

  /** Reading a valid colour text and writing it back gives `#` and its digits in lower case. */
  lemma {:induction false} HexReverseRoundTrip(hex: string)
    requires IsHexColor(hex)
    ensures HexToRgb(hex).Some?
    ensures RgbToHex(HexToRgb(hex).value) == "#" + LowerString(DigitsOf(hex))
  {
    var d := DigitsOf(hex);
    var c := HexToRgb(hex).value;
    assert c == Rgb(PairValue(d[0], d[1]), PairValue(d[2], d[3]), PairValue(d[4], d[5]));
    Hex2OfPairValue(d[0], d[1]);
    Hex2OfPairValue(d[2], d[3]);
    Hex2OfPairValue(d[4], d[5]);
    var lowered := [ToLower(d[0]), ToLower(d[1]), ToLower(d[2]), ToLower(d[3]), ToLower(d[4]), ToLower(d[5])];
    assert LowerString(d) == lowered;
    assert RgbToHex(c) == "#" + lowered;
  }

  /** `Math.min(255, Math.max(0, value))`. */
  function Clamp(value: int): (v: int)
    ensures 0 <= v <= 255
    ensures 0 <= value <= 255 ==> v == value
    ensures value < 0 ==> v == 0
    ensures value > 255 ==> v == 255
  {
    if value < 0 then 0 else if value > 255 then 255 else value
  }

  /** `{ ...rgb, [component]: value }`. */
  function WithComponent(c: Rgb, component: Component, value: int): Rgb
  {
    match component
    case R => c.(r := value)
    case G => c.(g := value)
    case B => c.(b := value)
  }

  /** The clamped edit keeps a colour in range and changes only the named component. */
  lemma ClampedEditInRange(c: Rgb, component: Component, value: int)
    requires InByteRange(c)
    ensures var e := WithComponent(c, component, Clamp(value));
      && InByteRange(e)
      && (component == R ==> e.g == c.g && e.b == c.b && e.r == Clamp(value))
      && (component == G ==> e.r == c.r && e.b == c.b && e.g == Clamp(value))
      && (component == B ==> e.r == c.r && e.g == c.g && e.b == Clamp(value))
  {
  }

  /**
   * The page's state. `hslOf` is the colour whose HSL form is on display:
   * `rgbToHsl` is floating-point arithmetic and is not part of this model,
   * so the state records its argument instead of its result.
   */
  class ColorPickerPage {
    var color: string
    var rgb: Rgb
    var hslOf: Rgb

    /** RGB is in range, HSL shows the RGB colour, and a valid colour text agrees with RGB. */
    ghost predicate Valid()
      reads this
    {
      && InByteRange(rgb)
      && hslOf == rgb
      && (HexToRgb(color).Some? ==> HexToRgb(color).value == rgb)
    }

    /** The initial state: `#6366f1`, rgb(99, 102, 241) and its HSL form. */
    constructor ()
      ensures Valid()
      ensures color == "#6366f1" && rgb == Rgb(99, 102, 241)
    {
      color := "#6366f1";
      rgb := Rgb(99, 102, 241);
      hslOf := Rgb(99, 102, 241);
      new;
      assert HexToRgb(color).Some?;
      assert DigitsOf(color) == "6366f1";
    }

    /**
     * The effect that runs after `color` changes: a valid text updates RGB
     * and HSL, an invalid one leaves both as they were.
     */
    method ColorEffect()
      modifies this
      ensures color == old(color)
      ensures HexToRgb(color).Some? ==> rgb == HexToRgb(color).value && hslOf == rgb
      ensures HexToRgb(color).None? ==> rgb == old(rgb) && hslOf == old(hslOf)
    {
      var parsed := HexToRgb(color);
      if parsed.Some? {
        rgb := parsed.value;
        hslOf := parsed.value;
      }
    }

    /** Typing in the hexadecimal field or using the native picker, followed by the effect. */
    method SetColor(text: string)
      requires Valid()
      modifies this
      ensures Valid()
      ensures color == text
      ensures HexToRgb(text).Some? ==> rgb == HexToRgb(text).value
      ensures HexToRgb(text).None? ==> rgb == old(rgb) && hslOf == old(hslOf)
    {
      var previous := color;
      color := text;
      if color != previous {
        ColorEffect();
      }
    }

    /**
     * `handleRgbChange`: clamp the value into 0..255, replace that component,
     * and write the colour text from the new RGB; the effect then finds the
     * same colour in the text, so RGB stays and HSL follows it.
     */
    method HandleRgbChange(component: Component, value: int)
      requires Valid()
      modifies this
      ensures Valid()
      ensures rgb == WithComponent(old(rgb), component, Clamp(value))
      ensures color == RgbToHex(rgb)
    {
      var edited := WithComponent(rgb, component, Clamp(value));
      ClampedEditInRange(rgb, component, value);
      HexRoundTrip(edited);
      var previous := color;
      rgb := edited;
      color := RgbToHex(edited);
      if color != previous {
        ColorEffect();
      }
    }
  }
}
