/** Colour values as the BGR32 adapter sees them (Go's image/color package plus
    the adapter's own colour model, bgr32.go lines 8-17). */
module Colors {

  /** Go's uint8. */
  type byte = b: int | 0 <= b < 0x100

  /** Go's uint32: the type of the channels a colour's RGBA method reports. */
  type uint32 = v: int | 0 <= v < 0x1_0000_0000

  /** color.RGBA: four 8-bit channels (alpha-premultiplied). */
  datatype RGBA = RGBA(R: byte, G: byte, B: byte, A: byte)

  /** color.RGBA{}: the zero colour, fully transparent black. */
  const Transparent := RGBA(0, 0, 0, 0)

  /** RGBColor: three 8-bit channels, the argument of SetBGR. */
  datatype RGBColor = RGBColor(R: byte, G: byte, B: byte)

  /** A color.Color value. A color.RGBA is kept as it is; a value of any other
      colour type is known only through the four channels its RGBA method
      reports, which the color.Color interface promises are at most 0xFFFF. */
  datatype Color =
    | Rgba(rgba: RGBA)
    | Other(r: uint32, g: uint32, b: uint32, a: uint32)
  {
    /** The channels keep the color.Color promise of 16-bit range. */
    predicate Fits16() {
      Other? ==> r < 0x1_0000 && g < 0x1_0000 && b < 0x1_0000 && a < 0x1_0000
    }
  }

  /** h is the high byte of the 16-bit value v. */
  predicate HighByteOf(h: byte, v: uint32) {
    h * 0x100 <= v < h * 0x100 + 0x100
  }

  /** uint8(v >> 8): shift out the low byte, then truncate to 8 bits. */
  function High8(v: uint32): (h: byte)
    ensures v < 0x1_0000 ==> HighByteOf(h, v)
    // Documentation only: above 16 bits Go's uint8 conversion truncates.
    ensures v >= 0x1_0000 ==> h == (v / 0x100) % 0x100
  {
    (v / 0x100) % 0x100
  }

  /** The channel value that color.RGBA.RGBA reports for an 8-bit channel x
      (x | x << 8); its high byte is x again. */
  lemma High8OfWidened(x: byte)
    ensures x * 0x101 < 0x1_0000
    ensures High8(x * 0x101) == x
  {
    assert x * 0x101 == x * 0x100 + x;
    assert (x * 0x100 + x) / 0x100 == x;
  }

  /** bgrModel, the function behind BGRModel: a color.RGBA passes through
      unchanged; any other colour becomes a color.RGBA whose red channel is the
      high byte of the input's blue, whose blue is the high byte of the input's
      red, and whose green and alpha are the high bytes of green and alpha. */
  function BgrModel(c: Color): (m: Color)
    ensures m.Rgba?
    ensures c.Rgba? ==> m == c
    ensures c.Other? && c.Fits16() ==>
      HighByteOf(m.rgba.R, c.b) && HighByteOf(m.rgba.G, c.g) &&
      HighByteOf(m.rgba.B, c.r) && HighByteOf(m.rgba.A, c.a)
  {
    match c
    case Rgba(_) => c
    case Other(r, g, b, a) => Rgba(RGBA(High8(b), High8(g), High8(r), High8(a)))
  }

  /** color.RGBAModel.Convert, as Set uses it: a color.RGBA passes through
      unchanged; any other colour is reduced to the high byte of each channel,
      red staying red and blue staying blue. */
  function RgbaModel(c: Color): (m: RGBA)
    ensures c.Rgba? ==> m == c.rgba
    ensures c.Other? && c.Fits16() ==>
      HighByteOf(m.R, c.r) && HighByteOf(m.G, c.g) &&
      HighByteOf(m.B, c.b) && HighByteOf(m.A, c.a)
  {
    match c
    case Rgba(rgba) => rgba
    case Other(r, g, b, a) => RGBA(High8(r), High8(g), High8(b), High8(a))
  }

  /** The same colour given as a color.RGBA and as another colour type with the
      same channels. */
  function Widened(c: RGBA): (w: Color)
    ensures w.Other? && w.Fits16()
    ensures HighByteOf(c.R, w.r) && HighByteOf(c.G, w.g) && HighByteOf(c.B, w.b) && HighByteOf(c.A, w.a)
  {
    High8OfWidened(c.R); High8OfWidened(c.G); High8OfWidened(c.B); High8OfWidened(c.A);
    Other(c.R * 0x101, c.G * 0x101, c.B * 0x101, c.A * 0x101)
  }

  /** BGRModel's result depends on how a colour is represented, not only on
      which colour it is: a color.RGBA is kept, but the same colour of any other
      type comes back with red and blue exchanged. color.RGBAModel, used by
      Set, gives the same color.RGBA for both. */
  lemma BgrModelSwapsOnlyOtherColours(c: RGBA)
    ensures BgrModel(Rgba(c)) == Rgba(c)
    ensures BgrModel(Widened(c)) == Rgba(RGBA(c.B, c.G, c.R, c.A))
    ensures RgbaModel(Rgba(c)) == RgbaModel(Widened(c)) == c
  {
    High8OfWidened(c.R); High8OfWidened(c.G); High8OfWidened(c.B); High8OfWidened(c.A);
  }
}
