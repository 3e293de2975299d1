# BGR32 framebuffer adapter, modelled in Dafny

The Go package `framebuffer` has one type, `BGR32`. It lets a raw byte buffer
laid out as 32-bit BGR pixels be used as a Go `image.Image`. Each pixel takes 4
bytes in the order blue, green, red, unused. The pixel at `(x, y)` starts at
byte `(y - Rect.Min.Y) * Stride + (x - Rect.Min.X) * 4`. Reads and writes
outside `Rect` never fail: a read gives the zero colour and a write does
nothing. Inside `Rect` a read always reports alpha `0xFF`, and a write never
touches the fourth byte.

The model has three modules:

- `Geometry` (geometry.dfy): Go's `image.Point` and `image.Rectangle`. `Point.In`
  is the half-open test `Min <= p < Max` on both axes.
- `Colors` (colors.dfy): `color.RGBA`, `RGBColor`, a `Color` datatype for
  `color.Color`, the adapter's colour model `bgrModel` (`BgrModel`) and
  `color.RGBAModel.Convert` (`RgbaModel`), which `Set` uses. Go's
  `uint8(v >> 8)` is written out as `(v / 0x100) % 0x100`.
- `Framebuffer` (framebuffer.dfy): the class `BGR32`.
  - `Pix` is an `array<byte>` and `Rect` and `Stride` are fields.
  - `Set` and `SetBGR` are methods with `modifies Pix`. Their postconditions
    give the new buffer as `Put` applied to the old buffer, and describe
    what a following `At` returns.
  - `At`, `PixOffset`, `Bounds` and `ColorModel` are functions over the fields
    and the array contents.
  - `Valid()` states the invariant of the BGR32 layout itself, which the Go
    code never checks. If `Rect` is non-empty, then `Stride >= 4 * Dx` and
    `(Dy - 1) * Stride + 4 * Dx <= len(Pix)`. Under this invariant every pixel
    owns 4 bytes and rows do not overlap. The Go code touches only bytes n, n+1
    and n+2 of a pixel, so it also runs without a panic on some buffers that
    break the invariant (see "## Left out"). The frame properties of `Set` and
    `SetBGR` rest on the invariant: writing one pixel leaves every other
    pixel's value unchanged (`PixelsDisjoint`).
  - `FramebufferExample.TwoByTwo` is a client that works through a 2x2 image
    with 8-byte rows. `FramebufferExample.SetTwiceIsSetOnce` calls `Set` twice
    and proves the buffer ends as after one call.

Behaviour of the code that the model keeps as written:

- `SetBGR` stores `c.B` at byte n + 2 and `c.R` at byte n. `At` reads red from
  byte n + 2, so `SetBGR(x, y, c)` followed by `At(x, y)` gives
  `{c.B, c.G, c.R, 0xFF}`, with red and blue exchanged relative to the fields
  of `c`. The name `SetBGR` and the field names of `RGBColor` suggest
  `{c.R, c.G, c.B, 0xFF}`; the code gives `{c.B, c.G, c.R, 0xFF}`, and the
  model follows the code.
- `bgrModel` returns a `color.RGBA` unchanged. Any other colour comes back with
  red and blue exchanged. So the same colour converts differently depending on
  its Go type (`Colors.BgrModelSwapsOnlyOtherColours`). `Set` converts with
  `color.RGBAModel`, which does not exchange the channels.

## Model

| member | source | states |
|---|---|---|
| `Colors.High8` | bgr32.go:16 | `uint8(v >> 8)` is the high byte of `v` when `v <= 0xFFFF`; above that, the 8-bit truncation of `v / 256` |
| `Colors.High8OfWidened` | bgr32.go:15-16 | a byte widened to 16 bits as `color.RGBA` reports it (`x * 0x101`) stays within 16 bits and has the original byte as its high byte |
| `Colors.Widened` | bgr32.go:15 | the same 8-bit colour in the form another colour type reports it (each channel widened to `x * 0x101`, as `color.RGBA.RGBA()` does): channels within 16 bits, each with the original byte as its high byte |
| `Colors.BgrModel` | bgr32.go:11-17 | the result is always a `color.RGBA`; a `color.RGBA` input is returned unchanged; any other colour with 16-bit channels (r, g, b, a) gives red = high byte of b, green = high byte of g, blue = high byte of r, alpha = high byte of a |
| `Colors.RgbaModel` | bgr32.go:50 | the conversion `Set` applies: `color.RGBA` passes through; any other colour keeps the high byte of each channel in place (no exchange) |
| `Colors.BgrModelSwapsOnlyOtherColours` | bgr32.go:11-17 | the same colour gives back its `color.RGBA` form unchanged, but its form as another colour type comes back with red and blue exchanged; `color.RGBAModel` gives the same result for both |
| `Framebuffer.Put` | bgr32.go:51-53 | storing a pixel at byte n sets bytes n, n+1, n+2 to blue, green, red, keeps the length, and keeps byte n+3 and every other byte |
| `Framebuffer.PutIdempotent` | bgr32.go:51-53 | storing the same pixel twice gives the same bytes as storing it once, so a repeated `Set` or `SetBGR` with the same arguments changes nothing more |
| `Framebuffer.PutOverwrites` | bgr32.go:51-53 | a second store into the same pixel completely replaces the first |
| `Framebuffer.BGR32.constructor` | bgr32.go:21-25 | a `BGR32` built from a buffer, bounds and stride that satisfy the layout assumption holds exactly those fields and is `Valid()` |
| `Framebuffer.BGR32.Bounds` | bgr32.go:28 | the bounds are exactly the points at which `At` reports an opaque pixel (alpha 0xFF) |
| `Framebuffer.BGR32.ColorModel` | bgr32.go:31 | the colour model is `BGRModel`, the model built from `bgrModel` (bgr32.go:9-17): it always yields a `color.RGBA`, is the identity on `color.RGBA`, and converting twice equals converting once |
| `Framebuffer.BGR32.PixOffset` | bgr32.go:57-59 | the pixel at `Rect.Min` starts at byte 0 |
| `Framebuffer.BGR32.PixOffsetSteps` | bgr32.go:57-59 | offsets are row-major: one column right adds 4 bytes, one row down adds `Stride` bytes |
| `Framebuffer.BGR32.OffsetInPix` | bgr32.go:57-59 | under the layout assumption, all four bytes of every in-bounds pixel lie inside `Pix` |
| `Framebuffer.BGR32.ValidPixelsFit` | bgr32.go:39-40 | the layout invariant makes the byte accesses of `At`, `Set` and `SetBGR` safe: all four bytes of every in-bounds pixel lie inside `Pix` |
| `Framebuffer.BGR32.PixelsFitNeedsLength` | bgr32.go:57-59 | conversely, if every in-bounds pixel lies inside `Pix`, then `len(Pix) >= (Dy - 1) * Stride + 4 * Dx`, so the length half of the invariant is the least that keeps all four bytes of every in-bounds pixel inside `Pix` |
| `Framebuffer.BGR32.PixelsDisjoint` | bgr32.go:57-59 | under the layout assumption, two different in-bounds pixels occupy non-overlapping 4-byte groups |
| `Framebuffer.BGR32.At` | bgr32.go:34-41 | outside `Rect` the zero colour `{0,0,0,0}`, with no read of `Pix`; inside, `{Pix[n+2], Pix[n+1], Pix[n], 0xFF}` with n = `PixOffset(x, y)`; alpha is 0xFF exactly when the point is in bounds |
| `Framebuffer.BGR32.Set` | bgr32.go:44-54 | outside `Rect` every byte is unchanged; inside, the `color.RGBAModel` conversion c1 of c is stored as `Put(old Pix, n, c1.B, c1.G, c1.R)` (byte n+3 and all other bytes kept); `At(x, y)` then gives `{c1.R, c1.G, c1.B, 0xFF}` whatever c's alpha; `At` at every other point is unchanged |
| `FramebufferExample.SetTwiceIsSetOnce` | bgr32.go:44-54 | calling `Set` twice with the same arguments leaves the buffer exactly as one call does: unchanged out of bounds, `Put(old Pix, n, c1.B, c1.G, c1.R)` in bounds |
| `Framebuffer.BGR32.SetBGR` | bgr32.go:62-71 | outside `Rect` every byte is unchanged; inside, the buffer becomes `Put(old Pix, n, c.R, c.G, c.B)`, i.e. `c.R` at n and `c.B` at n+2; `At(x, y)` then gives `{c.B, c.G, c.R, 0xFF}`; `At` at every other point is unchanged |

## Left out

- Go's interface dispatch for `color.Color` and the `RGBA()` method of arbitrary colour types are left out. A colour that is not a `color.RGBA` is given by the four channel values its `RGBA()` method would report. Alpha premultiplication happens inside that method, so it is not modelled.
- `color.RGBAModel.Convert` is modelled only by the high-byte rule it applies to those channel values.
- `Set` and `SetBGR` are specified by their effect on `Pix[..]`. "Calling `Set` twice equals calling it once" is proved for `Set` by the client `FramebufferExample.SetTwiceIsSetOnce`, and for both methods through `Framebuffer.PutIdempotent` on the function `Put` they are proved to apply.
- A runtime panic from an undersized `Pix` or an inconsistent `Stride` is not modelled. The code does not guard against either, and the class invariant `Valid()` rules them out.
- `Valid()` also excludes three kinds of input on which the Go code runs without a panic, so the model says nothing about them. The first is a one-row image with any `Stride`, for example `Stride == 0`. The second is `0 <= Stride < 4 * Dx`, where rows overlap and a write can change a neighbouring pixel. The third is `len(Pix) == (Dy - 1) * Stride + 4 * Dx - 1`, where the unused fourth byte of the last pixel is missing.
- A nil `color.Color` is not modelled: the `Color` datatype cannot hold one. In Go, an in-bounds `Set(x, y, nil)` panics, because the conversion calls `c.RGBA()`, and `bgrModel(nil)` panics the same way.
- Go `int` overflow in `PixOffset` for huge coordinates is not modelled. Integers are unbounded.
- Aliasing of `Pix` by the caller is not modelled. Conformance to the `image.Image` interface is a Go typing matter and is not modelled.
- `At` returns the concrete `RGBA` value rather than a `color.Color` holding it. The dynamic type is always `color.RGBA`.
