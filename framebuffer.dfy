/** The BGR32 image of bgr32.go: a byte buffer holding 4 bytes per pixel in
    the order blue, green, red, unused, row after row Stride bytes apart. */
module Framebuffer {
  import opened Geometry
  import opened Colors

  /** The bytes after blue, green and red are stored into the pixel that
      starts at byte n; byte n + 3 and every byte outside the pixel keep their
      values. */
  function Put(pix: seq<byte>, n: int, b: byte, g: byte, r: byte): (p: seq<byte>)
    requires 0 <= n && n + 3 <= |pix|
    ensures |p| == |pix|
    ensures p[n] == b && p[n + 1] == g && p[n + 2] == r
    ensures forall i :: 0 <= i < |p| && i != n && i != n + 1 && i != n + 2 ==> p[i] == pix[i]
  {
    pix[n := b][n + 1 := g][n + 2 := r]
  }

  /** Storing the same pixel twice stores it once. */
  lemma PutIdempotent(pix: seq<byte>, n: int, b: byte, g: byte, r: byte)
    requires 0 <= n && n + 3 <= |pix|
    ensures Put(Put(pix, n, b, g, r), n, b, g, r) == Put(pix, n, b, g, r)
  {
    var once := Put(pix, n, b, g, r);
    var twice := Put(once, n, b, g, r);
    assert forall i :: 0 <= i < |twice| ==> twice[i] == once[i];
  }

  /** A later store into the same pixel wins over an earlier one. */
  lemma PutOverwrites(pix: seq<byte>, n: int, b: byte, g: byte, r: byte, b': byte, g': byte, r': byte)
    requires 0 <= n && n + 3 <= |pix|
    ensures Put(Put(pix, n, b, g, r), n, b', g', r') == Put(pix, n, b', g', r')
  {
    var first := Put(Put(pix, n, b, g, r), n, b', g', r');
    var direct := Put(pix, n, b', g', r');
    assert forall i :: 0 <= i < |first| ==> first[i] == direct[i];
  }

  class BGR32 {
    var Pix: array<byte>
    var Rect: Rectangle
    var Stride: int

    /** The BGR32 layout invariant, which bgr32.go never checks: every pixel
        owns 4 bytes, rows are at least 4 * width bytes apart so they do not
        overlap, and all 4 bytes of the last pixel of the last row lie inside
        Pix. The code itself touches only bytes n to n + 2 of a pixel, so it
        also runs on some buffers that break this invariant; the frame
        properties of Set and SetBGR rest on the invariant. */
    ghost predicate Valid()
      reads this
    {
      !Rect.Empty() ==>
        4 * Rect.Dx() <= Stride &&
        (Rect.Dy() - 1) * Stride + 4 * Rect.Dx() <= Pix.Length
    }

    /** A BGR32 literal: the caller supplies the buffer, the bounds and the stride. */
    constructor (pix: array<byte>, rect: Rectangle, stride: int)
      requires !rect.Empty() ==> 4 * rect.Dx() <= stride && (rect.Dy() - 1) * stride + 4 * rect.Dx() <= pix.Length
      ensures Pix == pix && Rect == rect && Stride == stride
      ensures Valid()
    {
      Pix, Rect, Stride := pix, rect, stride;
    }

    /** The bounds: exactly the points where At reports an opaque pixel. */
    function Bounds(): (r: Rectangle)
      reads this, Pix
      ensures Valid() ==> forall x, y :: Point(x, y).In(r) <==> At(x, y).A == 0xFF
    {
      Rect
    }

    /** The colour model, BGRModel: always a color.RGBA, the identity on
        color.RGBA values, and converting twice is converting once. */
    function ColorModel(): (m: Color -> Color)
      ensures forall c: Color :: m(c).Rgba? && m(m(c)) == m(c)
      ensures forall c: Color :: c.Rgba? ==> m(c) == c
      // Documentation only: names the model the two clauses above describe.
      ensures forall c: Color :: m(c) == BgrModel(c)
    {
      BgrModel
    }

    /** Index of the first byte (blue) of pixel (x, y); the pixel at Rect.Min
        starts at byte 0. No bounds check. */
    function PixOffset(x: int, y: int): (n: int)
      reads this
      ensures x == Rect.Min.X && y == Rect.Min.Y ==> n == 0
    {
      (y - Rect.Min.Y) * Stride + (x - Rect.Min.X) * 4
    }

    /** Offsets are row-major: one column right is 4 bytes further, one row
        down is Stride bytes further. */
    lemma PixOffsetSteps(x: int, y: int)
      ensures PixOffset(x + 1, y) == PixOffset(x, y) + 4
      ensures PixOffset(x, y + 1) == PixOffset(x, y) + Stride
    {
      assert (y + 1 - Rect.Min.Y) * Stride == (y - Rect.Min.Y) * Stride + Stride;
    }

    /** Under the layout assumption every in-bounds pixel, all four bytes of
        it, lies inside Pix. */
    lemma OffsetInPix(x: int, y: int)
      requires Valid() && Point(x, y).In(Rect)
      ensures 0 <= PixOffset(x, y) && PixOffset(x, y) + 4 <= Pix.Length
    {
      var row, col := y - Rect.Min.Y, x - Rect.Min.X;
      assert 0 <= row <= Rect.Dy() - 1 && 0 <= col <= Rect.Dx() - 1;
      assert 0 <= Stride;
      MulMonotone(row, Rect.Dy() - 1, Stride);
      assert 0 <= row * Stride;
    }

    /** Memory safety of At, Set and SetBGR: every in-bounds pixel, all four
        bytes of it, lies inside Pix. */
    ghost predicate PixelsFit()
      reads this
    {
      forall x, y :: Point(x, y).In(Rect) ==> 0 <= PixOffset(x, y) && PixOffset(x, y) + 4 <= Pix.Length
    }

    /** The layout assumption makes every access of the adapter safe. */
    lemma ValidPixelsFit()
      requires Valid()
      ensures PixelsFit()
    {
      forall x, y | Point(x, y).In(Rect)
        ensures 0 <= PixOffset(x, y) && PixOffset(x, y) + 4 <= Pix.Length
      {
        OffsetInPix(x, y);
      }
    }

    /** Conversely, the length bound of the layout assumption is as small as
        it can be: if every pixel fits, the last pixel of the last row ends at
        or before the end of Pix. */
    lemma PixelsFitNeedsLength()
      requires !Rect.Empty() && PixelsFit()
      ensures (Rect.Dy() - 1) * Stride + 4 * Rect.Dx() <= Pix.Length
    {
      var x, y := Rect.Max.X - 1, Rect.Max.Y - 1;
      assert Point(x, y).In(Rect);
      assert PixOffset(x, y) == (Rect.Dy() - 1) * Stride + 4 * Rect.Dx() - 4;
    }

    /** Two different in-bounds pixels occupy disjoint 4-byte groups. */
    lemma PixelsDisjoint(x: int, y: int, u: int, v: int)
      requires Valid() && Point(x, y).In(Rect) && Point(u, v).In(Rect)
      requires x != u || y != v
      ensures PixOffset(x, y) + 4 <= PixOffset(u, v) || PixOffset(u, v) + 4 <= PixOffset(x, y)
    {
      var d := PixOffset(x, y) - PixOffset(u, v);
      assert d == (y - v) * Stride + (x - u) * 4 by {
        assert (y - Rect.Min.Y) * Stride - (v - Rect.Min.Y) * Stride == (y - v) * Stride;
      }
      if y > v {
        MulMonotone(1, y - v, Stride);
      } else if y < v {
        MulMonotone(1, v - y, Stride);
        assert (y - v) * Stride == -((v - y) * Stride);
      }
    }

    /** At: outside the bounds the zero colour; inside, the red, green and
        blue bytes of the pixel (bytes n + 2, n + 1 and n) with alpha 0xFF. */
    function At(x: int, y: int): (c: RGBA)
      requires Valid()
      reads this, Pix
      ensures c.A == 0xFF <==> Point(x, y).In(Rect)
      ensures !Point(x, y).In(Rect) ==> c == Transparent
      ensures Point(x, y).In(Rect) ==>
        0 <= PixOffset(x, y) && PixOffset(x, y) + 4 <= Pix.Length &&
        c.R == Pix[PixOffset(x, y) + 2] && c.G == Pix[PixOffset(x, y) + 1] && c.B == Pix[PixOffset(x, y)]
    {
      if !Point(x, y).In(Rect) then Transparent
      else
        OffsetInPix(x, y);
        var n := PixOffset(x, y);
        RGBA(Pix[n + 2], Pix[n + 1], Pix[n], 0xFF)
    }

    /** Set: outside the bounds nothing changes. Inside, the colour is converted
        by color.RGBAModel and its blue, green and red are stored into bytes n,
        n + 1 and n + 2; byte n + 3 keeps its value. Reading the pixel back gives
        the converted red, green and blue with alpha 0xFF, and no other pixel
        reads differently. */
    method Set(x: int, y: int, c: Color)
      requires Valid()
      modifies Pix
      ensures Valid()
      ensures !Point(x, y).In(Rect) ==> Pix[..] == old(Pix[..])
      ensures Point(x, y).In(Rect) ==>
        0 <= PixOffset(x, y) && PixOffset(x, y) + 4 <= Pix.Length &&
        Pix[..] == Put(old(Pix[..]), PixOffset(x, y), RgbaModel(c).B, RgbaModel(c).G, RgbaModel(c).R)
      ensures Point(x, y).In(Rect) ==> At(x, y) == RGBA(RgbaModel(c).R, RgbaModel(c).G, RgbaModel(c).B, 0xFF)
      ensures forall u, v :: (u != x || v != y) ==> At(u, v) == old(At(u, v))
    {
      if !Point(x, y).In(Rect) {
        return;
      }
      OffsetInPix(x, y);
      var n := PixOffset(x, y);
      var c1 := RgbaModel(c);
      Pix[n + 2] := c1.R;
      Pix[n + 1] := c1.G;
      Pix[n] := c1.B;
      assert Pix[..] == Put(old(Pix[..]), n, c1.B, c1.G, c1.R);
      forall u, v | u != x || v != y
        ensures At(u, v) == old(At(u, v))
      {
        if Point(u, v).In(Rect) {
          PixelsDisjoint(x, y, u, v);
        }
      }
    }

    /** SetBGR: the same bounds behaviour as Set, but c.R is stored into byte
        n, c.G into n + 1 and c.B into n + 2, so reading the pixel back gives
        red and blue exchanged relative to the fields of c. */
    method SetBGR(x: int, y: int, c: RGBColor)
      requires Valid()
      modifies Pix
      ensures Valid()
      ensures !Point(x, y).In(Rect) ==> Pix[..] == old(Pix[..])
      ensures Point(x, y).In(Rect) ==>
        0 <= PixOffset(x, y) && PixOffset(x, y) + 4 <= Pix.Length &&
        Pix[..] == Put(old(Pix[..]), PixOffset(x, y), c.R, c.G, c.B)
      ensures Point(x, y).In(Rect) ==> At(x, y) == RGBA(c.B, c.G, c.R, 0xFF)
      ensures forall u, v :: (u != x || v != y) ==> At(u, v) == old(At(u, v))
    {
      if !Point(x, y).In(Rect) {
        return;
      }
      OffsetInPix(x, y);
      var n := PixOffset(x, y);
      Pix[n + 2] := c.B;
      Pix[n + 1] := c.G;
      Pix[n] := c.R;
      assert Pix[..] == Put(old(Pix[..]), n, c.R, c.G, c.B);
      forall u, v | u != x || v != y
        ensures At(u, v) == old(At(u, v))
      {
        if Point(u, v).In(Rect) {
          PixelsDisjoint(x, y, u, v);
        }
      }
    }
  }

  /** a <= b and s >= 0 give a * s <= b * s. */
  lemma MulMonotone(a: int, b: int, s: int)
    requires a <= b && 0 <= s
    ensures a * s <= b * s
  {
    assert b * s - a * s == (b - a) * s;
  }
}

/** A client of the adapter: a zeroed 2x2 image with 8-byte rows. */
module FramebufferExample {
  import opened Geometry
  import opened Colors
  import opened Framebuffer

  method TwoByTwo() {
    var pix := new byte[16](_ => 0);
    var img := new BGR32(pix, Rectangle(Point(0, 0), Point(2, 2)), 8);
    img.Set(1, 1, Rgba(RGBA(10, 20, 30, 255)));
    assert img.PixOffset(1, 1) == 12;
    assert pix[12] == 30 && pix[13] == 20 && pix[14] == 10 && pix[15] == 0;
    assert img.At(1, 1) == RGBA(10, 20, 30, 0xFF);
    assert img.At(5, 5) == Transparent;
    ghost var before := pix[..];
    img.Set(5, 5, Rgba(RGBA(1, 2, 3, 4)));
    assert pix[..] == before;
    SetTwiceIsSetOnce(img, 1, 0, Rgba(RGBA(7, 8, 9, 0)));
    img.SetBGR(0, 0, RGBColor(1, 2, 3));
    assert img.At(0, 0) == RGBA(3, 2, 1, 0xFF);
    assert img.At(1, 1) == RGBA(10, 20, 30, 0xFF);
  }

  /** Calling Set twice with the same arguments leaves the buffer as one call
      does. */
  method SetTwiceIsSetOnce(img: BGR32, x: int, y: int, c: Color)
    requires img.Valid()
    modifies img.Pix
    ensures img.Valid()
    ensures !Point(x, y).In(img.Rect) ==> img.Pix[..] == old(img.Pix[..])
    ensures Point(x, y).In(img.Rect) ==>
      0 <= img.PixOffset(x, y) && img.PixOffset(x, y) + 4 <= img.Pix.Length &&
      img.Pix[..] == Put(old(img.Pix[..]), img.PixOffset(x, y), RgbaModel(c).B, RgbaModel(c).G, RgbaModel(c).R)
  {
    img.Set(x, y, c);
    ghost var once := img.Pix[..];
    img.Set(x, y, c);
    if Point(x, y).In(img.Rect) {
      PutIdempotent(old(img.Pix[..]), img.PixOffset(x, y), RgbaModel(c).B, RgbaModel(c).G, RgbaModel(c).R);
    }
    assert img.Pix[..] == once;
  }
}
