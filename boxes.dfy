/** Box formats and the in-place coordinate fix-ups: xyxy2xywh / xywh2xyxy and
    clip_coords / scale_coords of utils/general.py. */
module Boxes {
  import opened RealMath
  import opened Wrappers

  /** A box by its corners (top-left x1, y1 and bottom-right x2, y2). */
  datatype XYXY = XYXY(x1: real, y1: real, x2: real, y2: real)

  /** A box by its centre and its width and height. */
  datatype XYWH = XYWH(x: real, y: real, w: real, h: real)

  /** A width and height pair with no position: an anchor shape, or the wh columns of a target. */
  datatype WH = WH(w: real, h: real)

  /** Corners ordered on both axes. */
  predicate WellFormed(b: XYXY)
  {
    b.x1 <= b.x2 && b.y1 <= b.y2
  }

  function ToCenter(b: XYXY): XYWH
  {
    XYWH((b.x1 + b.x2) / 2.0, (b.y1 + b.y2) / 2.0, b.x2 - b.x1, b.y2 - b.y1)
  }

  function ToCorners(b: XYWH): XYXY
  {
    XYXY(b.x - b.w / 2.0, b.y - b.h / 2.0, b.x + b.w / 2.0, b.y + b.h / 2.0)
  }

  /** xyxy2xywh on an n x 4 tensor: a fresh tensor, row by row. */
  function XyxyToXywh(x: seq<XYXY>): (y: seq<XYWH>)
    ensures |y| == |x|
    ensures forall i :: 0 <= i < |x| ==> y[i] == ToCenter(x[i])
    ensures forall i :: 0 <= i < |x| ==> (WellFormed(x[i]) <==> y[i].w >= 0.0 && y[i].h >= 0.0)
  {
    seq(|x|, i requires 0 <= i < |x| => ToCenter(x[i]))
  }

  /** xywh2xyxy on an n x 4 tensor. */
  function XywhToXyxy(y: seq<XYWH>): (x: seq<XYXY>)
    ensures |x| == |y|
    ensures forall i :: 0 <= i < |y| ==> x[i] == ToCorners(y[i])
    ensures forall i :: 0 <= i < |y| ==> (WellFormed(x[i]) <==> y[i].w >= 0.0 && y[i].h >= 0.0)
  {
    seq(|y|, i requires 0 <= i < |y| => ToCorners(y[i]))
  }

  /** The two conversions are exact inverses over the reals, in both orders. */
  lemma CornersRoundTrip(x: seq<XYXY>)
    ensures XywhToXyxy(XyxyToXywh(x)) == x
  {
    var r := XywhToXyxy(XyxyToXywh(x));
    assert forall i :: 0 <= i < |x| ==> r[i] == ToCorners(ToCenter(x[i])) == x[i];
  }

  lemma CentersRoundTrip(y: seq<XYWH>)
    ensures XyxyToXywh(XywhToXyxy(y)) == y
  {
    var r := XyxyToXywh(XywhToXyxy(y));
    assert forall i :: 0 <= i < |y| ==> r[i] == ToCenter(ToCorners(y[i])) == y[i];
  }

  /** Inside an image of the given height and width. */
  predicate InImage(b: XYXY, h: real, w: real)
  {
    0.0 <= b.x1 <= w && 0.0 <= b.x2 <= w && 0.0 <= b.y1 <= h && 0.0 <= b.y2 <= h
  }

  /** One row of clip_coords: x columns clamped to [0, width], y columns to [0, height]. */
  function ClipBox(b: XYXY, h: real, w: real): XYXY
  {
    XYXY(Clamp(b.x1, 0.0, w), Clamp(b.y1, 0.0, h), Clamp(b.x2, 0.0, w), Clamp(b.y2, 0.0, h))
  }

  /** After clipping every coordinate lies in the image, and a box already inside is untouched. */
  lemma ClipBoxInImage(b: XYXY, h: real, w: real)
    requires h >= 0.0 && w >= 0.0
    ensures InImage(ClipBox(b, h, w), h, w)
    ensures InImage(b, h, w) ==> ClipBox(b, h, w) == b
    ensures ClipBox(ClipBox(b, h, w), h, w) == ClipBox(b, h, w)
  {
  }

  /** clip_coords(boxes, img_shape): clamps the caller's buffer in place (`clamp_`). */
  method ClipCoords(boxes: array<XYXY>, imgH: real, imgW: real)
    modifies boxes
    ensures forall i :: 0 <= i < boxes.Length ==> boxes[i] == ClipBox(old(boxes[i]), imgH, imgW)
    ensures imgH >= 0.0 && imgW >= 0.0 ==> forall i :: 0 <= i < boxes.Length ==> InImage(boxes[i], imgH, imgW)
    ensures forall i :: 0 <= i < boxes.Length && InImage(old(boxes[i]), imgH, imgW) ==> boxes[i] == old(boxes[i])
  {
    forall i | 0 <= i < boxes.Length {
      boxes[i] := ClipBox(boxes[i], imgH, imgW);
    }
    forall i | 0 <= i < boxes.Length
      ensures imgH >= 0.0 && imgW >= 0.0 ==> InImage(boxes[i], imgH, imgW)
      ensures InImage(old(boxes[i]), imgH, imgW) ==> boxes[i] == old(boxes[i])
    {
      if imgH >= 0.0 && imgW >= 0.0 {
        ClipBoxInImage(old(boxes[i]), imgH, imgW);
      }
    }
  }

  /** An image shape (height, width), as in `img.shape[:2]`. */
  datatype Shape = Shape(h: real, w: real)

  /** The letterbox resize: a gain and the x and y padding. */
  datatype RatioPad = RatioPad(gain: real, padX: real, padY: real)

  /** The gain and padding scale_coords uses: the caller's ratio_pad, or the ones that fit img0 into img1. */
  function LetterboxParams(img1: Shape, img0: Shape, ratioPad: Option<RatioPad>): (rp: RatioPad)
    requires ratioPad.None? ==> img0.h != 0.0 && img0.w != 0.0
    ensures ratioPad.Some? ==> rp == ratioPad.value
    ensures ratioPad.None? ==> rp.gain <= img1.h / img0.h && rp.gain <= img1.w / img0.w
    ensures ratioPad.None? ==> rp.gain == img1.h / img0.h || rp.gain == img1.w / img0.w
    ensures ratioPad.None? ==> rp.padX * 2.0 + img0.w * rp.gain == img1.w && rp.padY * 2.0 + img0.h * rp.gain == img1.h
  {
    match ratioPad
    case Some(p) => p
    case None =>
      var gain := Min(img1.h / img0.h, img1.w / img0.w);
      RatioPad(gain, (img1.w - img0.w * gain) / 2.0, (img1.h - img0.h * gain) / 2.0)
  }

  /** The forward letterbox map from original coordinates to resized-and-padded ones. */
  function Letterbox(b: XYXY, rp: RatioPad): XYXY
  {
    XYXY(b.x1 * rp.gain + rp.padX, b.y1 * rp.gain + rp.padY, b.x2 * rp.gain + rp.padX, b.y2 * rp.gain + rp.padY)
  }

  /** The shift and division of scale_coords: `-= pad`, then `/= gain`. */
  function Unletterbox(b: XYXY, rp: RatioPad): XYXY
    requires rp.gain != 0.0
  {
    XYXY((b.x1 - rp.padX) / rp.gain, (b.y1 - rp.padY) / rp.gain, (b.x2 - rp.padX) / rp.gain, (b.y2 - rp.padY) / rp.gain)
  }

  /** Undoing the letterbox is an exact inverse of applying it, in both orders. */
  lemma LetterboxRoundTrip(b: XYXY, rp: RatioPad)
    requires rp.gain != 0.0
    ensures Unletterbox(Letterbox(b, rp), rp) == b
    ensures Letterbox(Unletterbox(b, rp), rp) == b
  {
    UnletterboxCorners(Letterbox(b, rp), b, rp);
    LetterboxCorners(Unletterbox(b, rp), b, rp);
  }

  /** Field by field: `b` is what unletterboxing `lb` gives when `lb` is `b` letterboxed. */
  lemma UnletterboxCorners(lb: XYXY, b: XYXY, rp: RatioPad)
    requires rp.gain != 0.0 && lb == Letterbox(b, rp)
    ensures Unletterbox(lb, rp) == b
  {
    UnletterboxTopLeft(lb, b, rp);
    UnletterboxBottomRight(lb, b, rp);
  }

  lemma UnletterboxTopLeft(lb: XYXY, b: XYXY, rp: RatioPad)
    requires rp.gain != 0.0 && lb == Letterbox(b, rp)
    ensures Unletterbox(lb, rp).x1 == b.x1 && Unletterbox(lb, rp).y1 == b.y1
  {
    CoordRoundTrip(b.x1, rp.gain, rp.padX);
    CoordRoundTrip(b.y1, rp.gain, rp.padY);
  }

  lemma UnletterboxBottomRight(lb: XYXY, b: XYXY, rp: RatioPad)
    requires rp.gain != 0.0 && lb == Letterbox(b, rp)
    ensures Unletterbox(lb, rp).x2 == b.x2 && Unletterbox(lb, rp).y2 == b.y2
  {
    CoordRoundTrip(b.x2, rp.gain, rp.padX);
    CoordRoundTrip(b.y2, rp.gain, rp.padY);
  }

  /** Field by field: `b` is what letterboxing `ub` gives when `ub` is `b` unletterboxed. */
  lemma LetterboxCorners(ub: XYXY, b: XYXY, rp: RatioPad)
    requires rp.gain != 0.0 && ub == Unletterbox(b, rp)
    ensures Letterbox(ub, rp) == b
  {
    LetterboxTopLeft(ub, b, rp);
    LetterboxBottomRight(ub, b, rp);
  }

  lemma LetterboxTopLeft(ub: XYXY, b: XYXY, rp: RatioPad)
    requires rp.gain != 0.0 && ub == Unletterbox(b, rp)
    ensures Letterbox(ub, rp).x1 == b.x1 && Letterbox(ub, rp).y1 == b.y1
  {
    CoordRoundTrip(b.x1, rp.gain, rp.padX);
    CoordRoundTrip(b.y1, rp.gain, rp.padY);
  }

  lemma LetterboxBottomRight(ub: XYXY, b: XYXY, rp: RatioPad)
    requires rp.gain != 0.0 && ub == Unletterbox(b, rp)
    ensures Letterbox(ub, rp).x2 == b.x2 && Letterbox(ub, rp).y2 == b.y2
  {
    CoordRoundTrip(b.x2, rp.gain, rp.padX);
    CoordRoundTrip(b.y2, rp.gain, rp.padY);
  }

  /** One coordinate: scaling by a non-zero gain and shifting by a pad is undone by the reverse. */
  lemma CoordRoundTrip(v: real, gain: real, pad: real)
    requires gain != 0.0
    ensures (v * gain + pad - pad) / gain == v
    ensures (v - pad) / gain * gain + pad == v
  {
    assert v * gain + pad - pad == v * gain;
    assert (v - pad) / gain * gain == v - pad;
  }

  /** scale_coords: rescale a box of the letterboxed image back to the original image and clip it. */
  function ScaleBox(b: XYXY, rp: RatioPad, img0: Shape): XYXY
    requires rp.gain != 0.0
  {
    ClipBox(Unletterbox(b, rp), img0.h, img0.w)
  }

  /** A box inside the original image is recovered exactly from its letterboxed copy,
      and any rescaled box lies inside the original image. */
  lemma ScaleBoxRecovers(b0: XYXY, b: XYXY, rp: RatioPad, img0: Shape)
    requires rp.gain != 0.0 && img0.h >= 0.0 && img0.w >= 0.0
    ensures InImage(ScaleBox(b, rp, img0), img0.h, img0.w)
    ensures InImage(b0, img0.h, img0.w) ==> ScaleBox(Letterbox(b0, rp), rp, img0) == b0
  {
    ClipBoxInImage(Unletterbox(b, rp), img0.h, img0.w);
    LetterboxRoundTrip(b0, rp);
    ClipBoxInImage(b0, img0.h, img0.w);
  }

  /** scale_coords(img1_shape, coords, img0_shape, ratio_pad): shifts, divides and clips the
      caller's buffer in place and returns that same buffer. */
  method ScaleCoords(img1: Shape, coords: array<XYXY>, img0: Shape, ratioPad: Option<RatioPad>)
    returns (r: array<XYXY>)
    requires ratioPad.None? ==> img0.h != 0.0 && img0.w != 0.0
    requires LetterboxParams(img1, img0, ratioPad).gain != 0.0
    modifies coords
    ensures r == coords
    ensures forall i :: 0 <= i < coords.Length ==>
      coords[i] == ScaleBox(old(coords[i]), LetterboxParams(img1, img0, ratioPad), img0)
  {
    var rp := LetterboxParams(img1, img0, ratioPad);
    forall i | 0 <= i < coords.Length {
      coords[i] := Unletterbox(coords[i], rp);
    }
    ClipCoords(coords, img0.h, img0.w);
    r := coords;
  }
}
