/**
 * The image codec (Intervention Image) as an abstract capability, and the size profiles the
 * renditions are made for. Pixels are opaque; only the dimensions a resize produces and
 * whether an encode succeeds are observed.
 */
module Imaging {
  import opened Wrappers
  import opened Storage

  /** A decoded image: its dimensions and opaque pixel data. */
  datatype Bitmap = Bitmap(width: nat, height: nat, pixels: seq<byte>)

  /** The one failure an encoder reports: `NotSupportedException`. */
  datatype Unsupported = NotSupported

  /** `NotReadableException` from `Image::make`: the bytes do not decode. */
  datatype Unreadable = NotReadable

  /**
   * The codec operations the handler calls: `Image::make`, `resize(w, h)` with or without the
   * aspect-ratio constraint (a missing side is `null`), `fit(w, h)` and `encode(format, quality)`.
   */
  datatype Codec = Codec(
    decode: seq<byte> -> Option<Bitmap>,
    resize: (Bitmap, Option<nat>, Option<nat>, bool) -> Bitmap,
    fit: (Bitmap, nat, nat) -> Bitmap,
    encode: (Bitmap, string, nat) -> Result<seq<byte>, Unsupported>)

  /** `encode($ext, 80)`, used for originals, rendition files and the original's webp sibling. */
  const StoredQuality: nat := 80
  /** The quality `encode('webp')` uses when none is given, for the renditions' webp siblings. */
  const DefaultQuality: nat := 90

  function ResizeToWidth(c: Codec, b: Bitmap, w: nat): Bitmap {
    c.resize(b, Some(w), None, true)
  }

  function ResizeToHeight(c: Codec, b: Bitmap, h: nat): Bitmap {
    c.resize(b, None, Some(h), true)
  }

  function ResizeExact(c: Codec, b: Bitmap, w: nat, h: nat): Bitmap {
    c.resize(b, Some(w), Some(h), false)
  }

  function ResizeWithin(c: Codec, b: Bitmap, w: nat, h: nat): Bitmap {
    c.resize(b, Some(w), Some(h), true)
  }

  /**
   * What the handler relies on the codec for: an aspect-ratio resize to one side hits that side,
   * a box resize with the aspect constraint stays inside the box, and `fit` and an unconstrained
   * resize produce exactly the box.
   */
  ghost predicate Lawful(c: Codec) {
    && (forall b, w :: ResizeToWidth(c, b, w).width == w)
    && (forall b, h :: ResizeToHeight(c, b, h).height == h)
    && (forall b, w, h :: ResizeExact(c, b, w, h).width == w && ResizeExact(c, b, w, h).height == h)
    && (forall b, w, h :: ResizeWithin(c, b, w, h).width <= w && ResizeWithin(c, b, w, h).height <= h)
    && (forall b, w, h :: c.fit(b, w, h).width == w && c.fit(b, w, h).height == h)
  }

  /** One entry of the size-profile table: a name, optional `width`/`height`, and `crop`. */
  datatype SizeProfile = SizeProfile(name: string, width: Option<nat>, height: Option<nat>, crop: bool)

  /** The five ways a profile can treat the image. */
  datatype Action =
    | ByWidth(w: nat)
    | ByHeight(h: nat)
    | FitBox(w: nat, h: nat)
    | StretchBox(w: nat, h: nat)
    | Keep

  /** The dispatch of `generateImageSizes` on which of width and height a profile sets. */
  function ActionOf(p: SizeProfile): (a: Action)
    ensures a.ByWidth? <==> p.width.Some? && p.height.None?
    ensures a.ByHeight? <==> p.width.None? && p.height.Some?
    ensures a.FitBox? <==> p.width.Some? && p.height.Some? && p.crop
    ensures a.StretchBox? <==> p.width.Some? && p.height.Some? && !p.crop
    ensures a.Keep? <==> p.width.None? && p.height.None?
    ensures a.ByWidth? ==> a.w == p.width.value
    ensures a.ByHeight? ==> a.h == p.height.value
    ensures a.FitBox? ==> a.w == p.width.value && a.h == p.height.value
    ensures a.StretchBox? ==> a.w == p.width.value && a.h == p.height.value
  {
    if p.width.Some? && p.height.None? then ByWidth(p.width.value)
    else if p.width.None? && p.height.Some? then ByHeight(p.height.value)
    else if p.width.Some? && p.height.Some? && p.crop then FitBox(p.width.value, p.height.value)
    else if p.width.Some? && p.height.Some? then StretchBox(p.width.value, p.height.value)
    else Keep
  }

  /** The image a profile yields from a fresh decode of the source. */
  function ApplyAction(c: Codec, img: Bitmap, a: Action): Bitmap {
    match a
    case ByWidth(w) => ResizeToWidth(c, img, w)
    case ByHeight(h) => ResizeToHeight(c, img, h)
    case FitBox(w, h) => c.fit(img, w, h)
    case StretchBox(w, h) => ResizeExact(c, img, w, h)
    case Keep => img
  }

  function ProfileImage(c: Codec, src: Bitmap, p: SizeProfile): Bitmap {
    ApplyAction(c, src, ActionOf(p))
  }

  /**
   * Under a lawful codec a profile's image has the width (height) it names, the exact box when
   * both are named, and the source's own dimensions when neither is.
   */
  lemma ProfileDimensions(c: Codec, src: Bitmap, p: SizeProfile)
    requires Lawful(c)
    ensures var img := ProfileImage(c, src, p);
      && (p.width.Some? ==> img.width == p.width.value)
      && (p.height.Some? ==> img.height == p.height.value)
      && (p.width.None? && p.height.None? ==> img == src)
  {
  }

  /**
   * The original as stored: resized with the aspect-ratio constraint to fit the square bound
   * `max_original_image_dimensions` unless the bound is empty (null or 0). Without `upsize()`
   * an image smaller than the bound is enlarged, so the bound is not a downscale-only limit.
   */
  function FitToBound(c: Codec, img: Bitmap, maxDimension: Option<nat>): Bitmap {
    if maxDimension.Some? && maxDimension.value != 0
    then ResizeWithin(c, img, maxDimension.value, maxDimension.value)
    else img
  }

  /**
   * Under a lawful codec the stored original fits within a non-empty bound on both sides; an
   * empty bound leaves the decoded image as it is.
   */
  lemma FitToBoundWithin(c: Codec, img: Bitmap, m: Option<nat>)
    ensures Lawful(c) && m.Some? && m.value != 0 ==>
      FitToBound(c, img, m).width <= m.value && FitToBound(c, img, m).height <= m.value
    ensures m.None? || m.value == 0 ==> FitToBound(c, img, m) == img
  {
  }
}
