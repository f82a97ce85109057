/**
 * The imaging library as the generator sees it: every picture is brought to
 * a fixed square working size, and a piece is a crop box of such a picture.
 * Pixels, colour modes and resampling are not modelled; an image is an
 * opaque handle.
 */
module Imaging {

  /** Side length, in pixels, of every resized picture (`resize((400, 400))`). */
  const Size: int := 400

  /** A PIL crop box: columns `left <= x < right`, rows `top <= y < bottom`. */
  datatype Rect = Rect(left: int, top: int, right: int, bottom: int)

  /** Does the box hold pixel (x, y)? */
  predicate Covers(r: Rect, x: int, y: int) {
    r.left <= x < r.right && r.top <= y < r.bottom
  }

  /** Two boxes share a pixel. */
  predicate Overlap(a: Rect, b: Rect) {
    a.left < b.right && b.left < a.right && a.top < b.bottom && b.top < a.bottom
  }

  /** The box lies within the working square. */
  predicate Inside(r: Rect) {
    0 <= r.left <= r.right <= Size && 0 <= r.top <= r.bottom <= Size
  }

  /**
   * A decoded picture (already resized to the working square), the
   * placeholder drawn when there is no image folder, or a crop of another
   * picture.
   */
  datatype Image = Decoded(handle: nat) | Placeholder | Cropped(source: Image, box: Rect)
}
