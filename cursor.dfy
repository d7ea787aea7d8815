/** The drawing cursor: a signed position kept inside the canvas by
    `move_x` and `move_y`. */
module Cursors {
  import opened Geometry

  const Two31: int := 0x8000_0000

  /** An unsigned 32-bit value read as a signed `int` (the `(int)` cast). */
  function AsInt(u: nat): (r: int)
    requires u < Two32
    ensures -Two31 <= r < Two31
    ensures r % Two32 == u
  {
    if u < Two31 then u else u - Two32
  }

  /** Where one coordinate lands after a move to `v`: the last cell (the
      unsigned `size - 1`, cast back to `int`) when `v` is at or past the
      size, 0 when it is negative, `v` otherwise. */
  function Clamp(v: int, size: nat): (r: int)
    requires size < Two32
    ensures r == v || r == 0 || r == AsInt((size - 1) % Two32)
    ensures 0 <= v < AsInt(size) ==> r == v
  {
    if v >= AsInt(size) then AsInt((size - 1) % Two32)
    else if v < 0 then 0
    else v
  }

  /** On a canvas of ordinary size the cursor stays inside it. */
  lemma ClampInside(v: int, size: nat)
    requires 1 <= size < Two31
    ensures 0 <= Clamp(v, size) < size
    ensures 0 <= v < size ==> Clamp(v, size) == v
    ensures v >= size ==> Clamp(v, size) == size - 1
    ensures v < 0 ==> Clamp(v, size) == 0
  {
  }

  /** Moving to a clamped position again leaves it where it is. */
  lemma ClampIdempotent(v: int, size: nat)
    requires 1 <= size < Two31
    ensures Clamp(Clamp(v, size), size) == Clamp(v, size)
  {
    ClampInside(v, size);
    ClampInside(Clamp(v, size), size);
  }

  /** Clamping keeps the order of positions. */
  lemma ClampMonotone(u: int, v: int, size: nat)
    requires 1 <= size < Two31 && u <= v
    ensures Clamp(u, size) <= Clamp(v, size)
  {
    ClampInside(u, size);
    ClampInside(v, size);
  }

  /** On an empty axis (size 0) the unsigned `size - 1` wraps and the cursor
      ends at -1 unless it was moved below 0. */
  lemma ClampEmpty(v: int)
    ensures Clamp(v, 0) == if v >= 0 then -1 else 0
  {
  }

  /** A width of 2^31 turns negative under the cast, so every position,
      even a negative one, counts as past the end and lands on the last cell. */
  lemma ClampHugeSize(v: int)
    requires v >= -Two31
    ensures Clamp(v, Two31) == Two31 - 1
  {
  }

  class Cursor {
    var x: int
    var y: int
    const width: nat
    const height: nat

    ghost predicate Valid()
      reads this
    {
      width < Two32 && height < Two32
    }

    constructor(x0: int, y0: int, w: nat, h: nat)
      requires w < Two32 && h < Two32
      ensures Valid() && x == x0 && y == y0 && width == w && height == h
    {
      x, y := x0, y0;
      width, height := w, h;
    }

    /** `Cursor::move_x`. */
    method MoveX(dx: int)
      requires Valid()
      modifies this
      ensures Valid()
      ensures x == Clamp(old(x) + dx, width) && y == old(y)
      ensures 1 <= width < Two31 ==> 0 <= x < width
    {
      x := x + dx;
      if x >= AsInt(width) {
        x := AsInt((width - 1) % Two32);
      } else if x < 0 {
        x := 0;
      }
      if 1 <= width < Two31 {
        ClampInside(old(x) + dx, width);
      }
    }

    /** `Cursor::move_y`. */
    method MoveY(dy: int)
      requires Valid()
      modifies this
      ensures Valid()
      ensures y == Clamp(old(y) + dy, height) && x == old(x)
      ensures 1 <= height < Two31 ==> 0 <= y < height
    {
      y := y + dy;
      if y >= AsInt(height) {
        y := AsInt((height - 1) % Two32);
      } else if y < 0 {
        y := 0;
      }
      if 1 <= height < Two31 {
        ClampInside(old(y) + dy, height);
      }
    }
  }
}
