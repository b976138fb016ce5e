/** Board dimensions, cell storage and row-major indexing (main.c:10-16, 31-32, 42). */
module Grid {

  /** The conventional Some/None datatype. */
  datatype Option<+T> = None | Some(value: T)

  /** Cells are stored as unsigned 8-bit values. */
  type Uint8 = x: int | 0 <= x < 256

  const PIXEL_SIZE: int := 4
  const COLOUR_COUNT: int := 8
  const BOARD_WIDTH: int := 200
  const BOARD_HEIGHT: int := 200

  /** Every cell holds a valid palette index. */
  predicate InRange(cells: seq<Uint8>) {
    forall i :: 0 <= i < |cells| ==> cells[i] < COLOUR_COUNT
  }

  predicate InBounds(w: int, h: int, x: int, y: int) {
    0 <= x < w && 0 <= y < h
  }

  /** The offset of cell (x, y) in the flat buffer, as brd_get and brd_set compute it. */
  function Idx(w: int, x: int, y: int): int {
    y * w + x
  }

  lemma IdxInBounds(w: int, h: int, x: int, y: int)
    requires InBounds(w, h, x, y)
    ensures 0 <= Idx(w, x, y) < w * h
  {
    assert y * w + x < y * w + w == (y + 1) * w;
    assert (y + 1) * w <= h * w by {
      assert y + 1 <= h;
    }
  }

  lemma IdxCoords(w: int, x: int, y: int)
    requires 0 <= x < w && 0 <= y
    ensures Idx(w, x, y) % w == x && Idx(w, x, y) / w == y
  {
    var i := Idx(w, x, y);
    MulCancel(i / w - y, w, x - i % w);
  }

  /** d * w lies strictly between -w and w only for d == 0. */
  lemma MulCancel(d: int, w: int, e: int)
    requires w > 0 && d * w == e && -w < e < w
    ensures d == 0
  {
  }

  /** The offsets v * w + a up to v * w + b are the cells (u, v) of row v with a <= u < b. */
  lemma RowSpan(w: int, v: int, a: int, b: int, j: int)
    requires w > 0 && 0 <= a && b <= w && 0 <= j
    ensures (v * w + a <= j < v * w + b) == (j / w == v && a <= j % w < b)
  {
    var q := j / w;
    if q < v {
      assert q * w <= (v - 1) * w by { MulMono(q, v - 1, w); }
    } else if q > v {
      assert (v + 1) * w <= q * w by { MulMono(v + 1, q, w); }
    }
  }

  lemma MulMono(a: int, b: int, w: int)
    requires a <= b && w >= 0
    ensures a * w <= b * w
  {
    assert b * w - a * w == (b - a) * w;
  }

  lemma CoordsInBounds(w: int, h: int, i: int)
    requires w > 0 && 0 <= i < w * h
    ensures InBounds(w, h, i % w, i / w) && Idx(w, i % w, i / w) == i
  {
  }
}
