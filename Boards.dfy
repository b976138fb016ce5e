/**
 * The board as the program keeps it: one buffer of w * h cells that brd_randomise and
 * brd_paint overwrite in place and brd_process replaces by a freshly built one
 * (main.c:31-35, 42-52, 193-249), plus the per-cell reads of the draw loop (main.c:145-167).
 */
module Boards {
  import opened Grid
  import opened Rules

  datatype Rgba = Rgba(r: Uint8, g: Uint8, b: Uint8, a: Uint8)

  /** g_cell_colours: red, orange, yellow, green, cyan, blue, purple, fuchsia. */
  const CELL_COLOURS: seq<Rgba> := [
    Rgba(0xFF, 0x41, 0x36, 0xFF),
    Rgba(0xFF, 0x85, 0x1B, 0xFF),
    Rgba(0xFF, 0xDC, 0x00, 0xFF),
    Rgba(0x2E, 0xCC, 0x40, 0xFF),
    Rgba(0x39, 0xCC, 0xCC, 0xFF),
    Rgba(0x00, 0x74, 0xD9, 0xFF),
    Rgba(0xB1, 0x0D, 0xC9, 0xFF),
    Rgba(0xF0, 0x12, 0xBE, 0xFF)
  ]

  /** One filled square the draw loop asks the renderer for. */
  datatype Fill = Fill(left: int, top: int, size: int, colour: Rgba)

  /**
   * fills draws the board row by row: cell i as a PIXEL_SIZE square at its scaled
   * position, in the palette colour of the cell.
   */
  predicate Depicts(fills: seq<Fill>, w: int, cells: seq<Uint8>)
    requires w > 0 && InRange(cells)
  {
    |fills| == |cells| &&
    forall i :: 0 <= i < |fills| ==>
      fills[i] == Fill((i % w) * PIXEL_SIZE, (i / w) * PIXEL_SIZE, PIXEL_SIZE, CELL_COLOURS[cells[i]])
  }

  /**
   * The rejection loop of brd_process: keep proposing (x + rand()%3 - 1, y + rand()%3 - 1)
   * until the proposal is on the board and is not (x, y) itself.
   */
  method PickNeighbour(w: int, h: int, x: int, y: int, draws: seq<(nat, nat)>) returns (u: int, v: int)
    requires FirstValid(w, h, x, y, draws).Some?
    ensures (u, v) == FirstValid(w, h, x, y, draws).value
    ensures IsNeighbour(w, h, x, y, u, v)
  {
    u, v := x, y;
    var k := 0;
    while (u == x && v == y) || u < 0 || u > w - 1 || v < 0 || v > h - 1
      invariant 0 <= k <= |draws|
      invariant Rejected(w, h, x, y, u, v) ==> FirstValid(w, h, x, y, draws[k..]) == FirstValid(w, h, x, y, draws)
      invariant !Rejected(w, h, x, y, u, v) ==> Some((u, v)) == FirstValid(w, h, x, y, draws)
      decreases |draws| - k
    {
      assert draws[k..][1..] == draws[k + 1..];
      var du: int, dv: int := draws[k].0 % 3, draws[k].1 % 3;
      u := x + (du - 1);
      v := y + (dv - 1);
      k := k + 1;
    }
  }

  /**
   * The temperature loop of brd_process: dom starts as the cell's colour and becomes the
   * next colour whenever the neighbour matches one of the temp colours ahead of it.
   */
  method Dominant(curr: Uint8, nb: Uint8, temp: int) returns (dom: Uint8)
    ensures dom == NextColour(curr, nb, temp)
  {
    dom := curr;
    var i := 1;
    while i <= temp
      invariant 1 <= i && (i <= temp + 1 || i == 1)
      invariant dom == if nb in HotColours(curr, i - 1) then Ahead(curr, 1) else curr
    {
      var next := (curr + i) % COLOUR_COUNT;
      if nb == next {
        dom := (curr + 1) % COLOUR_COUNT;
      }
      assert HotColours(curr, i) == HotColours(curr, i - 1) + {Ahead(curr, i)};
      i := i + 1;
    }
    assert HotColours(curr, i - 1) == HotColours(curr, temp);
  }

  class Board {
    const w: int
    const h: int
    var cells: array<Uint8>

    /** The buffer has the board's size. */
    ghost predicate Shaped()
      reads this
    {
      w >= 2 && h >= 2 && cells.Length == w * h
    }

    /** The buffer has the board's size and every cell is a palette index. */
    ghost predicate Valid()
      reads this, cells
    {
      Shaped() && InRange(cells[..])
    }

    /** The board allocated at start-up and filled by brd_randomise (main.c:57, 77). */
    constructor (w: int, h: int, rolls: seq<nat>)
      requires w >= 2 && h >= 2 && |rolls| == w * h
      ensures Valid() && fresh(cells)
      ensures this.w == w && this.h == h && cells[..] == Randomised(rolls)
    {
      this.w, this.h := w, h;
      cells := new Uint8[w * h];
      new;
      Randomise(rolls);
    }

    /** brd_get: a cell's colour, always a valid palette index. */
    function Get(x: int, y: int): (c: Uint8)
      reads this, cells
      requires Valid() && InBounds(w, h, x, y)
      ensures c < COLOUR_COUNT
    {
      IdxInBounds(w, h, x, y);
      cells[Idx(w, x, y)]
    }

    /** brd_set: overwrite one cell and nothing else. */
    method Set(x: int, y: int, n: Uint8)
      requires Shaped() && InBounds(w, h, x, y)
      modifies cells
      ensures 0 <= Idx(w, x, y) < cells.Length
      ensures cells[..] == old(cells[..])[Idx(w, x, y) := n]
    {
      IdxInBounds(w, h, x, y);
      cells[Idx(w, x, y)] := n;
    }

    /** brd_randomise: cell y * w + x receives the result of the (y * w + x)-th rand() mod COLOUR_COUNT. */
    method Randomise(rolls: seq<nat>)
      requires Shaped() && |rolls| == w * h
      modifies cells
      ensures Valid() && cells[..] == Randomised(rolls)
    {
      var i := 0;
      for y := 0 to h
        invariant i == y * w && i <= cells.Length
        invariant forall j :: 0 <= j < i ==> cells[j] == rolls[j] % COLOUR_COUNT
      {
        for x := 0 to w
          invariant i == y * w + x && i <= cells.Length
          invariant forall j :: 0 <= j < i ==> cells[j] == rolls[j] % COLOUR_COUNT
        {
          IdxInBounds(w, h, x, y);
          Set(x, y, rolls[i] % COLOUR_COUNT);
          i := i + 1;
        }
        assert i == (y + 1) * w;
      }
      assert cells[..] == Randomised(rolls);
    }

    /**
     * brd_paint: zero the square [x-radius, x+radius) x [y-radius, y+radius) clipped to
     * the board; every write is in bounds whatever x, y and radius are.
     */
    method Paint(x: int, y: int, radius: int)
      requires Valid()
      modifies cells
      ensures Valid() && cells[..] == Painted(old(cells[..]), w, h, x, y, radius)
    {
      ghost var before := cells[..];
      var xmin := if x - radius > 0 then x - radius else 0;
      var xmax := if x + radius < w then x + radius else w;
      var ymin := if y - radius > 0 then y - radius else 0;
      var ymax := if y + radius < h then y + radius else h;

      var v := ymin;
      while v < ymax
        invariant ymin <= v && (v <= ymax || v == ymin)
        invariant |before| == cells.Length == w * h
        invariant forall j :: 0 <= j < cells.Length ==>
          cells[j] == (if xmin <= j % w < xmax && ymin <= j / w < v then 0 else before[j])
      {
        ClearSpan(v, xmin, xmax);
        forall j | 0 <= j < cells.Length
          ensures (v * w + xmin <= j < v * w + xmax) == (j / w == v && xmin <= j % w < xmax)
        {
          RowSpan(w, v, xmin, xmax, j);
        }
        v := v + 1;
      }

      PaintedByClip(before, cells[..], w, h, x, y, radius);
      PaintKeepsRange(before, w, h, x, y, radius);
    }

    /**
     * The inner loop of brd_paint: zero the cells (u, v) of row v with xmin <= u < xmax,
     * which are the offsets from v * w + xmin up to v * w + xmax.
     */
    method ClearSpan(v: int, xmin: int, xmax: int)
      requires Shaped() && 0 <= v < h && 0 <= xmin && xmax <= w
      modifies cells
      ensures forall j :: 0 <= j < cells.Length ==>
        cells[j] == (if v * w + xmin <= j < v * w + xmax then 0 else old(cells[j]))
    {
      var u := xmin;
      while u < xmax
        invariant xmin <= u && (u <= xmax || u == xmin)
        invariant forall j :: 0 <= j < cells.Length ==>
          cells[j] == (if v * w + xmin <= j < v * w + u then 0 else old(cells[j]))
      {
        Set(u, v, 0);
        u := u + 1;
      }
    }

    /** The body of brd_process's loops for cell (x, y): read it, pick a neighbour, apply the rule. */
    method CellStep(x: int, y: int, temp: int, draws: seq<seq<(nat, nat)>>) returns (dom: Uint8)
      requires Valid() && Drawable(w, h, draws) && InBounds(w, h, x, y)
      ensures dom == NewCell(cells[..], w, h, temp, draws, x, y)
    {
      var curr := Get(x, y);
      var u, v := PickNeighbour(w, h, x, y, draws[Idx(w, x, y)]);
      var nb := Get(u, v);
      dom := Dominant(curr, nb, temp);
    }

    /** The inner loop of brd_process: fill row y of the new buffer, cell y * w + x for each x. */
    method BuildRow(next: array<Uint8>, y: int, temp: int, draws: seq<seq<(nat, nat)>>,
                    ghost target: seq<Uint8>)
      requires Valid() && Drawable(w, h, draws) && 0 <= y < h && next.Length == w * h && next != cells
      requires target == Advanced(cells[..], w, h, temp, draws)
      modifies next
      ensures forall j :: 0 <= j < next.Length ==>
        next[j] == (if y * w <= j < y * w + w then target[j] else old(next[j]))
    {
      for x := 0 to w
        invariant forall j :: 0 <= j < next.Length ==>
          next[j] == (if y * w <= j < y * w + x then target[j] else old(next[j]))
      {
        IdxInBounds(w, h, x, y);
        AdvancedAt(cells[..], w, h, temp, draws, x, y);
        var dom := CellStep(x, y, temp, draws);
        next[Idx(w, x, y)] := dom;
      }
    }

    /** The outer loop of brd_process: fill the new buffer row by row. */
    method BuildBoard(next: array<Uint8>, temp: int, draws: seq<seq<(nat, nat)>>)
      requires Valid() && Drawable(w, h, draws) && next.Length == w * h && next != cells
      modifies next
      ensures next[..] == Advanced(cells[..], w, h, temp, draws)
    {
      ghost var target := Advanced(cells[..], w, h, temp, draws);
      assert h * w == next.Length;
      for y := 0 to h
        invariant y * w <= next.Length == |target|
        invariant forall j :: 0 <= j < y * w ==> next[j] == target[j]
      {
        IdxInBounds(w, h, w - 1, y);
        BuildRow(next, y, temp, draws, target);
        assert y * w + w == (y + 1) * w;
      }
    }

    /**
     * brd_process: build a new buffer in which every cell is advanced against the old
     * board, then replace the old buffer by it.
     */
    method Process(temp: int, draws: seq<seq<(nat, nat)>>)
      requires Valid() && Drawable(w, h, draws)
      modifies this
      ensures Valid() && fresh(cells)
      ensures cells[..] == Advanced(old(cells[..]), w, h, temp, draws)
    {
      var next := new Uint8[w * h];
      BuildBoard(next, temp, draws);
      AdvanceKeepsRange(cells[..], w, h, temp, draws);
      cells := next;
    }

    /**
     * The board part of a redraw: one filled PIXEL_SIZE square per cell, row by row, in the
     * palette colour of the cell; every palette lookup is in bounds.
     */
    method Draw() returns (fills: seq<Fill>)
      requires Valid()
      ensures Depicts(fills, w, cells[..])
    {
      fills := [];
      for y := 0 to h
        invariant |fills| == y * w && |fills| <= cells.Length
        invariant forall i :: 0 <= i < |fills| ==>
          fills[i] == Fill((i % w) * PIXEL_SIZE, (i / w) * PIXEL_SIZE, PIXEL_SIZE, CELL_COLOURS[cells[i]])
      {
        for x := 0 to w
          invariant |fills| == y * w + x && |fills| <= cells.Length
          invariant forall i :: 0 <= i < |fills| ==>
            fills[i] == Fill((i % w) * PIXEL_SIZE, (i / w) * PIXEL_SIZE, PIXEL_SIZE, CELL_COLOURS[cells[i]])
        {
          IdxInBounds(w, h, x, y);
          IdxCoords(w, x, y);
          var curr := Get(x, y);
          fills := fills + [Fill(x * PIXEL_SIZE, y * PIXEL_SIZE, PIXEL_SIZE, CELL_COLOURS[curr])];
        }
        assert |fills| == (y + 1) * w;
      }
    }
  }
}
