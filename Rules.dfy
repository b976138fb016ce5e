/**
 * The board rules as functions on the flat row-major buffer: what brd_randomise,
 * brd_paint and brd_process compute (main.c:193-249), with rand() replaced by
 * values supplied from outside.
 */
module Rules {
  import opened Grid

  // ---------------------------------------------------------------- randomise

  /** The board brd_randomise writes when the i-th call of rand() returns rolls[i]. */
  function Randomised(rolls: seq<nat>): (r: seq<Uint8>)
    ensures |r| == |rolls| && InRange(r)
  {
    seq(|rolls|, i requires 0 <= i < |rolls| => rolls[i] % COLOUR_COUNT)
  }

  // -------------------------------------------------------------------- paint

  /** (u, v) lies in the half-open square [x-radius, x+radius) x [y-radius, y+radius). */
  predicate InSquare(x: int, y: int, radius: int, u: int, v: int) {
    x - radius <= u < x + radius && y - radius <= v < y + radius
  }

  /** The board after painting: cells of the square that lie on the board become 0. */
  function Painted(cells: seq<Uint8>, w: int, h: int, x: int, y: int, radius: int): (r: seq<Uint8>)
    requires w > 0 && |cells| == w * h
    ensures |r| == |cells|
    ensures forall i :: 0 <= i < |r| ==> r[i] == 0 || r[i] == cells[i]
  {
    seq(|cells|, i requires 0 <= i < |cells| =>
      if InSquare(x, y, radius, i % w, i / w) then 0 else cells[i])
  }

  /** Painting seen through board coordinates: exactly the cells of the square become 0. */
  lemma PaintedAt(cells: seq<Uint8>, w: int, h: int, x: int, y: int, radius: int, u: int, v: int)
    requires w > 0 && |cells| == w * h && InBounds(w, h, u, v)
    ensures 0 <= Idx(w, u, v) < |cells|
    ensures Painted(cells, w, h, x, y, radius)[Idx(w, u, v)] ==
            if InSquare(x, y, radius, u, v) then 0 else cells[Idx(w, u, v)]
  {
    IdxInBounds(w, h, u, v);
    IdxCoords(w, u, v);
  }

  /**
   * Zeroing the clipped rectangle [max(x-radius, 0), min(x+radius, w)) x
   * [max(y-radius, 0), min(y+radius, h)) is painting the square.
   */
  lemma PaintedByClip(before: seq<Uint8>, after: seq<Uint8>, w: int, h: int, x: int, y: int, radius: int)
    requires w > 0 && |before| == |after| == w * h
    requires forall j :: 0 <= j < |after| ==>
      after[j] == (if (if x - radius > 0 then x - radius else 0) <= j % w < (if x + radius < w then x + radius else w) &&
                      (if y - radius > 0 then y - radius else 0) <= j / w < (if y + radius < h then y + radius else h)
                   then 0 else before[j])
    ensures after == Painted(before, w, h, x, y, radius)
  {
    forall j | 0 <= j < |after|
      ensures after[j] == Painted(before, w, h, x, y, radius)[j]
    {
      CoordsInBounds(w, h, j);
    }
  }

  /** Painting writes only the colour 0, so the board stays a board of palette indices. */
  lemma PaintKeepsRange(cells: seq<Uint8>, w: int, h: int, x: int, y: int, radius: int)
    requires w > 0 && |cells| == w * h && InRange(cells)
    ensures InRange(Painted(cells, w, h, x, y, radius))
  {
  }

  /** A radius of 0 (or less, which an overshooting wheel can produce) paints nothing. */
  lemma PaintNoRadius(cells: seq<Uint8>, w: int, h: int, x: int, y: int, radius: int)
    requires w > 0 && |cells| == w * h && radius <= 0
    ensures Painted(cells, w, h, x, y, radius) == cells
  {
  }

  /** Painting the same square twice is the same as painting it once. */
  lemma PaintIdempotent(cells: seq<Uint8>, w: int, h: int, x: int, y: int, radius: int)
    requires w > 0 && |cells| == w * h
    ensures Painted(Painted(cells, w, h, x, y, radius), w, h, x, y, radius) ==
            Painted(cells, w, h, x, y, radius)
  {
  }

  /**
   * With a positive radius the centre cell is painted and the cell radius columns to
   * its right is not (the square is half-open).
   */
  lemma PaintCentre(cells: seq<Uint8>, w: int, h: int, x: int, y: int, radius: int)
    requires w > 0 && |cells| == w * h && InBounds(w, h, x, y) && radius >= 1
    ensures 0 <= Idx(w, x, y) < |cells| && (x + radius < w ==> 0 <= Idx(w, x + radius, y) < |cells|)
    ensures Painted(cells, w, h, x, y, radius)[Idx(w, x, y)] == 0
    ensures x + radius < w ==>
      Painted(cells, w, h, x, y, radius)[Idx(w, x + radius, y)] == cells[Idx(w, x + radius, y)]
  {
    PaintedAt(cells, w, h, x, y, radius, x, y);
    if x + radius < w {
      PaintedAt(cells, w, h, x, y, radius, x + radius, y);
    }
  }

  // -------------------------------------------------------- neighbour choice

  /** rand() % 3 - 1: a step of -1, 0 or 1. */
  function Offset(roll: nat): int {
    roll % 3 - 1
  }

  /** The coordinate one retry of the neighbour loop proposes for cell (x, y). */
  function Candidate(x: int, y: int, d: (nat, nat)): (int, int) {
    (x + Offset(d.0), y + Offset(d.1))
  }

  /** The condition under which the neighbour loop retries. */
  predicate Rejected(w: int, h: int, x: int, y: int, u: int, v: int) {
    (u == x && v == y) || u < 0 || u > w - 1 || v < 0 || v > h - 1
  }

  predicate Accepted(w: int, h: int, x: int, y: int, d: (nat, nat)) {
    !Rejected(w, h, x, y, Candidate(x, y, d).0, Candidate(x, y, d).1)
  }

  /** One of the eight cells around (x, y), on the board. */
  predicate IsNeighbour(w: int, h: int, x: int, y: int, u: int, v: int) {
    -1 <= u - x <= 1 && -1 <= v - y <= 1 && (u, v) != (x, y) && InBounds(w, h, u, v)
  }

  /**
   * The neighbour the rejection loop settles on when its successive pairs of rand()
   * results are draws, or None when no draw of the stream is accepted.
   */
  function FirstValid(w: int, h: int, x: int, y: int, draws: seq<(nat, nat)>): (r: Option<(int, int)>)
    ensures r.Some? ==> IsNeighbour(w, h, x, y, r.value.0, r.value.1)
    decreases |draws|
  {
    if draws == [] then None
    else if Accepted(w, h, x, y, draws[0]) then Some(Candidate(x, y, draws[0]))
    else FirstValid(w, h, x, y, draws[1..])
  }

  /**
   * The loop settles on the first accepted draw of the stream, and it finds none exactly
   * when no draw of the stream is accepted.
   */
  lemma {:induction false} FirstValidIsFirst(w: int, h: int, x: int, y: int, draws: seq<(nat, nat)>)
    ensures var r := FirstValid(w, h, x, y, draws);
      (r.Some? ==> exists k :: 0 <= k < |draws| && Accepted(w, h, x, y, draws[k]) &&
                               Candidate(x, y, draws[k]) == r.value &&
                               forall j :: 0 <= j < k ==> !Accepted(w, h, x, y, draws[j])) &&
      (r.None? <==> forall k :: 0 <= k < |draws| ==> !Accepted(w, h, x, y, draws[k]))
    decreases |draws|
  {
    if draws != [] && !Accepted(w, h, x, y, draws[0]) {
      var r := FirstValid(w, h, x, y, draws[1..]);
      FirstValidIsFirst(w, h, x, y, draws[1..]);
      assert forall k :: 1 <= k < |draws| ==> draws[k] == draws[1..][k - 1];
      if r.Some? {
        var k :| 0 <= k < |draws[1..]| && Accepted(w, h, x, y, draws[1..][k]) &&
                 Candidate(x, y, draws[1..][k]) == r.value &&
                 forall j :: 0 <= j < k ==> !Accepted(w, h, x, y, draws[1..][j]);
        assert Accepted(w, h, x, y, draws[k + 1]) && Candidate(x, y, draws[k + 1]) == r.value;
      }
    }
  }

  /** On a board of at least 2 x 2 every cell has a draw the loop accepts. */
  lemma NeighbourAvailable(w: int, h: int, x: int, y: int)
    requires w >= 2 && h >= 2 && InBounds(w, h, x, y)
    ensures exists d: (nat, nat) :: Accepted(w, h, x, y, d)
  {
    var d: (nat, nat) := (if x + 1 < w then 2 else 0, 1);
    assert Accepted(w, h, x, y, d);
  }

  // ---------------------------------------------------------- colour advance

  /** The colour i steps further round the cycle. */
  function Ahead(c: int, i: int): int {
    (c + i) % COLOUR_COUNT
  }

  /** {(c + i) % COLOUR_COUNT | 1 <= i <= temp}: the neighbour colours that advance c. */
  function HotColours(c: int, temp: int): set<int> {
    set i | 1 <= i <= temp :: Ahead(c, i)
  }

  /** The colour the temperature loop leaves in dom for a cell c whose neighbour is nb. */
  function NextColour(c: Uint8, nb: Uint8, temp: int): (r: Uint8)
    ensures r == c || r == Ahead(c, 1)
    ensures c < COLOUR_COUNT ==> r < COLOUR_COUNT
  {
    if nb in HotColours(c, temp) then Ahead(c, 1) else c
  }

  /** A cell moves one step on exactly when its neighbour is hot, and keeps its colour otherwise. */
  lemma NextColourOneStep(c: Uint8, nb: Uint8, temp: int)
    ensures NextColour(c, nb, temp) == Ahead(c, 1) <==> nb in HotColours(c, temp)
    ensures NextColour(c, nb, temp) == c <==> nb !in HotColours(c, temp)
  {
  }

  /** At temperature COLOUR_COUNT or above every colour is hot, the cell's own colour included. */
  lemma HotColoursFull(c: Uint8, temp: int, k: int)
    requires temp >= COLOUR_COUNT && 0 <= k < COLOUR_COUNT
    ensures k in HotColours(c, temp)
  {
    var i := (k - c - 1) % COLOUR_COUNT + 1;
    assert 1 <= i <= COLOUR_COUNT;
    assert Ahead(c, i) == k;
  }

  /** At temperature 0 or below no colour is hot. */
  lemma HotColoursCold(c: Uint8, temp: int)
    requires temp <= 0
    ensures HotColours(c, temp) == {}
  {
  }

  // ------------------------------------------------------------ board advance

  /** Every cell's stream of draws reaches an accepted neighbour; cell (x, y) uses stream y * w + x. */
  predicate Drawable(w: int, h: int, draws: seq<seq<(nat, nat)>>) {
    w > 0 && h > 0 && |draws| == w * h &&
    forall x, y :: 0 <= x < w && 0 <= y < h ==>
      0 <= Idx(w, x, y) < |draws| && FirstValid(w, h, x, y, draws[Idx(w, x, y)]).Some?
  }

  /** The neighbour chosen for cell (x, y). */
  function Neighbour(w: int, h: int, draws: seq<seq<(nat, nat)>>, x: int, y: int): (p: (int, int))
    requires Drawable(w, h, draws) && InBounds(w, h, x, y)
    ensures IsNeighbour(w, h, x, y, p.0, p.1)
  {
    FirstValid(w, h, x, y, draws[Idx(w, x, y)]).value
  }

  /** The new colour of cell (x, y): the rule applied to its old colour and its neighbour's. */
  function NewCell(cells: seq<Uint8>, w: int, h: int, temp: int, draws: seq<seq<(nat, nat)>>, x: int, y: int): Uint8
    requires |cells| == w * h && Drawable(w, h, draws) && InBounds(w, h, x, y)
  {
    var p := Neighbour(w, h, draws, x, y);
    IdxInBounds(w, h, x, y);
    IdxInBounds(w, h, p.0, p.1);
    NextColour(cells[Idx(w, x, y)], cells[Idx(w, p.0, p.1)], temp)
  }

  /** The board brd_process builds: every cell is advanced against the old board only. */
  function Advanced(cells: seq<Uint8>, w: int, h: int, temp: int, draws: seq<seq<(nat, nat)>>): (r: seq<Uint8>)
    requires |cells| == w * h && Drawable(w, h, draws)
    ensures |r| == |cells|
  {
    seq(|cells|, i requires 0 <= i < |cells| =>
      CoordsInBounds(w, h, i);
      NewCell(cells, w, h, temp, draws, i % w, i / w))
  }

  /** The advanced board seen through board coordinates. */
  lemma AdvancedAt(cells: seq<Uint8>, w: int, h: int, temp: int, draws: seq<seq<(nat, nat)>>, x: int, y: int)
    requires |cells| == w * h && Drawable(w, h, draws) && InBounds(w, h, x, y)
    ensures 0 <= Idx(w, x, y) < |cells|
    ensures Advanced(cells, w, h, temp, draws)[Idx(w, x, y)] == NewCell(cells, w, h, temp, draws, x, y)
  {
    IdxInBounds(w, h, x, y);
    IdxCoords(w, x, y);
  }

  /** Advancing keeps every cell a palette index. */
  lemma AdvanceKeepsRange(cells: seq<Uint8>, w: int, h: int, temp: int, draws: seq<seq<(nat, nat)>>)
    requires |cells| == w * h && Drawable(w, h, draws) && InRange(cells)
    ensures InRange(Advanced(cells, w, h, temp, draws))
  {
    forall i | 0 <= i < |cells| ensures Advanced(cells, w, h, temp, draws)[i] < COLOUR_COUNT {
      CoordsInBounds(w, h, i);
      var p := Neighbour(w, h, draws, i % w, i / w);
      IdxInBounds(w, h, p.0, p.1);
      NextColourOneStep(cells[i], cells[Idx(w, p.0, p.1)], temp);
    }
  }

  /**
   * Each new cell is its old colour or the next one, and it is the next one exactly
   * when the chosen neighbour's old colour is hot for it.
   */
  lemma AdvanceOneStep(cells: seq<Uint8>, w: int, h: int, temp: int, draws: seq<seq<(nat, nat)>>, x: int, y: int)
    requires |cells| == w * h && Drawable(w, h, draws) && InBounds(w, h, x, y)
    ensures 0 <= Idx(w, x, y) < |cells|
    ensures var p := Neighbour(w, h, draws, x, y);
            0 <= Idx(w, p.0, p.1) < |cells|
    ensures var r := Advanced(cells, w, h, temp, draws)[Idx(w, x, y)];
            var c := cells[Idx(w, x, y)];
            var p := Neighbour(w, h, draws, x, y);
            (r == c || r == Ahead(c, 1)) &&
            (r == Ahead(c, 1) <==> cells[Idx(w, p.0, p.1)] in HotColours(c, temp))
  {
    var p := Neighbour(w, h, draws, x, y);
    AdvancedAt(cells, w, h, temp, draws, x, y);
    IdxInBounds(w, h, p.0, p.1);
    NextColourOneStep(cells[Idx(w, x, y)], cells[Idx(w, p.0, p.1)], temp);
  }

  /** A new cell depends only on the old board at that cell and at its chosen neighbour. */
  lemma AdvanceLocal(a: seq<Uint8>, b: seq<Uint8>, w: int, h: int, temp: int, draws: seq<seq<(nat, nat)>>,
                     x: int, y: int)
    requires |a| == |b| == w * h && Drawable(w, h, draws) && InBounds(w, h, x, y)
    requires var p := Neighbour(w, h, draws, x, y);
             0 <= Idx(w, x, y) < |a| && 0 <= Idx(w, p.0, p.1) < |a| &&
             a[Idx(w, x, y)] == b[Idx(w, x, y)] && a[Idx(w, p.0, p.1)] == b[Idx(w, p.0, p.1)]
    ensures Advanced(a, w, h, temp, draws)[Idx(w, x, y)] == Advanced(b, w, h, temp, draws)[Idx(w, x, y)]
  {
    AdvancedAt(a, w, h, temp, draws, x, y);
    AdvancedAt(b, w, h, temp, draws, x, y);
  }

  /** At temperature 0 the board does not change. */
  lemma AdvanceCold(cells: seq<Uint8>, w: int, h: int, temp: int, draws: seq<seq<(nat, nat)>>)
    requires |cells| == w * h && Drawable(w, h, draws) && temp <= 0
    ensures Advanced(cells, w, h, temp, draws) == cells
  {
    forall i | 0 <= i < |cells| ensures Advanced(cells, w, h, temp, draws)[i] == cells[i] {
      CoordsInBounds(w, h, i);
      HotColoursCold(cells[i], temp);
    }
  }

  /** At temperature COLOUR_COUNT every cell moves one colour on, whatever its neighbour. */
  lemma AdvanceFullHeat(cells: seq<Uint8>, w: int, h: int, temp: int, draws: seq<seq<(nat, nat)>>)
    requires |cells| == w * h && Drawable(w, h, draws) && InRange(cells) && temp >= COLOUR_COUNT
    ensures forall i :: 0 <= i < |cells| ==> Advanced(cells, w, h, temp, draws)[i] == Ahead(cells[i], 1)
  {
    forall i | 0 <= i < |cells| ensures Advanced(cells, w, h, temp, draws)[i] == Ahead(cells[i], 1) {
      CoordsInBounds(w, h, i);
      var p := Neighbour(w, h, draws, i % w, i / w);
      IdxInBounds(w, h, p.0, p.1);
      HotColoursFull(cells[i], temp, cells[Idx(w, p.0, p.1)]);
    }
  }

  /** With two colours in play at temperature 1: colour 0 advances next to a 1 and stays next to anything else. */
  lemma TwoColourScenario(nb: Uint8)
    requires nb < 2
    ensures NextColour(0, nb, 1) == nb
  {
    assert HotColours(0, 1) == {1} by {
      assert Ahead(0, 1) == 1;
    }
  }
}
