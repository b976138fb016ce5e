/**
 * The event handling of main's loop (main.c:86-139) as a step function over the loop's
 * state: the run flags, the two parameters and the board's cells.
 */
module Events {
  import opened Grid
  import opened Rules

  /** The keys main reacts to on key release; every other key is OtherKey. */
  datatype Key = Backspace | Return | KeypadPlus | KeypadMinus | OtherKey

  /** The events main distinguishes; mouse positions are in window pixels. */
  datatype Event =
    | Quit
    | KeyUp(key: Key)
    | MouseButtonDown(mx: int, my: int)
    | MouseButtonUp
    | MouseMotion(mx: int, my: int)
    | MouseWheel(scroll: int)
    | TimerTick
    | OtherEvent

  /** What rand() answers while one event is handled: one roll per cell for brd_randomise
      and one stream of draws per cell for brd_process. */
  datatype Dice = Dice(rolls: seq<nat>, draws: seq<seq<(nat, nat)>>)

  /** The dice can answer e: a roll per cell for Backspace, an accepted draw per cell for a tick. */
  predicate Adequate(w: int, h: int, e: Event, dice: Dice) {
    (e == KeyUp(Backspace) ==> |dice.rolls| == w * h) &&
    (e == TimerTick ==> Drawable(w, h, dice.draws))
  }

  /** isRunning, processing, mouse_held, redraw, g_temperature, brush_size and the board. */
  datatype State = State(
    running: bool, processing: bool, mouseHeld: bool, redraw: bool,
    temperature: int, brush: int, cells: seq<Uint8>)

  predicate Fits(w: int, h: int, s: State) {
    w > 0 && |s.cells| == w * h
  }

  /** The state main sets up before its loop (main.c:53, 77-84). */
  function Initial(rolls: seq<nat>): (r: State)
    ensures |r.cells| == |rolls| && InRange(r.cells)
    ensures r.running && r.redraw && !r.processing && !r.mouseHeld
    ensures 0 <= r.temperature <= COLOUR_COUNT && 0 <= r.brush <= 100
  {
    State(true, false, false, true, 2, 0, Randomised(rolls))
  }

  /** KP_PLUS: one step up, never beyond COLOUR_COUNT. */
  function Warmer(t: int): (r: int)
    ensures 0 <= t <= COLOUR_COUNT ==> 0 <= r <= COLOUR_COUNT
    ensures t < COLOUR_COUNT ==> r == t + 1
    ensures t >= COLOUR_COUNT ==> r == t
  {
    if t < COLOUR_COUNT then t + 1 else t
  }

  /** KP_MINUS: one step down, never below 0. */
  function Cooler(t: int): (r: int)
    ensures 0 <= t <= COLOUR_COUNT ==> 0 <= r <= COLOUR_COUNT
    ensures t > 0 ==> r == t - 1
    ensures t <= 0 ==> r == t
  {
    if t > 0 then t - 1 else t
  }

  /**
   * The wheel handler: the delta is added whole when the brush may still shrink and the
   * delta is negative, or may still grow and the delta is positive.
   */
  function Scrolled(brush: int, scroll: int): (r: int)
    ensures 0 <= brush <= 100 && -1 <= scroll <= 1 ==> 0 <= r <= 100
    ensures r == brush || r == brush + scroll
  {
    if (brush > 0 && scroll < 0) || (brush < 100 && scroll > 0) then brush + scroll else brush
  }

  /** A wheel delta large enough overshoots either bound of the brush size. */
  lemma BrushOvershoot()
    ensures Scrolled(99, 5) == 104 && Scrolled(1, -3) == -2
  {
  }

  /** The cell under a window pixel: C's integer division by PIXEL_SIZE, truncating towards zero. */
  function CellOf(p: int): (c: int)
    ensures p >= 0 ==> c * PIXEL_SIZE <= p < (c + 1) * PIXEL_SIZE
    ensures p < 0 ==> (c - 1) * PIXEL_SIZE < p <= c * PIXEL_SIZE
  {
    if p >= 0 then p / PIXEL_SIZE else -((-p) / PIXEL_SIZE)
  }

  /** The switch of main's loop: the new state after one event, before any redraw. */
  function Dispatch(w: int, h: int, s: State, e: Event, dice: Dice): (r: State)
    requires Fits(w, h, s) && Adequate(w, h, e, dice)
    ensures |r.cells| == |s.cells|
  {
    match e
    case Quit => s.(running := false)
    case KeyUp(k) =>
      var t := match k
        case Backspace => s.(cells := Randomised(dice.rolls))
        case Return => s.(processing := !s.processing)
        case KeypadPlus => s.(temperature := Warmer(s.temperature))
        case KeypadMinus => s.(temperature := Cooler(s.temperature))
        case OtherKey => s;
      t.(redraw := true)
    case MouseButtonDown(mx, my) =>
      s.(cells := Painted(s.cells, w, h, CellOf(mx), CellOf(my), s.brush), mouseHeld := true, redraw := true)
    case MouseButtonUp => s.(mouseHeld := false)
    case MouseMotion(mx, my) =>
      if s.mouseHeld then s.(cells := Painted(s.cells, w, h, CellOf(mx), CellOf(my), s.brush), redraw := true)
      else s
    case MouseWheel(scroll) => s.(brush := Scrolled(s.brush, scroll))
    case TimerTick =>
      if s.processing then s.(cells := Advanced(s.cells, w, h, s.temperature, dice.draws), redraw := true)
      else s
    case OtherEvent => s
  }

  /** Whether handling e ends with a frame drawn: every event but Quit that left redraw set. */
  predicate Drew(w: int, h: int, s: State, e: Event, dice: Dice)
    requires Fits(w, h, s) && Adequate(w, h, e, dice)
  {
    !e.Quit? && Dispatch(w, h, s, e, dice).redraw
  }

  /** One pass of main's loop: dispatch, then draw and clear redraw unless the event was Quit. */
  function Step(w: int, h: int, s: State, e: Event, dice: Dice): (r: State)
    requires Fits(w, h, s) && Adequate(w, h, e, dice)
    ensures Fits(w, h, r)
  {
    var t := Dispatch(w, h, s, e, dice);
    if e.Quit? then t else t.(redraw := false)
  }

  /**
   * Which events end with a frame drawn: never SDL_QUIT; always a key release or a button
   * press; a tick exactly while processing or with a redraw still pending; a motion
   * exactly while the button is held or with a redraw still pending; the remaining events
   * only when a redraw was still pending.
   */
  lemma DrewRules(w: int, h: int, s: State, e: Event, dice: Dice)
    requires Fits(w, h, s) && Adequate(w, h, e, dice)
    ensures e.Quit? ==> !Drew(w, h, s, e, dice)
    ensures e.KeyUp? || e.MouseButtonDown? ==> Drew(w, h, s, e, dice)
    ensures e.TimerTick? ==> (Drew(w, h, s, e, dice) <==> s.processing || s.redraw)
    ensures e.MouseMotion? ==> (Drew(w, h, s, e, dice) <==> s.mouseHeld || s.redraw)
    ensures e.MouseButtonUp? || e.MouseWheel? || e.OtherEvent? ==> (Drew(w, h, s, e, dice) <==> s.redraw)
  {
  }

  /** The dispatch rules for the run flags (main.c:91-93, 99, 105, 108-124, 133-137). */
  lemma DispatchFlags(w: int, h: int, s: State, e: Event, dice: Dice)
    requires Fits(w, h, s) && Adequate(w, h, e, dice)
    ensures var r := Dispatch(w, h, s, e, dice);
      (e == KeyUp(Return) ==> r.processing == !s.processing) &&
      (e != KeyUp(Return) ==> r.processing == s.processing) &&
      (e.KeyUp? ==> r.redraw) &&
      (e.MouseButtonDown? ==> r.mouseHeld && r.redraw) &&
      (e.MouseButtonUp? ==> !r.mouseHeld) &&
      (!e.MouseButtonDown? && !e.MouseButtonUp? ==> r.mouseHeld == s.mouseHeld) &&
      (e.MouseMotion? && !s.mouseHeld ==> r == s) &&
      (e.TimerTick? && !s.processing ==> r == s) &&
      (e.TimerTick? && s.processing ==> r.cells == Advanced(s.cells, w, h, s.temperature, dice.draws)) &&
      (e.Quit? ==> r == s.(running := false)) &&
      (!e.Quit? ==> r.running == s.running)
  {
  }

  /** Only Backspace, a button press, a held-button motion and a tick while processing touch the board. */
  lemma DispatchBoard(w: int, h: int, s: State, e: Event, dice: Dice)
    requires Fits(w, h, s) && Adequate(w, h, e, dice)
    ensures var r := Dispatch(w, h, s, e, dice);
      r.cells != s.cells ==>
        e == KeyUp(Backspace) || e.MouseButtonDown? || (e.MouseMotion? && s.mouseHeld) ||
        (e.TimerTick? && s.processing)
  {
  }

  /** The loop's invariant: a board of palette indices and a temperature in [0, COLOUR_COUNT]. */
  predicate Inv(w: int, h: int, s: State) {
    Fits(w, h, s) && InRange(s.cells) && 0 <= s.temperature <= COLOUR_COUNT
  }

  lemma InitialInv(w: int, h: int, rolls: seq<nat>)
    requires w > 0 && |rolls| == w * h
    ensures Inv(w, h, Initial(rolls)) && 0 <= Initial(rolls).brush <= 100
  {
  }

  lemma StepKeepsInv(w: int, h: int, s: State, e: Event, dice: Dice)
    requires Inv(w, h, s) && Adequate(w, h, e, dice)
    ensures Inv(w, h, Step(w, h, s, e, dice))
  {
    match e
    case MouseButtonDown(mx, my) => PaintStepKeepsInv(w, h, s, e, dice, mx, my);
    case MouseMotion(mx, my) => PaintStepKeepsInv(w, h, s, e, dice, mx, my);
    case TimerTick => TickKeepsInv(w, h, s, dice);
    case KeyUp(k) => KeyKeepsInv(w, h, s, k, dice);
    case _ => assert Step(w, h, s, e, dice).cells == s.cells;
  }

  /** A key release re-randomises the board, flips a flag or moves the temperature by one within [0, 8]. */
  lemma KeyKeepsInv(w: int, h: int, s: State, k: Key, dice: Dice)
    requires Inv(w, h, s) && Adequate(w, h, KeyUp(k), dice)
    ensures Inv(w, h, Step(w, h, s, KeyUp(k), dice))
  {
  }

  /** A press or a motion paints at most one square, which keeps the palette range. */
  lemma PaintStepKeepsInv(w: int, h: int, s: State, e: Event, dice: Dice, mx: int, my: int)
    requires Inv(w, h, s) && Adequate(w, h, e, dice)
    requires e == MouseButtonDown(mx, my) || e == MouseMotion(mx, my)
    ensures Inv(w, h, Step(w, h, s, e, dice))
  {
    PaintKeepsRange(s.cells, w, h, CellOf(mx), CellOf(my), s.brush);
  }

  /** A tick advances the board or leaves it, and either keeps the palette range. */
  lemma TickKeepsInv(w: int, h: int, s: State, dice: Dice)
    requires Inv(w, h, s) && Adequate(w, h, TimerTick, dice)
    ensures Inv(w, h, Step(w, h, s, TimerTick, dice))
  {
    if s.processing {
      AdvanceKeepsRange(s.cells, w, h, s.temperature, dice.draws);
    }
  }

  /** Every wheel event of the sequence moves by at most one notch. */
  predicate UnitWheel(e: Event) {
    e.MouseWheel? ==> -1 <= e.scroll <= 1
  }

  // ------------------------------------------------------------------ runs

  /** Every event comes with dice that can answer it. */
  predicate Supplied(w: int, h: int, events: seq<Event>, dice: seq<Dice>) {
    |dice| == |events| && forall k :: 0 <= k < |dice| ==> Adequate(w, h, events[k], dice[k])
  }

  /** The state after main's loop has consumed events, stopping once it no longer runs. */
  function RunAll(w: int, h: int, s: State, events: seq<Event>, dice: seq<Dice>): (r: State)
    requires Fits(w, h, s) && Supplied(w, h, events, dice)
    ensures Fits(w, h, r)
    ensures !s.running ==> r == s
    decreases |events|
  {
    if events == [] || !s.running then s
    else RunAll(w, h, Step(w, h, s, events[0], dice[0]), events[1..], dice[1..])
  }

  /** Starting from the invariant, no sequence of events breaks it: the temperature stays in range. */
  lemma {:induction false} RunKeepsInv(w: int, h: int, s: State, events: seq<Event>, dice: seq<Dice>)
    requires Inv(w, h, s) && Supplied(w, h, events, dice)
    ensures Inv(w, h, RunAll(w, h, s, events, dice))
    decreases |events|
  {
    if events != [] && s.running {
      StepKeepsInv(w, h, s, events[0], dice[0]);
      RunKeepsInv(w, h, Step(w, h, s, events[0], dice[0]), events[1..], dice[1..]);
    }
  }

  /** With wheel deltas of at most one notch the brush size stays in [0, 100]. */
  lemma {:induction false} RunKeepsBrush(w: int, h: int, s: State, events: seq<Event>, dice: seq<Dice>)
    requires Fits(w, h, s) && Supplied(w, h, events, dice) && 0 <= s.brush <= 100
    requires forall k :: 0 <= k < |events| ==> UnitWheel(events[k])
    ensures 0 <= RunAll(w, h, s, events, dice).brush <= 100
    decreases |events|
  {
    if events != [] && s.running {
      RunKeepsBrush(w, h, Step(w, h, s, events[0], dice[0]), events[1..], dice[1..]);
    }
  }

  /** A Quit anywhere in the sequence leaves the loop stopped. */
  lemma {:induction false} QuitStopsRun(w: int, h: int, s: State, events: seq<Event>, dice: seq<Dice>, k: int)
    requires Fits(w, h, s) && Supplied(w, h, events, dice) && 0 <= k < |events| && events[k] == Quit
    ensures !RunAll(w, h, s, events, dice).running
    decreases |events|
  {
    if s.running && k > 0 {
      QuitStopsRun(w, h, Step(w, h, s, events[0], dice[0]), events[1..], dice[1..], k - 1);
    }
  }

  /** Events after a Quit are never handled. */
  lemma {:induction false} QuitIgnoresRest(w: int, h: int, s: State, before: seq<Event>, after: seq<Event>,
                                          dice: seq<Dice>)
    requires Fits(w, h, s) && Supplied(w, h, before + [Quit] + after, dice)
    ensures Supplied(w, h, before + [Quit], dice[..|before| + 1])
    ensures RunAll(w, h, s, before + [Quit] + after, dice) == RunAll(w, h, s, before + [Quit], dice[..|before| + 1])
    decreases |before|
  {
    var events := before + [Quit] + after;
    if !s.running {
    } else if before == [] {
      assert events[0] == Quit && ([Quit] + after)[1..] == after;
      var t := Step(w, h, s, Quit, dice[0]);
      assert !t.running;
      assert RunAll(w, h, s, events, dice) == RunAll(w, h, t, after, dice[1..]);
      assert RunAll(w, h, s, [Quit], dice[..1]) == RunAll(w, h, t, [], dice[..1][1..]);
    } else {
      var t := Step(w, h, s, before[0], dice[0]);
      assert events[1..] == before[1..] + [Quit] + after;
      assert (before + [Quit])[1..] == before[1..] + [Quit];
      assert dice[..|before| + 1][1..] == dice[1..][..|before[1..]| + 1];
      QuitIgnoresRest(w, h, t, before[1..], after, dice[1..]);
    }
  }
}
