/**
 * The state main keeps across its loop and the loop itself (main.c:53, 76-174): the
 * board, g_temperature and main's locals brush_size, isRunning, redraw, processing and
 * mouse_held, updated event by event.
 */
module MainLoop {
  import opened Grid
  import opened Rules
  import opened Events
  import opened Boards

  class Automaton {
    const board: Board
    var temperature: int
    var brushSize: int
    var isRunning: bool
    var redraw: bool
    var processing: bool
    var mouseHeld: bool

    ghost predicate Valid()
      reads this, board, board.cells
    {
      board.Valid()
    }

    /** The loop's state as a value. */
    ghost function Abs(): State
      reads this, board, board.cells
    {
      State(isRunning, processing, mouseHeld, redraw, temperature, brushSize, board.cells[..])
    }

    /** Start-up: a BOARD_WIDTH x BOARD_HEIGHT board randomised, temperature 2, brush 0, paused. */
    constructor (rolls: seq<nat>)
      requires |rolls| == BOARD_WIDTH * BOARD_HEIGHT
      ensures Valid() && fresh(board) && fresh(board.cells)
      ensures board.w == BOARD_WIDTH && board.h == BOARD_HEIGHT
      ensures Abs() == Initial(rolls)
    {
      board := new Board(BOARD_WIDTH, BOARD_HEIGHT, rolls);
      temperature := 2;
      brushSize := 0;
      isRunning, redraw, processing, mouseHeld := true, true, false, false;
    }

    /**
     * One pass of the loop for an event: the switch, then, unless the event was Quit,
     * the redraw when it was asked for. The frame drawn is returned.
     */
    method HandleEvent(e: Event, dice: Dice) returns (frame: Option<seq<Fill>>)
      requires Valid() && Adequate(board.w, board.h, e, dice)
      modifies this, board, board.cells
      ensures Valid()
      ensures board.cells == old(board.cells) || fresh(board.cells)
      ensures Abs() == Step(board.w, board.h, old(Abs()), e, dice)
      ensures frame.Some? == Drew(board.w, board.h, old(Abs()), e, dice)
      ensures frame.Some? ==> Depicts(frame.value, board.w, board.cells[..])
    {
      Switch(e, dice);
      if e.Quit? {
        return None;
      }
      if redraw {
        var fills := board.Draw();
        frame := Some(fills);
        redraw := false;
      } else {
        frame := None;
      }
    }

    /** The switch of the loop on the event's type. */
    method Switch(e: Event, dice: Dice)
      requires Valid() && Adequate(board.w, board.h, e, dice)
      modifies this, board, board.cells
      ensures Valid()
      ensures board.cells == old(board.cells) || fresh(board.cells)
      ensures Abs() == Dispatch(board.w, board.h, old(Abs()), e, dice)
    {
      match e {
        case Quit =>
          isRunning := false;
        case KeyUp(k) =>
          KeyReleased(k, dice);
        case MouseButtonDown(mx, my) =>
          board.Paint(CellOf(mx), CellOf(my), brushSize);
          mouseHeld := true;
          redraw := true;
        case MouseButtonUp =>
          mouseHeld := false;
        case MouseMotion(mx, my) =>
          if mouseHeld {
            board.Paint(CellOf(mx), CellOf(my), brushSize);
            redraw := true;
          }
        case MouseWheel(scroll) =>
          if (brushSize > 0 && scroll < 0) || (brushSize < 100 && scroll > 0) {
            brushSize := brushSize + scroll;
          }
        case TimerTick =>
          if processing {
            board.Process(temperature, dice.draws);
            redraw := true;
          }
        case OtherEvent =>
      }
    }

    /** The SDL_KEYUP case: act on the key, then ask for a redraw whatever the key. */
    method KeyReleased(k: Key, dice: Dice)
      requires Valid() && Adequate(board.w, board.h, KeyUp(k), dice)
      modifies this, board, board.cells
      ensures Valid() && board.cells == old(board.cells)
      ensures Abs() == Dispatch(board.w, board.h, old(Abs()), KeyUp(k), dice)
    {
      match k {
        case Backspace => board.Randomise(dice.rolls);
        case Return => processing := !processing;
        case KeypadPlus => if temperature < COLOUR_COUNT { temperature := temperature + 1; }
        case KeypadMinus => if temperature > 0 { temperature := temperature - 1; }
        case OtherKey =>
      }
      redraw := true;
    }

    /** main's loop over the events delivered to it, until Quit or until they run out. */
    method Run(events: seq<Event>, dice: seq<Dice>)
      requires Valid() && Supplied(board.w, board.h, events, dice)
      modifies this, board, board.cells
      ensures Valid()
      ensures Abs() == RunAll(board.w, board.h, old(Abs()), events, dice)
    {
      var k := 0;
      while isRunning && k < |events|
        invariant 0 <= k <= |events|
        invariant Valid()
        invariant board.cells == old(board.cells) || fresh(board.cells)
        invariant RunAll(board.w, board.h, Abs(), events[k..], dice[k..]) ==
                  RunAll(board.w, board.h, old(Abs()), events, dice)
        decreases |events| - k
      {
        assert events[k..][1..] == events[k + 1..] && dice[k..][1..] == dice[k + 1..];
        var _ := HandleEvent(events[k], dice[k]);
        k := k + 1;
      }
    }
  }
}
