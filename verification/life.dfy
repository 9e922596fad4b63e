/** The run-state machine around the engine: the initial board of `setup`,
    manual activation (`awakenCell`), the space-bar toggle and the
    `isRunning` gate of each animation-frame tick (`loop`). */
module Life {
  import opened Board
  import opened Engine

  /** `setup`: an all-dead board of `rows * cols` cells, generation 0, paused. */
  function Setup(rows: Pos, cols: Pos): (s: State)
    ensures |s.board| == rows * cols
    ensures forall i :: 0 <= i < |s.board| ==> s.board[i] == 0
    ensures s.generation == 0 && !s.isRunning
  {
    State(AllDead(rows * cols), 0, false)
  }

  /** `awakenCell`: sets the cell at `getIndex(coord)` to 1. The source does
      no bounds check; an index outside the board would grow the JavaScript
      array or add a property, so it is excluded here. */
  function AwakenCell(s: State, cols: Pos, c: Coord): (t: State)
    requires 0 <= GetIndex(c, cols) < |s.board|
    ensures |t.board| == |s.board|
    ensures t.board[GetIndex(c, cols)] == 1
    ensures forall j :: 0 <= j < |s.board| && j != GetIndex(c, cols) ==> t.board[j] == s.board[j]
    ensures t.generation == s.generation && t.isRunning == s.isRunning
  {
    s.(board := s.board[GetIndex(c, cols) := 1])
  }

  /** The space-bar handler: negate the run flag. */
  function Toggle(s: State): (t: State)
    ensures t.isRunning != s.isRunning
    ensures t.board == s.board && t.generation == s.generation
  {
    s.(isRunning := !s.isRunning)
  }

  /** Two presses of the space bar restore the state. */
  lemma ToggleTwice(s: State)
    ensures Toggle(Toggle(s)) == s
  {
  }

  /** One call of `loop`, without the drawing and rescheduling. */
  function Tick(s: State, rows: Pos, cols: Pos): (t: State)
    ensures s.isRunning ==> t == Update(s, rows, cols)
    ensures !s.isRunning ==> t == s
    ensures t.isRunning == s.isRunning && |t.board| == |s.board|
    ensures t.generation == if s.isRunning then s.generation + 1 else s.generation
  {
    if s.isRunning then Update(s, rows, cols) else s
  }

  /** The events the host delivers between and as ticks. */
  datatype Event = Frame | SpaceUp | Awaken(c: Coord)

  /** Every activation in `evs` targets a cell of a `rows * cols` board. */
  predicate ActivationsInRange(evs: seq<Event>, rows: Pos, cols: Pos)
  {
    forall k :: 0 <= k < |evs| && evs[k].Awaken? ==> 0 <= GetIndex(evs[k].c, cols) < rows * cols
  }

  /** The state after delivering `evs` in order. */
  function Run(s: State, rows: Pos, cols: Pos, evs: seq<Event>): (t: State)
    requires |s.board| == rows * cols
    requires ActivationsInRange(evs, rows, cols)
    ensures |t.board| == rows * cols
    decreases |evs|
  {
    if |evs| == 0 then s
    else
      var s' := match evs[0]
        case Frame => Tick(s, rows, cols)
        case SpaceUp => Toggle(s)
        case Awaken(c) => AwakenCell(s, cols, c);
      assert ActivationsInRange(evs[1..], rows, cols) by {
        forall k | 0 <= k < |evs| - 1 ensures evs[1..][k] == evs[k + 1] { }
      }
      Run(s', rows, cols, evs[1..])
  }

  /** The number of frames in `evs` that arrive while the simulation runs,
      tracking the run flag through the space-bar events alone. */
  function RunningFrames(running: bool, evs: seq<Event>): nat
    decreases |evs|
  {
    if |evs| == 0 then 0
    else match evs[0]
      case Frame => (if running then 1 else 0) + RunningFrames(running, evs[1..])
      case SpaceUp => RunningFrames(!running, evs[1..])
      case Awaken(_) => RunningFrames(running, evs[1..])
  }

  /** The number of space-bar events in `evs`. */
  function Toggles(evs: seq<Event>): nat
  {
    if |evs| == 0 then 0
    else (if evs[0] == SpaceUp then 1 else 0) + Toggles(evs[1..])
  }

  /** Over any sequence of frames, toggles and activations, the generation
      grows by exactly the number of frames that arrive while running, and
      the run flag has flipped once per toggle. */
  lemma {:induction false} RunGeneration(s: State, rows: Pos, cols: Pos, evs: seq<Event>)
    requires |s.board| == rows * cols
    requires ActivationsInRange(evs, rows, cols)
    ensures Run(s, rows, cols, evs).generation == s.generation + RunningFrames(s.isRunning, evs)
    ensures Run(s, rows, cols, evs).isRunning == (s.isRunning != (Toggles(evs) % 2 == 1))
    decreases |evs|
  {
    if |evs| > 0 {
      assert ActivationsInRange(evs[1..], rows, cols) by {
        forall k | 0 <= k < |evs| - 1 ensures evs[1..][k] == evs[k + 1] { }
      }
      match evs[0]
      case Frame => RunGeneration(Tick(s, rows, cols), rows, cols, evs[1..]);
      case SpaceUp => RunGeneration(Toggle(s), rows, cols, evs[1..]);
      case Awaken(c) => RunGeneration(AwakenCell(s, cols, c), rows, cols, evs[1..]);
    }
  }

  /** From the initial state, the generation counter is exactly the number of
      generation steps applied. */
  lemma SessionGeneration(rows: Pos, cols: Pos, evs: seq<Event>)
    requires ActivationsInRange(evs, rows, cols)
    ensures Run(Setup(rows, cols), rows, cols, evs).generation == RunningFrames(false, evs)
  {
    RunGeneration(Setup(rows, cols), rows, cols, evs);
  }

  /** Running the initial board changes nothing but the generation: with no
      activation, the all-dead board survives any number of frames. */
  lemma {:induction false} DeadBoardStaysDead(s: State, rows: Pos, cols: Pos, evs: seq<Event>)
    requires |s.board| == rows * cols
    requires forall i :: 0 <= i < |s.board| ==> s.board[i] == 0
    requires forall k :: 0 <= k < |evs| ==> !evs[k].Awaken?
    ensures Run(s, rows, cols, evs).board == s.board
    decreases |evs|
  {
    if |evs| > 0 {
      assert ActivationsInRange(evs, rows, cols);
      var s' := if evs[0] == Frame then Tick(s, rows, cols) else Toggle(s);
      if evs[0] == Frame && s.isRunning {
        DeadBoardIsFixed(s.board, rows, cols);
      }
      assert s'.board == s.board;
      assert forall k :: 0 <= k < |evs| - 1 ==> evs[1..][k] == evs[k + 1];
      DeadBoardStaysDead(s', rows, cols, evs[1..]);
    }
  }
}
