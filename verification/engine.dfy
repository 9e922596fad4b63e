/** The B3/S23 rule (`checkLive`, `checkDead`) and the generation step
    (`update`), which maps the rule over the old board into a fresh one. */
module Engine {
  import opened Wrappers
  import opened Board
  import opened Neighbours
  import opened NeighbourFacts

  /** The module-level `state` record made explicit; `isMouseDown` belongs to
      the pointer wiring and is not part of the engine. */
  datatype State = State(board: seq<Cell>, generation: nat, isRunning: bool)

  /** `checkLive` on the count `n` that `getLiveNeighbourCount` computed:
      1 when `n` is one of the listed values 2 and 3, else 0. A `NaN` count
      is never in the list. */
  function CheckLive(n: Option<nat>): (r: Cell)
    ensures r == 1 <==> n.Some? && 2 <= n.value <= 3
  {
    if n in [Some(2), Some(3)] then 1 else 0
  }

  /** `checkDead` on the count `n`: 1 when `n` is strictly equal to 3, else
      0. `NaN` is not equal to anything. */
  function CheckDead(n: Option<nat>): (r: Cell)
    ensures r == 1 <==> n.Some? && n.value == 3
  {
    if n == Some(3) then 1 else 0
  }

  /** Conway's rule on a cell value and a defined live-neighbour count. */
  predicate Lives(cell: Cell, n: nat)
  {
    if cell == 1 then n == 2 || n == 3 else n == 3
  }

  /** The `.map` inside `update`: a live cell goes through `checkLive`, a dead
      one through `checkDead`, and every count reads the old board. */
  function NextBoard(board: seq<Cell>, rows: Pos, cols: Pos): (r: seq<Cell>)
    ensures |r| == |board|
    ensures forall i :: 0 <= i < |board| ==>
      (r[i] == 1 <==>
        match LiveNeighbourCount(board, rows, cols, i)
        case Some(n) => Lives(board[i], n)
        case None => false)
  {
    seq(|board|, i requires 0 <= i < |board| =>
      var n := LiveNeighbourCount(board, rows, cols, i);
      if board[i] == 1 then CheckLive(n) else CheckDead(n))
  }

  /** `update(state)`: one generation. */
  function Update(s: State, rows: Pos, cols: Pos): (t: State)
    ensures |t.board| == |s.board|
    ensures t.generation == s.generation + 1
    ensures t.isRunning == s.isRunning
    ensures forall i :: 0 <= i < |s.board| ==>
      (t.board[i] == 1 <==>
        match LiveNeighbourCount(s.board, rows, cols, i)
        case Some(n) => Lives(s.board[i], n)
        case None => false)
  {
    State(NextBoard(s.board, rows, cols), s.generation + 1, s.isRunning)
  }

  /** The set of board indices a cell's new value may read. */
  function ReadSet(rows: Pos, cols: Pos, index: nat): set<int>
  {
    set k | 0 <= k < 8 && GetExtendedCoords(index, rows, cols).Values()[k].Some? ::
      GetIndex(GetExtendedCoords(index, rows, cols).Values()[k].value, cols)
  }

  /** A new cell depends on nothing but the old cell and the old cells at its
      neighbours' indices: two boards that agree there (and in length) give
      the same new cell. */
  lemma NextCellLocal(b1: seq<Cell>, b2: seq<Cell>, rows: Pos, cols: Pos, index: nat)
    requires |b1| == |b2| && index < |b1|
    requires b1[index] == b2[index]
    requires forall j :: j in ReadSet(rows, cols, index) && 0 <= j < |b1| ==> b1[j] == b2[j]
    ensures NextBoard(b1, rows, cols)[index] == NextBoard(b2, rows, cols)[index]
  {
    var vs := GetExtendedCoords(index, rows, cols).Values();
    forall k | 0 <= k < |vs| ensures Term(b1, cols, vs[k]) == Term(b2, cols, vs[k]) {
      if vs[k].Some? {
        assert GetIndex(vs[k].value, cols) in ReadSet(rows, cols, index);
      }
    }
    TermSumFrame(b1, b2, cols, vs);
    CountSpec(b1, rows, cols, index);
    CountSpec(b2, rows, cols, index);
  }

  /** A board with no live cell is a fixed point of the step. */
  lemma DeadBoardIsFixed(board: seq<Cell>, rows: Pos, cols: Pos)
    requires forall j :: 0 <= j < |board| ==> board[j] == 0
    ensures NextBoard(board, rows, cols) == board
  {
    forall i | 0 <= i < |board| ensures NextBoard(board, rows, cols)[i] == board[i] {
      CountOnDeadBoard(board, rows, cols, i);
    }
  }

  /** Every cell whose down-right read falls off the end of the board dies:
      the whole bottom row, and the last cell of the row above it. */
  lemma TailCellsDie(board: seq<Cell>, rows: Pos, cols: Pos, index: nat)
    requires |board| == rows * cols && index < |board|
    requires index + cols + 1 >= |board|
    ensures NextBoard(board, rows, cols)[index] == 0
  {
    CountUndefinedIff(board, rows, cols, index);
  }

  /** In particular every cell of the bottom row is dead after a step. */
  lemma BottomRowDies(board: seq<Cell>, rows: Pos, cols: Pos, index: nat)
    requires |board| == rows * cols && index < |board|
    requires GetCoords(index, cols).y == rows - 1
    ensures NextBoard(board, rows, cols)[index] == 0
  {
    BottomRowUndefined(board, rows, cols, index);
  }

  /** Away from the last column and the last row the step is exactly Conway's
      B3/S23 rule on a bounded, non-toroidal grid. */
  lemma InteriorFollowsConway(board: seq<Cell>, rows: Pos, cols: Pos, index: nat)
    requires |board| == rows * cols && index < |board|
    requires GetCoords(index, cols).x < cols - 1 && GetCoords(index, cols).y < rows - 1
    ensures NextBoard(board, rows, cols)[index] == 1 <==>
      Lives(board[index], StrictCount(board, rows, cols, GetCoords(index, cols)))
  {
    InteriorMatchesStrict(board, rows, cols, index);
  }
}
