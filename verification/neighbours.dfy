/** The Moore neighbourhood of a cell (`getExtendedCoords`) and the sum of its
    live neighbours (`getLiveNeighbourCount`), modelled as written: only the
    left and top edges drop a neighbour, because the right and bottom guards
    `x < cols` and `y < rows` always hold for a board index. */
module Neighbours {
  import opened Wrappers
  import opened Board

  /** The eight optional neighbours, one field per key of the object literal
      returned by `getExtendedCoords`; `None` is the source's `null`. */
  datatype Neighbourhood = Neighbourhood(
    up: Option<Coord>, upL: Option<Coord>, upR: Option<Coord>,
    down: Option<Coord>, downR: Option<Coord>, downL: Option<Coord>,
    left: Option<Coord>, right: Option<Coord>)
  {
    /** `Object.values`: the fields in the order the literal declares them. */
    function Values(): (vs: seq<Option<Coord>>)
      ensures |vs| == 8
    {
      [up, upL, upR, down, downR, downL, left, right]
    }
  }

  /** The offset `(dx, dy)` of each neighbour, in `Values()` order. */
  const Offsets: seq<(int, int)> :=
    [(0, -1), (-1, -1), (1, -1), (0, 1), (1, 1), (-1, 1), (-1, 0), (1, 0)]

  /** Position `k` of the neighbourhood of `c` under the edge rule the source
      actually enforces: a neighbour exists exactly when neither of its
      coordinates is negative. */
  function Shifted(c: Coord, k: nat): Option<Coord>
    requires k < 8
  {
    var (dx, dy) := Offsets[k];
    if c.x + dx >= 0 && c.y + dy >= 0 then Some(Coord(c.x + dx, c.y + dy)) else None
  }

  /** `getExtendedCoords(index)`, with all eight guards as written. */
  function GetExtendedCoords(index: nat, rows: Pos, cols: Pos): (n: Neighbourhood)
    ensures index < rows * cols ==>
      forall k :: 0 <= k < 8 ==> n.Values()[k] == Shifted(GetCoords(index, cols), k)
  {
    var c := GetCoords(index, cols);
    var x, y := c.x, c.y;
    assert index < rows * cols ==> y < rows by {
      if index < rows * cols && y >= rows {
        MulMonotone(rows, y, cols);
      }
    }
    Neighbourhood(
      up := if y > 0 then Some(Coord(x, y - 1)) else None,
      upL := if x > 0 && y > 0 then Some(Coord(x - 1, y - 1)) else None,
      upR := if x < cols && y > 0 then Some(Coord(x + 1, y - 1)) else None,
      down := if y < rows then Some(Coord(x, y + 1)) else None,
      downR := if x < cols && y < rows then Some(Coord(x + 1, y + 1)) else None,
      downL := if x > 0 && y < rows then Some(Coord(x - 1, y + 1)) else None,
      left := if x > 0 then Some(Coord(x - 1, y)) else None,
      right := if x < cols then Some(Coord(x + 1, y)) else None)
  }

  /** `.filter(Boolean)`: drop the `null` neighbours, keep the order. */
  function Present(vs: seq<Option<Coord>>): (cs: seq<Coord>)
    ensures |cs| <= |vs|
  {
    if |vs| == 0 then []
    else match vs[0]
      case Some(c) => [c] + Present(vs[1..])
      case None => Present(vs[1..])
  }

  /** The filter keeps exactly the non-null neighbours. */
  lemma {:induction false} PresentMembers(vs: seq<Option<Coord>>)
    ensures forall c :: c in Present(vs) <==> Some(c) in vs
  {
    if |vs| > 0 {
      PresentMembers(vs[1..]);
      assert vs == [vs[0]] + vs[1..];
    }
  }

  /** `state.board[j]`: a cell value, or `None` for the `undefined` that an
      out-of-range read produces. */
  function Lookup(board: seq<Cell>, j: int): (v: Option<nat>)
    ensures v.Some? <==> 0 <= j < |board|
    ensures v.Some? ==> v.value == board[j] && v.value <= 1
  {
    if 0 <= j < |board| then Some(board[j] as nat) else None
  }

  /** JavaScript `+` on the running sum: `NaN` (None) absorbs everything. */
  function Add(a: Option<nat>, b: Option<nat>): (r: Option<nat>)
    ensures r.Some? <==> a.Some? && b.Some?
    ensures r.Some? ==> r.value == a.value + b.value
  {
    if a.Some? && b.Some? then Some(a.value + b.value) else None
  }

  /** The `reduce` step: add the board value at each kept neighbour's index
      to the running sum, left to right. */
  function Reduce(board: seq<Cell>, cols: Pos, cs: seq<Coord>, acc: Option<nat>): Option<nat>
  {
    if |cs| == 0 then acc
    else Reduce(board, cols, cs[1..], Add(acc, Lookup(board, GetIndex(cs[0], cols))))
  }

  /** `getLiveNeighbourCount(index)`. */
  function LiveNeighbourCount(board: seq<Cell>, rows: Pos, cols: Pos, index: nat): Option<nat>
  {
    Reduce(board, cols, Present(GetExtendedCoords(index, rows, cols).Values()), Some(0))
  }
}

/** What the neighbour count means: its relation to the individual board
    reads, its bounds, its edge behaviour, and its agreement with the strict
    non-toroidal Moore count away from the right and bottom edges. */
module NeighbourFacts {
  import opened Wrappers
  import opened Board
  import opened Neighbours

  /** The contribution of one (optional) neighbour to the sum: nothing for a
      dropped neighbour, the cell value or `undefined` otherwise. */
  function Term(board: seq<Cell>, cols: Pos, o: Option<Coord>): Option<nat>
  {
    match o
    case None => Some(0)
    case Some(c) => Lookup(board, GetIndex(c, cols))
  }

  /** Every neighbour's read is inside the board. */
  predicate AllDefined(board: seq<Cell>, cols: Pos, vs: seq<Option<Coord>>)
  {
    forall k :: 0 <= k < |vs| ==> Term(board, cols, vs[k]).Some?
  }

  /** The plain sum of the defined contributions. */
  function TermSum(board: seq<Cell>, cols: Pos, vs: seq<Option<Coord>>): nat
  {
    if |vs| == 0 then 0
    else
      (match Term(board, cols, vs[0]) case Some(v) => v case None => 0)
      + TermSum(board, cols, vs[1..])
  }

  /** A sum that is already `NaN` stays `NaN`. */
  lemma {:induction false} ReduceNaN(board: seq<Cell>, cols: Pos, cs: seq<Coord>)
    ensures Reduce(board, cols, cs, None) == None
  {
    if |cs| > 0 {
      ReduceNaN(board, cols, cs[1..]);
    }
  }

  /** Filtering then reducing is `NaN` exactly when some kept neighbour reads
      outside the board, and otherwise the plain sum of the reads. */
  lemma {:induction false} ReducePresent(board: seq<Cell>, cols: Pos, vs: seq<Option<Coord>>, a: nat)
    ensures Reduce(board, cols, Present(vs), Some(a)) ==
      if AllDefined(board, cols, vs) then Some(a + TermSum(board, cols, vs)) else None
  {
    if |vs| > 0 {
      var rest := vs[1..];
      assert forall k :: 0 <= k < |rest| ==> rest[k] == vs[k + 1];
      assert AllDefined(board, cols, vs) <==>
        Term(board, cols, vs[0]).Some? && AllDefined(board, cols, rest) by {
        if Term(board, cols, vs[0]).Some? && AllDefined(board, cols, rest) {
          forall k | 0 <= k < |vs| ensures Term(board, cols, vs[k]).Some? {
            if k > 0 { assert vs[k] == rest[k - 1]; }
          }
        }
      }
      match vs[0]
      case None =>
        ReducePresent(board, cols, rest, a);
      case Some(c) =>
        var cs := [c] + Present(rest);
        assert cs[1..] == Present(rest);
        var t := Lookup(board, GetIndex(c, cols));
        if t.Some? {
          ReducePresent(board, cols, rest, a + t.value);
        } else {
          ReduceNaN(board, cols, Present(rest));
        }
    }
  }

  /** Each read contributes at most 1 and a dropped neighbour contributes 0. */
  lemma {:induction false} TermSumBound(board: seq<Cell>, cols: Pos, vs: seq<Option<Coord>>)
    ensures TermSum(board, cols, vs) <= |Present(vs)|
  {
    if |vs| > 0 {
      TermSumBound(board, cols, vs[1..]);
    }
  }

  /** On a board with no live cell, the defined reads sum to 0. */
  lemma {:induction false} TermSumDead(board: seq<Cell>, cols: Pos, vs: seq<Option<Coord>>)
    requires forall j :: 0 <= j < |board| ==> board[j] == 0
    ensures TermSum(board, cols, vs) == 0
  {
    if |vs| > 0 {
      TermSumDead(board, cols, vs[1..]);
    }
  }

  /** The neighbour count depends on the board only through the reads it
      makes. */
  lemma {:induction false} TermSumFrame(b1: seq<Cell>, b2: seq<Cell>, cols: Pos, vs: seq<Option<Coord>>)
    requires forall k :: 0 <= k < |vs| ==> Term(b1, cols, vs[k]) == Term(b2, cols, vs[k])
    ensures AllDefined(b1, cols, vs) <==> AllDefined(b2, cols, vs)
    ensures TermSum(b1, cols, vs) == TermSum(b2, cols, vs)
  {
    if |vs| > 0 {
      var rest := vs[1..];
      assert forall k :: 0 <= k < |rest| ==> rest[k] == vs[k + 1];
      TermSumFrame(b1, b2, cols, rest);
    }
  }

  /** Unfolds the count of a board cell into its per-neighbour reads. */
  lemma CountSpec(board: seq<Cell>, rows: Pos, cols: Pos, index: nat)
    ensures var vs := GetExtendedCoords(index, rows, cols).Values();
      LiveNeighbourCount(board, rows, cols, index) ==
        if AllDefined(board, cols, vs) then Some(TermSum(board, cols, vs)) else None
  {
    var vs := GetExtendedCoords(index, rows, cols).Values();
    assert LiveNeighbourCount(board, rows, cols, index) == Reduce(board, cols, Present(vs), Some(0));
    ReducePresent(board, cols, vs, 0);
  }

  /** A defined count never exceeds the number of neighbours kept, which is
      at most eight. */
  lemma CountBound(board: seq<Cell>, rows: Pos, cols: Pos, index: nat)
    ensures var n := LiveNeighbourCount(board, rows, cols, index);
      n.Some? ==> n.value <= |Present(GetExtendedCoords(index, rows, cols).Values())| <= 8
  {
    CountSpec(board, rows, cols, index);
    TermSumBound(board, cols, GetExtendedCoords(index, rows, cols).Values());
  }

  /** On a board with no live cell no count can be positive. */
  lemma CountOnDeadBoard(board: seq<Cell>, rows: Pos, cols: Pos, index: nat)
    requires forall j :: 0 <= j < |board| ==> board[j] == 0
    ensures LiveNeighbourCount(board, rows, cols, index) in {None, Some(0)}
  {
    CountSpec(board, rows, cols, index);
    TermSumDead(board, cols, GetExtendedCoords(index, rows, cols).Values());
  }

  /** Only the top edge drops the three upper neighbours and only the left
      edge drops the three left-hand ones; right-hand and lower neighbours
      always exist. */
  lemma EdgeNeighbours(index: nat, rows: Pos, cols: Pos)
    requires index < rows * cols
    ensures var c := GetCoords(index, cols);
      var n := GetExtendedCoords(index, rows, cols);
      && (n.up.None? <==> c.y == 0)
      && (n.upL.None? <==> c.x == 0 || c.y == 0)
      && (n.upR.None? <==> c.y == 0)
      && (n.left.None? <==> c.x == 0)
      && (n.downL.None? <==> c.x == 0)
      && n.down.Some? && n.downR.Some? && n.right.Some?
  {
  }

  /** The corner `(0, 0)` keeps only right, down and down-right, so its count
      is at most 3. */
  lemma CornerCount(board: seq<Cell>, rows: Pos, cols: Pos)
    ensures Present(GetExtendedCoords(0, rows, cols).Values()) ==
      [Coord(0, 1), Coord(1, 1), Coord(1, 0)]
    ensures var n := LiveNeighbourCount(board, rows, cols, 0);
      n.Some? ==> n.value <= 3
  {
    var vs := GetExtendedCoords(0, rows, cols).Values();
    assert vs == [None, None, None, Some(Coord(0, 1)), Some(Coord(1, 1)), None, None, Some(Coord(1, 0))];
    assert vs[1..] == [None, None, Some(Coord(0, 1)), Some(Coord(1, 1)), None, None, Some(Coord(1, 0))];
    assert vs[2..] == [None, Some(Coord(0, 1)), Some(Coord(1, 1)), None, None, Some(Coord(1, 0))];
    assert vs[3..] == [Some(Coord(0, 1)), Some(Coord(1, 1)), None, None, Some(Coord(1, 0))];
    assert vs[4..] == [Some(Coord(1, 1)), None, None, Some(Coord(1, 0))];
    assert vs[5..] == [None, None, Some(Coord(1, 0))];
    assert vs[6..] == [None, Some(Coord(1, 0))];
    assert vs[7..] == [Some(Coord(1, 0))];
    assert vs[8..] == [];
    CountBound(board, rows, cols, 0);
  }

  /** The index of a kept neighbour is the cell's index shifted by
      `dx + dy * cols`, and is never negative. */
  lemma NeighbourIndex(index: nat, rows: Pos, cols: Pos, k: nat)
    requires index < rows * cols && k < 8
    requires GetExtendedCoords(index, rows, cols).Values()[k].Some?
    ensures var d := GetExtendedCoords(index, rows, cols).Values()[k].value;
      GetIndex(d, cols) == index + Offsets[k].0 + Offsets[k].1 * cols
      && 0 <= GetIndex(d, cols)
  {
    assert GetExtendedCoords(index, rows, cols).Values()[k] == Shifted(GetCoords(index, cols), k);
  }

  /** The count is `NaN` exactly when the down-right neighbour, at index
      `index + cols + 1`, reads past the end of the board. */
  lemma CountUndefinedIff(board: seq<Cell>, rows: Pos, cols: Pos, index: nat)
    requires |board| == rows * cols && index < |board|
    ensures LiveNeighbourCount(board, rows, cols, index) == None <==> index + cols + 1 >= |board|
  {
    var vs := GetExtendedCoords(index, rows, cols).Values();
    CountSpec(board, rows, cols, index);
    EdgeNeighbours(index, rows, cols);
    NeighbourIndex(index, rows, cols, 4);
    if index + cols + 1 >= |board| {
      assert Term(board, cols, vs[4]).None?;
    } else {
      forall k | 0 <= k < 8 ensures Term(board, cols, vs[k]).Some? {
        if vs[k].Some? {
          NeighbourIndex(index, rows, cols, k);
          assert Offsets[k].0 + Offsets[k].1 * cols <= cols + 1 by {
            assert Offsets[k].0 <= 1 && Offsets[k].1 <= 1;
            MulMonotone(Offsets[k].1, 1, cols);
          }
        }
      }
    }
  }

  /** On the bottom row every count is `NaN`, because the cell below reads
      past the end of the board. */
  lemma BottomRowUndefined(board: seq<Cell>, rows: Pos, cols: Pos, index: nat)
    requires |board| == rows * cols && index < |board|
    requires GetCoords(index, cols).y == rows - 1
    ensures GetIndex(GetExtendedCoords(index, rows, cols).down.value, cols) >= |board|
    ensures LiveNeighbourCount(board, rows, cols, index) == None
  {
    EdgeNeighbours(index, rows, cols);
    var c := GetCoords(index, cols);
    assert GetExtendedCoords(index, rows, cols).down == Shifted(c, 3);
    assert (c.y + 1) * cols == rows * cols;
    CountUndefinedIff(board, rows, cols, index);
  }

  /** On the last column the right-hand neighbour is column 0 of the next row
      and the upper-right one is column 0 of the same row. */
  lemma RightEdgeWraps(index: nat, rows: Pos, cols: Pos)
    requires index < rows * cols
    requires GetCoords(index, cols).x == cols - 1
    ensures var c := GetCoords(index, cols);
      var n := GetExtendedCoords(index, rows, cols);
      && GetIndex(n.right.value, cols) == (c.y + 1) * cols
      && (c.y > 0 ==> GetIndex(n.upR.value, cols) == c.y * cols)
  {
  }

  /** On a two-column grid, the last-column cell at index 1 reads index 2
      twice: once as its down-left neighbour and once as its wrapped
      right-hand neighbour. */
  lemma LastColumnDoubleRead(rows: Pos)
    requires rows >= 2
    ensures var n := GetExtendedCoords(1, rows, 2);
      n.downL.Some? && n.right.Some?
      && GetIndex(n.downL.value, 2) == 2 && GetIndex(n.right.value, 2) == 2
  {
    assert GetCoords(1, 2) == Coord(1, 0);
    EdgeNeighbours(1, rows, 2);
    RightEdgeWraps(1, rows, 2);
    NeighbourIndex(1, rows, 2, 5);
  }

  /** The value of `d` under the strict rule: an off-grid position is dead. */
  function LiveAt(board: seq<Cell>, rows: Pos, cols: Pos, d: Coord): nat
  {
    if OnGrid(d, rows, cols) && 0 <= GetIndex(d, cols) < |board| then board[GetIndex(d, cols)] else 0
  }

  function SumLive(board: seq<Cell>, rows: Pos, cols: Pos, ds: seq<Coord>): nat
  {
    if |ds| == 0 then 0 else LiveAt(board, rows, cols, ds[0]) + SumLive(board, rows, cols, ds[1..])
  }

  /** The eight Moore positions around `c`, with no edge handling. */
  function MooreRing(c: Coord): (ds: seq<Coord>)
    ensures |ds| == 8
  {
    seq(8, k requires 0 <= k < 8 => Coord(c.x + Offsets[k].0, c.y + Offsets[k].1))
  }

  /** The live-neighbour count of a non-toroidal grid, where positions past
      any edge are permanently dead. */
  function StrictCount(board: seq<Cell>, rows: Pos, cols: Pos, c: Coord): nat
  {
    SumLive(board, rows, cols, MooreRing(c))
  }

  lemma {:induction false} TermSumMatches(board: seq<Cell>, rows: Pos, cols: Pos,
                                          vs: seq<Option<Coord>>, ds: seq<Coord>)
    requires |vs| == |ds|
    requires forall k :: 0 <= k < |vs| ==>
      Term(board, cols, vs[k]) == Some(LiveAt(board, rows, cols, ds[k]))
    ensures TermSum(board, cols, vs) == SumLive(board, rows, cols, ds)
  {
    if |vs| > 0 {
      assert forall k :: 0 <= k < |vs| - 1 ==> vs[1..][k] == vs[k + 1] && ds[1..][k] == ds[k + 1];
      TermSumMatches(board, rows, cols, vs[1..], ds[1..]);
    }
  }

  /** Away from the last column and the last row the source's count is
      defined and equals the strict non-toroidal count. */
  lemma InteriorMatchesStrict(board: seq<Cell>, rows: Pos, cols: Pos, index: nat)
    requires |board| == rows * cols && index < |board|
    requires GetCoords(index, cols).x < cols - 1 && GetCoords(index, cols).y < rows - 1
    ensures LiveNeighbourCount(board, rows, cols, index) ==
      Some(StrictCount(board, rows, cols, GetCoords(index, cols)))
  {
    var c := GetCoords(index, cols);
    var vs := GetExtendedCoords(index, rows, cols).Values();
    var ds := MooreRing(c);
    forall k | 0 <= k < 8
      ensures Term(board, cols, vs[k]) == Some(LiveAt(board, rows, cols, ds[k]))
    {
      assert vs[k] == Shifted(c, k);
      if vs[k].Some? {
        assert vs[k].value == ds[k];
        OnGridIndexInRange(ds[k], rows, cols);
      }
    }
    TermSumMatches(board, rows, cols, vs, ds);
    CountSpec(board, rows, cols, index);
  }
}
