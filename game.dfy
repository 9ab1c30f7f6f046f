/** The gameOfLife object: the board as a two-dimensional array of cell
    statuses that every operation updates in place, and the auto-play
    handle. */
module Game {
  import opened Life
  import opened Pattern

  datatype Option<T> = None | Some(value: T)

  /** The generation a sequence of coin flips describes: draws[y][x] true
      stands for Math.random() < .5, that is 'alive'. */
  function Seeded(draws: seq<seq<bool>>, w: nat, h: nat): (r: Grid)
    requires IsGrid(draws, w, h)
    ensures IsGrid(r, w, h)
    ensures forall x, y :: 0 <= x < w && 0 <= y < h ==> (r[y][x] == Alive <==> draws[y][x])
  {
    seq(h, y requires 0 <= y < h => seq(w, x requires 0 <= x < w => if draws[y][x] then Alive else Dead))
  }

  class GameOfLife {
    const width: nat
    const height: nat
    /** cells[x, y] is the data-status of the table cell whose id is "x-y". */
    const cells: array2<Status>
    /** stepInterval: None while idle (null), the recurring timer's handle while auto-playing. */
    var stepInterval: Option<nat>
    /** The recurring timers the host runs for this game. */
    var timers: set<nat>
    /** The handle the host's setInterval hands out next; handles are positive. */
    var nextHandle: nat

    /** The board exists and has the game's dimensions. */
    predicate BoardShape() {
      0 < width && 0 < height && cells.Length0 == width && cells.Length1 == height
    }

    /** The auto-play handle and the host's timers agree: at most one
        recurring timer runs, and it is the one stepInterval holds. */
    ghost predicate Valid()
      reads this
    {
      && BoardShape()
      && timers == (if stepInterval.Some? then {stepInterval.value} else {})
      && 0 < nextHandle
      && (forall t :: t in timers ==> 0 < t < nextHandle)
    }

    /** The current generation, read off the array. */
    ghost function Board(): (g: Grid)
      reads cells
      requires BoardShape()
      ensures IsGrid(g, width, height)
    {
      seq(height, y requires 0 <= y < height reads cells =>
        seq(width, x requires 0 <= x < width reads cells => cells[x, y]))
    }

    /** createAndShowBoard: a w-by-h board of dead cells, auto-play idle. */
    constructor (w: nat, h: nat)
      requires 0 < w && 0 < h
      ensures Valid() && fresh(cells)
      ensures width == w && height == h
      ensures Board() == Blank(w, h)
      ensures stepInterval == None && timers == {}
    {
      width, height := w, h;
      cells := new Status[w, h]((x, y) => Dead);
      stepInterval, timers, nextHandle := None, {}, 1;
      new;
      GridExt(Board(), Blank(w, h), w, h);
    }

    /** gameUtilities.toggleStatus on cell (x, y). */
    method ToggleStatus(x: int, y: int)
      requires BoardShape() && InBounds(width, height, (x, y))
      modifies cells
      ensures Board() == ToggleAt(old(Board()), width, height, (x, y))
    {
      if cells[x, y] == Alive {
        cells[x, y] := Dead;
      } else {
        cells[x, y] := Alive;
      }
      ToggleAtCells(old(Board()), width, height, (x, y));
      GridExt(Board(), ToggleAt(old(Board()), width, height, (x, y)), width, height);
    }

    /** gameUtilities.setStatus on cell (x, y). */
    method SetStatus(x: int, y: int, status: Status)
      requires BoardShape() && InBounds(width, height, (x, y))
      modifies cells
      ensures Board() == SetAt(old(Board()), width, height, (x, y), status)
      ensures cells[x, y] == status
      ensures forall a, b :: 0 <= a < width && 0 <= b < height && (a, b) != (x, y) ==> cells[a, b] == old(cells[a, b])
    {
      cells[x, y] := status;
      SetAtCells(old(Board()), width, height, (x, y), status);
      GridExt(Board(), SetAt(old(Board()), width, height, (x, y), status), width, height);
    }

    /** gameUtilities.getAmountOfAliveCells over the listed cells of the array. */
    function AliveAmong(cs: seq<Coord>): (n: nat)
      reads cells
      requires BoardShape() && AllInBounds(width, height, cs)
      ensures n == AliveCount(Board(), cs)
    {
      if cs == [] then 0
      else
        assert cs[0] in cs && forall c :: c in cs[1..] ==> c in cs;
        (if cells[cs[0].0, cs[0].1] == Alive then 1 else 0) + AliveAmong(cs[1..])
    }

    /** The forEachCell callback of step on cell (x, y): counts the live
        neighbours and appends the cell when it must change state. */
    method VisitCell(x: int, y: int, toggles: seq<Coord>) returns (toggles': seq<Coord>)
      requires BoardShape() && InBounds(width, height, (x, y))
      ensures toggles' == toggles + (if Decisions(Board(), width, height)[y][x] then [(x, y)] else [])
    {
      DecisionAt(Board(), width, height, x, y);
      toggles' := toggles;
      NeighborsMembers(width, height, x, y);
      var amountOfLiveNeighbors := AliveAmong(Neighbors(width, height, x, y));
      MustToggleBranches(Board(), width, height, x, y, amountOfLiveNeighbors);
      if cells[x, y] == Alive {
        if amountOfLiveNeighbors > 3 || amountOfLiveNeighbors < 2 {
          toggles' := toggles' + [(x, y)];
        }
      } else {
        if amountOfLiveNeighbors == 3 {
          toggles' := toggles' + [(x, y)];
        }
      }
    }

    /** forEachCell over row y during step's first pass. */
    method CollectRow(y: int, toggles: seq<Coord>) returns (toggles': seq<Coord>)
      requires BoardShape() && 0 <= y < height
      ensures toggles' == toggles + RowToggles(Decisions(Board(), width, height), width, height, y, width)
    {
      ghost var d := Decisions(Board(), width, height);
      toggles' := toggles;
      var x := 0;
      while x < width
        invariant 0 <= x <= width
        invariant toggles' == toggles + RowToggles(d, width, height, y, x)
      {
        ghost var t := if d[y][x] then [(x, y)] else [];
        toggles' := VisitCell(x, y, toggles');
        ConcatAssoc(toggles, RowToggles(d, width, height, y, x), t);
        x := x + 1;
      }
    }

    /** The first pass of step: visits every cell row by row and collects the
        cells to toggle, reading only the board as it was before the pass. */
    method CollectToggles() returns (toggles: seq<Coord>)
      requires BoardShape()
      ensures toggles == Toggles(Board(), width, height)
    {
      toggles := [];
      var y := 0;
      while y < height
        invariant 0 <= y <= height
        invariant toggles == TogglesUpTo(Decisions(Board(), width, height), width, height, y)
      {
        toggles := CollectRow(y, toggles);
        y := y + 1;
      }
    }

    /** The second pass of step: toggles.forEach(gameUtilities.toggleStatus). */
    method ApplyToggleList(toggles: seq<Coord>)
      requires BoardShape() && AllInBounds(width, height, toggles)
      modifies cells
      ensures Board() == ApplyToggles(old(Board()), width, height, toggles)
    {
      ghost var g := Board();
      for i := 0 to |toggles|
        invariant AllInBounds(width, height, toggles[..i])
        invariant Board() == ApplyToggles(g, width, height, toggles[..i])
      {
        var c := toggles[i];
        ApplyTogglesSnoc(g, width, height, toggles[..i], c);
        ToggleStatus(c.0, c.1);
        assert toggles[..i + 1] == toggles[..i] + [c];
      }
      assert toggles[..|toggles|] == toggles;
    }

    /** step: collect every flip against the current generation, then apply
        them all; the new board is the next generation of the old one. */
    method Step()
      requires BoardShape()
      modifies cells
      ensures Board() == ApplyToggles(old(Board()), width, height, Toggles(old(Board()), width, height))
      ensures Board() == NextGen(old(Board()), width, height)
    {
      var toggles := CollectToggles();
      ApplyToggleList(toggles);
      StepIsNextGen(old(Board()), width, height);
    }

    /** stop: cancel the recurring timer if there is one. */
    method Stop()
      requires Valid()
      modifies this
      ensures Valid()
      ensures stepInterval == None && timers == {} && nextHandle == old(nextHandle)
      ensures old(stepInterval) == None ==> timers == old(timers)
    {
      if stepInterval.Some? {
        // clearInterval(this.stepInterval)
        timers := timers - {stepInterval.value};
        stepInterval := None;
      }
    }

    /** enableAutoPlay: start one recurring timer when idle, stop when running. */
    method EnableAutoPlay()
      requires Valid()
      modifies this
      ensures Valid()
      ensures |timers| <= 1
      ensures old(stepInterval) == None ==>
        && stepInterval == Some(old(nextHandle))
        && old(nextHandle) !in old(timers)
        && timers == old(timers) + {old(nextHandle)}
        && nextHandle == old(nextHandle) + 1
      ensures old(stepInterval) != None ==> stepInterval == None && timers == {} && nextHandle == old(nextHandle)
    {
      if stepInterval == None {
        // this.stepInterval = setInterval(this.step.bind(this), 100)
        var handle := nextHandle;
        nextHandle := nextHandle + 1;
        timers := timers + {handle};
        stepInterval := Some(handle);
      } else {
        Stop();
      }
    }

    /** clearBoard: stop auto-play, then forEachCell set 'dead'. */
    method ClearBoard()
      requires Valid()
      modifies this, cells
      ensures Valid()
      ensures Board() == Blank(width, height)
      ensures stepInterval == None && timers == {} && nextHandle == old(nextHandle)
    {
      Stop();
      var y := 0;
      while y < height
        modifies cells
        invariant 0 <= y <= height
        invariant forall a, b :: 0 <= a < width && 0 <= b < y ==> cells[a, b] == Dead
      {
        var x := 0;
        while x < width
          modifies cells
          invariant 0 <= x <= width
          invariant forall a, b :: 0 <= a < width && 0 <= b < y ==> cells[a, b] == Dead
          invariant forall a :: 0 <= a < x ==> cells[a, y] == Dead
        {
          SetStatus(x, y, Dead);
          x := x + 1;
        }
        y := y + 1;
      }
      GridExt(Board(), Blank(width, height), width, height);
    }

    /** randomizeBoard with the coin flips supplied: forEachCell sets cell
        (x, y) 'alive' when draws[y][x] holds and 'dead' otherwise. */
    method RandomizeBoard(draws: seq<seq<bool>>)
      requires BoardShape() && IsGrid(draws, width, height)
      modifies cells
      ensures Board() == Seeded(draws, width, height)
    {
      var y := 0;
      while y < height
        invariant 0 <= y <= height
        invariant forall a, b :: 0 <= a < width && 0 <= b < y ==> (cells[a, b] == Alive <==> draws[b][a])
      {
        var x := 0;
        while x < width
          invariant 0 <= x <= width
          invariant forall a, b :: 0 <= a < width && 0 <= b < y ==> (cells[a, b] == Alive <==> draws[b][a])
          invariant forall a :: 0 <= a < x ==> (cells[a, y] == Alive <==> draws[y][a])
        {
          SetStatus(x, y, if draws[y][x] then Alive else Dead);
          x := x + 1;
        }
        y := y + 1;
      }
      GridExt(Board(), Seeded(draws, width, height), width, height);
    }

    /** The inner forEach of parseAndPlaceCellsFile: every 'O' of one body
        row set alive on board row sy, starting at column sx. At an 'O' with
        no column under it the cell lookup yields null and setting its status
        throws; ok reports whether the row was read to its end. */
    method PlaceRow(cellRow: string, sx: int, sy: int) returns (ok: bool)
      requires BoardShape() && 0 <= sy < height
      modifies cells
      ensures ok <==> RowFits(cellRow, sx, width)
      ensures ok ==> Board() == OverlayRow(old(Board()), width, height, cellRow, sx, sy)
      ensures !ok ==> Board() == OverlayRow(old(Board()), width, height, cellRow[..RowReach(cellRow, sx, width)], sx, sy)
    {
      ghost var g := Board();
      assert cellRow[..0] == "";
      for indexInRow := 0 to |cellRow|
        invariant RowFits(cellRow[..indexInRow], sx, width)
        invariant Board() == OverlayRow(g, width, height, cellRow[..indexInRow], sx, sy)
      {
        if cellRow[indexInRow] == 'O' {
          if !(0 <= sx + indexInRow < width) {
            assert Misses(cellRow, sx, width, indexInRow);
            RowReachAt(cellRow, sx, width, indexInRow);
            return false;
          }
        }
        OverlayRowStep(g, width, height, cellRow, sx, sy, indexInRow);
        if cellRow[indexInRow] == 'O' {
          SetStatus(sx + indexInRow, sy, Alive);
        }
        RowFitsExtend(cellRow, sx, width, indexInRow);
      }
      assert cellRow[..|cellRow|] == cellRow;
      return true;
    }

    /** cellRows.forEach of parseAndPlaceCellsFile: places each row on the
        board row below the previous one, starting at row sy, until a row
        throws; ok reports whether every row was placed. */
    method PlaceRows(cellRows: seq<string>, sx: int, sy: int) returns (ok: bool)
      requires BoardShape() && 0 <= sy && sy + |cellRows| <= height
      modifies cells
      ensures ok <==> MarksFit(cellRows, sx, width)
      ensures Board() == Overlay(old(Board()), width, height, Reached(cellRows, sx, width), sx, sy)
    {
      ghost var g := Board();
      assert cellRows[..0] == [];
      var startingYCell := sy;
      var r := 0;
      while r < |cellRows|
        invariant 0 <= r <= |cellRows|
        invariant startingYCell == sy + r
        invariant MarksFit(cellRows[..r], sx, width)
        invariant Board() == Overlay(g, width, height, cellRows[..r], sx, sy)
      {
        var rowPlaced := PlaceRow(cellRows[r], sx, startingYCell);
        if !rowPlaced {
          PlaceCutRow(g, width, height, cellRows, sx, sy, r);
          return false;
        }
        PlaceNextRow(g, width, height, cellRows, sx, sy, r);
        MarksFitExtend(cellRows, sx, width, r);
        startingYCell := startingYCell + 1;
        r := r + 1;
      }
      PlaceAllRows(g, width, height, cellRows, sx, sy);
      assert cellRows[..|cellRows|] == cellRows;
      return true;
    }

    /** parseAndPlaceCellsFile: drop the first two lines, size the shape by
        its first row and its row count, return early when it does not fit,
        otherwise set every 'O' alive, centred on the board, until one falls
        off it. */
    method ParseAndPlaceCellsFile(fileStr: string) returns (outcome: Outcome)
      requires BoardShape()
      modifies cells
      ensures outcome == Classify(fileStr, width, height)
      ensures Board() == Load(old(Board()), width, height, fileStr)
    {
      var cellRows := BodyRows(fileStr);
      if cellRows == [] {
        // cellRows[0].length throws before any cell is touched
        return NoBodyRow;
      }
      var shapeWidth := |cellRows[0]|;
      var shapeHeight := |cellRows|;
      if shapeWidth > width || shapeHeight > height {
        return TooLarge;
      }
      var startingXCell := width / 2 - shapeWidth / 2;
      var startingYCell := height / 2 - shapeHeight / 2;
      assert startingXCell == Start(width, ShapeWidth(cellRows));
      assert startingYCell == Start(height, shapeHeight);
      RowsFit(height, shapeHeight, 0);
      RowsFit(height, shapeHeight, shapeHeight - 1);
      var placedAll := PlaceRows(cellRows, startingXCell, startingYCell);
      if !placedAll {
        // the TypeError thrown at the first 'O' off the board
        return OffBoard;
      }
      return Placed;
    }
  }
}
