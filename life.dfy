/** The rule of the game on plain values: cell states, the Moore neighbourhood
    of a cell on a bounded board, the live-neighbour count, the per-cell rule,
    the list of cells one full pass decides to flip, and what flipping them
    does to a generation. */
module Life {

  /** The board game.js builds: 60 columns, 30 rows. */
  const BoardWidth: nat := 60
  const BoardHeight: nat := 30

  /** A cell's `data-status`: game.js stores the strings 'alive' and 'dead'. */
  datatype Status = Alive | Dead

  /** A cell address (x, y): column x, row y. */
  type Coord = (int, int)

  /** A generation, row by row as the board's table is built: g[y][x]. */
  type Grid = seq<seq<Status>>

  /** gameUtilities.toggleStatus on the status itself: alive becomes dead,
      anything else becomes alive. */
  function Toggle(s: Status): (r: Status)
    ensures r != s
  {
    if s == Alive then Dead else Alive
  }

  lemma ToggleTwice(s: Status)
    ensures Toggle(Toggle(s)) == s
  {
  }

  predicate IsGrid<T>(g: seq<seq<T>>, w: int, h: int) {
    |g| == h && forall y :: 0 <= y < h ==> |g[y]| == w
  }

  /** The cell exists on a w-by-h board: there is no wrap-around. */
  predicate InBounds(w: int, h: int, c: Coord) {
    0 <= c.0 < w && 0 <= c.1 < h
  }

  predicate AllInBounds(w: int, h: int, cs: seq<Coord>) {
    forall c :: c in cs ==> InBounds(w, h, c)
  }

  /** The state of an existing cell. */
  function At(g: Grid, c: Coord): Status
    requires 0 <= c.1 < |g| && 0 <= c.0 < |g[c.1]|
  {
    g[c.1][c.0]
  }

  /** c is one of the eight cells around (x, y). */
  predicate Adjacent(x: int, y: int, c: Coord) {
    c != (x, y) && -1 <= c.0 - x <= 1 && -1 <= c.1 - y <= 1
  }

  /** The eight addresses getNeighbors pushes, in the order it pushes them:
      same row, the row above, the row below. */
  function Candidates(x: int, y: int): (r: seq<Coord>)
    ensures |r| == 8
    ensures forall c :: c in r <==> Adjacent(x, y, c)
  {
    [(x - 1, y), (x + 1, y),
     (x - 1, y - 1), (x + 1, y - 1), (x, y - 1),
     (x - 1, y + 1), (x + 1, y + 1), (x, y + 1)]
  }

  /** The filter that drops the addresses for which no cell exists,
      keeping the others in order. */
  function KeepInBounds(w: int, h: int, cs: seq<Coord>): (r: seq<Coord>)
    ensures |r| <= |cs|
  {
    if cs == [] then []
    else (if InBounds(w, h, cs[0]) then [cs[0]] else []) + KeepInBounds(w, h, cs[1..])
  }

  /** The filter keeps exactly the listed addresses that exist. */
  lemma {:induction false} KeepInBoundsMembers(w: int, h: int, cs: seq<Coord>)
    ensures forall c :: c in KeepInBounds(w, h, cs) <==> c in cs && InBounds(w, h, c)
  {
    if cs != [] {
      KeepInBoundsMembers(w, h, cs[1..]);
      assert cs == [cs[0]] + cs[1..];
    }
  }

  /** gameUtilities.getNeighbors on coordinates. */
  function Neighbors(w: int, h: int, x: int, y: int): seq<Coord> {
    KeepInBounds(w, h, Candidates(x, y))
  }

  /** The neighbours are exactly the existing cells around (x, y). */
  lemma NeighborsMembers(w: int, h: int, x: int, y: int)
    ensures forall c :: c in Neighbors(w, h, x, y) <==> InBounds(w, h, c) && Adjacent(x, y, c)
  {
    KeepInBoundsMembers(w, h, Candidates(x, y));
  }

  predicate Distinct<T(==)>(s: seq<T>) {
    forall i, j :: 0 <= i < j < |s| ==> s[i] != s[j]
  }

  lemma {:induction false} KeepInBoundsDistinct(w: int, h: int, cs: seq<Coord>)
    requires Distinct(cs)
    ensures Distinct(KeepInBounds(w, h, cs))
  {
    if cs != [] {
      assert Distinct(cs[1..]) by {
        forall i, j | 0 <= i < j < |cs[1..]| ensures cs[1..][i] != cs[1..][j] {
          assert cs[1..][i] == cs[i + 1] && cs[1..][j] == cs[j + 1];
        }
      }
      KeepInBoundsDistinct(w, h, cs[1..]);
      KeepInBoundsMembers(w, h, cs[1..]);
      assert cs[0] !in cs[1..] by {
        forall k | 0 <= k < |cs[1..]| ensures cs[1..][k] != cs[0] {
          assert cs[1..][k] == cs[k + 1];
        }
      }
    }
  }

  /** No cell is listed twice among the neighbours. */
  lemma NeighborsDistinct(w: int, h: int, x: int, y: int)
    ensures Distinct(Neighbors(w, h, x, y))
  {
    KeepInBoundsDistinct(w, h, Candidates(x, y));
  }

  function Ind(b: bool): nat { if b then 1 else 0 }

  /** For 0 <= v < n: how many of v - 1, v, v + 1 lie in [0, n). */
  function Span(v: int, n: int): nat {
    1 + Ind(0 <= v - 1) + Ind(v + 1 < n)
  }

  /** One unfolding of the filter. */
  lemma KeepInBoundsHead(w: int, h: int, cs: seq<Coord>)
    requires cs != []
    ensures |KeepInBounds(w, h, cs)| == Ind(InBounds(w, h, cs[0])) + |KeepInBounds(w, h, cs[1..])|
  {
  }

  /** The filter over eight pushed addresses keeps one entry per existing cell. */
  lemma KeepInBoundsLength8(w: int, h: int, c0: Coord, c1: Coord, c2: Coord, c3: Coord,
                            c4: Coord, c5: Coord, c6: Coord, c7: Coord)
    ensures |KeepInBounds(w, h, [c0, c1, c2, c3, c4, c5, c6, c7])|
      == Ind(InBounds(w, h, c0)) + Ind(InBounds(w, h, c1)) + Ind(InBounds(w, h, c2))
       + Ind(InBounds(w, h, c3)) + Ind(InBounds(w, h, c4)) + Ind(InBounds(w, h, c5))
       + Ind(InBounds(w, h, c6)) + Ind(InBounds(w, h, c7))
  {
    var s := [c0, c1, c2, c3, c4, c5, c6, c7];
    assert s[1..] == [c1, c2, c3, c4, c5, c6, c7];
    assert [c1, c2, c3, c4, c5, c6, c7][1..] == [c2, c3, c4, c5, c6, c7];
    assert [c2, c3, c4, c5, c6, c7][1..] == [c3, c4, c5, c6, c7];
    assert [c3, c4, c5, c6, c7][1..] == [c4, c5, c6, c7];
    assert [c4, c5, c6, c7][1..] == [c5, c6, c7];
    assert [c5, c6, c7][1..] == [c6, c7];
    assert [c6, c7][1..] == [c7];
    assert [c7][1..] == [];
    KeepInBoundsHead(w, h, s);
    KeepInBoundsHead(w, h, [c1, c2, c3, c4, c5, c6, c7]);
    KeepInBoundsHead(w, h, [c2, c3, c4, c5, c6, c7]);
    KeepInBoundsHead(w, h, [c3, c4, c5, c6, c7]);
    KeepInBoundsHead(w, h, [c4, c5, c6, c7]);
    KeepInBoundsHead(w, h, [c5, c6, c7]);
    KeepInBoundsHead(w, h, [c6, c7]);
    KeepInBoundsHead(w, h, [c7]);
  }

  /** The neighbour list has one entry per existing cell of the 3-by-3 block
      around an existing cell, minus the cell itself. */
  lemma NeighborCount(w: int, h: int, x: int, y: int)
    requires InBounds(w, h, (x, y))
    ensures |Neighbors(w, h, x, y)| == Span(x, w) * Span(y, h) - 1
  {
    KeepInBoundsLength8(w, h, (x - 1, y), (x + 1, y), (x - 1, y - 1), (x + 1, y - 1), (x, y - 1),
                        (x - 1, y + 1), (x + 1, y + 1), (x, y + 1));
    SpanProduct(0 <= x - 1, x + 1 < w, 0 <= y - 1, y + 1 < h);
  }

  lemma SpanProduct(l: bool, r: bool, u: bool, d: bool)
    ensures (1 + Ind(l) + Ind(r)) * (1 + Ind(u) + Ind(d)) - 1
      == Ind(l) + Ind(r) + Ind(l && u) + Ind(r && u) + Ind(u) + Ind(l && d) + Ind(r && d) + Ind(d)
  {
    if l { if r { } else { } } else { if r { } else { } }
  }

  predicate OnBorder(v: int, n: int) { v == 0 || v == n - 1 }

  predicate IsCorner(w: int, h: int, x: int, y: int) { OnBorder(x, w) && OnBorder(y, h) }

  predicate IsEdge(w: int, h: int, x: int, y: int) { OnBorder(x, w) != OnBorder(y, h) }

  predicate IsInterior(w: int, h: int, x: int, y: int) { !OnBorder(x, w) && !OnBorder(y, h) }

  /** On a board at least two cells wide and high (the page's is 60 by 30),
      a corner cell has 3 neighbours, an edge cell 5 and an interior cell 8. */
  lemma NeighborCountByPosition(w: int, h: int, x: int, y: int)
    requires 2 <= w && 2 <= h && InBounds(w, h, (x, y))
    ensures IsCorner(w, h, x, y) ==> |Neighbors(w, h, x, y)| == 3
    ensures IsEdge(w, h, x, y) ==> |Neighbors(w, h, x, y)| == 5
    ensures IsInterior(w, h, x, y) ==> |Neighbors(w, h, x, y)| == 8
  {
    NeighborCount(w, h, x, y);
    assert Span(x, w) == if OnBorder(x, w) then 2 else 3;
    assert Span(y, h) == if OnBorder(y, h) then 2 else 3;
  }

  /** gameUtilities.getAmountOfAliveCells: how many of the listed cells are alive. */
  function AliveCount(g: Grid, cs: seq<Coord>): (n: nat)
    requires forall c :: c in cs ==> 0 <= c.1 < |g| && 0 <= c.0 < |g[c.1]|
    ensures n <= |cs|
  {
    if cs == [] then 0
    else (if At(g, cs[0]) == Alive then 1 else 0) + AliveCount(g, cs[1..])
  }

  /** None of the listed cells is alive exactly when the count is 0, all of
      them exactly when it is the list's length. */
  lemma {:induction false} AliveCountExtremes(g: Grid, cs: seq<Coord>)
    requires forall c :: c in cs ==> 0 <= c.1 < |g| && 0 <= c.0 < |g[c.1]|
    ensures AliveCount(g, cs) == 0 <==> forall c :: c in cs ==> At(g, c) == Dead
    ensures AliveCount(g, cs) == |cs| <==> forall c :: c in cs ==> At(g, c) == Alive
  {
    if cs != [] {
      assert forall c :: c in cs[1..] ==> c in cs;
      AliveCountExtremes(g, cs[1..]);
      assert cs == [cs[0]] + cs[1..];
    }
  }

  /** The live cells among the listed ones, as a set. */
  function LiveAmong(g: Grid, cs: seq<Coord>): set<Coord>
    requires forall c :: c in cs ==> 0 <= c.1 < |g| && 0 <= c.0 < |g[c.1]|
  {
    set c | c in cs && At(g, c) == Alive
  }

  /** Without repetitions in the list, the count is the number of distinct
      live cells listed. */
  lemma {:induction false} AliveCountCardinality(g: Grid, cs: seq<Coord>)
    requires forall c :: c in cs ==> 0 <= c.1 < |g| && 0 <= c.0 < |g[c.1]|
    requires Distinct(cs)
    ensures AliveCount(g, cs) == |LiveAmong(g, cs)|
  {
    if cs != [] {
      DistinctTail(cs);
      LiveAmongCons(g, cs);
      AliveCountCardinality(g, cs[1..]);
    }
  }

  /** The tail of a list without repetitions has none and lacks the head. */
  lemma DistinctTail<T>(s: seq<T>)
    requires s != [] && Distinct(s)
    ensures Distinct(s[1..]) && s[0] !in s[1..]
  {
    var rest := s[1..];
    forall i, j | 0 <= i < j < |rest| ensures rest[i] != rest[j] {
      assert rest[i] == s[i + 1] && rest[j] == s[j + 1];
    }
    forall k | 0 <= k < |rest| ensures rest[k] != s[0] {
      assert rest[k] == s[k + 1];
    }
  }

  /** The live cells of a list are its head, when alive, and those of its tail. */
  lemma LiveAmongCons(g: Grid, cs: seq<Coord>)
    requires forall c :: c in cs ==> 0 <= c.1 < |g| && 0 <= c.0 < |g[c.1]|
    requires cs != []
    ensures forall c :: c in cs[1..] ==> 0 <= c.1 < |g| && 0 <= c.0 < |g[c.1]|
    ensures LiveAmong(g, cs) == (if At(g, cs[0]) == Alive then {cs[0]} else {}) + LiveAmong(g, cs[1..])
  {
    assert forall c :: c in cs[1..] ==> c in cs;
    assert cs == [cs[0]] + cs[1..];
  }

  /** The live cells of the 3-by-3 block around (x, y) that exist, the cell
      itself excluded. */
  function LiveAround(g: Grid, w: int, h: int, x: int, y: int): set<Coord>
    requires IsGrid(g, w, h)
  {
    set a, b | x - 1 <= a <= x + 1 && y - 1 <= b <= y + 1 && (a, b) != (x, y)
      && InBounds(w, h, (a, b)) && g[b][a] == Alive :: (a, b)
  }

  lemma InLiveAround(g: Grid, w: int, h: int, x: int, y: int, c: Coord)
    requires IsGrid(g, w, h)
    ensures c in LiveAround(g, w, h, x, y) <==> Adjacent(x, y, c) && InBounds(w, h, c) && g[c.1][c.0] == Alive
  {
    if Adjacent(x, y, c) && InBounds(w, h, c) && g[c.1][c.0] == Alive {
      var a, b := c.0, c.1;
      assert (a, b) == c;
    }
  }

  /** The live-neighbour count step computes for cell (x, y). */
  function LiveNeighbors(g: Grid, w: int, h: int, x: int, y: int): nat
    requires IsGrid(g, w, h)
  {
    NeighborsMembers(w, h, x, y);
    AliveCount(g, Neighbors(w, h, x, y))
  }

  /** getAmountOfAliveCells(getNeighbors(cell)) counts every live cell
      around (x, y) once. */
  lemma LiveNeighborsCount(g: Grid, w: int, h: int, x: int, y: int)
    requires IsGrid(g, w, h)
    ensures LiveNeighbors(g, w, h, x, y) == |LiveAround(g, w, h, x, y)|
  {
    var ns := Neighbors(w, h, x, y);
    NeighborsMembers(w, h, x, y);
    NeighborsDistinct(w, h, x, y);
    AliveCountCardinality(g, ns);
    forall c ensures c in LiveAmong(g, ns) <==> c in LiveAround(g, w, h, x, y) {
      InLiveAround(g, w, h, x, y, c);
    }
    assert LiveAmong(g, ns) == LiveAround(g, w, h, x, y);
  }

  /** Whether step puts (x, y) on its toggle list: a live cell with more than
      three or fewer than two live neighbours, or a dead cell with exactly three. */
  predicate MustToggle(g: Grid, w: int, h: int, x: int, y: int)
    requires IsGrid(g, w, h) && InBounds(w, h, (x, y))
  {
    var n := LiveNeighbors(g, w, h, x, y);
    if At(g, (x, y)) == Alive then n > 3 || n < 2 else n == 3
  }

  /** The rule as step's nested conditionals read it. */
  lemma MustToggleBranches(g: Grid, w: int, h: int, x: int, y: int, n: nat)
    requires IsGrid(g, w, h) && InBounds(w, h, (x, y))
    requires n == LiveNeighbors(g, w, h, x, y)
    ensures MustToggle(g, w, h, x, y) <==>
      if g[y][x] == Alive then n > 3 || n < 2 else n == 3
  {
  }

  /** Conway's rule B3/S23: a cell is alive next generation when it has three
      live neighbours, or is alive now and has two. */
  predicate Conway(s: Status, n: nat) {
    n == 3 || (s == Alive && n == 2)
  }

  /** The state of (x, y) once the toggle list of g has been applied. */
  function NextState(g: Grid, w: int, h: int, x: int, y: int): (s: Status)
    requires IsGrid(g, w, h) && InBounds(w, h, (x, y))
    ensures s == Alive <==> Conway(At(g, (x, y)), LiveNeighbors(g, w, h, x, y))
  {
    if MustToggle(g, w, h, x, y) then Toggle(At(g, (x, y))) else At(g, (x, y))
  }

  /** The rule case by case: death by isolation or crowding, survival, birth,
      and a dead cell that stays dead. */
  lemma RuleCases(g: Grid, w: int, h: int, x: int, y: int)
    requires IsGrid(g, w, h) && InBounds(w, h, (x, y))
    ensures var n := LiveNeighbors(g, w, h, x, y);
      && (At(g, (x, y)) == Alive && (n < 2 || n > 3) ==> NextState(g, w, h, x, y) == Dead)
      && (At(g, (x, y)) == Alive && 2 <= n <= 3 ==> NextState(g, w, h, x, y) == Alive)
      && (At(g, (x, y)) == Dead && n == 3 ==> NextState(g, w, h, x, y) == Alive)
      && (At(g, (x, y)) == Dead && n != 3 ==> NextState(g, w, h, x, y) == Dead)
  {
  }

  /** The next generation: every cell by NextState, read from g alone. */
  function NextGen(g: Grid, w: nat, h: nat): (r: Grid)
    requires IsGrid(g, w, h)
    ensures IsGrid(r, w, h)
    ensures forall x, y :: 0 <= x < w && 0 <= y < h ==> r[y][x] == NextState(g, w, h, x, y)
  {
    seq(h, y requires 0 <= y < h => seq(w, x requires 0 <= x < w => NextState(g, w, h, x, y)))
  }

  /** Two generations of the same shape that agree on every cell are equal. */
  lemma GridExt(a: Grid, b: Grid, w: nat, h: nat)
    requires IsGrid(a, w, h) && IsGrid(b, w, h)
    requires forall x, y :: 0 <= x < w && 0 <= y < h ==> a[y][x] == b[y][x]
    ensures a == b
  {
    forall y | 0 <= y < h ensures a[y] == b[y] {
      assert forall x :: 0 <= x < w ==> a[y][x] == b[y][x];
    }
  }

  /** The first n cells of row y, left to right. */
  function RowCells(y: int, n: nat): (r: seq<Coord>)
    ensures |r| == n
  {
    if n == 0 then [] else RowCells(y, n - 1) + [(n - 1, y)]
  }

  lemma {:induction false} RowCellsMembers(y: int, n: nat)
    ensures forall c :: c in RowCells(y, n) <==> c.1 == y && 0 <= c.0 < n
  {
    if n > 0 {
      RowCellsMembers(y, n - 1);
      assert RowCells(y, n) == RowCells(y, n - 1) + [(n - 1, y)];
    }
  }

  /** The order forEachCell visits the cells of the first `rows` rows in: the
      table's cells in document order, row by row and left to right. */
  function CellOrder(w: nat, rows: nat): seq<Coord> {
    if rows == 0 then [] else CellOrder(w, rows - 1) + RowCells(rows - 1, w)
  }

  lemma {:induction false} CellOrderMembers(w: nat, rows: nat)
    ensures forall c :: c in CellOrder(w, rows) <==> InBounds(w, rows, c)
  {
    if rows > 0 {
      CellOrderMembers(w, rows - 1);
      RowCellsMembers(rows - 1, w);
      assert CellOrder(w, rows) == CellOrder(w, rows - 1) + RowCells(rows - 1, w);
    }
  }

  /** forEachCell visits every cell of the board, each exactly once. */
  lemma CellOrderVisitsEachOnce(w: nat, rows: nat)
    ensures forall c :: c in CellOrder(w, rows) <==> InBounds(w, rows, c)
    ensures Distinct(CellOrder(w, rows))
  {
    CellOrderMembers(w, rows);
    CellOrderInVisitOrder(w, rows);
    InVisitOrderDistinct(CellOrder(w, rows));
  }

  /** Cell a comes before cell b in document order: an earlier row, or the
      same row and an earlier column. */
  predicate VisitedBefore(a: Coord, b: Coord) {
    a.1 < b.1 || (a.1 == b.1 && a.0 < b.0)
  }

  /** The cells are listed in document order, each once. */
  predicate InVisitOrder(cs: seq<Coord>) {
    forall i, j :: 0 <= i < j < |cs| ==> VisitedBefore(cs[i], cs[j])
  }

  /** A list in document order repeats no cell. */
  lemma InVisitOrderDistinct(cs: seq<Coord>)
    requires InVisitOrder(cs)
    ensures Distinct(cs)
  {
    forall i, j | 0 <= i < j < |cs| ensures cs[i] != cs[j] {
      assert VisitedBefore(cs[i], cs[j]);
    }
  }

  /** Two lists in document order, the first entirely before the second,
      join into one. */
  lemma InVisitOrderConcat(a: seq<Coord>, b: seq<Coord>)
    requires InVisitOrder(a) && InVisitOrder(b)
    requires forall p, q :: p in a && q in b ==> VisitedBefore(p, q)
    ensures InVisitOrder(a + b)
  {
    forall i, j | 0 <= i < j < |a + b| ensures VisitedBefore((a + b)[i], (a + b)[j]) {
      if j < |a| {
        assert (a + b)[i] == a[i] && (a + b)[j] == a[j];
      } else if i >= |a| {
        assert (a + b)[i] == b[i - |a|] && (a + b)[j] == b[j - |a|];
      } else {
        assert (a + b)[i] in a && (a + b)[j] in b;
      }
    }
  }

  lemma {:induction false} RowCellsInVisitOrder(y: int, n: nat)
    ensures InVisitOrder(RowCells(y, n))
  {
    if n > 0 {
      RowCellsInVisitOrder(y, n - 1);
      RowCellsMembers(y, n - 1);
      var a := RowCells(y, n - 1);
      forall p, q | p in a && q in [(n - 1, y)] ensures VisitedBefore(p, q) {
        assert p.1 == y && p.0 < n - 1 && q == (n - 1, y);
      }
      InVisitOrderConcat(a, [(n - 1, y)]);
    }
  }

  /** forEachCell visits the cells in document order. */
  lemma {:induction false} CellOrderInVisitOrder(w: nat, rows: nat)
    ensures InVisitOrder(CellOrder(w, rows))
  {
    if rows > 0 {
      var before, row := CellOrder(w, rows - 1), RowCells(rows - 1, w);
      CellOrderInVisitOrder(w, rows - 1);
      CellOrderMembers(w, rows - 1);
      RowCellsInVisitOrder(rows - 1, w);
      RowCellsMembers(rows - 1, w);
      forall p, q | p in before && q in row ensures VisitedBefore(p, q) {
        assert p.1 < rows - 1 && q.1 == rows - 1;
      }
      InVisitOrderConcat(before, row);
    }
  }

  lemma ConcatAssoc<T>(a: seq<T>, b: seq<T>, c: seq<T>)
    ensures (a + b) + c == a + (b + c)
  {
  }

  /** Whether step puts each of the first n cells of row y on its toggle list. */
  function DecisionRow(g: Grid, w: nat, h: nat, y: int, n: nat): (r: seq<bool>)
    requires IsGrid(g, w, h) && 0 <= y < h && n <= w
    ensures |r| == n
  {
    if n == 0 then [] else DecisionRow(g, w, h, y, n - 1) + [MustToggle(g, w, h, n - 1, y)]
  }

  /** The decision rows of the first `rows` rows of the board. */
  function DecisionRows(g: Grid, w: nat, h: nat, rows: nat): (d: seq<seq<bool>>)
    requires IsGrid(g, w, h) && rows <= h
    ensures IsGrid(d, w, rows)
  {
    if rows == 0 then [] else DecisionRows(g, w, h, rows - 1) + [DecisionRow(g, w, h, rows - 1, w)]
  }

  /** For every cell, whether step puts it on its toggle list: d[y][x]. */
  function Decisions(g: Grid, w: nat, h: nat): (d: seq<seq<bool>>)
    requires IsGrid(g, w, h)
    ensures IsGrid(d, w, h)
  {
    DecisionRows(g, w, h, h)
  }

  lemma {:induction false} DecisionRowAt(g: Grid, w: nat, h: nat, y: int, n: nat, x: int)
    requires IsGrid(g, w, h) && 0 <= y < h && n <= w && 0 <= x < n
    ensures DecisionRow(g, w, h, y, n)[x] == MustToggle(g, w, h, x, y)
  {
    var before := DecisionRow(g, w, h, y, n - 1);
    assert DecisionRow(g, w, h, y, n) == before + [MustToggle(g, w, h, n - 1, y)];
    if x < n - 1 {
      assert DecisionRow(g, w, h, y, n)[x] == before[x];
      DecisionRowAt(g, w, h, y, n - 1, x);
    }
  }

  lemma {:induction false} DecisionRowsAt(g: Grid, w: nat, h: nat, rows: nat, x: int, y: int)
    requires IsGrid(g, w, h) && rows <= h && 0 <= x < w && 0 <= y < rows
    ensures DecisionRows(g, w, h, rows)[y][x] == MustToggle(g, w, h, x, y)
  {
    var upper := DecisionRows(g, w, h, rows - 1);
    assert DecisionRows(g, w, h, rows) == upper + [DecisionRow(g, w, h, rows - 1, w)];
    if y < rows - 1 {
      assert DecisionRows(g, w, h, rows)[y] == upper[y];
      DecisionRowsAt(g, w, h, rows - 1, x, y);
    } else {
      DecisionRowAt(g, w, h, y, w, x);
    }
  }

  /** Each entry of the decision grid is the rule applied to its cell. */
  lemma DecisionAt(g: Grid, w: nat, h: nat, x: int, y: int)
    requires IsGrid(g, w, h) && InBounds(w, h, (x, y))
    ensures Decisions(g, w, h)[y][x] == MustToggle(g, w, h, x, y)
  {
    DecisionRowsAt(g, w, h, h, x, y);
  }

  /** The cells of row y left of column n that are marked in d, left to right. */
  function RowToggles(d: seq<seq<bool>>, w: nat, h: nat, y: int, n: nat): seq<Coord>
    requires IsGrid(d, w, h) && 0 <= y < h && n <= w
  {
    if n == 0 then []
    else RowToggles(d, w, h, y, n - 1) + (if d[y][n - 1] then [(n - 1, y)] else [])
  }

  /** The marked cells of the first `rows` rows, row by row. */
  function TogglesUpTo(d: seq<seq<bool>>, w: nat, h: nat, rows: nat): seq<Coord>
    requires IsGrid(d, w, h) && rows <= h
  {
    if rows == 0 then [] else TogglesUpTo(d, w, h, rows - 1) + RowToggles(d, w, h, rows - 1, w)
  }

  lemma {:induction false} RowTogglesMembers(d: seq<seq<bool>>, w: nat, h: nat, y: int, n: nat)
    requires IsGrid(d, w, h) && 0 <= y < h && n <= w
    ensures forall c :: c in RowToggles(d, w, h, y, n) <==> c.1 == y && 0 <= c.0 < n && d[y][c.0]
  {
    if n > 0 {
      RowTogglesMembers(d, w, h, y, n - 1);
      var t := if d[y][n - 1] then [(n - 1, y)] else [];
      assert RowToggles(d, w, h, y, n) == RowToggles(d, w, h, y, n - 1) + t;
      assert forall c :: c in t <==> c == (n - 1, y) && d[y][n - 1];
    }
  }

  lemma {:induction false} TogglesUpToMembers(d: seq<seq<bool>>, w: nat, h: nat, rows: nat)
    requires IsGrid(d, w, h) && rows <= h
    ensures forall c :: c in TogglesUpTo(d, w, h, rows) <==>
      0 <= c.0 < w && 0 <= c.1 < rows && d[c.1][c.0]
  {
    if rows > 0 {
      var a, b := TogglesUpTo(d, w, h, rows - 1), RowToggles(d, w, h, rows - 1, w);
      TogglesUpToMembers(d, w, h, rows - 1);
      RowTogglesMembers(d, w, h, rows - 1, w);
      assert TogglesUpTo(d, w, h, rows) == a + b;
      forall c: Coord ensures c in a + b <==> 0 <= c.0 < w && 0 <= c.1 < rows && d[c.1][c.0] {
        if c.1 == rows - 1 {
          assert c !in a;
        } else {
          assert c !in b;
        }
      }
    }
  }

  lemma {:induction false} RowTogglesInVisitOrder(d: seq<seq<bool>>, w: nat, h: nat, y: int, n: nat)
    requires IsGrid(d, w, h) && 0 <= y < h && n <= w
    ensures InVisitOrder(RowToggles(d, w, h, y, n))
  {
    if n > 0 {
      RowTogglesInVisitOrder(d, w, h, y, n - 1);
      RowTogglesMembers(d, w, h, y, n - 1);
      var a, t := RowToggles(d, w, h, y, n - 1), if d[y][n - 1] then [(n - 1, y)] else [];
      forall p, q | p in a && q in t ensures VisitedBefore(p, q) {
        assert p.1 == y && p.0 < n - 1 && q == (n - 1, y);
      }
      InVisitOrderConcat(a, t);
    }
  }

  lemma {:induction false} TogglesUpToInVisitOrder(d: seq<seq<bool>>, w: nat, h: nat, rows: nat)
    requires IsGrid(d, w, h) && rows <= h
    ensures InVisitOrder(TogglesUpTo(d, w, h, rows))
  {
    if rows > 0 {
      var a, b := TogglesUpTo(d, w, h, rows - 1), RowToggles(d, w, h, rows - 1, w);
      TogglesUpToInVisitOrder(d, w, h, rows - 1);
      TogglesUpToMembers(d, w, h, rows - 1);
      RowTogglesInVisitOrder(d, w, h, rows - 1, w);
      RowTogglesMembers(d, w, h, rows - 1, w);
      forall p, q | p in a && q in b ensures VisitedBefore(p, q) {
        assert p.1 < rows - 1 && q.1 == rows - 1;
      }
      InVisitOrderConcat(a, b);
    }
  }

  lemma DecisionsMeaning(g: Grid, w: nat, h: nat)
    requires IsGrid(g, w, h)
    ensures forall x, y :: 0 <= x < w && 0 <= y < h ==> Decisions(g, w, h)[y][x] == MustToggle(g, w, h, x, y)
  {
    forall x, y | 0 <= x < w && 0 <= y < h
      ensures Decisions(g, w, h)[y][x] == MustToggle(g, w, h, x, y)
    {
      DecisionAt(g, w, h, x, y);
    }
  }

  /** The toggle list one full pass of step collects, in forEachCell's order. */
  function Toggles(g: Grid, w: nat, h: nat): (r: seq<Coord>)
    requires IsGrid(g, w, h)
    ensures AllInBounds(w, h, r)
  {
    var d := Decisions(g, w, h);
    TogglesUpToMembers(d, w, h, h);
    TogglesUpTo(d, w, h, h)
  }

  /** step toggles each cell at most once, and exactly the cells whose
      status the rule changes. */
  lemma TogglesMeaning(g: Grid, w: nat, h: nat)
    requires IsGrid(g, w, h)
    ensures Distinct(Toggles(g, w, h))
    ensures forall c :: c in Toggles(g, w, h) <==> InBounds(w, h, c) && MustToggle(g, w, h, c.0, c.1)
  {
    var d := Decisions(g, w, h);
    TogglesUpToMembers(d, w, h, h);
    DecisionsMeaning(g, w, h);
    TogglesUpToInVisitOrder(d, w, h, h);
    InVisitOrderDistinct(Toggles(g, w, h));
  }

  /** step toggles the cells in the order forEachCell visits them: row by
      row, left to right. */
  lemma TogglesInVisitOrder(g: Grid, w: nat, h: nat)
    requires IsGrid(g, w, h)
    ensures InVisitOrder(Toggles(g, w, h))
  {
    TogglesUpToInVisitOrder(Decisions(g, w, h), w, h, h);
  }

  /** The cells of cs whose entry in the decision grid d is set, in the
      order cs lists them. */
  function Flagged(d: seq<seq<bool>>, cs: seq<Coord>): seq<Coord> {
    if cs == [] then []
    else
      var c := cs[|cs| - 1];
      Flagged(d, cs[..|cs| - 1]) + (if 0 <= c.1 < |d| && 0 <= c.0 < |d[c.1]| && d[c.1][c.0] then [c] else [])
  }

  /** Filtering a concatenation filters each part. */
  lemma {:induction false} FlaggedConcat(d: seq<seq<bool>>, a: seq<Coord>, b: seq<Coord>)
    ensures Flagged(d, a + b) == Flagged(d, a) + Flagged(d, b)
    decreases |b|
  {
    if b == [] {
      assert a + b == a;
    } else {
      var front, c := b[..|b| - 1], b[|b| - 1];
      var t := if 0 <= c.1 < |d| && 0 <= c.0 < |d[c.1]| && d[c.1][c.0] then [c] else [];
      assert (a + b)[..|a + b| - 1] == a + front;
      assert (a + b)[|a + b| - 1] == c;
      FlaggedConcat(d, a, front);
      ConcatAssoc(Flagged(d, a), Flagged(d, front), t);
    }
  }

  /** One row's part of the toggle list is that row's cells, left to right,
      filtered by the decisions. */
  lemma {:induction false} RowTogglesFlagged(d: seq<seq<bool>>, w: nat, h: nat, y: int, n: nat)
    requires IsGrid(d, w, h) && 0 <= y < h && n <= w
    ensures RowToggles(d, w, h, y, n) == Flagged(d, RowCells(y, n))
  {
    if n > 0 {
      RowTogglesFlagged(d, w, h, y, n - 1);
      var cs := RowCells(y, n);
      assert cs == RowCells(y, n - 1) + [(n - 1, y)];
      assert cs[..|cs| - 1] == RowCells(y, n - 1);
    }
  }

  /** The first rows' part of the toggle list is their cells, in visiting
      order, filtered by the decisions. */
  lemma {:induction false} TogglesUpToFlagged(d: seq<seq<bool>>, w: nat, h: nat, rows: nat)
    requires IsGrid(d, w, h) && rows <= h
    ensures TogglesUpTo(d, w, h, rows) == Flagged(d, CellOrder(w, rows))
  {
    if rows > 0 {
      var above, row := CellOrder(w, rows - 1), RowCells(rows - 1, w);
      var done, last := TogglesUpTo(d, w, h, rows - 1), RowToggles(d, w, h, rows - 1, w);
      assert TogglesUpTo(d, w, h, rows) == done + last;
      assert done == Flagged(d, above) by {
        TogglesUpToFlagged(d, w, h, rows - 1);
      }
      assert last == Flagged(d, row) by {
        RowTogglesFlagged(d, w, h, rows - 1, w);
      }
      assert Flagged(d, CellOrder(w, rows)) == Flagged(d, above) + Flagged(d, row) by {
        assert CellOrder(w, rows) == above + row;
        FlaggedConcat(d, above, row);
      }
    }
  }

  /** The cells of cs that step must flip, in the order cs lists them. */
  function MustToggleIn(g: Grid, w: nat, h: nat, cs: seq<Coord>): seq<Coord>
    requires IsGrid(g, w, h)
  {
    if cs == [] then []
    else
      var c := cs[|cs| - 1];
      MustToggleIn(g, w, h, cs[..|cs| - 1]) + (if InBounds(w, h, c) && MustToggle(g, w, h, c.0, c.1) then [c] else [])
  }

  /** Filtering by the decision grid is filtering by the rule. */
  lemma {:induction false} FlaggedDecisions(g: Grid, w: nat, h: nat, cs: seq<Coord>)
    requires IsGrid(g, w, h)
    ensures Flagged(Decisions(g, w, h), cs) == MustToggleIn(g, w, h, cs)
  {
    if cs != [] {
      var d, c := Decisions(g, w, h), cs[|cs| - 1];
      FlaggedDecisions(g, w, h, cs[..|cs| - 1]);
      if InBounds(w, h, c) {
        DecisionAt(g, w, h, c.0, c.1);
      }
    }
  }

  /** The toggle list is forEachCell's visiting order with every cell the
      rule leaves alone removed. */
  lemma TogglesFollowCellOrder(g: Grid, w: nat, h: nat)
    requires IsGrid(g, w, h)
    ensures Toggles(g, w, h) == MustToggleIn(g, w, h, CellOrder(w, h))
  {
    TogglesUpToFlagged(Decisions(g, w, h), w, h, h);
    FlaggedDecisions(g, w, h, CellOrder(w, h));
  }

  /** Flips one existing cell of a generation. */
  function ToggleAt(g: Grid, w: int, h: int, c: Coord): (r: Grid)
    requires IsGrid(g, w, h) && InBounds(w, h, c)
    ensures IsGrid(r, w, h)
  {
    g[c.1 := g[c.1][c.0 := Toggle(g[c.1][c.0])]]
  }

  /** Flipping c changes cell c and no other. */
  lemma ToggleAtCell(g: Grid, w: int, h: int, c: Coord, x: int, y: int)
    requires IsGrid(g, w, h) && InBounds(w, h, c) && InBounds(w, h, (x, y))
    ensures ToggleAt(g, w, h, c)[y][x] == if (x, y) == c then Toggle(g[y][x]) else g[y][x]
  {
  }

  lemma ToggleAtCells(g: Grid, w: int, h: int, c: Coord)
    requires IsGrid(g, w, h) && InBounds(w, h, c)
    ensures forall x, y :: 0 <= x < w && 0 <= y < h ==>
      ToggleAt(g, w, h, c)[y][x] == if (x, y) == c then Toggle(g[y][x]) else g[y][x]
  {
    forall x, y | 0 <= x < w && 0 <= y < h
      ensures ToggleAt(g, w, h, c)[y][x] == if (x, y) == c then Toggle(g[y][x]) else g[y][x]
    {
      ToggleAtCell(g, w, h, c, x, y);
    }
  }

  /** Clicking a cell twice leaves the board as it was. */
  lemma ToggleAtTwice(g: Grid, w: int, h: int, c: Coord)
    requires IsGrid(g, w, h) && InBounds(w, h, c)
    ensures ToggleAt(ToggleAt(g, w, h, c), w, h, c) == g
  {
    var twice := ToggleAt(ToggleAt(g, w, h, c), w, h, c);
    forall x, y | 0 <= x < w && 0 <= y < h ensures twice[y][x] == g[y][x] {
      ToggleAtCell(g, w, h, c, x, y);
      ToggleAtCell(ToggleAt(g, w, h, c), w, h, c, x, y);
      ToggleTwice(g[y][x]);
    }
    GridExt(twice, g, w, h);
  }

  /** gameUtilities.setStatus on a generation: cell c gets state s. */
  function SetAt(g: Grid, w: int, h: int, c: Coord, s: Status): (r: Grid)
    requires IsGrid(g, w, h) && InBounds(w, h, c)
    ensures IsGrid(r, w, h)
  {
    g[c.1 := g[c.1][c.0 := s]]
  }

  /** Setting c changes cell c and no other. */
  lemma SetAtCell(g: Grid, w: int, h: int, c: Coord, s: Status, x: int, y: int)
    requires IsGrid(g, w, h) && InBounds(w, h, c) && InBounds(w, h, (x, y))
    ensures SetAt(g, w, h, c, s)[y][x] == if (x, y) == c then s else g[y][x]
  {
  }

  lemma SetAtCells(g: Grid, w: int, h: int, c: Coord, s: Status)
    requires IsGrid(g, w, h) && InBounds(w, h, c)
    ensures forall x, y :: 0 <= x < w && 0 <= y < h ==>
      SetAt(g, w, h, c, s)[y][x] == if (x, y) == c then s else g[y][x]
  {
    forall x, y | 0 <= x < w && 0 <= y < h
      ensures SetAt(g, w, h, c, s)[y][x] == if (x, y) == c then s else g[y][x]
    {
      SetAtCell(g, w, h, c, s, x, y);
    }
  }

  /** toggles.forEach(gameUtilities.toggleStatus): flip the listed cells
      one after the other, first to last. */
  function ApplyToggles(g: Grid, w: int, h: int, ts: seq<Coord>): (r: Grid)
    requires IsGrid(g, w, h) && AllInBounds(w, h, ts)
    ensures IsGrid(r, w, h)
    decreases |ts|
  {
    if ts == [] then g
    else
      assert forall c :: c in ts[1..] ==> c in ts;
      ApplyToggles(ToggleAt(g, w, h, ts[0]), w, h, ts[1..])
  }

  /** Flipping one more cell at the end of the list. */
  lemma {:induction false} ApplyTogglesSnoc(g: Grid, w: int, h: int, ts: seq<Coord>, c: Coord)
    requires IsGrid(g, w, h) && AllInBounds(w, h, ts) && InBounds(w, h, c)
    ensures AllInBounds(w, h, ts + [c])
    ensures ApplyToggles(g, w, h, ts + [c]) == ToggleAt(ApplyToggles(g, w, h, ts), w, h, c)
    decreases |ts|
  {
    if ts == [] {
      assert [] + [c] == [c];
      assert [c][1..] == [];
    } else {
      assert (ts + [c])[0] == ts[0];
      assert (ts + [c])[1..] == ts[1..] + [c];
      assert forall d :: d in ts[1..] ==> d in ts;
      ApplyTogglesSnoc(ToggleAt(g, w, h, ts[0]), w, h, ts[1..], c);
    }
  }

  /** When no cell is listed twice, a cell ends up flipped exactly when it is
      listed, whatever the order of the list. */
  lemma {:induction false} ApplyDistinctToggles(g: Grid, w: int, h: int, ts: seq<Coord>, x: int, y: int)
    requires IsGrid(g, w, h) && AllInBounds(w, h, ts) && Distinct(ts)
    requires InBounds(w, h, (x, y))
    ensures ApplyToggles(g, w, h, ts)[y][x] == if (x, y) in ts then Toggle(g[y][x]) else g[y][x]
    decreases |ts|
  {
    if ts != [] {
      var g' := ToggleAt(g, w, h, ts[0]);
      assert forall c :: c in ts[1..] ==> c in ts;
      assert Distinct(ts[1..]) by {
        forall i, j | 0 <= i < j < |ts[1..]| ensures ts[1..][i] != ts[1..][j] {
          assert ts[1..][i] == ts[i + 1] && ts[1..][j] == ts[j + 1];
        }
      }
      ApplyDistinctToggles(g', w, h, ts[1..], x, y);
      ToggleAtCell(g, w, h, ts[0], x, y);
      assert ts == [ts[0]] + ts[1..];
      if (x, y) == ts[0] {
        assert (x, y) !in ts[1..] by {
          forall k | 0 <= k < |ts[1..]| ensures ts[1..][k] != ts[0] {
            assert ts[1..][k] == ts[k + 1];
          }
        }
        ToggleTwice(g[y][x]);
      }
    }
  }

  /** The iteration order does not matter: two duplicate-free toggle lists
      naming the same cells produce the same generation. */
  lemma ToggleOrderIrrelevant(g: Grid, w: nat, h: nat, ts: seq<Coord>, us: seq<Coord>)
    requires IsGrid(g, w, h) && AllInBounds(w, h, ts) && AllInBounds(w, h, us)
    requires Distinct(ts) && Distinct(us)
    requires forall c :: c in ts <==> c in us
    ensures ApplyToggles(g, w, h, ts) == ApplyToggles(g, w, h, us)
  {
    forall x, y | 0 <= x < w && 0 <= y < h
      ensures ApplyToggles(g, w, h, ts)[y][x] == ApplyToggles(g, w, h, us)[y][x]
    {
      ApplyDistinctToggles(g, w, h, ts, x, y);
      ApplyDistinctToggles(g, w, h, us, x, y);
    }
    GridExt(ApplyToggles(g, w, h, ts), ApplyToggles(g, w, h, us), w, h);
  }

  /** Collect-then-flip computes the next generation from the current one
      alone: applying the collected toggle list yields NextGen. */
  lemma StepIsNextGen(g: Grid, w: nat, h: nat)
    requires IsGrid(g, w, h)
    ensures ApplyToggles(g, w, h, Toggles(g, w, h)) == NextGen(g, w, h)
  {
    var ts := Toggles(g, w, h);
    TogglesMeaning(g, w, h);
    forall x, y | 0 <= x < w && 0 <= y < h
      ensures ApplyToggles(g, w, h, ts)[y][x] == NextGen(g, w, h)[y][x]
    {
      ApplyDistinctToggles(g, w, h, ts, x, y);
    }
    GridExt(ApplyToggles(g, w, h, ts), NextGen(g, w, h), w, h);
  }

  /** The board with every cell dead. */
  function Blank(w: nat, h: nat): (r: Grid)
    ensures IsGrid(r, w, h)
    ensures forall x, y :: 0 <= x < w && 0 <= y < h ==> r[y][x] == Dead
  {
    seq(h, y => seq(w, x => Dead))
  }

  /** On an all-dead board every cell has no live neighbour. */
  lemma BlankHasNoLiveNeighbors(w: nat, h: nat, x: int, y: int)
    requires InBounds(w, h, (x, y))
    ensures LiveNeighbors(Blank(w, h), w, h, x, y) == 0
    ensures !MustToggle(Blank(w, h), w, h, x, y)
  {
    var g := Blank(w, h);
    var ns := Neighbors(w, h, x, y);
    NeighborsMembers(w, h, x, y);
    forall c | c in ns ensures At(g, c) == Dead {
      assert InBounds(w, h, c);
    }
    AliveCountExtremes(g, ns);
  }

  /** No spontaneous life: an all-dead board has nothing to flip and stays all dead. */
  lemma BlankIsStill(w: nat, h: nat)
    ensures Toggles(Blank(w, h), w, h) == []
    ensures NextGen(Blank(w, h), w, h) == Blank(w, h)
  {
    var g := Blank(w, h);
    var n := NextGen(g, w, h);
    forall x, y | 0 <= x < w && 0 <= y < h ensures n[y][x] == g[y][x] {
      BlankHasNoLiveNeighbors(w, h, x, y);
    }
    GridExt(n, g, w, h);
    var ts := Toggles(g, w, h);
    TogglesMeaning(g, w, h);
    if ts != [] {
      assert ts[0] in ts;
      BlankHasNoLiveNeighbors(w, h, ts[0].0, ts[0].1);
    }
  }

  // The blinker

  /** The board whose live cells are exactly the listed ones that exist. */
  function Populated(w: nat, h: nat, live: set<Coord>): (r: Grid)
    ensures IsGrid(r, w, h)
    ensures forall x, y :: 0 <= x < w && 0 <= y < h ==> (r[y][x] == Alive <==> (x, y) in live)
  {
    seq(h, y requires 0 <= y < h => seq(w, x requires 0 <= x < w => if (x, y) in live then Alive else Dead))
  }

  /** A set holding, of three distinct cells, exactly those whose flag is
      set has one element per flag set. */
  lemma {:induction false} CountOfThree(s: set<Coord>, a: Coord, b: Coord, c: Coord, pa: bool, pb: bool, pc: bool)
    requires a != b && a != c && b != c
    requires forall p :: p in s <==> (p == a && pa) || (p == b && pb) || (p == c && pc)
    ensures |s| == Ind(pa) + Ind(pb) + Ind(pc)
    decreases Ind(pa) + Ind(pb) + Ind(pc)
  {
    if pa {
      assert a in s;
      CountOfThree(s - {a}, a, b, c, false, pb, pc);
    } else if pb {
      assert b in s;
      CountOfThree(s - {b}, a, b, c, pa, false, pc);
    } else if pc {
      assert c in s;
      CountOfThree(s - {c}, a, b, c, pa, pb, false);
    } else {
      assert s == {};
    }
  }

  /** On a board whose only live cells are three distinct existing ones, a
      cell's live-neighbour count is how many of the three are adjacent to it. */
  lemma LiveNeighborsOfThree(w: nat, h: nat, x: int, y: int, a: Coord, b: Coord, c: Coord)
    requires InBounds(w, h, a) && InBounds(w, h, b) && InBounds(w, h, c)
    requires a != b && a != c && b != c
    ensures LiveNeighbors(Populated(w, h, {a, b, c}), w, h, x, y)
      == Ind(Adjacent(x, y, a)) + Ind(Adjacent(x, y, b)) + Ind(Adjacent(x, y, c))
  {
    var g := Populated(w, h, {a, b, c});
    LiveNeighborsCount(g, w, h, x, y);
    var live := LiveAround(g, w, h, x, y);
    forall p: Coord
      ensures p in live <==> (p == a && Adjacent(x, y, a)) || (p == b && Adjacent(x, y, b)) || (p == c && Adjacent(x, y, c))
    {
      InLiveAround(g, w, h, x, y, p);
    }
    CountOfThree(live, a, b, c, Adjacent(x, y, a), Adjacent(x, y, b), Adjacent(x, y, c));
  }

  /** The blinker, an oscillator of period two: three live cells in a column
      centred on (cx, cy) ... */
  function Vertical(cx: int, cy: int): set<Coord> { {(cx, cy - 1), (cx, cy), (cx, cy + 1)} }

  /** ... and three live cells in a row centred on (cx, cy). */
  function Horizontal(cx: int, cy: int): set<Coord> { {(cx - 1, cy), (cx, cy), (cx + 1, cy)} }

  /** The cells of the column. */
  lemma VerticalMembers(cx: int, cy: int, x: int, y: int)
    ensures (x, y) in Vertical(cx, cy) <==> x == cx && cy - 1 <= y <= cy + 1
  {
  }

  /** The cells of the row. */
  lemma HorizontalMembers(cx: int, cy: int, x: int, y: int)
    ensures (x, y) in Horizontal(cx, cy) <==> y == cy && cx - 1 <= x <= cx + 1
  {
  }

  /** The rule around a vertical bar centred on (cx, cy). */
  lemma VerticalRule(x: int, y: int, cx: int, cy: int)
    ensures var n := Ind(Adjacent(x, y, (cx, cy - 1))) + Ind(Adjacent(x, y, (cx, cy))) + Ind(Adjacent(x, y, (cx, cy + 1)));
      Conway(if x == cx && cy - 1 <= y <= cy + 1 then Alive else Dead, n) <==> (y == cy && cx - 1 <= x <= cx + 1)
  {
  }

  /** The rule around a horizontal bar centred on (cx, cy). */
  lemma HorizontalRule(x: int, y: int, cx: int, cy: int)
    ensures var n := Ind(Adjacent(x, y, (cx - 1, cy))) + Ind(Adjacent(x, y, (cx, cy))) + Ind(Adjacent(x, y, (cx + 1, cy)));
      Conway(if y == cy && cx - 1 <= x <= cx + 1 then Alive else Dead, n) <==> (x == cx && cy - 1 <= y <= cy + 1)
  {
  }

  /** One cell of the generation after a vertical bar. */
  lemma VerticalCell(w: nat, h: nat, cx: int, cy: int, x: int, y: int)
    requires 1 <= cx < w - 1 && 1 <= cy < h - 1 && 0 <= x < w && 0 <= y < h
    ensures NextGen(Populated(w, h, Vertical(cx, cy)), w, h)[y][x] == Populated(w, h, Horizontal(cx, cy))[y][x]
  {
    var g := Populated(w, h, Vertical(cx, cy));
    LiveNeighborsOfThree(w, h, x, y, (cx, cy - 1), (cx, cy), (cx, cy + 1));
    VerticalRule(x, y, cx, cy);
    VerticalMembers(cx, cy, x, y);
    HorizontalMembers(cx, cy, x, y);
    assert g[y][x] == if x == cx && cy - 1 <= y <= cy + 1 then Alive else Dead;
  }

  /** One cell of the generation after a horizontal bar. */
  lemma HorizontalCell(w: nat, h: nat, cx: int, cy: int, x: int, y: int)
    requires 1 <= cx < w - 1 && 1 <= cy < h - 1 && 0 <= x < w && 0 <= y < h
    ensures NextGen(Populated(w, h, Horizontal(cx, cy)), w, h)[y][x] == Populated(w, h, Vertical(cx, cy))[y][x]
  {
    var g := Populated(w, h, Horizontal(cx, cy));
    LiveNeighborsOfThree(w, h, x, y, (cx - 1, cy), (cx, cy), (cx + 1, cy));
    HorizontalRule(x, y, cx, cy);
    VerticalMembers(cx, cy, x, y);
    HorizontalMembers(cx, cy, x, y);
    assert g[y][x] == if y == cy && cx - 1 <= x <= cx + 1 then Alive else Dead;
  }

  /** On a board holding only the column, one generation later only the
      row is alive: the centre survives, its two sides are born, the ends die. */
  lemma VerticalToHorizontal(w: nat, h: nat, cx: int, cy: int)
    requires 1 <= cx < w - 1 && 1 <= cy < h - 1
    ensures NextGen(Populated(w, h, Vertical(cx, cy)), w, h) == Populated(w, h, Horizontal(cx, cy))
  {
    var r := NextGen(Populated(w, h, Vertical(cx, cy)), w, h);
    var e := Populated(w, h, Horizontal(cx, cy));
    forall x, y | 0 <= x < w && 0 <= y < h ensures r[y][x] == e[y][x] {
      VerticalCell(w, h, cx, cy, x, y);
    }
    GridExt(r, e, w, h);
  }

  /** And the row turns back into the column. */
  lemma HorizontalToVertical(w: nat, h: nat, cx: int, cy: int)
    requires 1 <= cx < w - 1 && 1 <= cy < h - 1
    ensures NextGen(Populated(w, h, Horizontal(cx, cy)), w, h) == Populated(w, h, Vertical(cx, cy))
  {
    var r := NextGen(Populated(w, h, Horizontal(cx, cy)), w, h);
    var e := Populated(w, h, Vertical(cx, cy));
    forall x, y | 0 <= x < w && 0 <= y < h ensures r[y][x] == e[y][x] {
      HorizontalCell(w, h, cx, cy, x, y);
    }
    GridExt(r, e, w, h);
  }
  /** The blinker returns to its first phase after two generations, on any
      board around it; (1, 0), (1, 1), (1, 2) becomes (0, 1), (1, 1), (2, 1)
      and back. */
  lemma BlinkerPeriodTwo(w: nat, h: nat, cx: int, cy: int)
    requires 1 <= cx < w - 1 && 1 <= cy < h - 1
    ensures NextGen(Populated(w, h, Vertical(cx, cy)), w, h) == Populated(w, h, Horizontal(cx, cy))
    ensures NextGen(NextGen(Populated(w, h, Vertical(cx, cy)), w, h), w, h) == Populated(w, h, Vertical(cx, cy))
  {
    VerticalToHorizontal(w, h, cx, cy);
    HorizontalToVertical(w, h, cx, cy);
  }
}
