/** The plain-text pattern loader on values: the file is split on line feeds,
    the first two lines are dropped, the shape is sized by its FIRST body
    row and its number of rows, and every 'O' is laid over the board centred
    on it. */
module Pattern {
  import opened Life

  /** String.prototype.split('\n'): the pieces between line feeds, always at
      least one. A carriage return stays part of its piece. */
  function Split(s: string): (r: seq<string>)
    ensures |r| >= 1
    decreases |s|
  {
    if s == [] then [""]
    else
      var rest := Split(s[1..]);
      if s[0] == '\n' then [""] + rest
      else [[s[0]] + rest[0]] + rest[1..]
  }

  /** No piece holds a line feed. */
  lemma {:induction false} SplitPieces(s: string)
    ensures forall i :: 0 <= i < |Split(s)| ==> '\n' !in Split(s)[i]
    decreases |s|
  {
    if s != [] {
      SplitPieces(s[1..]);
      var rest := Split(s[1..]);
      if s[0] != '\n' {
        var r := [[s[0]] + rest[0]] + rest[1..];
        forall i | 0 <= i < |r| ensures '\n' !in r[i] {
          if i > 0 {
            assert r[i] == rest[i];
          }
        }
      }
    }
  }

  /** Array.prototype.join('\n'): the inverse of Split. */
  function Join(ls: seq<string>): string
    decreases |ls|
  {
    if ls == [] then ""
    else if |ls| == 1 then ls[0]
    else ls[0] + "\n" + Join(ls[1..])
  }

  /** Joining the pieces gives back the text. */
  lemma {:induction false} JoinSplit(s: string)
    ensures Join(Split(s)) == s
    decreases |s|
  {
    if s != [] {
      var rest := Split(s[1..]);
      JoinSplit(s[1..]);
      if s[0] == '\n' {
        assert ([""] + rest)[1..] == rest;
      } else if |rest| == 1 {
        assert s == [s[0]] + s[1..];
      } else {
        var r := [[s[0]] + rest[0]] + rest[1..];
        assert r[1..] == rest[1..];
        assert Join(rest) == rest[0] + "\n" + Join(rest[1..]);
        assert s == [s[0]] + s[1..];
      }
    }
  }

  /** A line feed after a piece free of line feeds closes that piece. */
  lemma {:induction false} SplitLine(a: string, rest: string)
    requires '\n' !in a
    ensures Split(a + "\n" + rest) == [a] + Split(rest)
    decreases |a|
  {
    var s := a + "\n" + rest;
    if a == [] {
      assert s == "\n" + rest;
      assert s[1..] == rest;
    } else {
      assert s[0] == a[0];
      assert s[1..] == a[1..] + "\n" + rest;
      SplitLine(a[1..], rest);
      assert [a[0]] + a[1..] == a;
    }
  }

  /** Text without a line feed is a single piece. */
  lemma {:induction false} SplitNoLine(a: string)
    requires '\n' !in a
    ensures Split(a) == [a]
    decreases |a|
  {
    if a != [] {
      SplitNoLine(a[1..]);
      assert [a[0]] + a[1..] == a;
    }
  }

  /** Splitting lines free of line feeds after joining them gives them back. */
  lemma {:induction false} SplitJoin(ls: seq<string>)
    requires |ls| >= 1
    requires forall i :: 0 <= i < |ls| ==> '\n' !in ls[i]
    ensures Split(Join(ls)) == ls
    decreases |ls|
  {
    if |ls| == 1 {
      SplitNoLine(ls[0]);
    } else {
      SplitJoin(ls[1..]);
      SplitLine(ls[0], Join(ls[1..]));
      assert [ls[0]] + ls[1..] == ls;
    }
  }

  /** cellRows: fileStr.split('\n').slice(2), the lines after the first two
      (none when there are fewer than three). */
  function BodyRows(fileStr: string): seq<string> {
    var lines := Split(fileStr);
    if |lines| <= 2 then [] else lines[2..]
  }

  /** The first two lines are ignored whatever they hold. */
  lemma HeaderIgnored(first: string, second: string, body: string)
    requires '\n' !in first && '\n' !in second
    ensures BodyRows(first + "\n" + (second + "\n" + body)) == Split(body)
  {
    var lines := Split(first + "\n" + (second + "\n" + body));
    SplitTwoLines(first, second, body);
    assert lines == [first] + ([second] + Split(body));
    assert |lines| > 2;
    assert lines[2..] == Split(body);
  }

  lemma SplitTwoLines(first: string, second: string, body: string)
    requires '\n' !in first && '\n' !in second
    ensures Split(first + "\n" + (second + "\n" + body)) == [first] + ([second] + Split(body))
  {
    SplitLine(first, second + "\n" + body);
    SplitLine(second, body);
  }

  /** How a load ends. parseAndPlaceCellsFile returns nothing in every case: it places
      the shape, returns early when the shape is too large, or throws a
      TypeError, at cellRows[0].length when there is no body row, or when an
      'O' falls past the right edge, where the cell lookup yields null. */
  datatype Outcome = Placed | TooLarge | NoBodyRow | OffBoard

  /** shapeWidth: the length of the first body row only. */
  function ShapeWidth(rows: seq<string>): nat
    requires rows != []
  {
    |rows[0]|
  }

  /** startingXCell / the first startingYCell: the top-left corner that
      centres a shape of the given extent on a board of the given extent. */
  function Start(boardExtent: nat, shapeExtent: nat): int {
    boardExtent / 2 - shapeExtent / 2
  }

  /** Index i of a row placed from column sx is an 'O' with no column under it. */
  predicate Misses(row: string, sx: int, w: int, i: int)
    requires 0 <= i < |row|
  {
    row[i] == 'O' && !(0 <= sx + i < w)
  }

  /** Every 'O' of the row lands on one of the w columns. */
  predicate RowFits(row: string, sx: int, w: int) {
    forall i :: 0 <= i < |row| ==> !Misses(row, sx, w, i)
  }

  /** Every 'O' of the shape lands on one of the w columns. */
  predicate MarksFit(rows: seq<string>, sx: int, w: int) {
    forall k :: 0 <= k < |rows| ==> RowFits(rows[k], sx, w)
  }

  /** How parseAndPlaceCellsFile ends on this file and board size. */
  function Classify(fileStr: string, w: nat, h: nat): Outcome {
    var rows := BodyRows(fileStr);
    if rows == [] then NoBodyRow
    else if ShapeWidth(rows) > w || |rows| > h then TooLarge
    else if MarksFit(rows, Start(w, ShapeWidth(rows)), w) then Placed
    else OffBoard
  }

  /** A shape no wider than the board puts every 'O' of its first row, and
      every 'O' within the first row's width, on a column: only a later,
      longer row can miss the board. */
  lemma OnlyLongerRowsMiss(rows: seq<string>, w: nat, k: int, i: int)
    requires rows != [] && ShapeWidth(rows) <= w
    requires 0 <= k < |rows| && 0 <= i < |rows[k]| && Misses(rows[k], Start(w, ShapeWidth(rows)), w, i)
    ensures k > 0 && i >= ShapeWidth(rows)
  {
  }

  /** How many characters of a row game.js reads before it throws at an
      'O' with no column under it: all of them when there is none. */
  function RowReach(row: string, sx: int, w: int): (n: nat)
    ensures n <= |row|
    decreases |row|
  {
    if row == [] || Misses(row, sx, w, 0) then 0 else 1 + RowReach(row[1..], sx + 1, w)
  }

  /** The characters read all land, and reading stops only at a miss. */
  lemma {:induction false} RowReachMeaning(row: string, sx: int, w: int)
    ensures RowFits(row[..RowReach(row, sx, w)], sx, w)
    ensures RowReach(row, sx, w) < |row| ==> Misses(row, sx, w, RowReach(row, sx, w))
    decreases |row|
  {
    if row != [] && !Misses(row, sx, w, 0) {
      var n := RowReach(row[1..], sx + 1, w);
      RowReachMeaning(row[1..], sx + 1, w);
      var p, q, sx1 := row[..n + 1], row[1..][..n], sx + 1;
      forall i | 0 <= i < |p| ensures !Misses(p, sx, w, i) {
        if i > 0 {
          assert p[i] == q[i - 1];
          assert !Misses(q, sx1, w, i - 1);
        } else {
          assert p[0] == row[0];
        }
      }
      if n + 1 < |row| {
        assert row[n + 1] == row[1..][n];
      }
    }
  }

  /** Conversely, the first miss (or the end of the row) is where reading stops. */
  lemma {:induction false} RowReachAt(row: string, sx: int, w: int, i: int)
    requires 0 <= i <= |row| && RowFits(row[..i], sx, w)
    requires i < |row| ==> Misses(row, sx, w, i)
    ensures RowReach(row, sx, w) == i
    decreases i
  {
    if i > 0 {
      assert row[..i][0] == row[0];
      assert !Misses(row[..i], sx, w, 0);
      var rest := row[1..];
      var q, sx1 := rest[..i - 1], sx + 1;
      forall j | 0 <= j < i - 1 ensures !Misses(q, sx1, w, j) {
        assert q[j] == row[..i][j + 1];
        assert !Misses(row[..i], sx, w, j + 1);
      }
      if i < |row| {
        assert rest[i - 1] == row[i];
      }
      RowReachAt(rest, sx + 1, w, i - 1);
    }
  }

  /** One more character that lands keeps a fitting prefix fitting. */
  lemma RowFitsExtend(row: string, sx: int, w: int, i: int)
    requires 0 <= i < |row| && RowFits(row[..i], sx, w) && !Misses(row, sx, w, i)
    ensures RowFits(row[..i + 1], sx, w)
  {
    var p, q := row[..i + 1], row[..i];
    forall j | 0 <= j < i + 1 ensures !Misses(p, sx, w, j) {
      if j < i {
        assert p[j] == q[j];
        assert !Misses(q, sx, w, j);
      }
    }
  }

  /** A row fits exactly when game.js reads all of it. */
  lemma RowReachAll(row: string, sx: int, w: int)
    ensures RowFits(row, sx, w) <==> RowReach(row, sx, w) == |row|
  {
    RowReachMeaning(row, sx, w);
    assert row[..|row|] == row;
    if RowFits(row, sx, w) {
      RowReachAt(row, sx, w, |row|);
    }
  }

  /** The part of the body game.js reads before it throws: every row in
      full up to the first with an 'O' off the board, and that row cut just
      before the 'O'; the whole body when every 'O' lands. */
  function Reached(rows: seq<string>, sx: int, w: int): (r: seq<string>)
    ensures |r| <= |rows|
    decreases |rows|
  {
    if rows == [] then []
    else
      var n := RowReach(rows[0], sx, w);
      if n < |rows[0]| then [rows[0][..n]] else [rows[0]] + Reached(rows[1..], sx, w)
  }

  /** One more fitting row keeps a fitting prefix of the body fitting. */
  lemma MarksFitExtend(rows: seq<string>, sx: int, w: int, r: int)
    requires 0 <= r < |rows| && MarksFit(rows[..r], sx, w) && RowFits(rows[r], sx, w)
    ensures MarksFit(rows[..r + 1], sx, w)
  {
    var p, q := rows[..r + 1], rows[..r];
    forall j | 0 <= j < r + 1 ensures RowFits(p[j], sx, w) {
      if j < r {
        assert p[j] == q[j];
      }
    }
  }

  /** When every 'O' lands the whole body is read. */
  lemma {:induction false} ReachedAll(rows: seq<string>, sx: int, w: int)
    requires MarksFit(rows, sx, w)
    ensures Reached(rows, sx, w) == rows
    decreases |rows|
  {
    if rows != [] {
      RowReachAll(rows[0], sx, w);
      assert MarksFit(rows[1..], sx, w) by {
        forall k | 0 <= k < |rows| - 1 ensures RowFits(rows[1..][k], sx, w) {
          assert rows[1..][k] == rows[k + 1];
        }
      }
      ReachedAll(rows[1..], sx, w);
      assert [rows[0]] + rows[1..] == rows;
    }
  }

  /** When row k is the first that does not fit, reading stops inside it. */
  lemma {:induction false} ReachedCut(rows: seq<string>, sx: int, w: int, k: int)
    requires 0 <= k < |rows| && MarksFit(rows[..k], sx, w) && !RowFits(rows[k], sx, w)
    ensures Reached(rows, sx, w) == rows[..k] + [rows[k][..RowReach(rows[k], sx, w)]]
    decreases k
  {
    RowReachAll(rows[0], sx, w);
    if k > 0 {
      assert rows[..k][0] == rows[0];
      var rest := rows[1..];
      var q := rest[..k - 1];
      forall j | 0 <= j < k - 1 ensures RowFits(q[j], sx, w) {
        assert q[j] == rows[..k][j + 1];
      }
      assert rest[k - 1] == rows[k];
      ReachedCut(rest, sx, w, k - 1);
      assert rows[..k] == [rows[0]] + rest[..k - 1];
    }
  }

  /** Each row read is a prefix of the body row it comes from. */
  lemma {:induction false} ReachedPrefixes(rows: seq<string>, sx: int, w: int)
    ensures forall j :: 0 <= j < |Reached(rows, sx, w)| ==> Reached(rows, sx, w)[j] <= rows[j]
    decreases |rows|
  {
    if rows != [] {
      ReachedPrefixes(rows[1..], sx, w);
      var r := Reached(rows, sx, w);
      forall j | 0 <= j < |r| ensures r[j] <= rows[j] {
        if j > 0 {
          assert r[j] == Reached(rows[1..], sx, w)[j - 1];
          assert rows[j] == rows[1..][j - 1];
        }
      }
    }
  }

  /** A shape that does not fit has a first 'O' off the board in reading
      order: body row k, column i. */
  lemma {:induction false} FirstMiss(rows: seq<string>, sx: int, w: int)
    requires !MarksFit(rows, sx, w)
    ensures exists k, i ::
      && 0 <= k < |rows| && 0 <= i < |rows[k]| && MarksFit(rows[..k], sx, w)
      && RowFits(rows[k][..i], sx, w) && Misses(rows[k], sx, w, i)
    decreases |rows|
  {
    var row := rows[0];
    RowReachAll(row, sx, w);
    RowReachMeaning(row, sx, w);
    if !RowFits(row, sx, w) {
      var i := RowReach(row, sx, w);
      assert MarksFit(rows[..0], sx, w);
      assert 0 <= i < |rows[0]| && RowFits(rows[0][..i], sx, w) && Misses(rows[0], sx, w, i);
    } else {
      var rest := rows[1..];
      assert !MarksFit(rest, sx, w) by {
        var k :| 0 <= k < |rows| && !RowFits(rows[k], sx, w);
        assert k > 0 && rest[k - 1] == rows[k];
      }
      FirstMiss(rest, sx, w);
      var k, i :| 0 <= k < |rest| && 0 <= i < |rest[k]| && MarksFit(rest[..k], sx, w)
        && RowFits(rest[k][..i], sx, w) && Misses(rest[k], sx, w, i);
      assert rest[k] == rows[k + 1];
      var q := rows[..k + 1];
      forall j | 0 <= j < k + 1 ensures RowFits(q[j], sx, w) {
        if j > 0 {
          assert q[j] == rest[..k][j - 1];
        }
      }
      assert RowFits(rows[k + 1][..i], sx, w) && Misses(rows[k + 1], sx, w, i);
    }
  }

  /** With the first miss at body row k, column i, the rows read carry
      exactly the 'O's before it in reading order. */
  lemma ReachedMarks(rows: seq<string>, sx: int, sy: int, w: int, k: int, i: int, c: Coord)
    requires 0 <= k < |rows| && 0 <= i < |rows[k]| && MarksFit(rows[..k], sx, w)
    requires RowFits(rows[k][..i], sx, w) && Misses(rows[k], sx, w, i)
    ensures Marked(Reached(rows, sx, w), sx, sy, c)
      <==> Marked(rows, sx, sy, c) && (c.1 - sy < k || (c.1 - sy == k && c.0 - sx < i))
  {
    ReachedCut(rows, sx, w, k);
    RowReachAt(rows[k], sx, w, i);
    var r := rows[..k] + [rows[k][..i]];
    assert Reached(rows, sx, w) == r;
    var y := c.1 - sy;
    if 0 <= y < k {
      assert r[y] == rows[y];
    } else if y == k {
      assert r[y] == rows[k][..i];
    }
  }

  /** Cell c receives the 'O' at body row c.1 - sy, column c.0 - sx. */
  predicate Marked(rows: seq<string>, sx: int, sy: int, c: Coord) {
    var k, i := c.1 - sy, c.0 - sx;
    0 <= k < |rows| && 0 <= i < |rows[k]| && rows[k][i] == 'O'
  }

  /** cellRow.split('').forEach on board row y: each 'O' at index i sets cell
      (sx + i, y) alive, first character to last. An 'O' with no cell under
      it is skipped here; game.js throws there, and Load never overlays
      the characters from that one on. */
  function OverlayRow(g: Grid, w: nat, h: nat, row: string, sx: int, y: int): (r: Grid)
    requires IsGrid(g, w, h)
    ensures IsGrid(r, w, h)
    decreases |row|
  {
    if row == [] then g
    else
      var i := |row| - 1;
      var before := OverlayRow(g, w, h, row[..i], sx, y);
      if row[i] == 'O' && InBounds(w, h, (sx + i, y)) then SetAt(before, w, h, (sx + i, y), Alive) else before
  }

  /** cellRows.forEach: the rows placed one below the other from board row sy. */
  function Overlay(g: Grid, w: nat, h: nat, rows: seq<string>, sx: int, sy: int): (r: Grid)
    requires IsGrid(g, w, h)
    ensures IsGrid(r, w, h)
    decreases |rows|
  {
    if rows == [] then g
    else
      var k := |rows| - 1;
      OverlayRow(Overlay(g, w, h, rows[..k], sx, sy), w, h, rows[k], sx, sy + k)
  }

  /** Placing a row sets alive exactly the cells under its 'O's. */
  lemma {:induction false} OverlayRowCells(g: Grid, w: nat, h: nat, row: string, sx: int, y0: int, x: int, y: int)
    requires IsGrid(g, w, h) && InBounds(w, h, (x, y))
    ensures OverlayRow(g, w, h, row, sx, y0)[y][x]
      == if y == y0 && 0 <= x - sx < |row| && row[x - sx] == 'O' then Alive else g[y][x]
    decreases |row|
  {
    if row != [] {
      var i := |row| - 1;
      OverlayRowCells(g, w, h, row[..i], sx, y0, x, y);
      if row[i] == 'O' && InBounds(w, h, (sx + i, y0)) {
        SetAtCell(OverlayRow(g, w, h, row[..i], sx, y0), w, h, (sx + i, y0), Alive, x, y);
      }
      if 0 <= x - sx < i {
        assert row[..i][x - sx] == row[x - sx];
      }
    }
  }

  /** A cell is marked by a shape when the rows above its last mark it or
      the last row does. */
  lemma MarkedLast(rows: seq<string>, sx: int, sy: int, c: Coord)
    requires rows != []
    ensures var k := |rows| - 1;
      Marked(rows, sx, sy, c)
      <==> (Marked(rows[..k], sx, sy, c) || (c.1 - sy == k && 0 <= c.0 - sx < |rows[k]| && rows[k][c.0 - sx] == 'O'))
  {
    var k := |rows| - 1;
    if 0 <= c.1 - sy < k {
      assert rows[..k][c.1 - sy] == rows[c.1 - sy];
    }
  }

  /** The placed shape: every marked cell alive, every other cell as it was. */
  lemma {:induction false} OverlayCellAt(g: Grid, w: nat, h: nat, rows: seq<string>, sx: int, sy: int, x: int, y: int)
    requires IsGrid(g, w, h) && InBounds(w, h, (x, y))
    ensures Overlay(g, w, h, rows, sx, sy)[y][x] == if Marked(rows, sx, sy, (x, y)) then Alive else g[y][x]
    decreases |rows|
  {
    if rows != [] {
      var k := |rows| - 1;
      assert Overlay(g, w, h, rows, sx, sy) == OverlayRow(Overlay(g, w, h, rows[..k], sx, sy), w, h, rows[k], sx, sy + k);
      OverlayCellAt(g, w, h, rows[..k], sx, sy, x, y);
      OverlayRowCells(Overlay(g, w, h, rows[..k], sx, sy), w, h, rows[k], sx, sy + k, x, y);
      MarkedLast(rows, sx, sy, (x, y));
    }
  }

  lemma OverlayCells(g: Grid, w: nat, h: nat, rows: seq<string>, sx: int, sy: int)
    requires IsGrid(g, w, h)
    ensures forall x, y :: 0 <= x < w && 0 <= y < h ==>
      Overlay(g, w, h, rows, sx, sy)[y][x] == if Marked(rows, sx, sy, (x, y)) then Alive else g[y][x]
  {
    forall x, y | 0 <= x < w && 0 <= y < h
      ensures Overlay(g, w, h, rows, sx, sy)[y][x] == if Marked(rows, sx, sy, (x, y)) then Alive else g[y][x]
    {
      OverlayCellAt(g, w, h, rows, sx, sy, x, y);
    }
  }

  /** Reading one more character of a row sets its cell alive when it is an
      'O' on the board and changes nothing otherwise. */
  lemma OverlayRowStep(g: Grid, w: nat, h: nat, row: string, sx: int, y: int, i: int)
    requires IsGrid(g, w, h) && 0 <= i < |row|
    ensures OverlayRow(g, w, h, row[..i + 1], sx, y)
      == if row[i] == 'O' && InBounds(w, h, (sx + i, y))
         then SetAt(OverlayRow(g, w, h, row[..i], sx, y), w, h, (sx + i, y), Alive)
         else OverlayRow(g, w, h, row[..i], sx, y)
  {
    assert row[..i + 1][..i] == row[..i];
  }

  /** Placing one more body row, on the board row below the rows placed so
      far, is placing the longer shape. */
  lemma OverlayNextRow(g: Grid, w: nat, h: nat, rows: seq<string>, row: string, sx: int, sy: int)
    requires IsGrid(g, w, h)
    ensures OverlayRow(Overlay(g, w, h, rows, sx, sy), w, h, row, sx, sy + |rows|)
         == Overlay(g, w, h, rows + [row], sx, sy)
  {
    assert (rows + [row])[..|rows|] == rows;
  }

  /** Placing body row r in full after the rows above it. */
  lemma PlaceNextRow(g: Grid, w: nat, h: nat, rows: seq<string>, sx: int, sy: int, r: int)
    requires IsGrid(g, w, h) && 0 <= r < |rows|
    ensures OverlayRow(Overlay(g, w, h, rows[..r], sx, sy), w, h, rows[r], sx, sy + r)
         == Overlay(g, w, h, rows[..r + 1], sx, sy)
  {
    OverlayNextRow(g, w, h, rows[..r], rows[r], sx, sy);
    assert rows[..r] + [rows[r]] == rows[..r + 1];
  }

  /** Stopping inside body row r, the first that does not fit, leaves the
      board with the part of the body read. */
  lemma PlaceCutRow(g: Grid, w: nat, h: nat, rows: seq<string>, sx: int, sy: int, r: int)
    requires IsGrid(g, w, h) && 0 <= r < |rows|
    requires MarksFit(rows[..r], sx, w) && !RowFits(rows[r], sx, w)
    ensures OverlayRow(Overlay(g, w, h, rows[..r], sx, sy), w, h, rows[r][..RowReach(rows[r], sx, w)], sx, sy + r)
         == Overlay(g, w, h, Reached(rows, sx, w), sx, sy)
  {
    var cut := rows[r][..RowReach(rows[r], sx, w)];
    OverlayNextRow(g, w, h, rows[..r], cut, sx, sy);
    ReachedCut(rows, sx, w, r);
  }

  /** Placing every row of a fitting body places the part read. */
  lemma PlaceAllRows(g: Grid, w: nat, h: nat, rows: seq<string>, sx: int, sy: int)
    requires IsGrid(g, w, h) && MarksFit(rows, sx, w)
    ensures Overlay(g, w, h, rows[..|rows|], sx, sy) == Overlay(g, w, h, Reached(rows, sx, w), sx, sy)
  {
    assert rows[..|rows|] == rows;
    ReachedAll(rows, sx, w);
  }

  /** parseAndPlaceCellsFile on a generation: the board after the load,
      including one that throws part way through. */
  function Load(g: Grid, w: nat, h: nat, fileStr: string): (r: Grid)
    requires IsGrid(g, w, h)
    ensures IsGrid(r, w, h)
  {
    var rows := BodyRows(fileStr);
    if rows == [] || ShapeWidth(rows) > w || |rows| > h then g
    else
      var sx := Start(w, ShapeWidth(rows));
      Overlay(g, w, h, Reached(rows, sx, w), sx, Start(h, |rows|))
  }

  /** Rejected files leave every cell as it was: no body row, a first body
      row wider than the board, or more body rows than the board is high. */
  lemma RejectedLoadChangesNothing(g: Grid, w: nat, h: nat, fileStr: string)
    requires IsGrid(g, w, h)
    requires var rows := BodyRows(fileStr); rows == [] || ShapeWidth(rows) > w || |rows| > h
    ensures Classify(fileStr, w, h) == NoBodyRow || Classify(fileStr, w, h) == TooLarge
    ensures Load(g, w, h, fileStr) == g
  {
  }

  /** A shape no taller than the board is placed on existing rows. */
  lemma RowsFit(h: nat, sh: nat, k: int)
    requires sh <= h && 0 <= k < sh
    ensures 0 <= Start(h, sh) + k < h
  {
  }

  /** Each 'O' at body column i of body row k sets cell
      (w/2 - shapeWidth/2 + i, h/2 - shapeHeight/2 + k) alive. */
  lemma LoadSetsMarks(g: Grid, w: nat, h: nat, fileStr: string, k: int, i: int)
    requires IsGrid(g, w, h) && Classify(fileStr, w, h) == Placed
    requires var rows := BodyRows(fileStr); 0 <= k < |rows| && 0 <= i < |rows[k]| && rows[k][i] == 'O'
    ensures var rows := BodyRows(fileStr);
      var c := (w / 2 - ShapeWidth(rows) / 2 + i, h / 2 - |rows| / 2 + k);
      InBounds(w, h, c) && Load(g, w, h, fileStr)[c.1][c.0] == Alive
  {
    var rows := BodyRows(fileStr);
    var sx, sy := Start(w, ShapeWidth(rows)), Start(h, |rows|);
    assert MarksFit(rows, sx, w);
    assert RowFits(rows[k], sx, w);
    assert !Misses(rows[k], sx, w, i);
    RowsFit(h, |rows|, k);
    ReachedAll(rows, sx, w);
    OverlayCellAt(g, w, h, rows, sx, sy, sx + i, sy + k);
  }

  /** A load that throws at its first 'O' off the board, body row k, column
      i, has set alive every 'O' before that one in reading order (earlier
      rows, then earlier columns of row k) and nothing else. */
  lemma OffBoardLoad(g: Grid, w: nat, h: nat, fileStr: string, k: int, i: int, x: int, y: int)
    requires IsGrid(g, w, h) && InBounds(w, h, (x, y)) && Classify(fileStr, w, h) == OffBoard
    requires var rows := BodyRows(fileStr); var sx := Start(w, ShapeWidth(rows));
      0 <= k < |rows| && 0 <= i < |rows[k]| && MarksFit(rows[..k], sx, w)
      && RowFits(rows[k][..i], sx, w) && Misses(rows[k], sx, w, i)
    ensures var rows := BodyRows(fileStr); var sx, sy := Start(w, ShapeWidth(rows)), Start(h, |rows|);
      Load(g, w, h, fileStr)[y][x]
      == if Marked(rows, sx, sy, (x, y)) && (y - sy < k || (y - sy == k && x - sx < i)) then Alive else g[y][x]
  {
    var rows := BodyRows(fileStr);
    var sx, sy := Start(w, ShapeWidth(rows)), Start(h, |rows|);
    ReachedMarks(rows, sx, sy, w, k, i, (x, y));
    OverlayCellAt(g, w, h, Reached(rows, sx, w), sx, sy, x, y);
  }

  /** Loading overlays and never clears: a cell keeps its state unless an 'O'
      of the body lands on it, and a live cell stays alive. */
  lemma LoadKeepsOtherCells(g: Grid, w: nat, h: nat, fileStr: string, x: int, y: int)
    requires IsGrid(g, w, h) && InBounds(w, h, (x, y))
    ensures var rows := BodyRows(fileStr);
      !(rows != [] && Marked(rows, Start(w, ShapeWidth(rows)), Start(h, |rows|), (x, y)))
      ==> Load(g, w, h, fileStr)[y][x] == g[y][x]
    ensures g[y][x] == Alive ==> Load(g, w, h, fileStr)[y][x] == Alive
  {
    var rows := BodyRows(fileStr);
    if rows != [] {
      var sx, sy := Start(w, ShapeWidth(rows)), Start(h, |rows|);
      var r := Reached(rows, sx, w);
      ReachedPrefixes(rows, sx, w);
      OverlayCellAt(g, w, h, r, sx, sy, x, y);
      if Marked(r, sx, sy, (x, y)) {
        assert r[y - sy] <= rows[y - sy];
      }
    }
  }

  /** Body text of two rows free of line feeds splits into those rows. */
  lemma SplitTwoRows(a: string, b: string)
    requires '\n' !in a && '\n' !in b
    ensures Split(a + "\n" + b) == [a, b]
  {
    SplitNoLine(b);
    SplitLine(a, b);
  }

  /** A carriage return before a line feed stays in its row and counts
      toward the shape's width. */
  lemma CarriageReturnCounts()
    ensures BodyRows("#N\n#C\nO.\r\n.O") == ["O.\r", ".O"]
    ensures ShapeWidth(BodyRows("#N\n#C\nO.\r\n.O")) == 3
  {
    assert "O.\r\n.O" == "O.\r" + "\n" + ".O";
    SplitTwoRows("O.\r", ".O");
    assert "#N\n#C\nO.\r\n.O" == "#N" + "\n" + ("#C" + "\n" + "O.\r\n.O");
    HeaderIgnored("#N", "#C", "O.\r\n.O");
  }

  lemma DiagonalRows()
    ensures BodyRows("ignored\nignored\nO.\n.O") == ["O.", ".O"]
  {
    assert "O.\n.O" == "O." + "\n" + ".O";
    SplitTwoRows("O.", ".O");
    assert "ignored\nignored\nO.\n.O" == "ignored" + "\n" + ("ignored" + "\n" + "O.\n.O");
    HeaderIgnored("ignored", "ignored", "O.\n.O");
  }

  lemma DiagonalMarks(rows: seq<string>, x: int, y: int)
    requires rows == ["O.", ".O"]
    ensures Marked(rows, 29, 14, (x, y)) <==> (x, y) == (29, 14) || (x, y) == (30, 15)
  {
    assert |rows[0]| == 2 && rows[0][0] == 'O' && rows[0][1] == '.';
    assert |rows[1]| == 2 && rows[1][0] == '.' && rows[1][1] == 'O';
  }

  lemma DiagonalFits(rows: seq<string>)
    requires rows == ["O.", ".O"]
    ensures MarksFit(rows, 29, BoardWidth)
  {
    assert |rows[0]| == 2 && |rows[1]| == 2;
  }

  /** The two-row diagonal "O." / ".O" lands centred on the 60-by-30 board of game.js:
      cells (29, 14) and (30, 15) become alive and nothing else changes. */
  lemma DiagonalExample(g: Grid, fileStr: string)
    requires IsGrid(g, BoardWidth, BoardHeight) && fileStr == "ignored\nignored\nO.\n.O"
    ensures Classify(fileStr, BoardWidth, BoardHeight) == Placed
    ensures Load(g, BoardWidth, BoardHeight, fileStr) == SetAt(SetAt(g, BoardWidth, BoardHeight, (29, 14), Alive), BoardWidth, BoardHeight, (30, 15), Alive)
  {
    assert BoardWidth == 60 && BoardHeight == 30;
    DiagonalRows();
    var rows := BodyRows(fileStr);
    assert |rows| == 2 && ShapeWidth(rows) == 2;
    DiagonalFits(rows);
    ReachedAll(rows, 29, 60);
    var placed := Overlay(g, 60, 30, rows, 29, 14);
    var expected := SetAt(SetAt(g, 60, 30, (29, 14), Alive), 60, 30, (30, 15), Alive);
    OverlayCells(g, 60, 30, rows, 29, 14);
    forall x, y | 0 <= x < 60 && 0 <= y < 30 ensures placed[y][x] == expected[y][x] {
      DiagonalMarks(rows, x, y);
      SetAtCell(g, 60, 30, (29, 14), Alive, x, y);
      SetAtCell(SetAt(g, 60, 30, (29, 14), Alive), 60, 30, (30, 15), Alive, x, y);
    }
    GridExt(placed, expected, 60, 30);
  }

  /** Loading the same file twice has the effect of loading it once. */
  lemma LoadTwice(g: Grid, w: nat, h: nat, fileStr: string)
    requires IsGrid(g, w, h)
    ensures Load(Load(g, w, h, fileStr), w, h, fileStr) == Load(g, w, h, fileStr)
  {
    var once := Load(g, w, h, fileStr);
    var rows := BodyRows(fileStr);
    if rows != [] {
      var sx, sy := Start(w, ShapeWidth(rows)), Start(h, |rows|);
      var r := Reached(rows, sx, w);
      OverlayCells(g, w, h, r, sx, sy);
      OverlayCells(once, w, h, r, sx, sy);
    }
    GridExt(Load(once, w, h, fileStr), once, w, h);
  }
}
