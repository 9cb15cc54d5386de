/** The settled-cell grid (`staticUnits`) shared by both versions of the
    falling-blocks simulation: its value-level specification and the class
    that owns it and edits it in place. The grid is column-major: `g[x][y]`
    is column `x`, row `y`, row 0 at the top. */
module Board {

  /** A settled cell: empty (the source's `0`) or an opaque fill value. */
  datatype Cell = Empty | Block(fill: string)

  /** One unit of a piece, relative to the piece's anchor. */
  datatype Offset = Offset(dx: int, dy: int)

  type Grid = seq<seq<Cell>>

  /** `g` has `w` columns, each holding `h` rows. */
  predicate Shaped(g: Grid, w: nat, h: nat)
  {
    |g| == w && forall x :: 0 <= x < |g| ==> |g[x]| == h
  }

  /** The grid `initializeGrid` builds: every cell empty. */
  function EmptyGrid(w: nat, h: nat): (g: Grid)
    ensures Shaped(g, w, h)
    ensures forall x, y :: 0 <= x < w && 0 <= y < h ==> g[x][y] == Empty
  {
    seq(w, _ => seq(h, _ => Empty))
  }

  // ---------------------------------------------------------------------
  // Row removal: `splice(row, 1)` followed by `unshift(0)` on every column

  /** One column with its cell at `row` cut out and an empty cell put on top. */
  function ShiftColumn(c: seq<Cell>, row: nat): (c': seq<Cell>)
    requires row < |c|
  {
    [Empty] + c[..row] + c[row + 1..]
  }

  /** Row `row` removed from every column and an empty row inserted at the top. */
  function ShiftOut(g: Grid, w: nat, h: nat, row: nat): (g': Grid)
    requires Shaped(g, w, h) && row < h
    ensures Shaped(g', w, h)
    ensures forall x :: 0 <= x < w ==> g'[x][0] == Empty
    ensures forall x, y :: 0 <= x < w && 1 <= y <= row ==> g'[x][y] == g[x][y - 1]
    ensures forall x, y :: 0 <= x < w && row < y < h ==> g'[x][y] == g[x][y]
  {
    seq(w, x requires 0 <= x < w => ShiftColumn(g[x], row))
  }

  /** `removeBottomRow`, as the model uses it: the bottom row is discarded,
      everything above it moves down one row and row 0 becomes empty. On a
      grid with no rows there is nothing to remove. */
  function RemoveBottom(g: Grid, w: nat, h: nat): (g': Grid)
    requires Shaped(g, w, h)
    ensures Shaped(g', w, h)
    ensures h > 0 ==> forall x :: 0 <= x < w ==> g'[x][0] == Empty
    ensures forall x, y :: 0 <= x < w && 1 <= y < h ==> g'[x][y] == g[x][y - 1]
  {
    if h == 0 then g else ShiftOut(g, w, h, h - 1)
  }

  /** JavaScript's `c.splice(start, 1)`: a negative start counts back from
      the end and is clamped at 0; a start past the end removes nothing. */
  function SpliceOne(c: seq<Cell>, start: int): (r: seq<Cell>)
    ensures |r| == if 0 < |c| && start < |c| then |c| - 1 else |c|
  {
    var s := if start < 0 then (if |c| + start < 0 then 0 else |c| + start)
             else (if start > |c| then |c| else start);
    if s < |c| then c[..s] + c[s + 1..] else c
  }

  /** `removeBottomRow` exactly as written: `splice(gridHeight - 1, 1)` then
      `unshift(0)` on every column, whatever the height. */
  function RemoveBottomAsWritten(g: Grid, w: nat, h: nat): (g': Grid)
    requires Shaped(g, w, h)
  {
    seq(w, x requires 0 <= x < w => [Empty] + SpliceOne(g[x], h - 1))
  }

  /** On a grid with at least one row the code as written is the model's
      `RemoveBottom`. */
  lemma RemoveBottomAsWrittenAgrees(g: Grid, w: nat, h: nat)
    requires Shaped(g, w, h) && h > 0
    ensures RemoveBottomAsWritten(g, w, h) == RemoveBottom(g, w, h)
  {
    var a, b := RemoveBottomAsWritten(g, w, h), RemoveBottom(g, w, h);
    forall x | 0 <= x < w ensures a[x] == b[x] {
      assert g[x][..h - 1] + g[x][h..] == g[x][..h - 1];
    }
  }

  /** On a grid with columns but no rows, the code as written grows every
      column to one cell, so the grid no longer has height 0. */
  lemma RemoveBottomAsWrittenGrowsEmptyColumns(w: nat)
    requires w > 0
    ensures Shaped(EmptyGrid(w, 0), w, 0)
    ensures !Shaped(RemoveBottomAsWritten(EmptyGrid(w, 0), w, 0), w, 0)
    ensures RemoveBottomAsWritten(EmptyGrid(w, 0), w, 0)[0] == [Empty]
  {
    var g := EmptyGrid(w, 0);
    var r := RemoveBottomAsWritten(g, w, 0);
    assert g[0] == [];
    assert SpliceOne(g[0], -1) == [];
    assert r[0] == [Empty] + SpliceOne(g[0], -1);
    assert |r[0]| == 1;
  }

  // ---------------------------------------------------------------------
  // Collision probing (`checkCollisions`)

  /** Whether a unit at (cx, cy) is stopped: outside the columns, at or below
      the bottom edge, or on an occupied cell of a visible row. Rows above the
      top edge are open. The column test comes first, so the cell is only
      read in bounds. */
  predicate Blocked(g: Grid, w: nat, h: nat, cx: int, cy: int)
    requires Shaped(g, w, h)
  {
    cx < 0 || cx >= w || cy >= h || (cy >= 0 && g[cx][cy] != Empty)
  }

  /** `checkCollisions`: the units are examined in order and the first one that
      is stopped answers true. The answer is true exactly when some unit,
      moved by (dx, dy), is stopped. */
  function Collides(g: Grid, w: nat, h: nat, x: int, y: int, units: seq<Offset>, dx: int, dy: int): (b: bool)
    requires Shaped(g, w, h)
    ensures b <==> exists i :: 0 <= i < |units| && Blocked(g, w, h, x + units[i].dx + dx, y + units[i].dy + dy)
    decreases |units|
  {
    if units == [] then false
    else
      var tx := x + units[0].dx + dx;
      var ty := y + units[0].dy + dy;
      if tx < 0 || tx >= w || ty >= h then true
      else if ty >= 0 && g[tx][ty] != Empty then true
      else
        var rest := Collides(g, w, h, x, y, units[1..], dx, dy);
        assert forall i :: 1 <= i < |units| ==> units[i] == units[1..][i - 1];
        rest
  }

  /** Probing a piece at an offset is the same as probing the moved piece in
      place; this is what makes an applied probe safe. */
  lemma CollidesShift(g: Grid, w: nat, h: nat, x: int, y: int, units: seq<Offset>, dx: int, dy: int)
    requires Shaped(g, w, h)
    ensures Collides(g, w, h, x + dx, y + dy, units, 0, 0) == Collides(g, w, h, x, y, units, dx, dy)
  {
    if Collides(g, w, h, x, y, units, dx, dy) {
      var i :| 0 <= i < |units| && Blocked(g, w, h, x + units[i].dx + dx, y + units[i].dy + dy);
      assert Blocked(g, w, h, x + dx + units[i].dx + 0, y + dy + units[i].dy + 0);
    }
    if Collides(g, w, h, x + dx, y + dy, units, 0, 0) {
      var i :| 0 <= i < |units| && Blocked(g, w, h, x + dx + units[i].dx + 0, y + dy + units[i].dy + 0);
      assert Blocked(g, w, h, x + units[i].dx + dx, y + units[i].dy + dy);
    }
  }

  // ---------------------------------------------------------------------
  // Freezing (`freezePiece`)

  predicate InBounds(w: nat, h: nat, cx: int, cy: int)
  {
    0 <= cx < w && 0 <= cy < h
  }

  /** Some unit of the piece anchored at (x, y) sits on (cx, cy). */
  predicate Covers(x: int, y: int, units: seq<Offset>, cx: int, cy: int)
  {
    exists i :: 0 <= i < |units| && x + units[i].dx == cx && y + units[i].dy == cy
  }

  /** The grid after the unit loop of `freezePiece` has run over `units`:
      each in-bounds unit cell holds the fill, every other cell is as before,
      and units outside the grid are dropped. */
  function Stamp(g: Grid, w: nat, h: nat, x: int, y: int, fill: string, units: seq<Offset>): (g': Grid)
    requires Shaped(g, w, h)
    ensures Shaped(g', w, h)
    ensures forall cx, cy :: 0 <= cx < w && 0 <= cy < h ==>
      g'[cx][cy] == if Covers(x, y, units, cx, cy) then Block(fill) else g[cx][cy]
    decreases |units|
  {
    if units == [] then g
    else
      var n := |units| - 1;
      var g1 := Stamp(g, w, h, x, y, fill, units[..n]);
      var sx, sy := x + units[n].dx, y + units[n].dy;
      var g2 := if InBounds(w, h, sx, sy) then g1[sx := g1[sx][sy := Block(fill)]] else g1;
      assert forall cx, cy :: Covers(x, y, units, cx, cy) <==>
        Covers(x, y, units[..n], cx, cy) || (sx == cx && sy == cy) by {
        forall cx, cy | Covers(x, y, units, cx, cy)
          ensures Covers(x, y, units[..n], cx, cy) || (sx == cx && sy == cy)
        {
          var i :| 0 <= i < |units| && x + units[i].dx == cx && y + units[i].dy == cy;
          if i < n { assert units[..n][i] == units[i]; }
        }
        forall cx, cy | Covers(x, y, units[..n], cx, cy) ensures Covers(x, y, units, cx, cy) {
          var i :| 0 <= i < n && x + units[..n][i].dx == cx && y + units[..n][i].dy == cy;
          assert units[..n][i] == units[i];
        }
      }
      g2
  }

  /** One more unit for the loop of `freezePiece`: its cell gets the fill
      and its row joins the list when it is in bounds and not yet listed. */
  lemma StampStep(g: Grid, w: nat, h: nat, x: int, y: int, fill: string, units: seq<Offset>, i: nat)
    requires Shaped(g, w, h) && i < |units|
    ensures var g1 := Stamp(g, w, h, x, y, fill, units[..i]);
      var sx, sy := x + units[i].dx, y + units[i].dy;
      Stamp(g, w, h, x, y, fill, units[..i + 1]) ==
      if InBounds(w, h, sx, sy) then g1[sx := g1[sx][sy := Block(fill)]] else g1
    ensures var rows := NewRows(w, h, x, y, units[..i]);
      var sx, sy := x + units[i].dx, y + units[i].dy;
      NewRows(w, h, x, y, units[..i + 1]) ==
      if InBounds(w, h, sx, sy) && sy !in rows then rows + [sy] else rows
  {
    assert units[..i + 1][..i] == units[..i];
  }

  /** No row appears twice. */
  predicate Distinct(s: seq<int>)
  {
    forall i, j :: 0 <= i < j < |s| ==> s[i] != s[j]
  }

  /** The affected-row list of `freezePiece` after its loop over `units`:
      the row of each in-bounds unit, in order of first appearance. It is
      duplicate-free, lies in [0, h) and holds exactly the rows of the
      in-bounds units. */
  function NewRows(w: nat, h: nat, x: int, y: int, units: seq<Offset>): (rows: seq<int>)
    ensures Distinct(rows) && RowsInRange(rows, h)
    ensures forall r :: r in rows <==>
      exists i :: 0 <= i < |units| && InBounds(w, h, x + units[i].dx, y + units[i].dy) && y + units[i].dy == r
    decreases |units|
  {
    if units == [] then []
    else
      var n := |units| - 1;
      var rows := NewRows(w, h, x, y, units[..n]);
      var sx, sy := x + units[n].dx, y + units[n].dy;
      var rows' := if InBounds(w, h, sx, sy) && sy !in rows then rows + [sy] else rows;
      assert forall i :: 0 <= i < n ==> units[..n][i] == units[i];
      rows'
  }

  // ---------------------------------------------------------------------
  // Sorting the affected rows (`checkRows.sort((a, b) => a - b)`)

  predicate StrictlyAscending(s: seq<int>)
  {
    forall i, j :: 0 <= i < j < |s| ==> s[i] < s[j]
  }

  predicate Ascending(s: seq<int>)
  {
    forall i, j :: 0 <= i < j < |s| ==> s[i] <= s[j]
  }

  /** Elements of a sequence are exactly the elements of its multiset. */
  lemma InMultiset(k: int, t: seq<int>, s: seq<int>, v: int)
    requires multiset(t) == multiset(s) + multiset{v}
    ensures k in t <==> k == v || k in s
  {
    assert k in t <==> k in multiset(t);
    assert k in s <==> k in multiset(s);
  }

  lemma AscendingCons(a: int, t: seq<int>)
    requires Ascending(t) && forall k :: k in t ==> a <= k
    ensures Ascending([a] + t)
  {
    var r := [a] + t;
    forall i, j | 0 <= i < j < |r| ensures r[i] <= r[j] {
      assert r[j] == t[j - 1];
      if i > 0 { assert r[i] == t[i - 1]; } else { assert t[j - 1] in t; }
    }
  }

  function Insert(v: int, s: seq<int>): (r: seq<int>)
    requires Ascending(s)
    ensures Ascending(r) && multiset(r) == multiset(s) + multiset{v}
    decreases |s|
  {
    if s == [] then [v]
    else if v <= s[0] then
      AscendingCons(v, s);
      [v] + s
    else
      var t := Insert(v, s[1..]);
      assert s == [s[0]] + s[1..];
      assert forall k :: k in s[1..] ==> s[0] <= k;
      assert forall k :: k in t ==> s[0] <= k by {
        forall k | k in t ensures s[0] <= k {
          InMultiset(k, t, s[1..], v);
        }
      }
      AscendingCons(s[0], t);
      [s[0]] + t
  }

  lemma StrictCons(a: int, t: seq<int>)
    requires StrictlyAscending(t) && forall k :: k in t ==> a < k
    ensures StrictlyAscending([a] + t)
  {
    var r := [a] + t;
    forall i, j | 0 <= i < j < |r| ensures r[i] < r[j] {
      assert r[j] == t[j - 1];
      if i > 0 { assert r[i] == t[i - 1]; } else { assert t[j - 1] in t; }
    }
  }

  lemma {:induction false} InsertStrict(v: int, s: seq<int>)
    requires StrictlyAscending(s) && v !in s
    ensures StrictlyAscending(Insert(v, s))
    decreases |s|
  {
    if s == [] {
    } else if v <= s[0] {
      forall k | k in s ensures v < k {
        var j :| 0 <= j < |s| && s[j] == k;
        assert s[0] <= s[j];
      }
      StrictCons(v, s);
    } else {
      var t := Insert(v, s[1..]);
      assert s == [s[0]] + s[1..];
      assert StrictlyAscending(s[1..]) by {
        forall i, j | 0 <= i < j < |s[1..]| ensures s[1..][i] < s[1..][j] {
          assert s[1..][i] == s[i + 1] && s[1..][j] == s[j + 1];
        }
      }
      InsertStrict(v, s[1..]);
      forall k | k in t ensures s[0] < k {
        InMultiset(k, t, s[1..], v);
        if k in s[1..] {
          var j :| 0 <= j < |s[1..]| && s[1..][j] == k;
          assert s[1..][j] == s[j + 1];
        }
      }
      StrictCons(s[0], t);
      assert Insert(v, s) == [s[0]] + t;
    }
  }

  /** Numeric ascending sort: a sorted permutation of the input. */
  function SortAsc(s: seq<int>): (r: seq<int>)
    ensures Ascending(r) && multiset(r) == multiset(s)
    ensures forall k :: k in r <==> k in s
    ensures forall h: nat :: RowsInRange(s, h) ==> RowsInRange(r, h)
    decreases |s|
  {
    if s == [] then []
    else
      assert s == [s[0]] + s[1..];
      var r := Insert(s[0], SortAsc(s[1..]));
      assert forall k :: k in r <==> k in s by {
        forall k ensures k in r <==> k in s {
          assert k in r <==> k in multiset(r);
          assert k in s <==> k in multiset(s);
        }
      }
      assert forall h: nat :: RowsInRange(s, h) ==> RowsInRange(r, h) by {
        forall h: nat | RowsInRange(s, h) ensures RowsInRange(r, h) {
          forall i | 0 <= i < |r| ensures 0 <= r[i] < h {
            assert r[i] in s;
            var j :| 0 <= j < |s| && s[j] == r[i];
          }
        }
      }
      r
  }

  /** Sorting rows that hold no duplicates gives a strictly ascending list. */
  lemma {:induction false} SortAscStrict(s: seq<int>)
    requires Distinct(s)
    ensures StrictlyAscending(SortAsc(s))
    decreases |s|
  {
    if s != [] {
      var t := SortAsc(s[1..]);
      assert Distinct(s[1..]) by {
        forall i, j | 0 <= i < j < |s[1..]| ensures s[1..][i] != s[1..][j] {
          assert s[1..][i] == s[i + 1] && s[1..][j] == s[j + 1];
        }
      }
      SortAscStrict(s[1..]);
      assert s[0] !in t by {
        assert s[0] in t <==> s[0] in multiset(t);
        assert s[0] !in s[1..];
      }
      InsertStrict(s[0], t);
    }
  }

  // ---------------------------------------------------------------------
  // Completed-row clearing (`clearCompleteRows`)

  /** Every column of row `row` is occupied. */
  predicate RowComplete(g: Grid, w: nat, h: nat, row: int)
    requires Shaped(g, w, h) && 0 <= row < h
  {
    forall x :: 0 <= x < w ==> g[x][row] != Empty
  }

  predicate RowsInRange(rows: seq<int>, h: nat)
  {
    forall i :: 0 <= i < |rows| ==> 0 <= rows[i] < h
  }

  /** The loop of `clearCompleteRows` over `rows` in the given order: a row
      that is complete when its turn comes is shifted out. */
  function ClearRows(g: Grid, w: nat, h: nat, rows: seq<int>): (g': Grid)
    requires Shaped(g, w, h) && RowsInRange(rows, h)
    ensures Shaped(g', w, h)
    decreases |rows|
  {
    if rows == [] then g
    else
      var g1 := if RowComplete(g, w, h, rows[0]) then ShiftOut(g, w, h, rows[0]) else g;
      ClearRows(g1, w, h, rows[1..])
  }

  /** The rows of `rows` that are complete in `g`, in order. */
  function CompleteRows(g: Grid, w: nat, h: nat, rows: seq<int>): (c: seq<int>)
    requires Shaped(g, w, h) && RowsInRange(rows, h)
    ensures RowsInRange(c, h)
    ensures forall r :: r in c <==> r in rows && RowComplete(g, w, h, r)
    decreases |rows|
  {
    if rows == [] then []
    else
      var rest := CompleteRows(g, w, h, rows[1..]);
      assert forall r :: r in rows <==> r == rows[0] || r in rows[1..];
      if RowComplete(g, w, h, rows[0]) then [rows[0]] + rest else rest
  }

  /** Shifts out each of `rows` in turn. */
  function ShiftOutAll(g: Grid, w: nat, h: nat, rows: seq<int>): (g': Grid)
    requires Shaped(g, w, h) && RowsInRange(rows, h)
    ensures Shaped(g', w, h)
    decreases |rows|
  {
    if rows == [] then g else ShiftOutAll(ShiftOut(g, w, h, rows[0]), w, h, rows[1..])
  }

  /** Which of `rows` are complete depends only on those rows' cells. */
  lemma {:induction false} CompleteRowsFrame(g: Grid, g': Grid, w: nat, h: nat, rows: seq<int>)
    requires Shaped(g, w, h) && Shaped(g', w, h) && RowsInRange(rows, h)
    requires forall i, x :: 0 <= i < |rows| && 0 <= x < w ==> g'[x][rows[i]] == g[x][rows[i]]
    ensures CompleteRows(g', w, h, rows) == CompleteRows(g, w, h, rows)
    decreases |rows|
  {
    if rows != [] {
      assert RowComplete(g', w, h, rows[0]) == RowComplete(g, w, h, rows[0]) by {
        assert forall x :: 0 <= x < w ==> g'[x][rows[0]] == g[x][rows[0]];
      }
      assert forall i :: 0 <= i < |rows[1..]| ==> rows[1..][i] == rows[i + 1];
      CompleteRowsFrame(g, g', w, h, rows[1..]);
    }
  }

  /** Processing the rows in ascending order, an earlier clear never changes
      a later row of the list (clearing row r leaves every row below r in
      place). So the result is the same as deciding completeness for every
      listed row up front, on the grid as it was, and then shifting out the
      complete ones. */
  lemma {:induction false} ClearRowsDecidedUpFront(g: Grid, w: nat, h: nat, rows: seq<int>)
    requires Shaped(g, w, h) && RowsInRange(rows, h) && StrictlyAscending(rows)
    ensures ClearRows(g, w, h, rows) == ShiftOutAll(g, w, h, CompleteRows(g, w, h, rows))
    decreases |rows|
  {
    if rows != [] {
      var rest := rows[1..];
      assert forall i :: 0 <= i < |rest| ==> rest[i] == rows[i + 1] && rows[0] < rest[i];
      if RowComplete(g, w, h, rows[0]) {
        var g1 := ShiftOut(g, w, h, rows[0]);
        CompleteRowsFrame(g, g1, w, h, rest);
        ClearRowsDecidedUpFront(g1, w, h, rest);
      } else {
        ClearRowsDecidedUpFront(g, w, h, rest);
      }
    }
  }

  // ---------------------------------------------------------------------
  // Stack height (`manageStackHeight`)

  /** Some cell of row `row` is occupied. */
  predicate RowHasBlock(g: Grid, w: nat, h: nat, row: int)
    requires Shaped(g, w, h) && 0 <= row < h
  {
    exists x :: 0 <= x < w && g[x][row] != Empty
  }

  /** The first row at or below `y` holding a block, or `h` when there is none. */
  function HighestFrom(g: Grid, w: nat, h: nat, y: nat): (r: nat)
    requires Shaped(g, w, h) && y <= h
    ensures y <= r <= h
    ensures r < h ==> RowHasBlock(g, w, h, r)
    ensures forall y' :: y <= y' < r ==> !RowHasBlock(g, w, h, y')
    decreases h - y
  {
    if y == h then h
    else if RowHasBlock(g, w, h, y) then y
    else HighestFrom(g, w, h, y + 1)
  }

  /** `highestPoint`: the topmost occupied row, `h` for a grid with no block. */
  function HighestPoint(g: Grid, w: nat, h: nat): (r: nat)
    requires Shaped(g, w, h)
    ensures r <= h
  {
    HighestFrom(g, w, h, 0)
  }

  /** `(h - r) / h >= num / den` in exact arithmetic. On a grid with no rows
      the source divides 0 by 0, and a NaN comparison is false. */
  predicate NeedsRelief(h: nat, r: nat, num: nat, den: nat)
  {
    h > 0 && den * (h - r) >= num * h
  }

  /** The grid after `manageStackHeight` with threshold num/den. */
  function Relieved(g: Grid, w: nat, h: nat, num: nat, den: nat): (g': Grid)
    requires Shaped(g, w, h)
    ensures Shaped(g', w, h)
  {
    if NeedsRelief(h, HighestPoint(g, w, h), num, den) then RemoveBottom(g, w, h) else g
  }

  /** `manageStackHeight` removes exactly one row (the bottom one) when the
      stack reaches the threshold and otherwise changes nothing; in
      particular an empty grid is never touched. */
  lemma ReliefOnlyUnderPressure(g: Grid, w: nat, h: nat, num: nat, den: nat)
    requires Shaped(g, w, h) && 0 < num
    ensures (forall x, y :: 0 <= x < w && 0 <= y < h ==> g[x][y] == Empty) ==> Relieved(g, w, h, num, den) == g
    ensures NeedsRelief(h, HighestPoint(g, w, h), num, den) ==>
      Relieved(g, w, h, num, den) == ShiftOut(g, w, h, h - 1)
    ensures !NeedsRelief(h, HighestPoint(g, w, h), num, den) ==> Relieved(g, w, h, num, den) == g
  {
    if forall x, y :: 0 <= x < w && 0 <= y < h ==> g[x][y] == Empty {
      assert HighestPoint(g, w, h) == h;
    }
  }

  /** The grid after `freezePiece`: write the units, clear the affected rows
      in ascending order, then regulate the stack height. */
  function Settle(g: Grid, w: nat, h: nat, x: int, y: int, fill: string, units: seq<Offset>, num: nat, den: nat): (g': Grid)
    requires Shaped(g, w, h)
    ensures Shaped(g', w, h)
  {
    var stamped := Stamp(g, w, h, x, y, fill, units);
    var rows := SortAsc(NewRows(w, h, x, y, units));
    Relieved(ClearRows(stamped, w, h, rows), w, h, num, den)
  }

  /** The rows `freezePiece` collects are distinct, so once sorted they are
      strictly ascending: freezing clears exactly the collected rows that are
      complete on the stamped grid, as if all were checked before any is
      removed. */
  lemma SettleDecidesRowsUpFront(g: Grid, w: nat, h: nat, x: int, y: int, fill: string, units: seq<Offset>, num: nat, den: nat)
    requires Shaped(g, w, h)
    ensures var stamped := Stamp(g, w, h, x, y, fill, units);
      var rows := SortAsc(NewRows(w, h, x, y, units));
      Settle(g, w, h, x, y, fill, units, num, den) ==
      Relieved(ShiftOutAll(stamped, w, h, CompleteRows(stamped, w, h, rows)), w, h, num, den)
  {
    var rows := NewRows(w, h, x, y, units);
    SortAscStrict(rows);
    ClearRowsDecidedUpFront(Stamp(g, w, h, x, y, fill, units), w, h, SortAsc(rows));
  }

  // ---------------------------------------------------------------------
  // Horizontal extent (`getPieceCenterX`)

  /** The leftmost absolute column of a non-empty unit list. */
  function MinCol(x: int, units: seq<Offset>): (m: int)
    requires |units| > 0
    ensures exists i :: 0 <= i < |units| && m == x + units[i].dx
    ensures forall i :: 0 <= i < |units| ==> m <= x + units[i].dx
    decreases |units|
  {
    if |units| == 1 then x + units[0].dx
    else
      var n := |units| - 1;
      var m := MinCol(x, units[..n]);
      assert forall i :: 0 <= i < n ==> units[..n][i] == units[i];
      if x + units[n].dx < m then x + units[n].dx else m
  }

  /** The rightmost absolute column of a non-empty unit list. */
  function MaxCol(x: int, units: seq<Offset>): (m: int)
    requires |units| > 0
    ensures exists i :: 0 <= i < |units| && m == x + units[i].dx
    ensures forall i :: 0 <= i < |units| ==> x + units[i].dx <= m
    decreases |units|
  {
    if |units| == 1 then x + units[0].dx
    else
      var n := |units| - 1;
      var m := MaxCol(x, units[..n]);
      assert forall i :: 0 <= i < n ==> units[..n][i] == units[i];
      if x + units[n].dx > m then x + units[n].dx else m
  }

  /** `getPieceCenterX` doubled, so that the half-integer centre stays an
      integer: the sum of the leftmost and rightmost unit columns, found by
      one min/max accumulator pass over the units. */
  method CenterTwice(x: int, units: seq<Offset>) returns (c2: int)
    requires |units| > 0
    ensures c2 == MinCol(x, units) + MaxCol(x, units)
  {
    var lo, hi := x + units[0].dx, x + units[0].dx;
    var i := 1;
    while i < |units|
      invariant 1 <= i <= |units|
      invariant lo == MinCol(x, units[..i]) && hi == MaxCol(x, units[..i])
    {
      assert units[..i + 1][..i] == units[..i];
      var ux := x + units[i].dx;
      if ux < lo { lo := ux; }
      if ux > hi { hi := ux; }
      i := i + 1;
    }
    assert units[..|units|] == units;
    c2 := lo + hi;
  }

  // ---------------------------------------------------------------------
  // The grid as the program keeps it: module state edited in place

  class Board {
    /** `gridWidth` and `gridHeight`. */
    var width: nat
    var height: nat
    /** `staticUnits`. */
    var cells: Grid

    ghost predicate Valid()
      reads this
    {
      Shaped(cells, width, height)
    }

    /** The grid state after the resize handler has fixed the dimensions. */
    constructor (w: nat, h: nat)
      ensures Valid() && width == w && height == h
      ensures cells == EmptyGrid(w, h)
    {
      width, height := w, h;
      new;
      InitializeGrid();
    }

    /** The grid part of `resizeCanvas`: new dimensions and a fresh grid. */
    method Resize(w: nat, h: nat)
      modifies this
      ensures Valid() && width == w && height == h
      ensures cells == EmptyGrid(w, h)
    {
      width, height := w, h;
      InitializeGrid();
    }

    /** `initializeGrid`: `width` columns of `height` empty cells each. */
    method InitializeGrid()
      modifies this
      ensures width == old(width) && height == old(height)
      ensures Valid() && cells == EmptyGrid(width, height)
    {
      cells := [];
      var x := 0;
      while x < width
        invariant width == old(width) && height == old(height)
        invariant 0 <= x <= width
        invariant cells == EmptyGrid(x, height)
      {
        var column: seq<Cell> := [];
        var y := 0;
        while y < height
          invariant 0 <= y <= height
          invariant column == seq(y, _ => Empty)
        {
          column := column + [Empty];
          y := y + 1;
        }
        assert EmptyGrid(x + 1, height) == EmptyGrid(x, height) + [column];
        cells := cells + [column];
        x := x + 1;
      }
    }

    /** Splices row `row` out of every column and unshifts an empty cell. */
    method ShiftOutRow(row: nat)
      requires Valid() && row < height
      modifies this
      ensures width == old(width) && height == old(height)
      ensures Valid() && cells == ShiftOut(old(cells), width, height, row)
    {
      ghost var g := cells;
      var x := 0;
      while x < width
        invariant width == old(width) && height == old(height)
        invariant 0 <= x <= width && |cells| == width
        invariant forall i :: 0 <= i < x ==> cells[i] == ShiftColumn(g[i], row)
        invariant forall i :: x <= i < width ==> cells[i] == g[i]
      {
        cells := cells[x := [Empty] + cells[x][..row] + cells[x][row + 1..]];
        x := x + 1;
      }
    }

    /** `removeBottomRow` (see `RemoveBottom` for the zero-height case). */
    method RemoveBottomRow()
      requires Valid()
      modifies this
      ensures width == old(width) && height == old(height)
      ensures Valid() && cells == RemoveBottom(old(cells), width, height)
    {
      if height > 0 {
        ShiftOutRow(height - 1);
      }
    }

    /** The completeness scan of `clearCompleteRows`: stops at the first
        empty cell of the row. */
    method RowIsComplete(row: int) returns (complete: bool)
      requires Valid() && 0 <= row < height
      ensures complete == RowComplete(cells, width, height, row)
    {
      complete := true;
      var x := 0;
      while x < width
        invariant 0 <= x <= width
        invariant complete
        invariant forall i :: 0 <= i < x ==> cells[i][row] != Empty
      {
        if cells[x][row] == Empty {
          complete := false;
          break;
        }
        x := x + 1;
      }
    }

    /** `clearCompleteRows`: sorts the rows ascending, then shifts out each
        row that is complete when its turn comes. */
    method ClearCompleteRows(checkRows: seq<int>)
      requires Valid() && RowsInRange(checkRows, height)
      modifies this
      ensures width == old(width) && height == old(height)
      ensures Valid() && cells == ClearRows(old(cells), width, height, SortAsc(checkRows))
    {
      var rows := SortAsc(checkRows);
      ghost var g := cells;
      var i := 0;
      while i < |rows|
        invariant width == old(width) && height == old(height)
        invariant 0 <= i <= |rows| && Valid()
        invariant ClearRows(cells, width, height, rows[i..]) == ClearRows(g, width, height, rows)
      {
        assert rows[i..][1..] == rows[i + 1..];
        var complete := RowIsComplete(rows[i]);
        if complete {
          ShiftOutRow(rows[i]);
        }
        i := i + 1;
      }
    }

    /** The search of `manageStackHeight`: the first row, from the top, that
        holds a block, or `height` when the grid holds none. */
    method FindHighestPoint() returns (r: nat)
      requires Valid()
      ensures r == HighestPoint(cells, width, height)
    {
      r := height;
      var y := 0;
      while y < height
        invariant 0 <= y <= height
        invariant HighestFrom(cells, width, height, y) == HighestPoint(cells, width, height)
        invariant r == height
      {
        var hasBlocks := false;
        var x := 0;
        while x < width
          invariant 0 <= x <= width
          invariant hasBlocks <==> exists i :: 0 <= i < x && cells[i][y] != Empty
        {
          if cells[x][y] != Empty {
            hasBlocks := true;
            break;
          }
          x := x + 1;
        }
        if hasBlocks {
          r := y;
          return;
        }
        y := y + 1;
      }
    }

    /** `manageStackHeight` with threshold num/den: one bottom row removed
        when the stack reaches the threshold. */
    method ManageStackHeight(num: nat, den: nat)
      requires Valid()
      modifies this
      ensures width == old(width) && height == old(height)
      ensures Valid() && cells == Relieved(old(cells), width, height, num, den)
    {
      var highestPoint := FindHighestPoint();
      if NeedsRelief(height, highestPoint, num, den) {
        RemoveBottomRow();
      }
    }

    /** The unit loop of `freezePiece` for a piece anchored at (x, y): writes
        the fill into each in-bounds unit cell and returns the distinct
        affected rows in order of first appearance. */
    method StampUnits(x: int, y: int, fill: string, units: seq<Offset>) returns (affectedRows: seq<int>)
      requires Valid()
      modifies this
      ensures width == old(width) && height == old(height)
      ensures Valid() && cells == Stamp(old(cells), width, height, x, y, fill, units)
      ensures affectedRows == NewRows(width, height, x, y, units)
    {
      ghost var g := cells;
      affectedRows := [];
      var i := 0;
      while i < |units|
        invariant width == old(width) && height == old(height)
        invariant 0 <= i <= |units| && Valid()
        invariant cells == Stamp(g, width, height, x, y, fill, units[..i])
        invariant affectedRows == NewRows(width, height, x, y, units[..i])
      {
        StampStep(g, width, height, x, y, fill, units, i);
        var staticX, staticY := x + units[i].dx, y + units[i].dy;
        if 0 <= staticX < width && 0 <= staticY < height {
          cells := cells[staticX := cells[staticX][staticY := Block(fill)]];
          if staticY !in affectedRows {
            affectedRows := affectedRows + [staticY];
          }
        }
        i := i + 1;
      }
      assert units[..|units|] == units;
    }

    /** `freezePiece` for a piece anchored at (x, y): stamps the units,
        clears complete rows among the affected ones, then regulates the
        stack height. */
    method Freeze(x: int, y: int, fill: string, units: seq<Offset>, num: nat, den: nat)
      requires Valid()
      modifies this
      ensures width == old(width) && height == old(height)
      ensures Valid() && cells == Settle(old(cells), width, height, x, y, fill, units, num, den)
    {
      var affectedRows := StampUnits(x, y, fill, units);
      ClearCompleteRows(affectedRows);
      ManageStackHeight(num, den);
    }
  }
}
