/** The simulation of `src/main.js`: pieces spawned on a timer from row -3,
    gravity every 100 ms, stack relief at 35% of the height, and steering
    that moves a piece one column away from a nearby pointer. */
module MainSim {
  import opened Board
  import opened Catalog

  const UnitSize: int := 12
  const TickRate: int := 100
  const SpawnInterval: int := 200
  /** Minimum time between two steering moves of one piece. */
  const MoveThrottle: int := 150
  const SpawnRow: int := -3
  const PieceFill: string := "rgba(255, 255, 255, 0.8)"
  /** The stack-relief threshold 0.35 as the fraction 7/20. */
  const StackNum: nat := 7
  const StackDen: nat := 20

  /** A falling piece: anchor, fill, unit offsets and the time of its last
      steering move. */
  datatype Piece = Piece(x: int, y: int, color: string, units: seq<Offset>, lastMoveTime: int)

  /** The piece `new Piece(template)` builds from a spawn's random draws. */
  function NewPiece(d: Draw): (p: Piece)
    requires d.template < TemplateCount
  {
    Piece(d.column, SpawnRow, PieceFill, TemplateUnits(d.template), 0)
  }

  function PieceCollides(g: Grid, w: nat, h: nat, p: Piece, dx: int, dy: int): (b: bool)
    requires Shaped(g, w, h)
  {
    Collides(g, w, h, p.x, p.y, p.units, dx, dy)
  }

  // ---------------------------------------------------------------------
  // Spawning (`createNewPiece`)

  /** The grid after `createNewPiece`: the bottom row goes when the new piece
      collides where it stands; the spawn itself is never refused. */
  function SpawnGrid(g: Grid, w: nat, h: nat, p: Piece): (g': Grid)
    requires Shaped(g, w, h)
    ensures Shaped(g', w, h)
  {
    if PieceCollides(g, w, h, p, 0, 0) then RemoveBottom(g, w, h) else g
  }

  /** A spawn removes a row only when the random column puts a unit outside
      the grid's columns: the grid's contents play no part. */
  lemma SpawnReliefOnlyAtSideEdges(g: Grid, w: nat, h: nat, d: Draw)
    requires Shaped(g, w, h) && d.template < TemplateCount
    ensures SpawnGrid(g, w, h, NewPiece(d)) != g ==>
      exists i :: 0 <= i < 4 && (d.column + TemplateUnits(d.template)[i].dx < 0 || d.column + TemplateUnits(d.template)[i].dx >= w)
  {
    SpawnProbeSeesOnlyColumns(g, w, h, d.column, SpawnRow, d.template);
  }

  // ---------------------------------------------------------------------
  // Gravity (`applyGravity`)

  /** The grid after `freezePiece(p)`. */
  function FreezeGrid(g: Grid, w: nat, h: nat, p: Piece): (g': Grid)
    requires Shaped(g, w, h)
    ensures Shaped(g', w, h)
  {
    Settle(g, w, h, p.x, p.y, p.color, p.units, StackNum, StackDen)
  }

  /** The body of the loop of `applyGravity` for the piece at index i-1: a
      piece whose probe one row down is free moves down, any other piece is
      frozen into the grid and spliced out of the list. */
  function GravityStep(g: Grid, w: nat, h: nat, ps: seq<Piece>, i: nat): (r: (Grid, seq<Piece>))
    requires Shaped(g, w, h) && 0 < i <= |ps|
    ensures Shaped(r.0, w, h) && i - 1 <= |r.1|
  {
    var p := ps[i - 1];
    if !PieceCollides(g, w, h, p, 0, 1) then (g, ps[i - 1 := p.(y := p.y + 1)])
    else (FreezeGrid(g, w, h, p), ps[..i - 1] + ps[i..])
  }

  /** The reverse loop of `applyGravity` over indices i-1 down to 0. */
  function GravityFrom(g: Grid, w: nat, h: nat, ps: seq<Piece>, i: nat): (r: (Grid, seq<Piece>))
    requires Shaped(g, w, h) && i <= |ps|
    ensures Shaped(r.0, w, h)
    decreases i
  {
    if i == 0 then (g, ps)
    else
      var (g', ps') := GravityStep(g, w, h, ps, i);
      GravityFrom(g', w, h, ps', i - 1)
  }

  function Gravity(g: Grid, w: nat, h: nat, ps: seq<Piece>): (r: (Grid, seq<Piece>))
    requires Shaped(g, w, h)
    ensures Shaped(r.0, w, h)
  {
    GravityFrom(g, w, h, ps, |ps|)
  }

  /** The first n pieces of `ps` that `kept` marks, in their order, each one
      row lower. */
  function Advance(ps: seq<Piece>, kept: seq<bool>, n: nat): (r: seq<Piece>)
    requires n <= |ps| && n <= |kept|
  {
    if n == 0 then []
    else Advance(ps, kept, n - 1) + (if kept[n - 1] then [ps[n - 1].(y := ps[n - 1].y + 1)] else [])
  }

  /** `Advance` reads only the first n pieces and marks. */
  lemma {:induction false} AdvanceFrame(ps: seq<Piece>, kept: seq<bool>, ps': seq<Piece>, kept': seq<bool>, n: nat)
    requires n <= |ps| && n <= |kept| && n <= |ps'| && n <= |kept'|
    requires forall k :: 0 <= k < n ==> ps[k] == ps'[k] && kept[k] == kept'[k]
    ensures Advance(ps, kept, n) == Advance(ps', kept', n)
  {
    if n > 0 {
      AdvanceFrame(ps, kept, ps', kept', n - 1);
    }
  }

  lemma SpliceParts(ps: seq<Piece>, ps': seq<Piece>, i: nat, middle: seq<Piece>)
    requires 0 < i <= |ps| && ps' == ps[..i - 1] + middle + ps[i..]
    ensures forall k :: 0 <= k < i - 1 ==> ps'[k] == ps[k]
    ensures ps'[i - 1..] == middle + ps[i..]
  {
  }

  lemma AppendAssoc(a: seq<Piece>, b: seq<Piece>, c: seq<Piece>)
    ensures a + (b + c) == (a + b) + c
  {
  }

  /** The piece list after one more loop step, in terms of `Advance`: the
      piece at index i-1 becomes `middle` (itself one row lower, or nothing)
      and nothing before it changes. */
  lemma AdvanceStep(ps: seq<Piece>, ps': seq<Piece>, kept': seq<bool>, i: nat, moved: bool, middle: seq<Piece>)
    requires 0 < i <= |ps| && |kept'| == i - 1
    requires middle == if moved then [ps[i - 1].(y := ps[i - 1].y + 1)] else []
    requires ps' == ps[..i - 1] + middle + ps[i..]
    ensures Advance(ps', kept', i - 1) + ps'[i - 1..] == Advance(ps, kept' + [moved], i) + ps[i..]
  {
    var kept := kept' + [moved];
    SpliceParts(ps, ps', i, middle);
    assert forall k :: 0 <= k < i - 1 ==> kept[k] == kept'[k];
    AdvanceFrame(ps', kept', ps, kept, i - 1);
    AppendAssoc(Advance(ps, kept, i - 1), middle, ps[i..]);
  }

  /** One loop body: the piece at index i-1 has moved down one row or left
      the list, and the grid changes only when it left. */
  lemma GravityStepShape(g: Grid, w: nat, h: nat, ps: seq<Piece>, i: nat) returns (moved: bool)
    requires Shaped(g, w, h) && 0 < i <= |ps|
    ensures GravityStep(g, w, h, ps, i).1 ==
      ps[..i - 1] + (if moved then [ps[i - 1].(y := ps[i - 1].y + 1)] else []) + ps[i..]
    ensures moved ==> GravityStep(g, w, h, ps, i).0 == g
  {
    var p := ps[i - 1];
    moved := !PieceCollides(g, w, h, p, 0, 1);
    assert ps == ps[..i - 1] + [p] + ps[i..];
  }

  lemma {:induction false} GravityFromShape(g: Grid, w: nat, h: nat, ps: seq<Piece>, i: nat) returns (kept: seq<bool>)
    requires Shaped(g, w, h) && i <= |ps|
    ensures |kept| == i
    ensures GravityFrom(g, w, h, ps, i).1 == Advance(ps, kept, i) + ps[i..]
    ensures (forall k :: 0 <= k < i ==> kept[k]) ==> GravityFrom(g, w, h, ps, i).0 == g
    decreases i
  {
    if i == 0 {
      kept := [];
    } else {
      var r := GravityFrom(g, w, h, ps, i);
      var s := GravityStep(g, w, h, ps, i);
      assert r == GravityFrom(s.0, w, h, s.1, i - 1);
      var kept' := GravityFromShape(s.0, w, h, s.1, i - 1);
      assert r.1 == Advance(s.1, kept', i - 1) + s.1[i - 1..];
      var moved := GravityStepShape(g, w, h, ps, i);
      var middle := if moved then [ps[i - 1].(y := ps[i - 1].y + 1)] else [];
      kept := kept' + [moved];
      AdvanceStep(ps, s.1, kept', i, moved, middle);
      assert forall k :: 0 <= k < i - 1 ==> kept[k] == kept'[k];
    }
  }

  /** One gravity pass: every piece present at the start either moves one row
      down (same column, everything else kept) or is frozen and removed, and
      the pieces that move keep their relative order. When no piece freezes,
      the grid is untouched. */
  lemma GravityShape(g: Grid, w: nat, h: nat, ps: seq<Piece>) returns (kept: seq<bool>)
    requires Shaped(g, w, h)
    ensures |kept| == |ps|
    ensures Gravity(g, w, h, ps).1 == Advance(ps, kept, |ps|)
    ensures (forall k :: 0 <= k < |ps| ==> kept[k]) ==> Gravity(g, w, h, ps).0 == g
  {
    kept := GravityFromShape(g, w, h, ps, |ps|);
    assert ps[|ps|..] == [];
  }

  // ---------------------------------------------------------------------
  // Steering (`isMouseNearPiece`, `getPieceCenterX`, `handleMouseInteraction`)

  /** Cell (cx, cy) lies within distance 2.5 of the pointer cell: the
      squared distance is an integer, so it is at most 6. */
  predicate WithinReach(mgx: int, mgy: int, cx: int, cy: int)
  {
    (mgx - cx) * (mgx - cx) + (mgy - cy) * (mgy - cy) <= 6
  }

  /** `isMouseNearPiece`: the units are examined in order; the answer is true
      exactly when some unit lies within reach of the pointer cell. */
  function IsNear(x: int, y: int, units: seq<Offset>, mgx: int, mgy: int): (b: bool)
    ensures b <==> exists i :: 0 <= i < |units| && WithinReach(mgx, mgy, x + units[i].dx, y + units[i].dy)
    decreases |units|
  {
    if units == [] then false
    else
      if WithinReach(mgx, mgy, x + units[0].dx, y + units[0].dy) then true
      else
        var rest := IsNear(x, y, units[1..], mgx, mgy);
        assert forall i :: 1 <= i < |units| ==> units[i] == units[1..][i - 1];
        rest
  }

  /** Away from the pointer: left when the pointer column is right of the
      centre, right when it is left of it, no move on the centre. `c2` is
      twice the centre. */
  function SteerDirection(mgx: int, c2: int): (dir: int)
  {
    if 2 * mgx > c2 then -1 else if 2 * mgx < c2 then 1 else 0
  }

  /** A piece pushed `dir` columns, when that is a move and the probe there
      is free, recording the time of the move. */
  function Push(g: Grid, w: nat, h: nat, p: Piece, dir: int, now: int): (q: Piece)
    requires Shaped(g, w, h)
  {
    if dir != 0 && !PieceCollides(g, w, h, p, dir, 0) then p.(x := p.x + dir, lastMoveTime := now) else p
  }

  /** One piece after the body of the steering loop. */
  function Steered(g: Grid, w: nat, h: nat, p: Piece, now: int, mgx: int, mgy: int): (q: Piece)
    requires Shaped(g, w, h)
  {
    if now - p.lastMoveTime < MoveThrottle || !IsNear(p.x, p.y, p.units, mgx, mgy) then p
    else Push(g, w, h, p, SteerDirection(mgx, MinCol(p.x, p.units) + MaxCol(p.x, p.units)), now)
  }

  /** A piece moves exactly when its throttle has expired, the pointer is
      near, the pointer is strictly on one side of its centre and the
      one-column probe away from it is free; it then moves exactly one column
      away from the pointer and records the time. Otherwise nothing changes. */
  lemma SteeringMovesOneColumnAway(g: Grid, w: nat, h: nat, p: Piece, now: int, mgx: int, mgy: int)
    requires Shaped(g, w, h)
    ensures var q := Steered(g, w, h, p, now, mgx, mgy);
      q.y == p.y && q.units == p.units && q.color == p.color &&
      (q != p <==> now - p.lastMoveTime >= MoveThrottle && IsNear(p.x, p.y, p.units, mgx, mgy) &&
                   2 * mgx != MinCol(p.x, p.units) + MaxCol(p.x, p.units) &&
                   !PieceCollides(g, w, h, p, SteerDirection(mgx, MinCol(p.x, p.units) + MaxCol(p.x, p.units)), 0)) &&
      (q != p ==> q.lastMoveTime == now &&
                  (q.x == p.x - 1 <==> 2 * mgx > MinCol(p.x, p.units) + MaxCol(p.x, p.units)) &&
                  (q.x == p.x + 1 <==> 2 * mgx < MinCol(p.x, p.units) + MaxCol(p.x, p.units)))
  {
  }

  /** A push whose probe was free leaves a clear piece clear. */
  lemma PushKeepsClear(g: Grid, w: nat, h: nat, p: Piece, dir: int, now: int)
    requires Shaped(g, w, h) && !PieceCollides(g, w, h, p, 0, 0)
    ensures !PieceCollides(g, w, h, Push(g, w, h, p, dir, now), 0, 0)
  {
    if dir != 0 && !PieceCollides(g, w, h, p, dir, 0) {
      CollidesShift(g, w, h, p.x, p.y, p.units, dir, 0);
    }
  }

  /** Steering never pushes a piece into a wall or a settled block: a piece
      clear of collisions before the step is clear after it. */
  lemma SteeringKeepsClear(g: Grid, w: nat, h: nat, p: Piece, now: int, mgx: int, mgy: int)
    requires Shaped(g, w, h) && !PieceCollides(g, w, h, p, 0, 0)
    ensures !PieceCollides(g, w, h, Steered(g, w, h, p, now, mgx, mgy), 0, 0)
  {
    if now - p.lastMoveTime >= MoveThrottle && IsNear(p.x, p.y, p.units, mgx, mgy) {
      PushKeepsClear(g, w, h, p, SteerDirection(mgx, MinCol(p.x, p.units) + MaxCol(p.x, p.units)), now);
    }
  }

  // ---------------------------------------------------------------------
  // One animation frame (`gameLoop`, without rendering and rescheduling)

  function SteerAll(g: Grid, w: nat, h: nat, ps: seq<Piece>, now: int, mgx: int, mgy: int): (r: seq<Piece>)
    requires Shaped(g, w, h)
    ensures |r| == |ps|
    ensures forall i :: 0 <= i < |ps| ==> r[i] == Steered(g, w, h, ps[i], now, mgx, mgy)
  {
    seq(|ps|, i requires 0 <= i < |ps| => Steered(g, w, h, ps[i], now, mgx, mgy))
  }

  /** The grid and pieces after one frame: gravity when due, then a spawn
      when due, then steering against the pointer pixel (mx, my). */
  function Frame(g: Grid, w: nat, h: nat, ps: seq<Piece>, gravityDue: bool, spawnDue: bool, d: Draw,
                 steerNow: int, mx: int, my: int): (r: (Grid, seq<Piece>))
    requires Shaped(g, w, h) && d.template < TemplateCount
    ensures Shaped(r.0, w, h)
  {
    var (g1, ps1) := if gravityDue then Gravity(g, w, h, ps) else (g, ps);
    var (g2, ps2) := if spawnDue then (SpawnGrid(g1, w, h, NewPiece(d)), ps1 + [NewPiece(d)]) else (g1, ps1);
    (g2, SteerAll(g2, w, h, ps2, steerNow, mx / UnitSize, my / UnitSize))
  }

  // ---------------------------------------------------------------------
  // The module state of the script

  class Simulation {
    /** `staticUnits` with `gridWidth` and `gridHeight`. */
    const board: Board
    /** `fallingPieces`. */
    var pieces: seq<Piece>
    var timeCur: int
    /** The next gravity deadline. */
    var timeEvent: int
    /** The next spawn deadline. */
    var spawnTimer: int

    ghost predicate Valid()
      reads this, board
    {
      board.Valid()
    }

    /** The script's initial state, once the grid has its dimensions. */
    constructor (w: nat, h: nat)
      ensures Valid() && fresh(board)
      ensures board.width == w && board.height == h && board.cells == EmptyGrid(w, h)
      ensures pieces == [] && timeCur == 0 && timeEvent == 0 && spawnTimer == 0
    {
      board := new Board(w, h);
      pieces := [];
      timeCur, timeEvent, spawnTimer := 0, 0, 0;
    }

    /** `createNewPiece`: one new piece is always appended; when it collides
        where it stands, the bottom row is removed first. */
    method CreateNewPiece(d: Draw)
      requires Valid() && ValidDraw(d, board.width)
      modifies this, board
      ensures Valid() && board.width == old(board.width) && board.height == old(board.height)
      ensures timeCur == old(timeCur) && timeEvent == old(timeEvent) && spawnTimer == old(spawnTimer)
      ensures pieces == old(pieces) + [NewPiece(d)]
      ensures board.cells == SpawnGrid(old(board.cells), board.width, board.height, NewPiece(d))
    {
      var newPiece := NewPiece(d);
      if PieceCollides(board.cells, board.width, board.height, newPiece, 0, 0) {
        board.RemoveBottomRow();
      }
      pieces := pieces + [newPiece];
    }

    /** `applyGravity`: the reverse loop, freezing and splicing out pieces
        that cannot move down. */
    method ApplyGravity()
      requires Valid()
      modifies this, board
      ensures Valid() && board.width == old(board.width) && board.height == old(board.height)
      ensures timeCur == old(timeCur) && timeEvent == old(timeEvent) && spawnTimer == old(spawnTimer)
      ensures (board.cells, pieces) == Gravity(old(board.cells), board.width, board.height, old(pieces))
    {
      ghost var g0, ps0 := board.cells, pieces;
      var i := |pieces|;
      while i > 0
        invariant 0 <= i <= |pieces| && Valid()
        invariant board.width == old(board.width) && board.height == old(board.height)
        invariant timeCur == old(timeCur) && timeEvent == old(timeEvent) && spawnTimer == old(spawnTimer)
        invariant GravityFrom(board.cells, board.width, board.height, pieces, i) ==
                  GravityFrom(g0, board.width, board.height, ps0, |ps0|)
      {
        var piece := pieces[i - 1];
        if !PieceCollides(board.cells, board.width, board.height, piece, 0, 1) {
          pieces := pieces[i - 1 := piece.(y := piece.y + 1)];
        } else {
          board.Freeze(piece.x, piece.y, piece.color, piece.units, StackNum, StackDen);
          pieces := pieces[..i - 1] + pieces[i..];
        }
        i := i - 1;
      }
    }

    /** The body of the loop of `handleMouseInteraction` for one piece, the
        pointer in cell (mouseGridX, mouseGridY); it changes nothing and
        returns the piece as the body leaves it. */
    method SteerPiece(piece: Piece, now: int, mouseGridX: int, mouseGridY: int) returns (steered: Piece)
      requires Valid()
      ensures steered == Steered(board.cells, board.width, board.height, piece, now, mouseGridX, mouseGridY)
    {
      steered := piece;
      if now - piece.lastMoveTime >= MoveThrottle && IsNear(piece.x, piece.y, piece.units, mouseGridX, mouseGridY) {
        var centerTwice := CenterTwice(piece.x, piece.units);
        var targetDirection := 0;
        if 2 * mouseGridX > centerTwice {
          targetDirection := -1;
        } else if 2 * mouseGridX < centerTwice {
          targetDirection := 1;
        }
        if targetDirection != 0 && !PieceCollides(board.cells, board.width, board.height, piece, targetDirection, 0) {
          steered := piece.(x := piece.x + targetDirection, lastMoveTime := now);
        }
      }
    }

    /** `handleMouseInteraction` with the clock reading `now` and the pointer
        at pixel (mouseX, mouseY). */
    method HandleMouseInteraction(now: int, mouseX: int, mouseY: int)
      requires Valid()
      modifies this
      ensures Valid()
      ensures timeCur == old(timeCur) && timeEvent == old(timeEvent) && spawnTimer == old(spawnTimer)
      ensures pieces == SteerAll(board.cells, board.width, board.height, old(pieces), now, mouseX / UnitSize, mouseY / UnitSize)
    {
      var mouseGridX, mouseGridY := mouseX / UnitSize, mouseY / UnitSize;
      var i := 0;
      while i < |pieces|
        invariant 0 <= i <= |pieces| == |old(pieces)|
        invariant timeCur == old(timeCur) && timeEvent == old(timeEvent) && spawnTimer == old(spawnTimer)
        invariant forall k :: 0 <= k < i ==>
          pieces[k] == Steered(board.cells, board.width, board.height, old(pieces)[k], now, mouseGridX, mouseGridY)
        invariant forall k :: i <= k < |pieces| ==> pieces[k] == old(pieces)[k]
      {
        var steered := SteerPiece(pieces[i], now, mouseGridX, mouseGridY);
        pieces := pieces[i := steered];
        i := i + 1;
      }
    }

    /** `gameLoop` for one frame read at time `now`, steering reading the
        clock again as `steerNow`; `d` is the draw a spawn would use. */
    method GameLoop(now: int, d: Draw, steerNow: int, mouseX: int, mouseY: int)
      requires Valid() && ValidDraw(d, board.width)
      modifies this, board
      ensures Valid() && board.width == old(board.width) && board.height == old(board.height)
      ensures timeCur == now
      ensures timeEvent == if now >= old(timeEvent) then now + TickRate else old(timeEvent)
      ensures spawnTimer == if now >= old(spawnTimer) then now + SpawnInterval else old(spawnTimer)
      ensures (board.cells, pieces) == Frame(old(board.cells), board.width, board.height, old(pieces),
                                            now >= old(timeEvent), now >= old(spawnTimer), d, steerNow, mouseX, mouseY)
    {
      timeCur := now;
      if timeCur >= timeEvent {
        ApplyGravity();
        timeEvent := timeCur + TickRate;
      }
      if timeCur >= spawnTimer {
        CreateNewPiece(d);
        spawnTimer := timeCur + SpawnInterval;
      }
      HandleMouseInteraction(steerNow, mouseX, mouseY);
    }
  }
}
