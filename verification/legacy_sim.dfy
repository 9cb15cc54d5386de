/** The simulation of `src/mainBeforeBugFix.js`: no spawn timer; instead each
    falling piece spawns the next one as soon as its journey has started,
    and an empty piece list is refilled after every gravity pass. Gravity
    runs every 80 ms, stack relief at 30% of the height, and steering pushes
    a hovered piece three columns after probing only one. */
module LegacySim {
  import opened Board
  import opened Catalog

  const UnitSize: int := 10
  const TickRate: int := 80
  /** Minimum time between two steering moves of one piece. */
  const MoveThrottle: int := 200
  /** Columns a steering move shifts a piece by. */
  const SteerStep: int := 3
  const SpawnRow: int := -2
  const PieceFill: string := "rgb(256,256,256)"
  /** The stack-relief threshold 0.3 as the fraction 3/10. */
  const StackNum: nat := 3
  const StackDen: nat := 10

  /** A falling piece: anchor, fill, unit offsets, the time of its last
      steering move and whether it has already spawned its successor. */
  datatype Piece = Piece(x: int, y: int, color: string, units: seq<Offset>, lastMoveTime: int, hasTriggeredNext: bool)

  /** The piece `createNewPiece` builds from a spawn's random draws. */
  function NewPiece(d: Draw): (p: Piece)
    requires d.template < TemplateCount
  {
    Piece(d.column, SpawnRow, PieceFill, TemplateUnits(d.template), 0, false)
  }

  function PieceCollides(g: Grid, w: nat, h: nat, p: Piece, dx: int, dy: int): (b: bool)
    requires Shaped(g, w, h)
  {
    Collides(g, w, h, p.x, p.y, p.units, dx, dy)
  }

  /** `(y + 2) / (gridHeight + 2) >= 0.001` in exact arithmetic. */
  predicate JourneyStarted(y: int, h: nat)
  {
    1000 * (y + 2) >= h + 2
  }

  /** The piece spawns its successor in this gravity step. */
  predicate Triggers(p: Piece, h: nat)
  {
    JourneyStarted(p.y, h) && !p.hasTriggeredNext
  }

  /** A supply of random draws, every one possible on a grid of width `w`. */
  predicate DrawsValid(draws: seq<Draw>, w: nat)
  {
    forall i :: 0 <= i < |draws| ==> ValidDraw(draws[i], w)
  }

  /** The state a gravity pass works on: the grid, the piece list and how
      many random draws have been used so far. */
  datatype World = World(grid: Grid, pieces: seq<Piece>, drawn: nat)

  // ---------------------------------------------------------------------
  // Spawning (`createNewPiece`)

  /** The grid after `createNewPiece`: the bottom row goes when the new piece
      collides where it stands; the spawn itself is never refused. */
  function SpawnGrid(g: Grid, w: nat, h: nat, p: Piece): (g': Grid)
    requires Shaped(g, w, h)
    ensures Shaped(g', w, h)
  {
    if PieceCollides(g, w, h, p, 0, 0) then RemoveBottom(g, w, h) else g
  }

  /** `createNewPiece` with the next draw: the new piece is always appended. */
  function Spawn(wd: World, w: nat, h: nat, draws: seq<Draw>): (r: World)
    requires Shaped(wd.grid, w, h) && wd.drawn < |draws| && DrawsValid(draws, w)
    ensures Shaped(r.grid, w, h) && r.drawn == wd.drawn + 1
  {
    var p := NewPiece(draws[wd.drawn]);
    World(SpawnGrid(wd.grid, w, h, p), wd.pieces + [p], wd.drawn + 1)
  }

  /** A spawn removes a row only when the random column puts a unit outside
      the grid's columns: the grid's contents play no part. */
  lemma SpawnReliefOnlyAtSideEdges(g: Grid, w: nat, h: nat, d: Draw)
    requires Shaped(g, w, h) && d.template < TemplateCount
    ensures SpawnGrid(g, w, h, NewPiece(d)) != g ==>
      exists i :: 0 <= i < 4 && (d.column + TemplateUnits(d.template)[i].dx < 0 || d.column + TemplateUnits(d.template)[i].dx >= w)
  {
    SpawnProbeSeesOnlyColumns(g, w, h, d.column, SpawnRow, d.template);
  }

  // ---------------------------------------------------------------------
  // Gravity (`applyGravity`)

  /** The grid after `freezePiece(p)`. */
  function FreezeGrid(g: Grid, w: nat, h: nat, p: Piece): (g': Grid)
    requires Shaped(g, w, h)
    ensures Shaped(g', w, h)
  {
    Settle(g, w, h, p.x, p.y, p.color, p.units, StackNum, StackDen)
  }

  /** The first half of the body of the loop of `applyGravity` for the piece
      at index i-1: a piece whose journey has started and that has not
      spawned yet spawns a piece, appended at the end where the loop never
      reaches it, and is flagged. */
  function TriggerStep(wd: World, w: nat, h: nat, draws: seq<Draw>, i: nat): (r: World)
    requires Shaped(wd.grid, w, h) && 0 < i <= |wd.pieces| && wd.drawn + i <= |draws| && DrawsValid(draws, w)
    ensures Shaped(r.grid, w, h) && i <= |r.pieces| && wd.drawn <= r.drawn <= wd.drawn + 1
  {
    var p := wd.pieces[i - 1];
    if Triggers(p, h) then
      var s := Spawn(wd, w, h, draws);
      s.(pieces := s.pieces[i - 1 := p.(hasTriggeredNext := true)])
    else wd
  }

  /** The second half: the piece at index i-1 moves down one row if the
      probe there is free, or is frozen into the grid and spliced out. */
  function FallStep(g: Grid, w: nat, h: nat, ps: seq<Piece>, i: nat): (r: (Grid, seq<Piece>))
    requires Shaped(g, w, h) && 0 < i <= |ps|
    ensures Shaped(r.0, w, h) && i - 1 <= |r.1|
  {
    var p := ps[i - 1];
    if !PieceCollides(g, w, h, p, 0, 1) then (g, ps[i - 1 := p.(y := p.y + 1)])
    else (FreezeGrid(g, w, h, p), ps[..i - 1] + ps[i..])
  }

  /** The whole loop body for the piece at index i-1. */
  function StepOnce(wd: World, w: nat, h: nat, draws: seq<Draw>, i: nat): (r: World)
    requires Shaped(wd.grid, w, h) && 0 < i <= |wd.pieces| && wd.drawn + i <= |draws| && DrawsValid(draws, w)
    ensures Shaped(r.grid, w, h) && i - 1 <= |r.pieces| && wd.drawn <= r.drawn <= wd.drawn + 1
  {
    var w1 := TriggerStep(wd, w, h, draws, i);
    var (g2, ps2) := FallStep(w1.grid, w, h, w1.pieces, i);
    World(g2, ps2, w1.drawn)
  }

  /** The reverse loop of `applyGravity` over indices i-1 down to 0. */
  function StepFrom(wd: World, w: nat, h: nat, draws: seq<Draw>, i: nat): (r: World)
    requires Shaped(wd.grid, w, h) && i <= |wd.pieces| && wd.drawn + i <= |draws| && DrawsValid(draws, w)
    ensures Shaped(r.grid, w, h) && wd.drawn <= r.drawn <= wd.drawn + i
    decreases i
  {
    if i == 0 then wd else StepFrom(StepOnce(wd, w, h, draws, i), w, h, draws, i - 1)
  }

  /** The end of `applyGravity`: a piece is spawned when none is left. */
  function Refill(wd: World, w: nat, h: nat, draws: seq<Draw>): (r: World)
    requires Shaped(wd.grid, w, h) && wd.drawn < |draws| && DrawsValid(draws, w)
    ensures Shaped(r.grid, w, h) && |r.pieces| > 0
  {
    if |wd.pieces| == 0 then Spawn(wd, w, h, draws) else wd
  }

  /** `applyGravity`: the reverse loop, then the refill. */
  function Gravity(wd: World, w: nat, h: nat, draws: seq<Draw>): (r: World)
    requires Shaped(wd.grid, w, h) && wd.drawn + |wd.pieces| < |draws| && DrawsValid(draws, w)
    ensures Shaped(r.grid, w, h) && |r.pieces| > 0
  {
    Refill(StepFrom(wd, w, h, draws, |wd.pieces|), w, h, draws)
  }

  /** A piece after a step in which it moves down: one row lower, and
      flagged once its journey has started. */
  function Fallen(p: Piece, h: nat): (q: Piece)
  {
    p.(y := p.y + 1, hasTriggeredNext := p.hasTriggeredNext || JourneyStarted(p.y, h))
  }

  /** A piece's flag is set in the very step in which it spawns, and a
      flagged piece never spawns again: over its lifetime a piece triggers
      at most one extra spawn. */
  lemma TriggersAtMostOnce(p: Piece, h: nat)
    ensures Fallen(p, h).hasTriggeredNext != p.hasTriggeredNext <==> Triggers(p, h)
    ensures p.hasTriggeredNext ==> !Triggers(p, h) && Fallen(p, h).hasTriggeredNext
    ensures Triggers(p, h) ==> !Triggers(Fallen(p, h), h)
  {
  }

  /** The first n pieces of `ps` that `kept` marks, in their order, each
      fallen one row. */
  function Advance(ps: seq<Piece>, kept: seq<bool>, n: nat, h: nat): (r: seq<Piece>)
    requires n <= |ps| && n <= |kept|
  {
    if n == 0 then []
    else Advance(ps, kept, n - 1, h) + (if kept[n - 1] then [Fallen(ps[n - 1], h)] else [])
  }

  /** How many of the first n pieces of `ps` trigger a spawn. */
  function TriggerCount(ps: seq<Piece>, n: nat, h: nat): (count: nat)
    requires n <= |ps|
  {
    if n == 0 then 0 else TriggerCount(ps, n - 1, h) + (if Triggers(ps[n - 1], h) then 1 else 0)
  }

  /** `Advance` and `TriggerCount` read only the first n pieces and marks. */
  lemma {:induction false} PrefixFrame(ps: seq<Piece>, kept: seq<bool>, ps': seq<Piece>, kept': seq<bool>, n: nat, h: nat)
    requires n <= |ps| && n <= |kept| && n <= |ps'| && n <= |kept'|
    requires forall k :: 0 <= k < n ==> ps[k] == ps'[k] && kept[k] == kept'[k]
    ensures Advance(ps, kept, n, h) == Advance(ps', kept', n, h)
    ensures TriggerCount(ps, n, h) == TriggerCount(ps', n, h)
  {
    if n > 0 {
      PrefixFrame(ps, kept, ps', kept', n - 1, h);
    }
  }

  /** The pieces spawned from draws lo .. hi-1, in that order. */
  function Fresh(draws: seq<Draw>, lo: nat, hi: nat, w: nat): (r: seq<Piece>)
    requires lo <= hi <= |draws| && DrawsValid(draws, w)
    ensures |r| == hi - lo
    decreases hi - lo
  {
    if lo == hi then [] else Fresh(draws, lo, hi - 1, w) + [NewPiece(draws[hi - 1])]
  }

  lemma {:induction false} FreshSplit(draws: seq<Draw>, a: nat, b: nat, c: nat, w: nat)
    requires a <= b <= c <= |draws| && DrawsValid(draws, w)
    ensures Fresh(draws, a, b, w) + Fresh(draws, b, c, w) == Fresh(draws, a, c, w)
    decreases c - b
  {
    if b < c {
      FreshSplit(draws, a, b, c - 1, w);
    }
  }

  lemma ReplaceMiddle(xs: seq<Piece>, q: Piece, ys: seq<Piece>, q': Piece)
    ensures (xs + [q] + ys)[|xs| := q'] == xs + [q'] + ys
  {
  }

  lemma DropMiddle(xs: seq<Piece>, q: Piece, ys: seq<Piece>)
    ensures (xs + [q] + ys)[..|xs|] + (xs + [q] + ys)[|xs| + 1..] == xs + ys
  {
    assert (xs + [q] + ys)[..|xs|] == xs;
    assert (xs + [q] + ys)[|xs| + 1..] == ys;
  }

  /** The piece at index i-1 after the trigger half of its step. */
  function Flagged(p: Piece, h: nat): (q: Piece)
  {
    if Triggers(p, h) then p.(hasTriggeredNext := true) else p
  }

  /** A spawn appends the piece made from the next draw. */
  lemma SpawnPieces(wd: World, w: nat, h: nat, draws: seq<Draw>)
    requires Shaped(wd.grid, w, h) && wd.drawn < |draws| && DrawsValid(draws, w)
    ensures Spawn(wd, w, h, draws).pieces == wd.pieces + Fresh(draws, wd.drawn, wd.drawn + 1, w)
  {
    assert Fresh(draws, wd.drawn, wd.drawn, w) == [];
  }

  lemma FlagInPlace(ps: seq<Piece>, i: nat, q: Piece, spawned: seq<Piece>)
    requires 0 < i <= |ps|
    ensures (ps + spawned)[i - 1 := q] == ps[..i - 1] + [q] + ps[i..] + spawned
  {
    assert ps + spawned == ps[..i - 1] + [ps[i - 1]] + (ps[i..] + spawned);
    ReplaceMiddle(ps[..i - 1], ps[i - 1], ps[i..] + spawned, q);
  }

  lemma Unsplit(ps: seq<Piece>, i: nat, spawned: seq<Piece>)
    requires 0 < i <= |ps| && spawned == []
    ensures ps == ps[..i - 1] + [ps[i - 1]] + ps[i..] + spawned
  {
  }

  /** The trigger half: the piece at index i-1 is flagged exactly when it
      triggers, and the piece it spawned, if any, is at the end. */
  lemma TriggerStepShape(wd: World, w: nat, h: nat, draws: seq<Draw>, i: nat)
    requires Shaped(wd.grid, w, h) && 0 < i <= |wd.pieces| && wd.drawn + i <= |draws| && DrawsValid(draws, w)
    ensures TriggerStep(wd, w, h, draws, i).drawn == wd.drawn + (if Triggers(wd.pieces[i - 1], h) then 1 else 0)
    ensures TriggerStep(wd, w, h, draws, i).pieces ==
      wd.pieces[..i - 1] + [Flagged(wd.pieces[i - 1], h)] + wd.pieces[i..] +
      Fresh(draws, wd.drawn, TriggerStep(wd, w, h, draws, i).drawn, w)
  {
    if Triggers(wd.pieces[i - 1], h) {
      SpawnPieces(wd, w, h, draws);
      FlagInPlace(wd.pieces, i, Flagged(wd.pieces[i - 1], h), Fresh(draws, wd.drawn, wd.drawn + 1, w));
    } else {
      Unsplit(wd.pieces, i, Fresh(draws, wd.drawn, wd.drawn, w));
    }
  }

  /** A piece that moves down after the trigger half is the fallen piece. */
  lemma FlaggedFalls(p: Piece, h: nat)
    ensures Flagged(p, h).(y := p.y + 1) == Fallen(p, h)
  {
  }

  /** The fall half: the piece at index i-1 has moved down one row or left
      the list, and the pieces around it are untouched. */
  lemma FallStepShape(g: Grid, w: nat, h: nat, front: seq<Piece>, p: Piece, back: seq<Piece>) returns (moved: bool)
    requires Shaped(g, w, h)
    ensures FallStep(g, w, h, front + [Flagged(p, h)] + back, |front| + 1).1 ==
      front + (if moved then [Fallen(p, h)] else []) + back
  {
    var q := Flagged(p, h);
    assert (front + [q] + back)[|front|] == q;
    moved := !PieceCollides(g, w, h, q, 0, 1);
    FlaggedFalls(p, h);
    if moved {
      ReplaceMiddle(front, q, back, Fallen(p, h));
    } else {
      DropMiddle(front, q, back);
    }
  }

  lemma SpliceParts(ps: seq<Piece>, ps': seq<Piece>, i: nat, middle: seq<Piece>, spawned: seq<Piece>)
    requires 0 < i <= |ps| && ps' == ps[..i - 1] + middle + ps[i..] + spawned
    ensures forall k :: 0 <= k < i - 1 ==> ps'[k] == ps[k]
    ensures ps'[i - 1..] == middle + ps[i..] + spawned
  {
  }

  lemma Regroup(a: seq<Piece>, m: seq<Piece>, b: seq<Piece>, s: seq<Piece>, t: seq<Piece>)
    ensures a + (m + b + s) + t == (a + m) + b + (s + t)
  {
  }

  lemma Regroup3(a: seq<Piece>, m: seq<Piece>, b: seq<Piece>, s: seq<Piece>)
    ensures a + m + b + s == a + m + (b + s)
  {
  }

  /** The piece list after one more loop step, in terms of `Advance`: the
      piece at index i-1 becomes `middle` (itself fallen, or nothing),
      nothing before it changes, and what it spawned joins the fresh pieces. */
  lemma AdvanceStep(ps: seq<Piece>, ps': seq<Piece>, kept': seq<bool>, i: nat, h: nat, moved: bool,
                    middle: seq<Piece>, spawned: seq<Piece>, rest: seq<Piece>)
    requires 0 < i <= |ps| && |kept'| == i - 1
    requires middle == if moved then [Fallen(ps[i - 1], h)] else []
    requires ps' == ps[..i - 1] + middle + ps[i..] + spawned
    ensures Advance(ps', kept', i - 1, h) + ps'[i - 1..] + rest == Advance(ps, kept' + [moved], i, h) + ps[i..] + (spawned + rest)
    ensures TriggerCount(ps', i - 1, h) + (if Triggers(ps[i - 1], h) then 1 else 0) == TriggerCount(ps, i, h)
  {
    var kept := kept' + [moved];
    SpliceParts(ps, ps', i, middle, spawned);
    assert forall k :: 0 <= k < i - 1 ==> kept[k] == kept'[k];
    PrefixFrame(ps', kept', ps, kept, i - 1, h);
    Regroup(Advance(ps, kept, i - 1, h), middle, ps[i..], spawned, rest);
  }

  /** One loop body: the piece at index i-1 has either fallen one row or
      left the list, the pieces around it are untouched, and the piece it
      spawned, if it triggered, is at the end. */
  lemma StepOnceShape(wd: World, w: nat, h: nat, draws: seq<Draw>, i: nat) returns (moved: bool)
    requires Shaped(wd.grid, w, h) && 0 < i <= |wd.pieces| && wd.drawn + i <= |draws| && DrawsValid(draws, w)
    ensures StepOnce(wd, w, h, draws, i).drawn == wd.drawn + (if Triggers(wd.pieces[i - 1], h) then 1 else 0)
    ensures StepOnce(wd, w, h, draws, i).pieces ==
      wd.pieces[..i - 1] + (if moved then [Fallen(wd.pieces[i - 1], h)] else []) + wd.pieces[i..] +
      Fresh(draws, wd.drawn, StepOnce(wd, w, h, draws, i).drawn, w)
  {
    var ps := wd.pieces;
    var w1 := TriggerStep(wd, w, h, draws, i);
    TriggerStepShape(wd, w, h, draws, i);
    var spawned := Fresh(draws, wd.drawn, w1.drawn, w);
    Regroup3(ps[..i - 1], [Flagged(ps[i - 1], h)], ps[i..], spawned);
    moved := FallStepShape(w1.grid, w, h, ps[..i - 1], ps[i - 1], ps[i..] + spawned);
    Regroup3(ps[..i - 1], if moved then [Fallen(ps[i - 1], h)] else [], ps[i..], spawned);
  }

  /** The induction step of `StepFromShape`, on lists and draw counters
      alone: one loop body followed by the rest of the loop. */
  lemma StepFromCombine(ps: seq<Piece>, ps2: seq<Piece>, rs: seq<Piece>, kept': seq<bool>, moved: bool, i: nat, h: nat,
                        draws: seq<Draw>, w: nat, d0: nat, d1: nat, d2: nat)
    requires 0 < i <= |ps| && |kept'| == i - 1 && i - 1 <= |ps2| && d0 <= d1 <= d2 <= |draws| && DrawsValid(draws, w)
    requires d1 == d0 + (if Triggers(ps[i - 1], h) then 1 else 0)
    requires ps2 == ps[..i - 1] + (if moved then [Fallen(ps[i - 1], h)] else []) + ps[i..] + Fresh(draws, d0, d1, w)
    requires d2 == d1 + TriggerCount(ps2, i - 1, h)
    requires rs == Advance(ps2, kept', i - 1, h) + ps2[i - 1..] + Fresh(draws, d1, d2, w)
    ensures d2 == d0 + TriggerCount(ps, i, h)
    ensures rs == Advance(ps, kept' + [moved], i, h) + ps[i..] + Fresh(draws, d0, d2, w)
  {
    var middle := if moved then [Fallen(ps[i - 1], h)] else [];
    AdvanceStep(ps, ps2, kept', i, h, moved, middle, Fresh(draws, d0, d1, w), Fresh(draws, d1, d2, w));
    FreshSplit(draws, d0, d1, d2, w);
  }

  lemma {:induction false} StepFromShape(wd: World, w: nat, h: nat, draws: seq<Draw>, i: nat) returns (kept: seq<bool>)
    requires Shaped(wd.grid, w, h) && i <= |wd.pieces| && wd.drawn + i <= |draws| && DrawsValid(draws, w)
    ensures |kept| == i
    ensures StepFrom(wd, w, h, draws, i).drawn == wd.drawn + TriggerCount(wd.pieces, i, h)
    ensures StepFrom(wd, w, h, draws, i).pieces ==
      Advance(wd.pieces, kept, i, h) + wd.pieces[i..] + Fresh(draws, wd.drawn, StepFrom(wd, w, h, draws, i).drawn, w)
    decreases i
  {
    if i == 0 {
      kept := [];
      assert Fresh(draws, wd.drawn, wd.drawn, w) == [];
    } else {
      var w2 := StepOnce(wd, w, h, draws, i);
      var kept' := StepFromShape(w2, w, h, draws, i - 1);
      var moved := StepOnceShape(wd, w, h, draws, i);
      kept := kept' + [moved];
      StepFromCombine(wd.pieces, w2.pieces, StepFrom(w2, w, h, draws, i - 1).pieces, kept', moved, i, h,
                      draws, w, wd.drawn, w2.drawn, StepFrom(w2, w, h, draws, i - 1).drawn);
    }
  }

  /** The refill spawns exactly when the list is empty, and the piece it
      spawns joins the fresh pieces. */
  lemma RefillShape(s: World, w: nat, h: nat, draws: seq<Draw>, d0: nat, survivors: seq<Piece>)
    requires Shaped(s.grid, w, h) && d0 <= s.drawn < |draws| && DrawsValid(draws, w)
    requires s.pieces == survivors + Fresh(draws, d0, s.drawn, w)
    ensures Refill(s, w, h, draws).drawn == s.drawn + (if s.drawn == d0 && survivors == [] then 1 else 0)
    ensures Refill(s, w, h, draws).pieces == survivors + Fresh(draws, d0, Refill(s, w, h, draws).drawn, w)
  {
    if |s.pieces| == 0 {
      SpawnPieces(s, w, h, draws);
      FreshSplit(draws, d0, s.drawn, s.drawn + 1, w);
    }
  }

  /** One gravity pass: every piece present at the start either falls one
      row (flagged once its journey has started) or is frozen and removed,
      and the survivors keep their order. Behind them come the pieces spawned
      during the pass, one per piece that triggered, in the order of the
      draws they used; they are still exactly as spawned, so the pass did not
      step them. When nothing is left, exactly one piece is spawned as a
      refill, so the list is never empty afterwards. */
  lemma GravityShape(wd: World, w: nat, h: nat, draws: seq<Draw>) returns (kept: seq<bool>)
    requires Shaped(wd.grid, w, h) && wd.drawn + |wd.pieces| < |draws| && DrawsValid(draws, w)
    ensures |kept| == |wd.pieces|
    ensures |Gravity(wd, w, h, draws).pieces| > 0
    ensures Gravity(wd, w, h, draws).drawn == wd.drawn + TriggerCount(wd.pieces, |wd.pieces|, h) +
      (if TriggerCount(wd.pieces, |wd.pieces|, h) == 0 && Advance(wd.pieces, kept, |wd.pieces|, h) == [] then 1 else 0)
    ensures Gravity(wd, w, h, draws).pieces ==
      Advance(wd.pieces, kept, |wd.pieces|, h) + Fresh(draws, wd.drawn, Gravity(wd, w, h, draws).drawn, w)
  {
    var n := |wd.pieces|;
    kept := StepFromShape(wd, w, h, draws, n);
    var s := StepFrom(wd, w, h, draws, n);
    assert wd.pieces[n..] == [];
    RefillShape(s, w, h, draws, wd.drawn, Advance(wd.pieces, kept, n, h));
  }

  // ---------------------------------------------------------------------
  // Steering (`checkMouseHover`, `getPieceCenterX`, `handleMouseInteraction`)

  /** `checkMouseHover`: the units are examined in order; the answer is true
      exactly when the pointer cell is one of the piece's unit cells. */
  function Hovers(x: int, y: int, units: seq<Offset>, mgx: int, mgy: int): (b: bool)
    ensures b <==> Covers(x, y, units, mgx, mgy)
    decreases |units|
  {
    if units == [] then false
    else if x + units[0].dx == mgx && y + units[0].dy == mgy then true
    else
      var rest := Hovers(x, y, units[1..], mgx, mgy);
      assert forall i :: 1 <= i < |units| ==> units[i] == units[1..][i - 1];
      rest
  }

  /** The pointer pixel `mx` is right of the piece's centre pixel
      `centre * unitSize + unitSize / 2`; `c2` is twice the centre column. */
  predicate RightOfCentre(mx: int, c2: int)
  {
    2 * mx > c2 * UnitSize + UnitSize
  }

  /** A piece pushed `step` columns when the one-column probe `dir` is free,
      recording the time of the move. */
  function Push(g: Grid, w: nat, h: nat, p: Piece, dir: int, step: int, now: int): (q: Piece)
    requires Shaped(g, w, h)
  {
    if !PieceCollides(g, w, h, p, dir, 0) then p.(x := p.x + step, lastMoveTime := now) else p
  }

  /** One piece after the body of the steering loop, the pointer at pixel
      (mx, my): the probe checks one column, the move is three. */
  function Steered(g: Grid, w: nat, h: nat, p: Piece, now: int, mx: int, my: int): (q: Piece)
    requires Shaped(g, w, h)
  {
    if now - p.lastMoveTime < MoveThrottle || !Hovers(p.x, p.y, p.units, mx / UnitSize, my / UnitSize) then p
    else if RightOfCentre(mx, MinCol(p.x, p.units) + MaxCol(p.x, p.units)) then Push(g, w, h, p, -1, -SteerStep, now)
    else Push(g, w, h, p, 1, SteerStep, now)
  }

  /** A piece is steered exactly when its throttle has expired, the pointer
      cell is one of its cells and the one-column probe away from the pointer
      is free; it then moves exactly three columns left when the pointer is
      right of its centre pixel and three right otherwise (a tie included),
      and records the time. Nothing else about it changes. */
  lemma SteeringMovesThreeColumns(g: Grid, w: nat, h: nat, p: Piece, now: int, mx: int, my: int)
    requires Shaped(g, w, h)
    ensures var q := Steered(g, w, h, p, now, mx, my);
      q.y == p.y && q.units == p.units && q.color == p.color && q.hasTriggeredNext == p.hasTriggeredNext &&
      (q != p <==> now - p.lastMoveTime >= MoveThrottle && Covers(p.x, p.y, p.units, mx / UnitSize, my / UnitSize) &&
                   !PieceCollides(g, w, h, p, if RightOfCentre(mx, MinCol(p.x, p.units) + MaxCol(p.x, p.units)) then -1 else 1, 0)) &&
      (q != p ==> q.lastMoveTime == now) &&
      (q.x == p.x - SteerStep <==> q != p && RightOfCentre(mx, MinCol(p.x, p.units) + MaxCol(p.x, p.units))) &&
      (q.x == p.x + SteerStep <==> q != p && !RightOfCentre(mx, MinCol(p.x, p.units) + MaxCol(p.x, p.units))) &&
      (q.x == p.x - SteerStep ==> !PieceCollides(g, w, h, p, -1, 0)) &&
      (q.x == p.x + SteerStep ==> !PieceCollides(g, w, h, p, 1, 0))
  {
  }

  /** The one-column probe does not cover a three-column move: an I piece
      clear of everything on an empty 10 x 20 grid, covering columns 5 to 8,
      hovered at its left end, is moved to columns 8 to 11, past the right
      edge. */
  lemma ThreeColumnMoveCanCollide()
    ensures var g := EmptyGrid(10, 20);
      var p := Piece(7, 5, PieceFill, TemplateUnits(1), 0, false);
      !PieceCollides(g, 10, 20, p, 0, 0) &&
      PieceCollides(g, 10, 20, Steered(g, 10, 20, p, 1000, 50, 55), 0, 0)
  {
    var g := EmptyGrid(10, 20);
    var units := TemplateUnits(1);
    var p := Piece(7, 5, PieceFill, units, 0, false);
    assert units == [Offset(-2, 0), Offset(-1, 0), Offset(0, 0), Offset(1, 0)];
    assert MinCol(7, units) == 5 by {
      assert 7 + units[0].dx == 5;
    }
    assert MaxCol(7, units) == 8 by {
      assert 7 + units[3].dx == 8;
    }
    assert Covers(7, 5, units, 5, 5) by {
      assert 7 + units[0].dx == 5 && 5 + units[0].dy == 5;
    }
    assert !PieceCollides(g, 10, 20, p, 1, 0);
    var q := Steered(g, 10, 20, p, 1000, 50, 55);
    assert q.x == 10;
    assert Blocked(g, 10, 20, q.x + units[3].dx + 0, q.y + units[3].dy + 0);
  }

  // ---------------------------------------------------------------------
  // One animation frame (`gameLoop`, without rendering and rescheduling)

  function SteerAll(g: Grid, w: nat, h: nat, ps: seq<Piece>, now: int, mx: int, my: int): (r: seq<Piece>)
    requires Shaped(g, w, h)
    ensures |r| == |ps|
    ensures forall i :: 0 <= i < |ps| ==> r[i] == Steered(g, w, h, ps[i], now, mx, my)
  {
    seq(|ps|, i requires 0 <= i < |ps| => Steered(g, w, h, ps[i], now, mx, my))
  }

  // ---------------------------------------------------------------------
  // The module state of the script

  class Simulation {
    /** `staticUnits` with `gridWidth` and `gridHeight`. */
    const board: Board
    /** `fallingPieces`. */
    var pieces: seq<Piece>
    var timeCur: int
    /** The next gravity deadline. */
    var timeEvent: int

    ghost predicate Valid()
      reads this, board
    {
      board.Valid()
    }

    /** The script's initial state, once the grid has its dimensions. */
    constructor (w: nat, h: nat)
      ensures Valid() && fresh(board)
      ensures board.width == w && board.height == h && board.cells == EmptyGrid(w, h)
      ensures pieces == [] && timeCur == 0 && timeEvent == 0
    {
      board := new Board(w, h);
      pieces := [];
      timeCur, timeEvent := 0, 0;
    }

    /** `createNewPiece` with the draw `d`. */
    method CreateNewPiece(d: Draw)
      requires Valid() && ValidDraw(d, board.width)
      modifies this, board
      ensures Valid() && board.width == old(board.width) && board.height == old(board.height)
      ensures timeCur == old(timeCur) && timeEvent == old(timeEvent)
      ensures pieces == old(pieces) + [NewPiece(d)]
      ensures board.cells == SpawnGrid(old(board.cells), board.width, board.height, NewPiece(d))
    {
      var newPiece := NewPiece(d);
      if PieceCollides(board.cells, board.width, board.height, newPiece, 0, 0) {
        board.RemoveBottomRow();
      }
      pieces := pieces + [newPiece];
    }

    /** The first half of the body of the loop of `applyGravity` for the
        piece at index i-1, spawning from `draws[used]` when it triggers. */
    method TriggerNext(draws: seq<Draw>, i: nat, used: nat) returns (used': nat)
      requires Valid() && 0 < i <= |pieces| && used + i <= |draws| && DrawsValid(draws, board.width)
      modifies this, board
      ensures Valid() && board.width == old(board.width) && board.height == old(board.height)
      ensures timeCur == old(timeCur) && timeEvent == old(timeEvent)
      ensures World(board.cells, pieces, used') ==
              TriggerStep(World(old(board.cells), old(pieces), used), board.width, board.height, draws, i)
    {
      used' := used;
      var piece := pieces[i - 1];
      if 1000 * (piece.y + 2) >= board.height + 2 && !piece.hasTriggeredNext {
        CreateNewPiece(draws[used']);
        used' := used' + 1;
        pieces := pieces[i - 1 := piece.(hasTriggeredNext := true)];
      }
    }

    /** The second half: the piece at index i-1 moves down or freezes. */
    method Fall(i: nat)
      requires Valid() && 0 < i <= |pieces|
      modifies this, board
      ensures Valid() && board.width == old(board.width) && board.height == old(board.height)
      ensures timeCur == old(timeCur) && timeEvent == old(timeEvent)
      ensures (board.cells, pieces) == FallStep(old(board.cells), board.width, board.height, old(pieces), i)
    {
      var piece := pieces[i - 1];
      if !PieceCollides(board.cells, board.width, board.height, piece, 0, 1) {
        pieces := pieces[i - 1 := piece.(y := piece.y + 1)];
      } else {
        board.Freeze(piece.x, piece.y, piece.color, piece.units, StackNum, StackDen);
        pieces := pieces[..i - 1] + pieces[i..];
      }
    }

    /** `applyGravity`, spawning from `draws` in order; `used` is how many
        draws it took. */
    method ApplyGravity(draws: seq<Draw>) returns (used: nat)
      requires Valid() && |pieces| < |draws| && DrawsValid(draws, board.width)
      modifies this, board
      ensures Valid() && board.width == old(board.width) && board.height == old(board.height)
      ensures timeCur == old(timeCur) && timeEvent == old(timeEvent)
      ensures World(board.cells, pieces, used) ==
              Gravity(World(old(board.cells), old(pieces), 0), board.width, board.height, draws)
    {
      ghost var start := World(board.cells, pieces, 0);
      used := 0;
      var i := |pieces|;
      while i > 0
        invariant 0 <= i <= |pieces| && used + i <= |start.pieces| && Valid()
        invariant board.width == old(board.width) && board.height == old(board.height)
        invariant timeCur == old(timeCur) && timeEvent == old(timeEvent)
        invariant StepFrom(World(board.cells, pieces, used), board.width, board.height, draws, i) ==
                  StepFrom(start, board.width, board.height, draws, |start.pieces|)
      {
        used := TriggerNext(draws, i, used);
        Fall(i);
        i := i - 1;
      }
      if |pieces| == 0 {
        CreateNewPiece(draws[used]);
        used := used + 1;
      }
    }

    /** The body of the loop of `handleMouseInteraction` for one piece, the
        pointer at pixel (mouseX, mouseY); it changes nothing and returns the
        piece as the body leaves it. */
    method SteerPiece(piece: Piece, now: int, mouseX: int, mouseY: int) returns (steered: Piece)
      requires Valid()
      ensures steered == Steered(board.cells, board.width, board.height, piece, now, mouseX, mouseY)
    {
      steered := piece;
      if now - piece.lastMoveTime >= MoveThrottle && Hovers(piece.x, piece.y, piece.units, mouseX / UnitSize, mouseY / UnitSize) {
        var centerTwice := CenterTwice(piece.x, piece.units);
        if 2 * mouseX > centerTwice * UnitSize + UnitSize {
          if !PieceCollides(board.cells, board.width, board.height, piece, -1, 0) {
            steered := piece.(x := piece.x - SteerStep, lastMoveTime := now);
          }
        } else {
          if !PieceCollides(board.cells, board.width, board.height, piece, 1, 0) {
            steered := piece.(x := piece.x + SteerStep, lastMoveTime := now);
          }
        }
      }
    }

    /** `handleMouseInteraction` with the clock reading `now` and the pointer
        at pixel (mouseX, mouseY). */
    method HandleMouseInteraction(now: int, mouseX: int, mouseY: int)
      requires Valid()
      modifies this
      ensures Valid()
      ensures timeCur == old(timeCur) && timeEvent == old(timeEvent)
      ensures pieces == SteerAll(board.cells, board.width, board.height, old(pieces), now, mouseX, mouseY)
    {
      var i := 0;
      while i < |pieces|
        invariant 0 <= i <= |pieces| == |old(pieces)|
        invariant timeCur == old(timeCur) && timeEvent == old(timeEvent)
        invariant forall k :: 0 <= k < i ==>
          pieces[k] == Steered(board.cells, board.width, board.height, old(pieces)[k], now, mouseX, mouseY)
        invariant forall k :: i <= k < |pieces| ==> pieces[k] == old(pieces)[k]
      {
        var steered := SteerPiece(pieces[i], now, mouseX, mouseY);
        pieces := pieces[i := steered];
        i := i + 1;
      }
    }

    /** `gameLoop` for one frame read at time `now`: gravity when due, then
        steering, which reads the clock again as `steerNow`. `used` is how
        many of `draws` gravity took. */
    method GameLoop(now: int, draws: seq<Draw>, steerNow: int, mouseX: int, mouseY: int) returns (used: nat)
      requires Valid() && |pieces| < |draws| && DrawsValid(draws, board.width)
      modifies this, board
      ensures Valid() && board.width == old(board.width) && board.height == old(board.height)
      ensures timeCur == now
      ensures timeEvent == if now >= old(timeEvent) then now + TickRate else old(timeEvent)
      ensures var w, h := board.width, board.height;
        var after := if now >= old(timeEvent) then Gravity(World(old(board.cells), old(pieces), 0), w, h, draws)
                     else World(old(board.cells), old(pieces), 0);
        board.cells == after.grid && used == after.drawn &&
        pieces == SteerAll(after.grid, w, h, after.pieces, steerNow, mouseX, mouseY)
    {
      timeCur := now;
      used := 0;
      if timeCur >= timeEvent {
        used := ApplyGravity(draws);
        timeEvent := timeCur + TickRate;
      }
      HandleMouseInteraction(steerNow, mouseX, mouseY);
    }
  }
}
