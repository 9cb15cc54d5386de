/** The fixed catalogue of seven tetromino templates (`pieceTemplates`) and
    the random choices a spawn makes. Both versions of the simulation use the
    same unit offsets; only the fill strings differ, and those belong to each
    version's module. */
module Catalog {
  import opened Board

  const TemplateCount: nat := 7

  /** The unit offsets of template `t`: O, I, S, Z, L, J, T in that order. */
  function TemplateUnits(t: nat): (units: seq<Offset>)
    requires t < TemplateCount
    ensures |units| == 4
    ensures forall i :: 0 <= i < |units| ==> -2 <= units[i].dx <= 1 && -1 <= units[i].dy <= 1
  {
    [ [Offset(-1, 0), Offset(0, 0), Offset(-1, 1), Offset(0, 1)],   // O
      [Offset(-2, 0), Offset(-1, 0), Offset(0, 0), Offset(1, 0)],   // I
      [Offset(0, 0), Offset(1, 0), Offset(-1, 1), Offset(0, 1)],    // S
      [Offset(-1, 0), Offset(0, 0), Offset(0, 1), Offset(1, 1)],    // Z
      [Offset(-1, 0), Offset(0, 0), Offset(1, 0), Offset(-1, -1)],  // L
      [Offset(-1, 0), Offset(0, 0), Offset(1, 0), Offset(1, -1)],   // J
      [Offset(-1, 0), Offset(0, 0), Offset(1, 0), Offset(0, -1)]    // T
    ][t]
  }

  /** What `Math.random()` decides at a spawn: the template index
      (`floor(random * 7)`) and the anchor column (`floor(random * gridWidth)`). */
  datatype Draw = Draw(template: nat, column: int)

  /** The values those two expressions can take on a grid of width `w`; on a
      grid with no columns the column is 0. */
  predicate ValidDraw(d: Draw, w: nat)
  {
    d.template < TemplateCount && 0 <= d.column && (d.column < w || d.column == 0)
  }

  /** A freshly spawned piece starts at row -2 or above, where every unit is
      above the top edge. So the spawn-time collision probe never looks at a
      cell: it is true exactly when the random column puts some unit outside
      the grid's columns, however full the grid is. */
  lemma SpawnProbeSeesOnlyColumns(g: Grid, w: nat, h: nat, x: int, y: int, t: nat)
    requires Shaped(g, w, h) && t < TemplateCount && y <= -2
    ensures Collides(g, w, h, x, y, TemplateUnits(t), 0, 0) <==>
      exists i :: 0 <= i < 4 && (x + TemplateUnits(t)[i].dx < 0 || x + TemplateUnits(t)[i].dx >= w)
  {
    var units := TemplateUnits(t);
    forall i | 0 <= i < 4
      ensures Blocked(g, w, h, x + units[i].dx + 0, y + units[i].dy + 0) <==> (x + units[i].dx < 0 || x + units[i].dx >= w)
    {
      assert y + units[i].dy < 0;
    }
  }
}
