/** The mines of classes/Mine.py: five kinds with fixed blast half-extents. */
module Mines {
  import opened Positions

  datatype MineKind = O1 | O2 | T1 | T2 | G1

  /** A mine; its radii are fixed by its kind when it is constructed and never change. */
  datatype Mine = Mine(kind: MineKind, position: Pos)
  {
    function xRadius(): (r: nat)
      ensures kind == O1 || kind == T1 ==> r == 10
      ensures kind == O2 ==> r == 5
      ensures kind == T2 ==> r == 1
      ensures kind == G1 ==> r == 7
    {
      match kind
      case O1 => 10
      case O2 => 5
      case T1 => 10
      case T2 => 1
      case G1 => 7
    }

    function yRadius(): (r: nat)
      ensures kind == O1 ==> r == 10
      ensures kind == O2 || kind == T2 ==> r == 5
      ensures kind == T1 ==> r == 1
      ensures kind == G1 ==> r == 7
    {
      match kind
      case O1 => 10
      case O2 => 5
      case T1 => 1
      case T2 => 5
      case G1 => 7
    }

    /** The blast rectangle: |dx| <= x_radius and |dy| <= y_radius around the mine's position. */
    predicate InBlast(p: Pos)
    {
      Abs(p.x - position.x) <= xRadius() && Abs(p.y - position.y) <= yRadius()
    }
  }

  /** Mine_G1.teleport: only a G1 mine has it, and it changes nothing but the position. */
  function Teleport(m: Mine, newPosition: Pos): (r: Mine)
    requires m.kind == G1
    ensures r.position == newPosition && r.kind == m.kind
    ensures r.xRadius() == m.xRadius() == 7 && r.yRadius() == m.yRadius() == 7
  {
    m.(position := newPosition)
  }

  /** A mine always lies inside its own blast rectangle, and a teleported G1 mine's rectangle is
      the old one shifted by the displacement. */
  lemma TeleportShiftsBlast(m: Mine, newPosition: Pos, p: Pos)
    requires m.kind == G1
    ensures m.InBlast(m.position)
    ensures Teleport(m, newPosition).InBlast(p) <==>
              m.InBlast(Pos(p.x - newPosition.x + m.position.x, p.y - newPosition.y + m.position.y))
  {
  }
}
