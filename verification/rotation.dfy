/**
 `Tetromino.rotate` and `Block.rotate`: a quarter turn about a pivot, the line
 piece's snap back onto the grid, and the ordered wall-kick search.

 The line piece turns about the midpoint between its blocks 1 and 2, which can
 be half a cell off the grid. Points are therefore handled in doubled
 coordinates: a doubled pivot and doubled turned points are exact integers, and
 `math.ceil` / `math.floor` of a halved value become exact integer division.
 pygame turns a vector by exactly a quarter: `rotate(-90)` maps (dx, dy) to
 (dy, -dx) and `rotate(90)` maps it to (-dy, dx).
 */
module Rotation {
  import opened Types
  import opened Settings
  import opened Board

  /** Twice the pivot: the line piece uses the midpoint of blocks 1 and 2 along
      its axis (rows for states 0 and 2, columns for 1 and 3); every other piece
      turns about block 2. */
  function Pivot2(p: Piece): Pos {
    if p.kind == I then
      if p.rot % 2 == 0 then Pos(p.blocks[1].x + p.blocks[2].x, 2 * p.blocks[1].y)
      else Pos(2 * p.blocks[1].x, p.blocks[1].y + p.blocks[2].y)
    else Pos(2 * p.blocks[2].x, 2 * p.blocks[2].y)
  }

  /** pygame's `Vector2.rotate(-90)` (clockwise) or `rotate(90)` (counter-clockwise). */
  function Quarter(d: Pos, clockwise: bool): Pos {
    if clockwise then Pos(d.y, -d.x) else Pos(-d.y, d.x)
  }

  /** Opposite quarter turns cancel, and four equal ones are a full turn. */
  lemma QuarterInverse(d: Pos, clockwise: bool)
    ensures Quarter(Quarter(d, clockwise), !clockwise) == d
    ensures Quarter(Quarter(Quarter(Quarter(d, clockwise), clockwise), clockwise), clockwise) == d
  {
  }

  /** `Block.rotate` in doubled coordinates: twice the position of `b` turned a
      quarter about the point `pivot2 / 2`. */
  function Turned2(pivot2: Pos, b: Pos, clockwise: bool): Pos {
    pivot2.Plus(Quarter(Pos(2 * b.x - pivot2.x, 2 * b.y - pivot2.y), clockwise))
  }

  /** `math.floor(q / 2)`. */
  function FloorHalf(q: int): (r: int)
    ensures 2 * r <= q < 2 * r + 2
  {
    q / 2
  }

  /** `math.ceil(q / 2)`. */
  function CeilHalf(q: int): (r: int)
    ensures 2 * r - 2 < q <= 2 * r
  {
    (q + 1) / 2
  }

  /** Back from doubled coordinates. The line piece is rounded according to its
      state before the turn (0: x up, y down; 1: both down; 2: x down, y up;
      3: both up); for every other piece the turned point lies on the grid. */
  function Snap(kind: Kind, rot: Rotation, q2: Pos): Pos {
    if kind != I then Pos(q2.x / 2, q2.y / 2)
    else if rot == 0 then Pos(CeilHalf(q2.x), FloorHalf(q2.y))
    else if rot == 1 then Pos(FloorHalf(q2.x), FloorHalf(q2.y))
    else if rot == 2 then Pos(FloorHalf(q2.x), CeilHalf(q2.y))
    else Pos(CeilHalf(q2.x), CeilHalf(q2.y))
  }

  /** The test positions of one kick: every block turned, snapped and offset by `kick`. */
  function Trial(p: Piece, clockwise: bool, kick: Pos): Blocks {
    seq(4, i requires 0 <= i < 4 => Snap(p.kind, p.rot, Turned2(Pivot2(p), p.blocks[i], clockwise)).Plus(kick))
  }

  /** The validation loop of `rotate`: every test position is inside the columns,
      above the floor, and unoccupied when on the visible field. */
  predicate Fits(cfg: Config, f: Field, bs: Blocks)
    requires Shaped(cfg, f)
  {
    forall i :: 0 <= i < 4 ==> Free(cfg, f, bs[i])
  }

  /** The kick list `WALL_KICK_DATA[kick_type][f'{old}>>{new}']` for this turn. */
  function Kicks(cfg: Config, p: Piece, clockwise: bool): seq<Pos>
    requires KickKey(KickClassOf(p.kind), p.rot, clockwise) in cfg.kicks
  {
    cfg.kicks[KickKey(KickClassOf(p.kind), p.rot, clockwise)]
  }

  /** The first kick, at index `from` or later, whose test positions fit. */
  function FirstFit(cfg: Config, f: Field, p: Piece, clockwise: bool, kicks: seq<Pos>, from: nat): (r: Option<nat>)
    requires Shaped(cfg, f) && from <= |kicks|
    ensures r.Some? ==> from <= r.value < |kicks| && Fits(cfg, f, Trial(p, clockwise, kicks[r.value]))
    ensures r.Some? ==> forall j :: from <= j < r.value ==> !Fits(cfg, f, Trial(p, clockwise, kicks[j]))
    ensures r.None? ==> forall j :: from <= j < |kicks| ==> !Fits(cfg, f, Trial(p, clockwise, kicks[j]))
    decreases |kicks| - from
  {
    if from == |kicks| then None
    else if Fits(cfg, f, Trial(p, clockwise, kicks[from])) then Some(from)
    else FirstFit(cfg, f, p, clockwise, kicks, from + 1)
  }

  /** `Tetromino.rotate(clockwise)`: the turned piece and whether it turned. The
      square piece never turns. Otherwise the kicks are tried in table order and
      the first whose positions fit is committed, together with the new state;
      when none fits nothing changes. */
  function Rotate(cfg: Config, f: Field, p: Piece, clockwise: bool): (r: (Piece, bool))
    requires Shaped(cfg, f)
    requires p.kind != O ==> KickKey(KickClassOf(p.kind), p.rot, clockwise) in cfg.kicks
    ensures p.kind == O ==> r == (p, false)
    ensures !r.1 ==> r.0 == p
    ensures p.kind != O ==>
              (r.1 <==> exists k :: 0 <= k < |Kicks(cfg, p, clockwise)| && Fits(cfg, f, Trial(p, clockwise, Kicks(cfg, p, clockwise)[k])))
    ensures r.1 ==> r.0.kind == p.kind
    ensures r.1 ==> r.0.rot == (if clockwise then (p.rot + 1) % 4 else (p.rot + 3) % 4)
    ensures r.1 ==> Fits(cfg, f, r.0.blocks) && cfg.InField(r.0.blocks)
    ensures r.1 ==> exists k :: 0 <= k < |Kicks(cfg, p, clockwise)|
                      && r.0.blocks == Trial(p, clockwise, Kicks(cfg, p, clockwise)[k])
                      && forall j :: 0 <= j < k ==> !Fits(cfg, f, Trial(p, clockwise, Kicks(cfg, p, clockwise)[j]))
  {
    if p.kind == O then (p, false)
    else
      var kicks := Kicks(cfg, p, clockwise);
      match FirstFit(cfg, f, p, clockwise, kicks, 0)
      case None => (p, false)
      case Some(k) => (Piece(p.kind, Turn(p.rot, clockwise), Trial(p, clockwise, kicks[k])), true)
  }

  // ---------------------------------------------------------------- geometry

  /** The piece turned a quarter with the zero kick: what `rotate` commits when
      its first kick is (0, 0) and the turned positions fit. */
  function Turned(p: Piece, clockwise: bool): Piece {
    Piece(p.kind, Turn(p.rot, clockwise), Trial(p, clockwise, Pos(0, 0)))
  }

  /** For every piece but the line, the float arithmetic of `Block.rotate` is
      exact: a block lands on the grid point it reaches by turning its offset
      from block 2 a quarter. */
  lemma TurnIsExact(p: Piece, clockwise: bool, i: int)
    requires p.kind != I && 0 <= i < 4
    ensures Turned2(Pivot2(p), p.blocks[i], clockwise).x % 2 == 0
    ensures Turned2(Pivot2(p), p.blocks[i], clockwise).y % 2 == 0
    ensures Trial(p, clockwise, Pos(0, 0))[i]
            == p.blocks[2].Plus(Quarter(Pos(p.blocks[i].x - p.blocks[2].x, p.blocks[i].y - p.blocks[2].y), clockwise))
  {
    var a, c := p.blocks[i], p.blocks[2];
    var e := c.Plus(Quarter(Pos(a.x - c.x, a.y - c.y), clockwise));
    assert Pivot2(p) == Pos(2 * c.x, 2 * c.y);
    assert Turned2(Pivot2(p), a, clockwise) == Pos(2 * e.x, 2 * e.y);
    assert Snap(p.kind, p.rot, Pos(2 * e.x, 2 * e.y)) == e;
  }

  /** For every piece but the line, turning one way and then back restores the
      blocks and the rotation state. */
  lemma TurnBackRestores(p: Piece, clockwise: bool)
    requires p.kind != I
    ensures Turned(Turned(p, clockwise), !clockwise) == p
  {
    var q := Turned(p, clockwise);
    forall i | 0 <= i < 4
      ensures q.blocks[i] == p.blocks[2].Plus(Quarter(Pos(p.blocks[i].x - p.blocks[2].x, p.blocks[i].y - p.blocks[2].y), clockwise))
    {
      TurnIsExact(p, clockwise, i);
    }
    forall i | 0 <= i < 4
      ensures Turned(q, !clockwise).blocks[i]
              == q.blocks[2].Plus(Quarter(Pos(q.blocks[i].x - q.blocks[2].x, q.blocks[i].y - q.blocks[2].y), !clockwise))
    {
      TurnIsExact(q, !clockwise, i);
    }
    assert q.blocks[2] == p.blocks[2];
    var r := Turned(q, !clockwise);
    assert forall i :: 0 <= i < 4 ==> r.blocks[i] == p.blocks[i];
    TurnBack(p.rot, clockwise);
  }

  /** The line piece in each of its four orientations, in the block order the
      `Line*` lemmas assume: blocks 1 and 2 are the middle pair whose midpoint
      is the pivot of `Tetromino.rotate`. Lying in row `y` from column `x`
      rightwards (state 0), standing in column `x` from row `y + 1` upwards
      (state 1), lying in row `y` from column `x + 3` leftwards (state 2),
      standing in column `x` from row `y - 2` downwards (state 3). */
  function Line(rot: Rotation, x: int, y: int): Piece {
    if rot == 0 then Piece(I, 0, [Pos(x, y), Pos(x + 1, y), Pos(x + 2, y), Pos(x + 3, y)])
    else if rot == 1 then Piece(I, 1, [Pos(x, y + 1), Pos(x, y), Pos(x, y - 1), Pos(x, y - 2)])
    else if rot == 2 then Piece(I, 2, [Pos(x + 3, y), Pos(x + 2, y), Pos(x + 1, y), Pos(x, y)])
    else Piece(I, 3, [Pos(x, y - 2), Pos(x, y - 1), Pos(x, y), Pos(x, y + 1)])
  }

  /** Each block of the line piece after a zero-kick turn, from the doubled pivot `c2`. */
  lemma LineBlocks(p: Piece, clockwise: bool, c2: Pos, e: Blocks)
    requires p.kind == I && Pivot2(p) == c2
    requires forall i :: 0 <= i < 4 ==> Snap(I, p.rot, Turned2(c2, p.blocks[i], clockwise)) == e[i]
    ensures Trial(p, clockwise, Pos(0, 0)) == e
  {
    var t := Trial(p, clockwise, Pos(0, 0));
    assert forall i :: 0 <= i < 4 ==> t[i] == e[i];
  }

  /** One clockwise quarter turn of the line piece, orientation by orientation. */
  lemma LineTurnStep(rot: Rotation, x: int, y: int)
    ensures rot == 0 ==> Turned(Line(0, x, y), true) == Line(1, x + 2, y)
    ensures rot == 1 ==> Turned(Line(1, x, y), true) == Line(2, x - 2, y - 1)
    ensures rot == 2 ==> Turned(Line(2, x, y), true) == Line(3, x + 1, y + 1)
    ensures rot == 3 ==> Turned(Line(3, x, y), true) == Line(0, x - 1, y)
  {
    if rot == 0 {
      LineTurnFlat(x, y);
    } else if rot == 1 {
      LineTurnUp(x, y);
    } else if rot == 2 {
      LineTurnFlatBack(x, y);
    } else {
      LineTurnDown(x, y);
    }
  }

  /** `Line(0, x, y)` turned clockwise: column `x + 2`, rows `y - 2` to `y + 1`. */
  lemma LineTurnFlat(x: int, y: int)
    ensures Turned(Line(0, x, y), true) == Line(1, x + 2, y)
  {
    LineBlocks(Line(0, x, y), true, Pos(2 * x + 3, 2 * y), Line(1, x + 2, y).blocks);
  }

  /** `Line(1, x, y)` turned clockwise: row `y - 1`, columns `x - 2` to `x + 1`. */
  lemma LineTurnUp(x: int, y: int)
    ensures Turned(Line(1, x, y), true) == Line(2, x - 2, y - 1)
  {
    LineBlocks(Line(1, x, y), true, Pos(2 * x, 2 * y - 1), Line(2, x - 2, y - 1).blocks);
  }

  /** `Line(2, x, y)` turned clockwise: column `x + 1`, rows `y - 1` to `y + 2`. */
  lemma LineTurnFlatBack(x: int, y: int)
    ensures Turned(Line(2, x, y), true) == Line(3, x + 1, y + 1)
  {
    LineBlocks(Line(2, x, y), true, Pos(2 * x + 3, 2 * y), Line(3, x + 1, y + 1).blocks);
  }

  /** `Line(3, x, y)` turned clockwise: row `y`, columns `x - 1` to `x + 2`. */
  lemma LineTurnDown(x: int, y: int)
    ensures Turned(Line(3, x, y), true) == Line(0, x - 1, y)
  {
    LineBlocks(Line(3, x, y), true, Pos(2 * x, 2 * y - 1), Line(0, x - 1, y).blocks);
  }

  /** The line piece's four clockwise quarter turns visit its four orientations
      and bring it back to the cells it started from. */
  lemma LineFourTurns(x: int, y: int)
    ensures Turned(Line(0, x, y), true) == Line(1, x + 2, y)
    ensures Turned(Turned(Line(0, x, y), true), true) == Line(2, x, y - 1)
    ensures Turned(Turned(Turned(Line(0, x, y), true), true), true) == Line(3, x + 1, y)
    ensures Turned(Turned(Turned(Turned(Line(0, x, y), true), true), true), true) == Line(0, x, y)
  {
    LineTurnStep(0, x, y);
    LineTurnStep(1, x + 2, y);
    LineTurnStep(2, x, y - 1);
    LineTurnStep(3, x + 1, y);
  }

  /** Unlike the other pieces, the line piece turned clockwise and then back does
      not return to its cells: rounding by the pre-turn state leaves it one row
      higher. */
  lemma LineTurnBackRises(x: int, y: int)
    ensures Turned(Turned(Line(0, x, y), true), false) == Line(0, x, y - 1)
  {
    LineTurnFlat(x, y);
    LineTurnUpBack(x + 2, y);
  }

  /** `Line(1, x, y)` turned counter-clockwise: row `y - 1`, columns `x - 2` to `x + 1`. */
  lemma LineTurnUpBack(x: int, y: int)
    ensures Turned(Line(1, x, y), false) == Line(0, x - 2, y - 1)
  {
    LineBlocks(Line(1, x, y), false, Pos(2 * x, 2 * y - 1), Line(0, x - 2, y - 1).blocks);
  }
}
