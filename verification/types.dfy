/**
 Value types shared by the falling-block simulation: grid positions, the seven
 piece kinds, rotation states and the four-cell pieces themselves.

 Positions are integers. The shape table, the spawn offset and the wall-kick
 offsets are integral, so every position a block can hold is integral too:
 turns about an integer pivot are exact and the line piece is snapped back to
 the grid after its half-cell pivot turn (see module Rotation). Truncating a
 coordinate with `int()` is therefore the identity and is not modelled.
 */
module Types {

  datatype Option<+T> = None | Some(value: T)

  /** A cell: column `x` grows to the right, row `y` grows downwards.
      Rows with `y < 0` lie above the visible field: the spawn buffer. */
  datatype Pos = Pos(x: int, y: int) {
    function Plus(d: Pos): Pos {
      Pos(x + d.x, y + d.y)
    }
  }

  datatype Kind = I | O | T | S | Z | J | L

  /** Rotation state: 0, 90, 180 or 270 degrees. */
  type Rotation = r: int | 0 <= r < 4

  /** The four cells of a piece, in shape-table order. */
  type Blocks = s: seq<Pos> | |s| == 4 witness [Pos(0, 0), Pos(0, 0), Pos(0, 0), Pos(0, 0)]

  /** The falling piece: its kind, rotation state and four blocks. */
  datatype Piece = Piece(kind: Kind, rot: Rotation, blocks: Blocks)

  /** The rotation state after a quarter turn: one up clockwise, one down
      (wrapping from 0 to 3, as Python's `%` does) counter-clockwise. */
  function Turn(s: Rotation, clockwise: bool): (r: Rotation)
    ensures clockwise ==> r == if s == 3 then 0 else s + 1
    ensures !clockwise ==> r == if s == 0 then 3 else s - 1
  {
    if clockwise then (s + 1) % 4 else (s - 1) % 4
  }

  /** Turning one way and then the other restores the rotation state. */
  lemma TurnBack(s: Rotation, clockwise: bool)
    ensures Turn(Turn(s, clockwise), !clockwise) == s
  {
  }

  /** Every block moved by the same offset `d`: the all-or-nothing translation. */
  function Translate(bs: Blocks, d: Pos): (r: Blocks)
    ensures forall i :: 0 <= i < 4 ==> r[i].x - bs[i].x == d.x && r[i].y - bs[i].y == d.y
  {
    seq(4, i requires 0 <= i < 4 => bs[i].Plus(d))
  }

  /** Two translations compose into one. */
  lemma TranslateTwice(bs: Blocks, d: Pos, e: Pos)
    ensures Translate(Translate(bs, d), e) == Translate(bs, d.Plus(e))
  {
    var lhs := Translate(Translate(bs, d), e);
    var rhs := Translate(bs, d.Plus(e));
    assert forall i :: 0 <= i < 4 ==> lhs[i] == rhs[i];
  }

  /** Translating by the zero offset changes nothing. */
  lemma TranslateZero(bs: Blocks)
    ensures Translate(bs, Pos(0, 0)) == bs
  {
    var r := Translate(bs, Pos(0, 0));
    assert forall i :: 0 <= i < 4 ==> r[i] == bs[i];
  }
}
