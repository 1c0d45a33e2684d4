/**
 The configuration tables of the game: field size, the shape catalogue, the
 spawn offset, the wall-kick table and the score table. Their values live in a
 settings file that is not part of this model, so they are parameters here, with
 `Valid` stating what the simulation relies on.
 */
module Settings {
  import opened Types

  /** The two wall-kick tables: one for the line piece, one shared by J, L, S, T and Z. */
  datatype KickClass = LineKicks | CommonKicks

  /** The kick table a piece of kind `k` uses (the square piece never asks). */
  function KickClassOf(k: Kind): KickClass {
    if k == I then LineKicks else CommonKicks
  }

  /** Key of a kick list: the table and the transition `from>>to`. */
  function KickKey(c: KickClass, from: Rotation, clockwise: bool): (KickClass, int, int) {
    (c, from, Turn(from, clockwise))
  }

  datatype Config = Config(
    rows: int,                                  // ROWS
    columns: int,                               // COLUMNS
    shapes: map<Kind, seq<Pos>>,                // TETROMINOS[k]['shape']
    blockOffset: Pos,                           // BLOCK_OFFSET
    kicks: map<(KickClass, int, int), seq<Pos>>, // WALL_KICK_DATA
    scoreData: map<int, int>)                   // SCORE_DATA
  {
    /** Inside the columns and above the floor; rows above the field are allowed. */
    predicate InBounds(p: Pos) {
      0 <= p.x < columns && p.y < rows
    }

    /** Every block of `bs` is in bounds. */
    predicate InField(bs: Blocks) {
      forall i :: 0 <= i < 4 ==> InBounds(bs[i])
    }

    /** What the simulation relies on: a non-empty field, four cells per shape that
        spawn in bounds, a kick list for every quarter turn of both tables, and a
        non-negative score for every number of rows one landing can complete. */
    predicate Valid() {
      && rows > 0
      && columns > 0
      && (forall k: Kind ::
            k in shapes && |shapes[k]| == 4
            && forall i :: 0 <= i < 4 ==> InBounds(shapes[k][i].Plus(blockOffset)))
      && (forall c: KickClass, s: Rotation, clockwise: bool :: KickKey(c, s, clockwise) in kicks)
      && (forall n :: 1 <= n <= 4 ==> n in scoreData && scoreData[n] >= 0)
    }
  }
}
