/**
 The falling piece (`Tetromino`): spawning, sideways moves, the single downward
 step that locks a blocked piece, and the hard drop.
 */
module Tetromino {
  import opened Types
  import opened Settings
  import opened Board

  /** A fresh piece of kind `k`: each shape cell shifted by the spawn offset, rotation state 0. */
  function Spawn(cfg: Config, k: Kind): (p: Piece)
    requires cfg.Valid()
    ensures p.kind == k && p.rot == 0
    ensures cfg.InField(p.blocks)
  {
    var shape := cfg.shapes[k];
    Piece(k, 0, seq(4, i requires 0 <= i < 4 => shape[i].Plus(cfg.blockOffset)))
  }

  /** Every block lies in a column of the field. */
  predicate InColumns(cfg: Config, bs: Blocks) {
    forall i :: 0 <= i < 4 ==> 0 <= bs[i].x < cfg.columns
  }

  // ---------------------------------------------------------------- sideways

  /** `next_move_horizontal_collide` as written: every block is probed (so any
      IndexError surfaces as `None`), then the piece collides if any block does. */
  function HorizontalProbe(cfg: Config, f: Field, bs: Blocks, amount: int): Option<bool>
    requires Shaped(cfg, f)
  {
    if exists i :: 0 <= i < 4 && HorizontalCollide(cfg, f, bs[i], bs[i].x + amount).None? then None
    else Some(exists i :: 0 <= i < 4 && HorizontalCollide(cfg, f, bs[i], bs[i].x + amount) == Some(true))
  }

  /** `Tetromino.move_horizontal(amount)` exactly as written: `None` when a probe
      raises IndexError, otherwise the piece, moved or not. */
  function MoveHorizontal(cfg: Config, f: Field, p: Piece, amount: int): (r: Option<Piece>)
    requires Shaped(cfg, f)
    ensures r.None? <==> exists i :: 0 <= i < 4 && 0 <= p.blocks[i].x + amount < cfg.columns
                                     && !(-cfg.rows <= p.blocks[i].y < cfg.rows)
    ensures r.Some? && (forall i :: 0 <= i < 4 ==> WrappedFree(cfg, f, p.blocks[i].y, p.blocks[i].x + amount))
            ==> r.value == p.(blocks := Translate(p.blocks, Pos(amount, 0)))
    ensures r.Some? && !(forall i :: 0 <= i < 4 ==> WrappedFree(cfg, f, p.blocks[i].y, p.blocks[i].x + amount))
            ==> r.value == p
  {
    match HorizontalProbe(cfg, f, p.blocks, amount)
    case None => None
    case Some(collides) =>
      if collides then Some(p) else Some(p.(blocks := Translate(p.blocks, Pos(amount, 0))))
  }

  /** `Block.horizontal_collide` as evidently intended: like `vertical_collide`,
      the spawn buffer is never occupied. */
  predicate BufferedCollide(cfg: Config, f: Field, b: Pos, x: int)
    requires Shaped(cfg, f) && b.y < cfg.rows
  {
    if !(0 <= x < cfg.columns) then true
    else b.y >= 0 && f[b.y][x]
  }

  /** The sideways move with the buffer-aware collision test: all four blocks move
      by `amount` when every target cell is free, and otherwise nothing moves. */
  function MoveHorizontalBuffered(cfg: Config, f: Field, p: Piece, amount: int): (r: Piece)
    requires Shaped(cfg, f) && cfg.InField(p.blocks)
    ensures (forall i :: 0 <= i < 4 ==> Free(cfg, f, p.blocks[i].Plus(Pos(amount, 0))))
            ==> r == p.(blocks := Translate(p.blocks, Pos(amount, 0)))
    ensures !(forall i :: 0 <= i < 4 ==> Free(cfg, f, p.blocks[i].Plus(Pos(amount, 0)))) ==> r == p
    ensures cfg.InField(r.blocks)
  {
    if exists i :: 0 <= i < 4 && BufferedCollide(cfg, f, p.blocks[i], p.blocks[i].x + amount) then p
    else p.(blocks := Translate(p.blocks, Pos(amount, 0)))
  }

  /** Moving back undoes a successful sideways move. */
  lemma MoveBackRestores(cfg: Config, f: Field, p: Piece, amount: int)
    requires Shaped(cfg, f) && cfg.InField(p.blocks)
    requires forall i :: 0 <= i < 4 ==> Free(cfg, f, p.blocks[i])
    requires MoveHorizontalBuffered(cfg, f, p, amount) != p
    ensures MoveHorizontalBuffered(cfg, f, MoveHorizontalBuffered(cfg, f, p, amount), -amount) == p
  {
    var q := MoveHorizontalBuffered(cfg, f, p, amount);
    assert q.blocks == Translate(p.blocks, Pos(amount, 0));
    assert forall i :: 0 <= i < 4 ==> q.blocks[i].Plus(Pos(-amount, 0)) == p.blocks[i];
    TranslateTwice(p.blocks, Pos(amount, 0), Pos(-amount, 0));
    TranslateZero(p.blocks);
  }

  /** The as-written test blocks a piece in the spawn buffer because the cell it
      reads is a bottom-row cell: a line piece in row -1 cannot step right while
      column 4 of the bottom row is occupied, although every cell it would enter
      is in the buffer. The buffer-aware move lets it through. */
  lemma BufferReadsBottomRow(cfg: Config, f: Field)
    requires Shaped(cfg, f) && cfg.rows >= 1 && cfg.columns >= 5
    requires f[cfg.rows - 1][4]
    ensures var p := Piece(I, 0, [Pos(0, -1), Pos(1, -1), Pos(2, -1), Pos(3, -1)]);
            && (forall i :: 0 <= i < 4 ==> p.blocks[i].y < 0)
            && MoveHorizontal(cfg, f, p, 1) == Some(p)
            && MoveHorizontalBuffered(cfg, f, p, 1) == p.(blocks := Translate(p.blocks, Pos(1, 0)))
  {
    var p := Piece(I, 0, [Pos(0, -1), Pos(1, -1), Pos(2, -1), Pos(3, -1)]);
    assert HorizontalCollide(cfg, f, p.blocks[3], 4) == Some(true);
    assert forall i :: 0 <= i < 4 ==> Free(cfg, f, p.blocks[i].Plus(Pos(1, 0)));
  }

  // ---------------------------------------------------------------- downward

  /** `next_move_vertical_collide(blocks, 1)` for the piece lowered by `k` rows:
      some block's next row is below the floor or occupied. */
  predicate Blocked(cfg: Config, f: Field, bs: Blocks, k: int)
    requires Shaped(cfg, f) && InColumns(cfg, bs)
  {
    exists i :: 0 <= i < 4 && VerticalCollide(cfg, f, bs[i].x, bs[i].y + k + 1)
  }

  /** Lowering first and then testing is testing further down. */
  lemma BlockedAfterLowering(cfg: Config, f: Field, bs: Blocks, k: int, j: int)
    requires Shaped(cfg, f) && InColumns(cfg, bs)
    ensures InColumns(cfg, Translate(bs, Pos(0, k)))
    ensures Blocked(cfg, f, Translate(bs, Pos(0, k)), j) == Blocked(cfg, f, bs, k + j)
  {
    var t := Translate(bs, Pos(0, k));
    assert forall i :: 0 <= i < 4 ==> t[i].x == bs[i].x && t[i].y + j == bs[i].y + k + j;
  }

  /** Outcome of `move_down`: the piece fell one row, or it landed and the lock
      produced a field (`None` when the lock raised IndexError). */
  datatype Down = Fell(piece: Piece) | Landed(lock: Option<Field>)

  /** `Tetromino.move_down`: one row down when no block's next cell is blocked,
      otherwise the blocks are written into the field. */
  function MoveDown(cfg: Config, f: Field, p: Piece): (r: Down)
    requires Shaped(cfg, f) && cfg.InField(p.blocks)
    ensures r.Fell? <==> forall i :: 0 <= i < 4 ==> Free(cfg, f, p.blocks[i].Plus(Pos(0, 1)))
    ensures r.Fell? ==> r.piece.kind == p.kind && r.piece.rot == p.rot && cfg.InField(r.piece.blocks)
    ensures r.Fell? ==> forall i :: 0 <= i < 4 ==>
              r.piece.blocks[i].x == p.blocks[i].x && r.piece.blocks[i].y == p.blocks[i].y + 1
    ensures r.Landed? ==> r.lock == LockCells(cfg, f, p.blocks)
  {
    if !Blocked(cfg, f, p.blocks, 0) then Fell(p.(blocks := Translate(p.blocks, Pos(0, 1))))
    else Landed(LockCells(cfg, f, p.blocks))
  }

  /** The number of collision-free single steps, counting on from `k` steps that
      are already known to be free, before the first blocked one. */
  function DropFrom(cfg: Config, f: Field, bs: Blocks, k: nat): (d: nat)
    requires Shaped(cfg, f) && cfg.InField(bs)
    requires forall j :: 0 <= j < k ==> !Blocked(cfg, f, bs, j)
    ensures k <= d
    ensures forall j :: 0 <= j < d ==> !Blocked(cfg, f, bs, j)
    ensures Blocked(cfg, f, bs, d)
    decreases cfg.rows - bs[0].y - k
  {
    if Blocked(cfg, f, bs, k) then k
    else
      assert !VerticalCollide(cfg, f, bs[0].x, bs[0].y + k + 1);
      DropFrom(cfg, f, bs, k + 1)
  }

  /** How far a hard drop lowers the piece: the largest shift reachable by
      collision-free single steps. */
  function DropDistance(cfg: Config, f: Field, bs: Blocks): (d: nat)
    requires Shaped(cfg, f) && cfg.InField(bs)
    ensures forall j :: 0 <= j < d ==> !Blocked(cfg, f, bs, j)
    ensures Blocked(cfg, f, bs, d)
  {
    DropFrom(cfg, f, bs, 0)
  }

  /** The drop distance is the first blocked step, so any `d` with free steps
      below it and a blocked step at it is the drop distance. */
  lemma DropDistanceUnique(cfg: Config, f: Field, bs: Blocks, d: nat)
    requires Shaped(cfg, f) && cfg.InField(bs)
    requires forall j :: 0 <= j < d ==> !Blocked(cfg, f, bs, j)
    requires Blocked(cfg, f, bs, d)
    ensures DropDistance(cfg, f, bs) == d
  {
  }

  /** The piece at rest after a drop of `d` free steps is still in bounds. */
  lemma DroppedInField(cfg: Config, f: Field, bs: Blocks, d: nat)
    requires Shaped(cfg, f) && cfg.InField(bs)
    requires forall j :: 0 <= j < d ==> !Blocked(cfg, f, bs, j)
    ensures cfg.InField(Translate(bs, Pos(0, d)))
  {
    var t := Translate(bs, Pos(0, d));
    if d > 0 {
      assert !Blocked(cfg, f, bs, d - 1);
      forall i | 0 <= i < 4 ensures cfg.InBounds(t[i]) {
        assert !VerticalCollide(cfg, f, bs[i].x, bs[i].y + (d - 1) + 1);
      }
    } else {
      TranslateZero(bs);
    }
  }

  /** `move_down` repeated until the piece lands: the field the lock produces. */
  function SoftDropToLock(cfg: Config, f: Field, p: Piece): Option<Field>
    requires Shaped(cfg, f) && cfg.InField(p.blocks)
    decreases cfg.rows - p.blocks[0].y
  {
    match MoveDown(cfg, f, p)
    case Fell(q) => SoftDropToLock(cfg, f, q)
    case Landed(lock) => lock
  }

  /** After one free step the piece has one step less to fall. */
  lemma DropAfterOneStep(cfg: Config, f: Field, bs: Blocks)
    requires Shaped(cfg, f) && cfg.InField(bs)
    requires DropDistance(cfg, f, bs) > 0
    ensures cfg.InField(Translate(bs, Pos(0, 1)))
    ensures DropDistance(cfg, f, Translate(bs, Pos(0, 1))) == DropDistance(cfg, f, bs) - 1
  {
    var d := DropDistance(cfg, f, bs);
    var next := Translate(bs, Pos(0, 1));
    DroppedInField(cfg, f, bs, 1);
    forall j | 0 <= j
      ensures Blocked(cfg, f, next, j) == Blocked(cfg, f, bs, 1 + j)
    {
      BlockedAfterLowering(cfg, f, bs, 1, j);
    }
    DropDistanceUnique(cfg, f, next, d - 1);
  }

  /** A hard drop locks exactly what repeated single steps lock. */
  lemma {:induction false} HardDropIsRepeatedSoftDrop(cfg: Config, f: Field, p: Piece)
    requires Shaped(cfg, f) && cfg.InField(p.blocks)
    ensures LockCells(cfg, f, Translate(p.blocks, Pos(0, DropDistance(cfg, f, p.blocks))))
            == SoftDropToLock(cfg, f, p)
    decreases cfg.rows - p.blocks[0].y
  {
    var d := DropDistance(cfg, f, p.blocks);
    if d == 0 {
      TranslateZero(p.blocks);
      assert Blocked(cfg, f, p.blocks, 0);
    } else {
      assert !Blocked(cfg, f, p.blocks, 0);
      var q := p.(blocks := Translate(p.blocks, Pos(0, 1)));
      DropAfterOneStep(cfg, f, p.blocks);
      assert SoftDropToLock(cfg, f, p) == SoftDropToLock(cfg, f, q);
      HardDropIsRepeatedSoftDrop(cfg, f, q);
      TranslateTwice(p.blocks, Pos(0, 1), Pos(0, d - 1));
      assert Translate(q.blocks, Pos(0, d - 1)) == Translate(p.blocks, Pos(0, d));
    }
  }

  /** `Tetromino.move_drop`: step down while no block is blocked, then lock. The
      piece comes to rest after exactly `DropDistance` steps, blocked below, and
      the lock is the one repeated single steps would produce. */
  method MoveDrop(cfg: Config, f: Field, p: Piece) returns (lock: Option<Field>, rest: Blocks)
    requires Shaped(cfg, f) && cfg.InField(p.blocks)
    ensures rest == Translate(p.blocks, Pos(0, DropDistance(cfg, f, p.blocks)))
    ensures Blocked(cfg, f, p.blocks, DropDistance(cfg, f, p.blocks))
    ensures lock == LockCells(cfg, f, rest)
    ensures lock == SoftDropToLock(cfg, f, p)
  {
    var bs := p.blocks;
    var k := 0;
    TranslateZero(p.blocks);
    BlockedAfterLowering(cfg, f, p.blocks, 0, 0);
    while !Blocked(cfg, f, bs, 0)
      invariant cfg.InField(bs)
      invariant bs == Translate(p.blocks, Pos(0, k))
      invariant Blocked(cfg, f, bs, 0) == Blocked(cfg, f, p.blocks, k)
      invariant forall j :: 0 <= j < k ==> !Blocked(cfg, f, p.blocks, j)
      decreases cfg.rows - bs[0].y
    {
      assert !VerticalCollide(cfg, f, bs[0].x, bs[0].y + 0 + 1);
      DroppedInField(cfg, f, p.blocks, k + 1);
      TranslateTwice(p.blocks, Pos(0, k), Pos(0, 1));
      bs := Translate(bs, Pos(0, 1));
      k := k + 1;
      BlockedAfterLowering(cfg, f, p.blocks, k, 0);
    }
    DropDistanceUnique(cfg, f, p.blocks, k);
    rest := bs;
    lock := LockCells(cfg, f, bs);
    HardDropIsRepeatedSoftDrop(cfg, f, p);
  }
}
