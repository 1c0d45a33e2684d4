/**
 The `Game` loop around the falling piece: one keyboard command or gravity tick
 at a time, the landing sequence of `create_new_tetromino` (the game-over test,
 the row clear and the score), and the invariant the loop keeps.

 The next shape comes from outside the game (`get_next_shape`), so it is a
 parameter of every step. `exit()` and an IndexError both end the game; they
 are the terminal statuses `GameOver` and `Crashed`.
 */
module Game {
  import opened Types
  import opened Settings
  import opened Board
  import Tet = Tetromino
  import Spin = Rotation
  import opened Rows
  import opened Scoring

  datatype Status = Playing | GameOver | Crashed

  datatype State = State(field: Field, piece: Piece, stats: Stats, status: Status)

  /** What `Game.input` and the gravity timer ask of the piece: a/Left, d/Right,
      s/Down or the timer, Space, and w/Up (which always turns clockwise). */
  datatype Command = Left | Right | Down | Drop | Rotate(clockwise: bool)

  /** What every state of a game keeps: the field has its size, the piece is in
      bounds, the counters agree, and while play goes on no row is full. */
  predicate Inv(cfg: Config, g: State) {
    && Shaped(cfg, g.field)
    && cfg.InField(g.piece.blocks)
    && Consistent(g.stats)
    && (g.status == Playing ==> NoFullRows(g.field))
  }

  /** `Game.__init__`: an empty field, the first piece, level 1 with no lines. */
  function Start(cfg: Config, first: Kind): (g: State)
    requires cfg.Valid()
    ensures Inv(cfg, g) && g.status == Playing
    ensures forall y, x :: 0 <= y < cfg.rows && 0 <= x < cfg.columns ==> !g.field[y][x]
    ensures g.piece.kind == first && g.stats == Stats(1, 0, 0)
  {
    var f := EmptyField(cfg);
    assert forall y :: 0 <= y < |f| ==> !f[y][0];
    State(f, Tet.Spawn(cfg, first), Initial(), Playing)
  }

  /** `create_new_tetromino` after a landing on the visible field: the rows are
      cleared, the score is updated when any were, and the next piece spawns. A
      count missing from the score table would raise KeyError; at most four rows
      are ever full, so it does not. */
  function Resume(cfg: Config, f: Field, stats: Stats, bs: Blocks, next: Kind): (r: State)
    requires cfg.Valid() && Shaped(cfg, f) && NoFullRows(f) && Consistent(stats) && cfg.InField(bs)
    ensures r.status == Playing
    ensures r.field == Compact(Placed(cfg, f, bs), cfg.columns)
    ensures r.piece == Tet.Spawn(cfg, next)
    ensures r.stats.lines == stats.lines + |FullRows(Placed(cfg, f, bs))|
    ensures |FullRows(Placed(cfg, f, bs))| <= 4
    ensures |FullRows(Placed(cfg, f, bs))| == 0 ==> r.stats == stats
    ensures |FullRows(Placed(cfg, f, bs))| > 0 ==>
              Some(r.stats) == CalculateScore(cfg.scoreData, stats, |FullRows(Placed(cfg, f, bs))|)
    ensures Inv(cfg, r)
    ensures r.stats.score >= stats.score && r.stats.lines >= stats.lines && r.stats.level >= stats.level
  {
    var locked := Placed(cfg, f, bs);
    assert Rect(f, cfg.columns) && Rect(locked, cfg.columns);
    FullRowsFromLanding(f, locked, cfg.columns, bs);
    var cleared := CheckFinishedRows(locked, cfg.columns);
    if cleared.count == 0 then
      State(cleared.field, Tet.Spawn(cfg, next), stats, Playing)
    else
      ScoreKeepsConsistent(cfg.scoreData, stats, cleared.count);
      State(cleared.field, Tet.Spawn(cfg, next), CalculateScore(cfg.scoreData, stats, cleared.count).value, Playing)
  }

  /** A landing: the lock loop writes the piece at `bs` into the field, then
      `create_new_tetromino` runs `check_game_over` (any block above the field
      ends the game) before `Resume`. A block further above the field than the
      field is tall makes the lock raise IndexError. */
  function Land(cfg: Config, g: State, bs: Blocks, next: Kind): (r: State)
    requires cfg.Valid() && Inv(cfg, g) && g.status == Playing && cfg.InField(bs)
    ensures r.status == Crashed <==> exists i :: 0 <= i < 4 && bs[i].y < -cfg.rows
    ensures r.status == GameOver <==>
              (forall i :: 0 <= i < 4 ==> bs[i].y >= -cfg.rows) && exists i :: 0 <= i < 4 && bs[i].y < 0
    ensures r.status == Playing ==> r == Resume(cfg, g.field, g.stats, bs, next)
    ensures Inv(cfg, r)
    ensures r.stats.score >= g.stats.score && r.stats.lines >= g.stats.lines && r.stats.level >= g.stats.level
  {
    match LockCells(cfg, g.field, bs)
    case None => State(g.field, g.piece.(blocks := bs), g.stats, Crashed)
    case Some(locked) =>
      if exists i :: 0 <= i < 4 && bs[i].y < 0 then
        State(locked, g.piece.(blocks := bs), g.stats, GameOver)
      else
        LockOnField(cfg, g.field, bs);
        Resume(cfg, g.field, g.stats, bs, next)
  }

  /** A gravity tick or the s/Down key (`move_down`): the piece falls a row when
      every cell below it is free, and lands where it is otherwise. */
  function Fall(cfg: Config, g: State, next: Kind): (r: State)
    requires cfg.Valid() && Inv(cfg, g) && g.status == Playing
    ensures Inv(cfg, r)
    ensures r.status == Playing && r.field == g.field && r.stats == g.stats
            <== forall i :: 0 <= i < 4 ==> Free(cfg, g.field, g.piece.blocks[i].Plus(Pos(0, 1)))
    ensures (forall i :: 0 <= i < 4 ==> Free(cfg, g.field, g.piece.blocks[i].Plus(Pos(0, 1)))) ==>
              r.piece == g.piece.(blocks := Translate(g.piece.blocks, Pos(0, 1)))
    ensures !(forall i :: 0 <= i < 4 ==> Free(cfg, g.field, g.piece.blocks[i].Plus(Pos(0, 1)))) ==>
              r == Land(cfg, g, g.piece.blocks, next)
  {
    match Tet.MoveDown(cfg, g.field, g.piece)
    case Fell(q) =>
      assert q.blocks == Translate(g.piece.blocks, Pos(0, 1));
      g.(piece := q)
    case Landed(_) => Land(cfg, g, g.piece.blocks, next)
  }

  /** The space bar (`move_drop`): the piece falls its drop distance at once and lands. */
  function HardDrop(cfg: Config, g: State, next: Kind): (r: State)
    requires cfg.Valid() && Inv(cfg, g) && g.status == Playing
    ensures Inv(cfg, r)
    ensures cfg.InField(Translate(g.piece.blocks, Pos(0, Tet.DropDistance(cfg, g.field, g.piece.blocks))))
    ensures r == Land(cfg, g, Translate(g.piece.blocks, Pos(0, Tet.DropDistance(cfg, g.field, g.piece.blocks))), next)
  {
    var d := Tet.DropDistance(cfg, g.field, g.piece.blocks);
    Tet.DroppedInField(cfg, g.field, g.piece.blocks, d);
    Land(cfg, g, Translate(g.piece.blocks, Pos(0, d)), next)
  }

  /** One command. Sideways moves treat the rows above the field as empty (see
      `Tetromino.MoveHorizontalBuffered`); a finished game ignores everything. */
  function Step(cfg: Config, g: State, cmd: Command, next: Kind): (r: State)
    requires cfg.Valid() && Inv(cfg, g)
    ensures Inv(cfg, r)
    ensures g.status != Playing ==> r == g
    ensures (cmd.Left? || cmd.Right? || cmd.Rotate?) ==>
              r.field == g.field && r.stats == g.stats && r.status == g.status && r.piece.kind == g.piece.kind
    ensures (cmd.Left? || cmd.Right? || cmd.Rotate?) && g.status == Playing && Spin.Fits(cfg, g.field, g.piece.blocks) ==>
              Spin.Fits(cfg, r.field, r.piece.blocks)
    ensures r.stats.score >= g.stats.score && r.stats.lines >= g.stats.lines && r.stats.level >= g.stats.level
  {
    if g.status != Playing then g
    else match cmd
      case Left => g.(piece := Tet.MoveHorizontalBuffered(cfg, g.field, g.piece, -1))
      case Right => g.(piece := Tet.MoveHorizontalBuffered(cfg, g.field, g.piece, 1))
      case Rotate(clockwise) => g.(piece := Spin.Rotate(cfg, g.field, g.piece, clockwise).0)
      case Down => Fall(cfg, g, next)
      case Drop => HardDrop(cfg, g, next)
  }

  /** `n` gravity ticks in a row, each landing followed by a piece of kind `next`. */
  function Ticks(cfg: Config, g: State, n: nat, next: Kind): (r: State)
    requires cfg.Valid() && Inv(cfg, g)
    ensures Inv(cfg, r)
    decreases n
  {
    if n == 0 then g
    else
      var t := Ticks(cfg, g, n - 1, next);
      if t.status != Playing then t else Fall(cfg, t, next)
  }

  /** The game with its piece lowered by `k` rows. */
  function Lowered(g: State, k: int): State {
    g.(piece := g.piece.(blocks := Translate(g.piece.blocks, Pos(0, k))))
  }

  /** A landing depends on the landed piece only through its kind and rotation. */
  lemma LandIgnoresPosition(cfg: Config, g: State, h: State, bs: Blocks, next: Kind)
    requires cfg.Valid() && Inv(cfg, g) && g.status == Playing && cfg.InField(bs)
    requires h == g.(piece := h.piece) && h.piece.kind == g.piece.kind && h.piece.rot == g.piece.rot
    requires cfg.InField(h.piece.blocks)
    ensures Land(cfg, g, bs, next) == Land(cfg, h, bs, next)
  {
    assert g.piece.(blocks := bs) == h.piece.(blocks := bs);
  }

  /** A piece with room below: a tick moves it down a row, which takes one row
      off its drop distance and leaves the outcome of the space bar as it was. */
  lemma DropAfterFall(cfg: Config, g: State, next: Kind)
    requires cfg.Valid() && Inv(cfg, g) && g.status == Playing
    requires Tet.DropDistance(cfg, g.field, g.piece.blocks) > 0
    ensures Fall(cfg, g, next).status == Playing
    ensures Fall(cfg, g, next).field == g.field
    ensures Tet.DropDistance(cfg, g.field, Fall(cfg, g, next).piece.blocks)
            == Tet.DropDistance(cfg, g.field, g.piece.blocks) - 1
    ensures HardDrop(cfg, Fall(cfg, g, next), next) == HardDrop(cfg, g, next)
  {
    var p := g.piece;
    var d := Tet.DropDistance(cfg, g.field, p.blocks);
    assert !Tet.Blocked(cfg, g.field, p.blocks, 0);
    var h := Fall(cfg, g, next);
    assert h == g.(piece := p.(blocks := Translate(p.blocks, Pos(0, 1))));
    Tet.DropAfterOneStep(cfg, g.field, p.blocks);
    TranslateTwice(p.blocks, Pos(0, 1), Pos(0, d - 1));
    assert Pos(0, 1).Plus(Pos(0, d - 1)) == Pos(0, d);
    Tet.DroppedInField(cfg, g.field, p.blocks, d);
    LandIgnoresPosition(cfg, g, h, Translate(p.blocks, Pos(0, d)), next);
  }

  /** While the piece has room below, each tick lowers it one row and nothing else changes. */
  lemma {:induction false} TicksWhileFalling(cfg: Config, g: State, k: nat, next: Kind)
    requires cfg.Valid() && Inv(cfg, g) && g.status == Playing
    requires k <= Tet.DropDistance(cfg, g.field, g.piece.blocks)
    ensures Ticks(cfg, g, k, next) == Lowered(g, k)
    decreases k
  {
    var bs := g.piece.blocks;
    if k == 0 {
      TranslateZero(bs);
    } else {
      TicksWhileFalling(cfg, g, k - 1, next);
      var t := Lowered(g, k - 1);
      Tet.DroppedInField(cfg, g.field, bs, k - 1);
      Tet.BlockedAfterLowering(cfg, g.field, bs, k - 1, 0);
      assert !Tet.Blocked(cfg, g.field, t.piece.blocks, 0);
      TranslateTwice(bs, Pos(0, k - 1), Pos(0, 1));
      assert Pos(0, k - 1).Plus(Pos(0, 1)) == Pos(0, k);
      assert Fall(cfg, t, next) == Lowered(g, k);
    }
  }

  /** The space bar does in one step what the gravity timer does in one tick
      more than the drop distance: fall that many rows, then land. */
  lemma DropIsRepeatedFall(cfg: Config, g: State, next: Kind)
    requires cfg.Valid() && Inv(cfg, g) && g.status == Playing
    ensures HardDrop(cfg, g, next) == Ticks(cfg, g, Tet.DropDistance(cfg, g.field, g.piece.blocks) + 1, next)
  {
    var bs := g.piece.blocks;
    var d := Tet.DropDistance(cfg, g.field, bs);
    TicksWhileFalling(cfg, g, d, next);
    var t := Lowered(g, d);
    Tet.DroppedInField(cfg, g.field, bs, d);
    Tet.BlockedAfterLowering(cfg, g.field, bs, d, 0);
    assert Tet.Blocked(cfg, g.field, t.piece.blocks, 0);
    assert Ticks(cfg, g, d + 1, next) == Fall(cfg, t, next);
    LandIgnoresPosition(cfg, g, t, t.piece.blocks, next);
  }
}
