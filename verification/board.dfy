/**
 The playing field (`field_data`): a ROWS x COLUMNS matrix of occupied flags,
 the per-block collision tests of `Block`, and the lock that writes a landed
 piece into the field.

 Python list indexing is modelled exactly where the code can index with a
 negative row: a negative index counts from the end of the list and anything
 further out raises IndexError, which `PyIndex` reports as `None`.
 */
module Board {
  import opened Types
  import opened Settings

  type Field = seq<seq<bool>>

  /** Every row of `f` has `columns` cells. */
  predicate Rect(f: Field, columns: int) {
    forall y :: 0 <= y < |f| ==> |f[y]| == columns
  }

  /** The field has `rows` rows of `columns` cells each. */
  predicate Shaped(cfg: Config, f: Field) {
    |f| == cfg.rows && Rect(f, cfg.columns)
  }

  /** The field at game start: every cell empty. */
  function EmptyField(cfg: Config): (f: Field)
    requires cfg.rows >= 0 && cfg.columns >= 0
    ensures Shaped(cfg, f)
    ensures forall r, c :: 0 <= r < cfg.rows && 0 <= c < cfg.columns ==> !f[r][c]
  {
    seq(cfg.rows, r => seq(cfg.columns, c => false))
  }

  /** The element Python's `xs[i]` reads for a list of length `n`. */
  function PyIndex(n: int, i: int): (r: Option<int>)
    ensures r.Some? <==> -n <= i < n
    ensures r.Some? ==> 0 <= r.value < n && (r.value - i == 0 || r.value - i == n)
  {
    if 0 <= i < n then Some(i)
    else if -n <= i < 0 then Some(n + i)
    else None
  }

  /** A cell a block may move or turn into: inside the columns, above the floor
      and, when on the visible field, not occupied. The spawn buffer (`y < 0`)
      is never occupied. */
  predicate Free(cfg: Config, f: Field, p: Pos)
    requires Shaped(cfg, f)
  {
    cfg.InBounds(p) && (p.y >= 0 ==> !f[p.y][p.x])
  }

  /** `Block.vertical_collide(y, field_data)` for a block in column `x`: the row
      below the floor collides, and so does an occupied row of the visible field. */
  predicate VerticalCollide(cfg: Config, f: Field, x: int, y: int)
    requires Shaped(cfg, f) && 0 <= x < cfg.columns
    ensures VerticalCollide(cfg, f, x, y) <==> !Free(cfg, f, Pos(x, y))
  {
    if y >= cfg.rows then true
    else y >= 0 && f[y][x]
  }

  /** Cell `x` of the row Python's `field_data[y]` reads is free: row `y` itself
      on the visible field, row `y + rows` for a row of the spawn buffer. */
  predicate WrappedFree(cfg: Config, f: Field, y: int, x: int)
    requires Shaped(cfg, f)
  {
    && 0 <= x < cfg.columns
    && -cfg.rows <= y < cfg.rows
    && !f[if y >= 0 then y else y + cfg.rows][x]
  }

  /** `Block.horizontal_collide(x, field_data)` as written, for a block at `b`:
      a column outside the field collides; otherwise the row `b.y` is read with
      Python indexing, so a block in the spawn buffer reads a row counted from
      the bottom of the field, and one further up raises IndexError (`None`). */
  function HorizontalCollide(cfg: Config, f: Field, b: Pos, x: int): (r: Option<bool>)
    requires Shaped(cfg, f)
    ensures r.None? <==> 0 <= x < cfg.columns && !(-cfg.rows <= b.y < cfg.rows)
    ensures r == Some(false) <==> WrappedFree(cfg, f, b.y, x)
  {
    if !(0 <= x < cfg.columns) then Some(true)
    else match PyIndex(cfg.rows, b.y)
      case None => None
      case Some(row) => Some(f[row][x])
  }

  /** Block `i` of `bs` was written into cell (`x`, `y`): its column is `x` and its
      row resolves, Python-style, to `y`. */
  predicate Covers(cfg: Config, bs: seq<Pos>, x: int, y: int) {
    exists i :: 0 <= i < |bs| && bs[i].x == x && PyIndex(cfg.rows, bs[i].y) == Some(y)
  }

  /** The lock loop of `move_down` / `move_drop`: `field_data[int(y)][int(x)] = block`
      for each block in order. A row above the field wraps to the bottom rows; a
      row further up than the field is tall raises IndexError (`None`). */
  function LockCells(cfg: Config, f: Field, bs: seq<Pos>): (r: Option<Field>)
    requires Shaped(cfg, f)
    requires forall i :: 0 <= i < |bs| ==> 0 <= bs[i].x < cfg.columns
    ensures r.Some? <==> forall i :: 0 <= i < |bs| ==> -cfg.rows <= bs[i].y < cfg.rows
    ensures r.Some? ==> Shaped(cfg, r.value)
    ensures r.Some? ==> forall y, x :: 0 <= y < cfg.rows && 0 <= x < cfg.columns ==>
                          (r.value[y][x] <==> f[y][x] || Covers(cfg, bs, x, y))
    decreases |bs|
  {
    if |bs| == 0 then Some(f)
    else match PyIndex(cfg.rows, bs[0].y)
      case None => None
      case Some(row) =>
        var rest := LockCells(cfg, f[row := f[row][bs[0].x := true]], bs[1..]);
        assert rest.Some? ==> forall y, x :: Covers(cfg, bs[1..], x, y) ==> Covers(cfg, bs, x, y) by {
          forall y, x | Covers(cfg, bs[1..], x, y) ensures Covers(cfg, bs, x, y) {
            var i :| 0 <= i < |bs[1..]| && bs[1..][i].x == x && PyIndex(cfg.rows, bs[1..][i].y) == Some(y);
            assert bs[i + 1] == bs[1..][i];
          }
        }
        assert forall y, x :: Covers(cfg, bs, x, y) ==> (x == bs[0].x && y == row) || Covers(cfg, bs[1..], x, y) by {
          forall y, x | Covers(cfg, bs, x, y) ensures (x == bs[0].x && y == row) || Covers(cfg, bs[1..], x, y) {
            var i :| 0 <= i < |bs| && bs[i].x == x && PyIndex(cfg.rows, bs[i].y) == Some(y);
            if i > 0 {
              assert bs[1..][i - 1] == bs[i];
            }
          }
        }
        rest
  }

  /** The field with the cells of `bs` occupied as well. */
  function Placed(cfg: Config, f: Field, bs: Blocks): (g: Field)
    requires Shaped(cfg, f)
    ensures Shaped(cfg, g)
  {
    seq(cfg.rows, y requires 0 <= y < cfg.rows =>
      seq(|f[y]|, x requires 0 <= x < |f[y]| => f[y][x] || Pos(x, y) in bs))
  }

  /** For a piece entirely on the visible field the lock adds exactly the piece's
      cells and changes nothing else. */
  lemma LockOnField(cfg: Config, f: Field, bs: Blocks)
    requires Shaped(cfg, f) && cfg.InField(bs)
    requires forall i :: 0 <= i < 4 ==> bs[i].y >= 0
    ensures LockCells(cfg, f, bs) == Some(Placed(cfg, f, bs))
  {
    assert LockCells(cfg, f, bs).Some?;
    var r := LockCells(cfg, f, bs).value;
    var g := Placed(cfg, f, bs);
    forall y, x | 0 <= y < cfg.rows && 0 <= x < cfg.columns
      ensures r[y][x] == g[y][x]
    {
      if Covers(cfg, bs, x, y) {
        var i :| 0 <= i < |bs| && bs[i].x == x && PyIndex(cfg.rows, bs[i].y) == Some(y);
        assert bs[i] == Pos(x, y);
      }
      if Pos(x, y) in bs {
        var i :| 0 <= i < |bs| && bs[i] == Pos(x, y);
        assert PyIndex(cfg.rows, bs[i].y) == Some(y);
      }
    }
    forall y | 0 <= y < cfg.rows ensures r[y] == g[y] {
      assert |r[y]| == cfg.columns == |g[y]|;
    }
    assert |r| == |g|;
    assert r == g;
  }
}
