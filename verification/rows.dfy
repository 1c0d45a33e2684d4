/**
 `Game.check_finished_rows`: finding the full rows, removing their blocks,
 moving every block above a cleared row down one row per cleared row (one pass
 per cleared row, in ascending order), and rebuilding the field from the
 surviving blocks.

 The blocks are modelled as the field's entries: an entry holds the position of
 the block that sits in that cell, which the passes move while the entry stays
 where it was, as the block objects in `field_data` do until the rebuild.
 */
module Rows {
  import opened Types
  import opened Board

  /** Python's `all(row)`: every cell of the row is occupied. */
  predicate Full(row: seq<bool>) {
    forall x :: 0 <= x < |row| ==> row[x]
  }

  /** No row of the field is full. */
  predicate NoFullRows(f: Field) {
    forall y :: 0 <= y < |f| ==> !Full(f[y])
  }

  predicate Increasing(d: seq<int>) {
    forall i, j :: 0 <= i < j < |d| ==> d[i] < d[j]
  }

  /** `delete_rows`: the indices of the full rows, in ascending order. */
  function FullRows(f: Field): (d: seq<int>)
    ensures forall i :: 0 <= i < |d| ==> 0 <= d[i] < |f| && Full(f[d[i]])
    ensures Increasing(d)
    decreases |f|
  {
    if |f| == 0 then []
    else
      var f0 := f[..|f| - 1];
      assert forall r :: 0 <= r < |f0| ==> f0[r] == f[r];
      FullRows(f0) + (if Full(f[|f| - 1]) then [|f| - 1] else [])
  }

  /** A row is collected for deletion exactly when it is a full row of the field. */
  lemma FullRowsExactly(f: Field, r: int)
    ensures r in FullRows(f) <==> 0 <= r < |f| && Full(f[r])
  {
    var d := FullRows(f);
    if r in d {
      var i :| 0 <= i < |d| && d[i] == r;
    }
    if 0 <= r < |f| && Full(f[r]) {
      var i := FullRowIndex(f, r);
      assert d[i] == r;
    }
  }

  /** Where a full row sits in the list of rows to delete. */
  lemma {:induction false} FullRowIndex(f: Field, r: int) returns (i: int)
    requires 0 <= r < |f| && Full(f[r])
    ensures 0 <= i < |FullRows(f)| && FullRows(f)[i] == r
    decreases |f|
  {
    var f0 := f[..|f| - 1];
    var tail := if Full(f[|f| - 1]) then [|f| - 1] else [];
    assert FullRows(f) == FullRows(f0) + tail;
    if r < |f0| {
      assert f0[r] == f[r];
      i := FullRowIndex(f0, r);
    } else {
      i := |FullRows(f0)|;
    }
  }

  /** How many of the rows in `d` lie strictly below row `y`. */
  function Deeper(d: seq<int>, y: int): nat
    decreases |d|
  {
    if |d| == 0 then 0
    else (if d[0] > y then 1 else 0) + Deeper(d[1..], y)
  }

  lemma {:induction false} DeeperAppend(a: seq<int>, b: seq<int>, y: int)
    ensures Deeper(a + b, y) == Deeper(a, y) + Deeper(b, y)
    decreases |a|
  {
    if |a| == 0 {
      assert a + b == b;
    } else {
      assert (a + b)[1..] == a[1..] + b;
      DeeperAppend(a[1..], b, y);
    }
  }

  lemma {:induction false} DeeperNone(d: seq<int>, y: int)
    requires forall i :: 0 <= i < |d| ==> d[i] <= y
    ensures Deeper(d, y) == 0
    decreases |d|
  {
    if |d| > 0 {
      DeeperNone(d[1..], y);
    }
  }

  lemma {:induction false} DeeperAll(d: seq<int>, y: int)
    requires forall i :: 0 <= i < |d| ==> d[i] > y
    ensures Deeper(d, y) == |d|
    decreases |d|
  {
    if |d| > 0 {
      DeeperAll(d[1..], y);
    }
  }

  // ---------------------------------------------------------------- the passes

  type Entries = seq<seq<Option<Pos>>>

  /** `field_data` as block references: an occupied cell holds the block standing on it. */
  function Lift(f: Field): (e: Entries)
    ensures |e| == |f| && forall y :: 0 <= y < |f| ==> |e[y]| == |f[y]|
    ensures forall y, x :: 0 <= y < |f| && 0 <= x < |f[y]| ==>
              e[y][x] == if f[y][x] then Some(Pos(x, y)) else None
  {
    seq(|f|, y requires 0 <= y < |f| =>
      seq(|f[y]|, x requires 0 <= x < |f[y]| => if f[y][x] then Some(Pos(x, y)) else None))
  }

  /** The move-down loop for one cleared row `r`: every referenced block whose
      row is above `r` moves down one row. */
  function ShiftPass(e: Entries, r: int): (e': Entries)
    ensures |e'| == |e| && forall y :: 0 <= y < |e| ==> |e'[y]| == |e[y]|
    ensures forall y, x :: 0 <= y < |e| && 0 <= x < |e[y]| ==>
              e'[y][x] == match e[y][x]
                          case None => None
                          case Some(p) => Some(if p.y < r then Pos(p.x, p.y + 1) else p)
  {
    seq(|e|, y requires 0 <= y < |e| =>
      seq(|e[y]|, x requires 0 <= x < |e[y]| =>
        match e[y][x]
        case None => None
        case Some(p) => Some(if p.y < r then Pos(p.x, p.y + 1) else p)))
  }

  /** The passes for the cleared rows `d`, in order. */
  function ShiftPasses(e: Entries, d: seq<int>): (e': Entries)
    ensures |e'| == |e| && forall y :: 0 <= y < |e| ==> |e'[y]| == |e[y]|
    decreases |d|
  {
    if |d| == 0 then e else ShiftPasses(ShiftPass(e, d[0]), d[1..])
  }

  /** The row a block starting in row `y` reaches after the passes for `d`. */
  function Settle(y: int, d: seq<int>): int
    decreases |d|
  {
    if |d| == 0 then y else Settle(if y < d[0] then y + 1 else y, d[1..])
  }

  /** The passes move each block on its own: a referenced block ends in the row `Settle` gives. */
  lemma {:induction false} ShiftPassesCell(e: Entries, d: seq<int>, y: int, x: int)
    requires 0 <= y < |e| && 0 <= x < |e[y]|
    ensures ShiftPasses(e, d)[y][x] == match e[y][x]
                                       case None => None
                                       case Some(p) => Some(Pos(p.x, Settle(p.y, d)))
    decreases |d|
  {
    if |d| > 0 {
      ShiftPassesCell(ShiftPass(e, d[0]), d[1..], y, x);
    }
  }

  /** A block with every remaining cleared row below it moves down once per row. */
  lemma {:induction false} SettleBelowAll(z: int, d: seq<int>)
    requires Increasing(d) && (|d| == 0 || z < d[0])
    ensures Settle(z, d) == z + |d|
    decreases |d|
  {
    if |d| > 0 {
      assert |d| > 1 ==> d[0] < d[1];
      SettleBelowAll(z + 1, d[1..]);
    }
  }

  /** The cumulative effect of the ascending passes on a surviving block: it moves
      down by exactly the number of cleared rows strictly below it. */
  lemma {:induction false} SettleIsDeeper(y: int, d: seq<int>)
    requires Increasing(d) && y !in d
    ensures Settle(y, d) == y + Deeper(d, y)
    decreases |d|
  {
    if |d| == 0 {
    } else if d[0] < y {
      assert y !in d[1..];
      SettleIsDeeper(y, d[1..]);
    } else {
      SettleBelowAll(y, d);
      DeeperAll(d, y);
    }
  }

  /** A block outside the cleared rows `d` (a surviving sprite) now stands on cell (`x`, `y`). */
  predicate StandsOn(e: Entries, d: seq<int>, x: int, y: int) {
    exists y0, x0 :: 0 <= y0 < |e| && y0 !in d && 0 <= x0 < |e[y0]| && e[y0][x0] == Some(Pos(x, y))
  }

  /** The rebuild loop: a `rows` x `columns` field whose occupied cells are those
      a surviving block stands on. A block standing outside it would make the
      source's write fail or wrap; `DeeperBound` shows the passes never put a
      survivor there. */
  function Rebuild(rows: nat, columns: nat, d: seq<int>, e: Entries): (f: Field)
    ensures |f| == rows && Rect(f, columns)
    ensures forall y, x :: 0 <= y < rows && 0 <= x < columns ==> (f[y][x] <==> StandsOn(e, d, x, y))
  {
    seq(rows, y => seq(columns, x => StandsOn(e, d, x, y)))
  }

  // ---------------------------------------------------------------- the reference

  /** The rows that are not full, top to bottom. */
  function NonFull(f: Field): (k: Field)
    ensures |k| + |FullRows(f)| == |f|
    ensures forall i :: 0 <= i < |k| ==> !Full(k[i])
    ensures forall c :: Rect(f, c) ==> Rect(k, c)
    decreases |f|
  {
    if |f| == 0 then []
    else
      var f0 := f[..|f| - 1];
      assert forall c :: Rect(f, c) ==> Rect(f0, c);
      NonFull(f0) + (if Full(f[|f| - 1]) then [] else [f[|f| - 1]])
  }

  /** The evidently wanted outcome of a clear: the full rows removed and the
      rest stacked at the bottom under as many empty rows. */
  function Compact(f: Field, columns: nat): Field {
    seq(|FullRows(f)|, _ => seq(columns, _ => false)) + NonFull(f)
  }

  /** Surviving block in column `x` of row `y0` comes to rest in row `y`. */
  predicate LandsIn(f: Field, x: int, y: int) {
    exists y0 :: 0 <= y0 < |f| && !Full(f[y0]) && 0 <= x < |f[y0]| && f[y0][x]
                 && y0 + Deeper(FullRows(f), y0) == y
  }

  /** A surviving block never sinks below the floor. */
  lemma {:induction false} DeeperBound(f: Field, y: int)
    requires 0 <= y < |f|
    ensures y + Deeper(FullRows(f), y) < |f|
    decreases |f|
  {
    var f0 := f[..|f| - 1];
    assert forall r :: 0 <= r < |f0| ==> f0[r] == f[r];
    var tail := if Full(f[|f| - 1]) then [|f| - 1] else [];
    assert FullRows(f) == FullRows(f0) + tail;
    DeeperAppend(FullRows(f0), tail, y);
    if y < |f0| {
      DeeperBound(f0, y);
    } else {
      DeeperNone(FullRows(f0), y);
    }
  }

  /** Peeling the bottom row: how `FullRows` and `Deeper` change. */
  lemma PeelLast(f: Field, y0: int)
    requires |f| > 0 && 0 <= y0 < |f|
    ensures var f0 := f[..|f| - 1];
            && (y0 < |f0| ==> Deeper(FullRows(f), y0) == Deeper(FullRows(f0), y0) + (if Full(f[|f| - 1]) then 1 else 0))
            && (y0 == |f0| ==> Deeper(FullRows(f), y0) == 0)
  {
    var f0 := f[..|f| - 1];
    assert forall r :: 0 <= r < |f0| ==> f0[r] == f[r];
    var tail := if Full(f[|f| - 1]) then [|f| - 1] else [];
    assert FullRows(f) == FullRows(f0) + tail;
    DeeperAppend(FullRows(f0), tail, y0);
    if y0 == |f0| {
      DeeperNone(FullRows(f0), y0);
    }
  }

  /** Peeling a full bottom row off the reference layout: it becomes an empty
      row on top, and every other row moves one row down. */
  lemma CompactPeelFull(f: Field, columns: nat, y: int)
    requires Rect(f, columns) && 0 <= y < |f| && Full(f[|f| - 1])
    ensures |Compact(f, columns)| == |f| && |Compact(f[..|f| - 1], columns)| == |f| - 1
    ensures y == 0 ==> Compact(f, columns)[y] == seq(columns, _ => false)
    ensures y > 0 ==> Compact(f, columns)[y] == Compact(f[..|f| - 1], columns)[y - 1]
  {
    var f0 := f[..|f| - 1];
    assert forall r :: 0 <= r < |f0| ==> f0[r] == f[r];
    assert FullRows(f) == FullRows(f0) + [|f| - 1];
    assert NonFull(f) == NonFull(f0);
  }

  /** Peeling an open bottom row off the reference layout: the rows above keep
      their places, and the bottom row stays at the bottom. */
  lemma CompactPeelOpen(f: Field, columns: nat, y: int)
    requires Rect(f, columns) && 0 <= y < |f| && !Full(f[|f| - 1])
    ensures |Compact(f, columns)| == |f| && |Compact(f[..|f| - 1], columns)| == |f| - 1
    ensures y < |f| - 1 ==> Compact(f, columns)[y] == Compact(f[..|f| - 1], columns)[y]
    ensures y == |f| - 1 ==> Compact(f, columns)[y] == f[y]
  {
    var f0 := f[..|f| - 1];
    assert forall r :: 0 <= r < |f0| ==> f0[r] == f[r];
    assert FullRows(f) == FullRows(f0);
    assert NonFull(f) == NonFull(f0) + [f[|f| - 1]];
  }

  /** `y0` is a survivor of `f` in column `x` that comes to rest in row `y`. */
  lemma LandsWitness(f: Field, x: int, y: int, y0: int)
    requires 0 <= y0 < |f| && !Full(f[y0]) && 0 <= x < |f[y0]| && f[y0][x]
    requires y0 + Deeper(FullRows(f), y0) == y
    ensures LandsIn(f, x, y)
  {
  }

  /** With a full bottom row, a survivor of `f` lands one row lower than in the field above it. */
  lemma LandsPeelFullDown(f: Field, x: int, y: int, y0: int)
    requires |f| > 0 && Full(f[|f| - 1])
    requires 0 <= y0 < |f| && !Full(f[y0]) && 0 <= x < |f[y0]| && f[y0][x]
    requires y0 + Deeper(FullRows(f), y0) == y
    ensures y > 0 && LandsIn(f[..|f| - 1], x, y - 1)
  {
    var f0 := f[..|f| - 1];
    assert y0 < |f0|;
    assert f0[y0] == f[y0];
    PeelLast(f, y0);
    LandsWitness(f0, x, y - 1, y0);
  }

  /** With a full bottom row, a survivor of the field above lands one row lower in `f`. */
  lemma LandsPeelFullUp(f: Field, x: int, y: int, y0: int)
    requires |f| > 0 && Full(f[|f| - 1])
    requires 0 <= y0 < |f| - 1 && !Full(f[..|f| - 1][y0]) && 0 <= x < |f[y0]| && f[y0][x]
    requires y0 + Deeper(FullRows(f[..|f| - 1]), y0) == y - 1
    ensures LandsIn(f, x, y)
  {
    assert f[..|f| - 1][y0] == f[y0];
    PeelLast(f, y0);
    LandsWitness(f, x, y, y0);
  }

  /** Peeling the bottom row off the landing relation when that row is full: no
      block lands in the top row, and every other landing is one row lower. */
  lemma LandsPeelFull(f: Field, x: int, y: int)
    requires |f| > 0 && Full(f[|f| - 1]) && 0 <= y < |f|
    ensures y == 0 ==> !LandsIn(f, x, y)
    ensures y > 0 ==> (LandsIn(f, x, y) <==> LandsIn(f[..|f| - 1], x, y - 1))
  {
    var f0 := f[..|f| - 1];
    if LandsIn(f, x, y) {
      var y0 :| 0 <= y0 < |f| && !Full(f[y0]) && 0 <= x < |f[y0]| && f[y0][x]
                && y0 + Deeper(FullRows(f), y0) == y;
      LandsPeelFullDown(f, x, y, y0);
    }
    if y > 0 && LandsIn(f0, x, y - 1) {
      var y0 :| 0 <= y0 < |f0| && !Full(f0[y0]) && 0 <= x < |f0[y0]| && f0[y0][x]
                && y0 + Deeper(FullRows(f0), y0) == y - 1;
      assert f0[y0] == f[y0];
      LandsPeelFullUp(f, x, y, y0);
    }
  }

  /** With an open bottom row, a survivor above it lands in the same row of `f`
      as in the field above it. */
  lemma LandsPeelOpenSame(f: Field, y0: int)
    requires |f| > 0 && !Full(f[|f| - 1]) && 0 <= y0 < |f| - 1
    ensures Deeper(FullRows(f), y0) == Deeper(FullRows(f[..|f| - 1]), y0)
    ensures y0 + Deeper(FullRows(f), y0) < |f| - 1
  {
    PeelLast(f, y0);
    DeeperBound(f[..|f| - 1], y0);
  }

  /** With an open bottom row, a survivor of `f` other than its bottom row lands
      where it lands in the field above it. */
  lemma LandsPeelOpenDown(f: Field, x: int, y: int, y0: int)
    requires |f| > 0 && !Full(f[|f| - 1]) && 0 <= y0 < |f| - 1
    requires !Full(f[y0]) && 0 <= x < |f[y0]| && f[y0][x]
    requires y0 + Deeper(FullRows(f), y0) == y
    ensures y < |f| - 1 && LandsIn(f[..|f| - 1], x, y)
  {
    var f0 := f[..|f| - 1];
    assert f0[y0] == f[y0];
    LandsPeelOpenSame(f, y0);
    LandsWitness(f0, x, y, y0);
  }

  /** With an open bottom row, a survivor of the field above lands in the same row of `f`. */
  lemma LandsPeelOpenUp(f: Field, x: int, y: int, y0: int)
    requires |f| > 0 && !Full(f[|f| - 1]) && 0 <= y0 < |f| - 1
    requires !Full(f[..|f| - 1][y0]) && 0 <= x < |f[..|f| - 1][y0]| && f[..|f| - 1][y0][x]
    requires y0 + Deeper(FullRows(f[..|f| - 1]), y0) == y
    ensures LandsIn(f, x, y)
  {
    assert f[..|f| - 1][y0] == f[y0];
    LandsPeelOpenSame(f, y0);
    LandsWitness(f, x, y, y0);
  }

  /** Peeling the bottom row off the landing relation when that row is not full:
      the landings above it are unchanged, and its own blocks stay where they are. */
  lemma LandsPeelOpen(f: Field, x: int, y: int)
    requires |f| > 0 && !Full(f[|f| - 1]) && 0 <= y < |f|
    ensures y < |f| - 1 ==> (LandsIn(f, x, y) <==> LandsIn(f[..|f| - 1], x, y))
    ensures y == |f| - 1 ==> (LandsIn(f, x, y) <==> 0 <= x < |f[y]| && f[y][x])
  {
    var f0 := f[..|f| - 1];
    if LandsIn(f, x, y) {
      var y0 :| 0 <= y0 < |f| && !Full(f[y0]) && 0 <= x < |f[y0]| && f[y0][x]
                && y0 + Deeper(FullRows(f), y0) == y;
      if y0 < |f0| {
        LandsPeelOpenDown(f, x, y, y0);
      } else {
        PeelLast(f, y0);
      }
    }
    if y < |f0| && LandsIn(f0, x, y) {
      var y0 :| 0 <= y0 < |f0| && !Full(f0[y0]) && 0 <= x < |f0[y0]| && f0[y0][x]
                && y0 + Deeper(FullRows(f0), y0) == y;
      LandsPeelOpenUp(f, x, y, y0);
    }
    if y == |f0| && 0 <= x < |f[y]| && f[y][x] {
      PeelLast(f, y);
      LandsWitness(f, x, y, y);
    }
  }

  /** The reference layout, cell by cell: a cell is occupied exactly when some
      surviving block comes to rest on it. */
  lemma {:induction false} CompactCell(f: Field, columns: nat, y: int, x: int)
    requires Rect(f, columns) && 0 <= y < |f| && 0 <= x < columns
    ensures |Compact(f, columns)| == |f|
    ensures Compact(f, columns)[y][x] <==> LandsIn(f, x, y)
    decreases |f|
  {
    var f0 := f[..|f| - 1];
    assert Rect(f0, columns) by {
      forall r | 0 <= r < |f0| ensures |f0[r]| == columns {
        assert f0[r] == f[r];
      }
    }
    if Full(f[|f| - 1]) {
      CompactPeelFull(f, columns, y);
      LandsPeelFull(f, x, y);
      if y > 0 {
        CompactCell(f0, columns, y - 1, x);
      }
    } else {
      CompactPeelOpen(f, columns, y);
      LandsPeelOpen(f, x, y);
      if y < |f0| {
        CompactCell(f0, columns, y, x);
      }
    }
  }

  /** The passes on the lifted field move the block of an occupied cell to its `Settle` row. */
  lemma LiftedCell(f: Field, d: seq<int>, y0: int, x: int)
    requires 0 <= y0 < |f| && 0 <= x < |f[y0]| && f[y0][x]
    ensures ShiftPasses(Lift(f), d)[y0][x] == Some(Pos(x, Settle(y0, d)))
  {
    var e := Lift(f);
    assert e[y0][x] == Some(Pos(x, y0));
    ShiftPassesCell(e, d, y0, x);
  }

  /** No cleared row below `y`: the block in row `y` does not move. */
  lemma {:induction false} DeeperNoneAbove(d: seq<int>, y: int)
    requires forall r :: r in d ==> r < y
    ensures Deeper(d, y) == 0
    decreases |d|
  {
    if |d| > 0 {
      assert d[0] in d;
      assert forall r :: r in d[1..] ==> r in d;
      DeeperNoneAbove(d[1..], y);
    }
  }

  /** Every surviving block moves down by the number of cleared rows strictly
      below it and stays on the field. */
  lemma SurvivorMovesDown(f: Field, y0: int, x: int)
    requires 0 <= y0 < |f| && 0 <= x < |f[y0]| && f[y0][x] && !Full(f[y0])
    ensures |ShiftPasses(Lift(f), FullRows(f))| == |f|
    ensures |ShiftPasses(Lift(f), FullRows(f))[y0]| == |f[y0]|
    ensures ShiftPasses(Lift(f), FullRows(f))[y0][x] == Some(Pos(x, y0 + Deeper(FullRows(f), y0)))
    ensures y0 + Deeper(FullRows(f), y0) < |f|
  {
    var d := FullRows(f);
    FullRowsExactly(f, y0);
    LiftedSurvivor(f, d, y0, x);
    DeeperBound(f, y0);
  }

  /** The passes for any ascending rows `d` move a block outside them down by
      the number of rows of `d` below it. */
  lemma LiftedSurvivor(f: Field, d: seq<int>, y0: int, x: int)
    requires 0 <= y0 < |f| && 0 <= x < |f[y0]| && f[y0][x]
    requires Increasing(d) && y0 !in d
    ensures ShiftPasses(Lift(f), d)[y0][x] == Some(Pos(x, y0 + Deeper(d, y0)))
  {
    LiftedCell(f, d, y0, x);
    SettleIsDeeper(y0, d);
  }

  /** A block below the lowest cleared row stays where it is. */
  lemma SurvivorBelowClearsStays(f: Field, y0: int, x: int)
    requires 0 <= y0 < |f| && 0 <= x < |f[y0]| && f[y0][x]
    requires forall r :: r in FullRows(f) ==> r < y0
    ensures ShiftPasses(Lift(f), FullRows(f))[y0][x] == Some(Pos(x, y0))
  {
    var d := FullRows(f);
    FullRowsExactly(f, y0);
    LiftedSurvivor(f, d, y0, x);
    DeeperNoneAbove(d, y0);
  }

  /** Every block standing in the rebuilt field is a survivor that landed there. */
  lemma StandsOnLanded(f: Field, x: int, y: int)
    requires StandsOn(ShiftPasses(Lift(f), FullRows(f)), FullRows(f), x, y)
    ensures LandsIn(f, x, y)
  {
    var d := FullRows(f);
    var e := ShiftPasses(Lift(f), d);
    var y0, x0 :| 0 <= y0 < |e| && y0 !in d && 0 <= x0 < |e[y0]| && e[y0][x0] == Some(Pos(x, y));
    ShiftPassesCell(Lift(f), d, y0, x0);
    assert f[y0][x0] && x0 == x && Settle(y0, d) == y;
    FullRowsExactly(f, y0);
    SettleIsDeeper(y0, d);
    LandsWitness(f, x, y, y0);
  }

  lemma StandsOnWitness(e: Entries, d: seq<int>, x: int, y: int, y0: int, x0: int)
    requires 0 <= y0 < |e| && y0 !in d && 0 <= x0 < |e[y0]| && e[y0][x0] == Some(Pos(x, y))
    ensures StandsOn(e, d, x, y)
  {
  }

  /** The landing cell of the survivor in cell (`x`, `y0`) has a block standing on it after the passes. */
  lemma SurvivorStandsOn(f: Field, y0: int, x: int, y: int)
    requires 0 <= y0 < |f| && 0 <= x < |f[y0]| && f[y0][x] && !Full(f[y0])
    requires y0 + Deeper(FullRows(f), y0) == y
    ensures StandsOn(ShiftPasses(Lift(f), FullRows(f)), FullRows(f), x, y)
  {
    FullRowsExactly(f, y0);
    LiftedStandsOn(f, FullRows(f), y0, x, y);
  }

  /** For any ascending rows `d`, a block outside them stands after the passes
      on the cell `Deeper` rows below its own. */
  lemma LiftedStandsOn(f: Field, d: seq<int>, y0: int, x: int, y: int)
    requires 0 <= y0 < |f| && 0 <= x < |f[y0]| && f[y0][x]
    requires Increasing(d) && y0 !in d && y0 + Deeper(d, y0) == y
    ensures StandsOn(ShiftPasses(Lift(f), d), d, x, y)
  {
    LiftedSurvivor(f, d, y0, x);
    StandsOnWitness(ShiftPasses(Lift(f), d), d, x, y, y0, x);
  }

  /** Every survivor's landing cell has a block standing on it after the passes. */
  lemma LandedStandsOn(f: Field, x: int, y: int)
    requires LandsIn(f, x, y)
    ensures StandsOn(ShiftPasses(Lift(f), FullRows(f)), FullRows(f), x, y)
  {
    var y0 :| 0 <= y0 < |f| && !Full(f[y0]) && 0 <= x < |f[y0]| && f[y0][x]
              && y0 + Deeper(FullRows(f), y0) == y;
    SurvivorStandsOn(f, y0, x, y);
  }

  /** Cell (`x`, `y`) exists in both fields and holds the same in both. */
  predicate CellsAgree(a: Field, b: Field, y: int, x: int) {
    0 <= y < |a| && 0 <= y < |b| && 0 <= x < |a[y]| && 0 <= x < |b[y]| && a[y][x] == b[y][x]
  }

  /** One cell of the rebuilt field agrees with the reference layout. */
  lemma RebuildCell(f: Field, columns: nat, y: int, x: int)
    requires Rect(f, columns) && 0 <= y < |f| && 0 <= x < columns
    ensures CellsAgree(Rebuild(|f|, columns, FullRows(f), ShiftPasses(Lift(f), FullRows(f))), Compact(f, columns), y, x)
  {
    CompactCell(f, columns, y, x);
    if StandsOn(ShiftPasses(Lift(f), FullRows(f)), FullRows(f), x, y) {
      StandsOnLanded(f, x, y);
    }
    if LandsIn(f, x, y) {
      LandedStandsOn(f, x, y);
    }
  }

  /** The reference layout keeps the field's shape, and no full row remains. */
  lemma CompactShape(f: Field, columns: nat)
    requires Rect(f, columns)
    ensures |Compact(f, columns)| == |f| && Rect(Compact(f, columns), columns)
    ensures columns > 0 ==> NoFullRows(Compact(f, columns))
  {
    var c := Compact(f, columns);
    var n := |FullRows(f)|;
    var k := NonFull(f);
    forall y | 0 <= y < |c| ensures |c[y]| == columns && (columns > 0 ==> !Full(c[y])) {
      if y < n {
        assert c[y] == seq(columns, _ => false);
        if columns > 0 {
          assert !c[y][0];
        }
      } else {
        assert c[y] == k[y - n];
        assert Rect(k, columns);
      }
    }
  }

  /** Two `rows` x `columns` fields whose cells all agree are equal. */
  lemma SameCells(a: Field, b: Field, rows: nat, columns: nat)
    requires |a| == rows == |b| && Rect(a, columns) && Rect(b, columns)
    requires forall y, x :: 0 <= y < rows && 0 <= x < columns ==> CellsAgree(a, b, y, x)
    ensures a == b
  {
    forall y | 0 <= y < rows ensures a[y] == b[y] {
      assert |a[y]| == columns == |b[y]|;
      forall x | 0 <= x < columns ensures a[y][x] == b[y][x] {
        assert CellsAgree(a, b, y, x);
      }
    }
  }

  /** The block-by-block clear lays out the field exactly as the reference does. */
  lemma RebuildIsCompact(f: Field, columns: nat)
    requires Rect(f, columns)
    ensures Rebuild(|f|, columns, FullRows(f), ShiftPasses(Lift(f), FullRows(f))) == Compact(f, columns)
  {
    var r := Rebuild(|f|, columns, FullRows(f), ShiftPasses(Lift(f), FullRows(f)));
    var c := Compact(f, columns);
    CompactShape(f, columns);
    forall y, x | 0 <= y < |f| && 0 <= x < columns ensures CellsAgree(r, c, y, x) {
      RebuildCell(f, columns, y, x);
    }
    SameCells(r, c, |f|, columns);
  }

  /** With no full row, the reference layout is the field itself. */
  lemma {:induction false} CompactWithoutFullRows(f: Field)
    requires NoFullRows(f)
    ensures FullRows(f) == [] && NonFull(f) == f
    decreases |f|
  {
    if |f| > 0 {
      var f0 := f[..|f| - 1];
      var last := f[|f| - 1];
      assert NoFullRows(f0) by {
        forall y | 0 <= y < |f0| ensures !Full(f0[y]) {
          assert f0[y] == f[y];
        }
      }
      assert !Full(last);
      CompactWithoutFullRows(f0);
      assert FullRows(f) == FullRows(f0) + [];
      assert NonFull(f) == NonFull(f0) + [last];
      DropLastAppend(f);
    }
  }

  /** A non-empty sequence is its prefix followed by its last element. */
  lemma DropLastAppend<T>(s: seq<T>)
    requires |s| > 0
    ensures s[..|s| - 1] + [s[|s| - 1]] == s
  {
  }

  /** Outcome of `check_finished_rows`: the new field and the number of rows cleared. */
  datatype Cleared = Cleared(field: Field, count: nat)

  /** `Game.check_finished_rows` on the field: with no full row nothing happens;
      otherwise the passes run and the field is rebuilt from the survivors. The
      result is the reference layout: the full rows gone, the others stacked at
      the bottom in their order, empty rows on top, and no full row left. */
  function CheckFinishedRows(f: Field, columns: nat): (r: Cleared)
    requires Rect(f, columns)
    ensures r.count == |FullRows(f)|
    ensures r.count == 0 <==> NoFullRows(f)
    ensures r.field == Compact(f, columns)
    ensures |r.field| == |f| && Rect(r.field, columns)
    ensures columns > 0 ==> NoFullRows(r.field)
  {
    var d := FullRows(f);
    RebuildIsCompact(f, columns);
    CompactShape(f, columns);
    if |d| == 0 then
      assert NoFullRows(f) by {
        forall y | 0 <= y < |f| ensures !Full(f[y]) {
          FullRowsExactly(f, y);
        }
      }
      CompactWithoutFullRows(f);
      assert Compact(f, columns) == f;
      Cleared(f, 0)
    else
      Cleared(Rebuild(|f|, columns, d, ShiftPasses(Lift(f), d)), |d|)
  }

  // ---------------------------------------------------------------- how many rows one landing clears

  /** Some cell of `bs` lies in row `y`. */
  predicate HasRow(bs: seq<Pos>, y: int) {
    exists i :: 0 <= i < |bs| && bs[i].y == y
  }

  /** The rows the cells of `bs` occupy. */
  function RowsOf(bs: seq<Pos>): (s: set<int>)
    ensures |s| <= |bs|
    ensures forall y :: y in s <==> HasRow(bs, y)
    decreases |bs|
  {
    if |bs| == 0 then {}
    else
      var rest := RowsOf(bs[1..]);
      assert forall y :: HasRow(bs[1..], y) ==> HasRow(bs, y) by {
        forall y | HasRow(bs[1..], y) ensures HasRow(bs, y) {
          var i :| 0 <= i < |bs[1..]| && bs[1..][i].y == y;
          assert bs[i + 1].y == y;
        }
      }
      assert forall y :: HasRow(bs, y) ==> y == bs[0].y || HasRow(bs[1..], y) by {
        forall y | HasRow(bs, y) ensures y == bs[0].y || HasRow(bs[1..], y) {
          var i :| 0 <= i < |bs| && bs[i].y == y;
          if i > 0 {
            assert bs[1..][i - 1].y == y;
          }
        }
      }
      {bs[0].y} + rest
  }

  /** An ascending list drawn from a finite set is no longer than the set. */
  lemma {:induction false} IncreasingWithin(d: seq<int>, s: set<int>)
    requires Increasing(d) && forall i :: 0 <= i < |d| ==> d[i] in s
    ensures |d| <= |s|
    decreases |d|
  {
    if |d| > 0 {
      var s' := s - {d[0]};
      forall i | 0 <= i < |d[1..]| ensures d[1..][i] in s' {
        assert d[1..][i] == d[i + 1] && d[0] < d[i + 1];
      }
      IncreasingWithin(d[1..], s');
    }
  }

  /** When the field had no full row and the landing only occupied cells of `bs`,
      every full row is one of the rows of `bs`, so a landing clears at most as
      many rows as the piece has cells. */
  lemma FullRowsFromLanding(f: Field, g: Field, columns: nat, bs: seq<Pos>)
    requires Rect(f, columns) && Rect(g, columns) && |f| == |g| && NoFullRows(f)
    requires forall y, x :: 0 <= y < |g| && 0 <= x < columns && g[y][x] ==> f[y][x] || Pos(x, y) in bs
    ensures forall r :: r in FullRows(g) ==> r in RowsOf(bs)
    ensures |FullRows(g)| <= |bs|
  {
    var d := FullRows(g);
    forall r | r in d ensures r in RowsOf(bs) {
      var x :| 0 <= x < |f[r]| && !f[r][x];
      assert g[r][x];
      var i :| 0 <= i < |bs| && bs[i] == Pos(x, r);
      assert HasRow(bs, r);
    }
    forall i | 0 <= i < |d| ensures d[i] in RowsOf(bs) {
      assert d[i] in d;
    }
    IncreasingWithin(d, RowsOf(bs));
  }
}
