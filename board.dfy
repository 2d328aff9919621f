/** The board of the falling-block game: cells, blocks, columns, and the
    gravity step that the game applies to each column once per frame.

    A board is a sequence of columns; a column is a sequence of cells read
    top to bottom (row 0 is the top row). */
module Board {

  datatype Option<T> = None | Some(value: T)

  datatype BlockColor = Blue | Green | Red

  /** A block has a colour and nothing else. */
  datatype Block = Block(color: BlockColor)

  /** A cell of the board is either empty (None) or holds one block. */
  type Cell = Option<Block>

  type Column = seq<Cell>

  const BoardHeight: nat := 10
  const BoardWidth: nat := 8

  // ---------------------------------------------------------------------
  // Views of a column
  // ---------------------------------------------------------------------

  /** The blocks of a column, top to bottom. */
  function Blocks(col: Column): (r: seq<Block>)
    ensures |r| <= |col|
  {
    if col == [] then []
    else (if col[0].Some? then [col[0].value] else []) + Blocks(col[1..])
  }

  /** The number of empty cells of a column. */
  function Empties(col: Column): (r: nat)
    ensures r <= |col|
  {
    if col == [] then 0
    else (if col[0].None? then 1 else 0) + Empties(col[1..])
  }

  /** A column is settled when no block stands above an empty cell: all
      empty cells are at the top, all blocks are at the bottom. */
  ghost predicate Settled(col: Column) {
    forall i, j :: 0 <= i < j < |col| && col[i].Some? ==> col[j].Some?
  }

  /** The number of (block above empty cell) pairs of a column: how far
      it is from being settled. */
  function Inversions(col: Column): nat {
    if col == [] then 0
    else (if col[0].Some? then Empties(col[1..]) else 0) + Inversions(col[1..])
  }

  function EmptyCells(n: nat): (r: Column)
    ensures |r| == n
  {
    if n == 0 then [] else [None] + EmptyCells(n - 1)
  }

  function FullCells(bs: seq<Block>): (r: Column)
    ensures |r| == |bs|
  {
    if bs == [] then [] else [Some(bs[0])] + FullCells(bs[1..])
  }

  /** The settled form of a column: its blocks, in their order, stacked on
      the bottom row, with empty cells above them. This is the reference
      that repeated gravity steps converge to. */
  function Compacted(col: Column): (r: Column)
    ensures |r| == |col|
  {
    EmptyCells(|col| - |Blocks(col)|) + FullCells(Blocks(col))
  }

  // ---------------------------------------------------------------------
  // The gravity step, as the loop in the game performs it
  // ---------------------------------------------------------------------

  /** One iteration of the inner loop at row y: if the cell at row y is
      empty it is removed, and an empty cell is inserted at row 0, which
      moves every cell of rows 0..y-1 down by one row. */
  function DropStep(col: Column, y: nat): (r: Column)
    requires y < |col|
    ensures |r| == |col|
    ensures forall k :: y < k < |col| ==> r[k] == col[k]
    ensures col[y].Some? ==> r == col
    ensures col[y].None? ==> r[0] == None && forall k :: 0 <= k < y ==> r[k + 1] == col[k]
  {
    if col[y].None? then [None] + (col[..y] + col[y + 1..]) else col
  }

  /** The inner loop with k rows still to visit: rows k-1, k-2, ..., 0, in
      that order, each visited once, at whatever cell has moved into it. */
  function DropFrom(col: Column, k: nat): (r: Column)
    requires k <= |col|
    ensures |r| == |col|
    decreases k
  {
    if k == 0 then col else DropFrom(DropStep(col, k - 1), k - 1)
  }

  /** What one call of the gravity step does to one column: the inner loop
      over all rows, from the bottom row upwards. */
  function DropColumn(col: Column): (r: Column)
    ensures |r| == |col|
  {
    DropFrom(col, |col|)
  }

  /** The column after n frames, each applying the gravity step once. */
  function Ticks(col: Column, n: nat): (r: Column)
    ensures |r| == |col|
    decreases n
  {
    if n == 0 then col else Ticks(DropColumn(col), n - 1)
  }

  // ---------------------------------------------------------------------
  // Lemmas about the views
  // ---------------------------------------------------------------------

  lemma {:induction false} BlocksConcat(a: Column, b: Column)
    ensures Blocks(a + b) == Blocks(a) + Blocks(b)
  {
    if a == [] {
      assert a + b == b;
    } else {
      var h := if a[0].Some? then [a[0].value] else [];
      assert Blocks(a + b) == h + Blocks(a[1..] + b) by {
        assert (a + b)[0] == a[0];
        assert (a + b)[1..] == a[1..] + b;
      }
      BlocksConcat(a[1..], b);
      assert h + (Blocks(a[1..]) + Blocks(b)) == (h + Blocks(a[1..])) + Blocks(b);
    }
  }

  lemma {:induction false} EmptiesConcat(a: Column, b: Column)
    ensures Empties(a + b) == Empties(a) + Empties(b)
  {
    if a == [] {
      assert a + b == b;
    } else {
      assert (a + b)[1..] == a[1..] + b;
      EmptiesConcat(a[1..], b);
    }
  }

  /** Every cell is either empty or a block. */
  lemma {:induction false} CellsAreBlocksOrEmpty(col: Column)
    ensures |Blocks(col)| + Empties(col) == |col|
  {
    if col != [] {
      CellsAreBlocksOrEmpty(col[1..]);
    }
  }

  lemma {:induction false} BlockGivesBlocks(col: Column, i: nat)
    requires i < |col| && col[i].Some?
    ensures |Blocks(col)| > 0
  {
    if i > 0 {
      BlockGivesBlocks(col[1..], i - 1);
    }
  }

  lemma {:induction false} FullHasNoEmpties(col: Column)
    requires forall y :: 0 <= y < |col| ==> col[y].Some?
    ensures Empties(col) == 0
  {
    if col != [] {
      FullHasNoEmpties(col[1..]);
    }
  }

  lemma {:induction false} BlocksOfEmptyCells(n: nat)
    ensures Blocks(EmptyCells(n)) == []
  {
    if n > 0 {
      assert EmptyCells(n)[1..] == EmptyCells(n - 1);
      BlocksOfEmptyCells(n - 1);
    }
  }

  lemma {:induction false} BlocksOfFullCells(bs: seq<Block>)
    ensures Blocks(FullCells(bs)) == bs
  {
    if bs != [] {
      assert FullCells(bs)[1..] == FullCells(bs[1..]);
      BlocksOfFullCells(bs[1..]);
    }
  }

  lemma {:induction false} EmptyCellsAt(n: nat, y: nat)
    requires y < n
    ensures EmptyCells(n)[y] == None
  {
    if y > 0 {
      EmptyCellsAt(n - 1, y - 1);
    }
  }

  lemma {:induction false} FullCellsAt(bs: seq<Block>, y: nat)
    requires y < |bs|
    ensures FullCells(bs)[y] == Some(bs[y])
  {
    if y > 0 {
      FullCellsAt(bs[1..], y - 1);
    }
  }

  /** The compacted form keeps the column's length and its blocks in
      order, and is settled. */
  lemma CompactedIsSettled(col: Column)
    ensures |Compacted(col)| == |col|
    ensures Blocks(Compacted(col)) == Blocks(col)
    ensures Settled(Compacted(col))
  {
    var n, bs := |col| - |Blocks(col)|, Blocks(col);
    var e, f := EmptyCells(n), FullCells(bs);
    assert Blocks(e + f) == bs by {
      BlocksOfEmptyCells(n);
      BlocksOfFullCells(bs);
      BlocksConcat(e, f);
    }
    var r := e + f;
    forall k | 0 <= k < n ensures r[k] == None {
      EmptyCellsAt(n, k);
    }
    forall k | n <= k < |r| ensures r[k].Some? {
      FullCellsAt(bs, k - n);
    }
  }

  lemma {:induction false} InversionsConcat(a: Column, b: Column)
    ensures Inversions(a + b) == Inversions(a) + Inversions(b) + |Blocks(a)| * Empties(b)
  {
    if a == [] {
      assert a + b == b;
    } else {
      var s := if a[0].Some? then 1 else 0;
      var t, eb := a[1..], Empties(b);
      assert Inversions(a + b) == s * Empties(t + b) + Inversions(t + b) by {
        assert (a + b)[0] == a[0];
        assert (a + b)[1..] == t + b;
      }
      assert Inversions(a) == s * Empties(t) + Inversions(t);
      assert |Blocks(a)| == s + |Blocks(t)|;
      InversionsConcat(t, b);
      EmptiesConcat(t, b);
      MulSucc(|Blocks(t)|, eb);
    }
  }

  /** A column has no (block above empty cell) pairs bounded by its blocks
      times its empty cells. */
  lemma {:induction false} InversionsBound(col: Column)
    ensures Inversions(col) <= |Blocks(col)| * Empties(col)
  {
    if col != [] {
      InversionsBound(col[1..]);
      var b, e := |Blocks(col[1..])|, Empties(col[1..]);
      MulSucc(b, e);
      if col[0].Some? {
        assert |Blocks(col)| == 1 + b && Empties(col) == e && Inversions(col) == e + Inversions(col[1..]);
      } else {
        assert |Blocks(col)| == b && Empties(col) == 1 + e && Inversions(col) == Inversions(col[1..]);
      }
    }
  }

  /** The settled form is exactly the column that is already settled. */
  lemma {:induction false} SettledIffCompacted(col: Column)
    ensures Settled(col) <==> col == Compacted(col)
  {
    if Settled(col) {
      SettledIsCompacted(col);
    } else {
      CompactedIsSettled(col);
    }
  }

  lemma {:induction false} SettledIsCompacted(col: Column)
    requires Settled(col)
    ensures col == Compacted(col)
    decreases |col|
  {
    if col == [] {
    } else if col[0].Some? {
      FullIsCompacted(col);
    } else {
      var t := col[1..];
      SettledTail(col);
      SettledIsCompacted(t);
      CompactedConsEmpty(t);
      assert col == [None] + t;
    }
  }

  lemma CompactedConsEmpty(t: Column)
    ensures Compacted([None] + t) == [None] + Compacted(t)
  {
    var n, f := |t| - |Blocks(t)|, FullCells(Blocks(t));
    ConsEmpty(t);
    assert EmptyCells(n + 1) == [None] + EmptyCells(n);
    assert EmptyCells(n + 1) + f == [None] + (EmptyCells(n) + f);
  }

  lemma SettledTail(col: Column)
    requires col != [] && Settled(col)
    ensures Settled(col[1..])
  {
    var t := col[1..];
    forall i, j | 0 <= i < j < |t| && t[i].Some? ensures t[j].Some? {
      assert col[i + 1] == t[i] && col[j + 1] == t[j];
    }
  }

  lemma {:induction false} FullCellsOfBlocks(col: Column)
    requires forall y :: 0 <= y < |col| ==> col[y].Some?
    ensures FullCells(Blocks(col)) == col
  {
    if col != [] {
      FullCellsOfBlocks(col[1..]);
      assert Blocks(col) == [col[0].value] + Blocks(col[1..]);
      assert ([col[0].value] + Blocks(col[1..]))[1..] == Blocks(col[1..]);
      assert col == [col[0]] + col[1..];
    }
  }

  /** A column of blocks only is its own settled form. */
  lemma FullIsCompacted(col: Column)
    requires forall y :: 0 <= y < |col| ==> col[y].Some?
    ensures col == Compacted(col)
  {
    FullHasNoEmpties(col);
    CellsAreBlocksOrEmpty(col);
    FullCellsOfBlocks(col);
    assert EmptyCells(0) == [];
  }

  // ---------------------------------------------------------------------
  // What one step does
  // ---------------------------------------------------------------------

  lemma DropStepKeepsBlocks(col: Column, y: nat)
    requires y < |col|
    ensures Blocks(DropStep(col, y)) == Blocks(col)
  {
    if col[y].None? {
      var a, b := col[..y], col[y + 1..];
      assert Blocks(col) == Blocks(a) + Blocks(b) by {
        assert col == a + ([None] + b);
        BlocksConcat(a, [None] + b);
        ConsEmpty(b);
      }
      assert Blocks(DropStep(col, y)) == Blocks(a) + Blocks(b) by {
        ConsEmpty(a + b);
        BlocksConcat(a, b);
      }
    }
  }

  lemma ConsEmpty(t: Column)
    ensures Blocks([None] + t) == Blocks(t)
    ensures Inversions([None] + t) == Inversions(t)
    ensures Empties([None] + t) == 1 + Empties(t)
  {
    assert ([None] + t)[1..] == t;
  }

  /** Moving an empty cell from row y to row 0 removes exactly the pairs it
      formed with the blocks above row y. */
  lemma DropStepInversions(col: Column, y: nat)
    requires y < |col| && col[y].None?
    ensures Inversions(DropStep(col, y)) + |Blocks(col[..y])| == Inversions(col)
  {
    var a, b := col[..y], col[y + 1..];
    var ia, ib, ba, eb := Inversions(a), Inversions(b), |Blocks(a)|, Empties(b);
    assert Inversions(col) == ia + ib + ba * (1 + eb) by {
      assert col == a + ([None] + b);
      InversionsConcat(a, [None] + b);
      ConsEmpty(b);
    }
    assert Inversions(DropStep(col, y)) == ia + ib + ba * eb by {
      ConsEmpty(a + b);
      InversionsConcat(a, b);
    }
    MulSucc(ba, eb);
  }

  lemma MulSucc(x: nat, y: nat)
    ensures x * (1 + y) == x + x * y
    ensures (1 + x) * y == y + x * y
  {
  }

  /** A step never moves a block upwards: the top r rows hold no more
      blocks afterwards than before. */
  lemma DropStepLowers(col: Column, y: nat, r: nat)
    requires y < |col| && r <= |col|
    ensures |Blocks(DropStep(col, y)[..r])| <= |Blocks(col[..r])|
  {
    if col[y].None? && r > 0 {
      var d := DropStep(col, y);
      if r <= y {
        var p := col[..r - 1];
        assert Blocks(d[..r]) == Blocks(p) by {
          assert d[..r] == [None] + p;
          ConsEmpty(p);
        }
        assert Blocks(col[..r]) == Blocks(p) + Blocks([col[r - 1]]) by {
          assert col[..r] == p + [col[r - 1]];
          BlocksConcat(p, [col[r - 1]]);
        }
      } else {
        var a, b := col[..y], col[y + 1..r];
        assert Blocks(d[..r]) == Blocks(a) + Blocks(b) by {
          assert d[..r] == [None] + (a + b);
          ConsEmpty(a + b);
          BlocksConcat(a, b);
        }
        assert Blocks(col[..r]) == Blocks(a) + Blocks(b) by {
          assert col[..r] == a + ([None] + b);
          BlocksConcat(a, [None] + b);
          ConsEmpty(b);
        }
      }
    }
  }

  // ---------------------------------------------------------------------
  // What one call of the gravity step does to a column
  // ---------------------------------------------------------------------

  lemma {:induction false} DropFromKeepsBlocks(col: Column, k: nat)
    requires k <= |col|
    ensures Blocks(DropFrom(col, k)) == Blocks(col)
    decreases k
  {
    if k > 0 {
      DropStepKeepsBlocks(col, k - 1);
      DropFromKeepsBlocks(DropStep(col, k - 1), k - 1);
    }
  }

  /** The gravity step keeps the column's blocks and their top-to-bottom
      order, hence their number and the multiset of their colours. */
  lemma DropColumnKeepsBlocks(col: Column)
    ensures Blocks(DropColumn(col)) == Blocks(col)
    ensures |Blocks(DropColumn(col))| == |Blocks(col)|
    ensures Empties(DropColumn(col)) == Empties(col)
  {
    DropFromKeepsBlocks(col, |col|);
    CellsAreBlocksOrEmpty(col);
    CellsAreBlocksOrEmpty(DropColumn(col));
  }

  lemma {:induction false} DropFromLowers(col: Column, k: nat, r: nat)
    requires k <= |col| && r <= |col|
    ensures |Blocks(DropFrom(col, k)[..r])| <= |Blocks(col[..r])|
    decreases k
  {
    if k > 0 {
      DropStepLowers(col, k - 1, r);
      DropFromLowers(DropStep(col, k - 1), k - 1, r);
    }
  }

  /** No block moves upwards: for every r, the top r rows hold no more
      blocks after the step than before. With the order of blocks kept,
      this says each block ends on its old row or below. */
  lemma DropColumnLowers(col: Column, r: nat)
    requires r <= |col|
    ensures |Blocks(DropColumn(col)[..r])| <= |Blocks(col[..r])|
  {
    DropFromLowers(col, |col|, r);
  }

  lemma {:induction false} DropFromSettled(col: Column, k: nat)
    requires k <= |col| && Settled(col)
    ensures DropFrom(col, k) == col
    decreases k
  {
    if k > 0 {
      if col[k - 1].None? {
        assert forall i :: 0 <= i < k - 1 ==> col[i].None?;
        assert DropStep(col, k - 1) == col;
      }
      DropFromSettled(DropStep(col, k - 1), k - 1);
    }
  }

  lemma {:induction false} DropFromInversions(col: Column, k: nat)
    requires k <= |col|
    ensures Inversions(DropFrom(col, k)) <= Inversions(col)
    decreases k
  {
    if k > 0 {
      if col[k - 1].None? {
        DropStepInversions(col, k - 1);
      }
      DropFromInversions(DropStep(col, k - 1), k - 1);
    }
  }

  /** Rows holding blocks leave the column as it is while the loop passes
      over them. */
  lemma {:induction false} DropFromOverBlocks(col: Column, k: nat, m: nat)
    requires k <= m <= |col|
    requires forall y :: k <= y < m ==> col[y].Some?
    ensures DropFrom(col, m) == DropFrom(col, k)
  {
    if k < m {
      assert DropStep(col, m - 1) == col;
      DropFromOverBlocks(col, k, m - 1);
    }
  }

  /** The row of the lowest empty cell, or -1 if there is none. */
  function LowestEmpty(col: Column): (r: int)
    ensures -1 <= r < |col|
    ensures 0 <= r ==> col[r].None?
    ensures forall y :: r < y < |col| ==> col[y].Some?
  {
    if col == [] then -1
    else if col[|col| - 1].None? then |col| - 1
    else LowestEmpty(col[..|col| - 1])
  }

  /** In a column that is not settled, the lowest empty cell has a block
      somewhere above it. */
  lemma UnsettledLowestEmpty(col: Column)
    requires !Settled(col)
    ensures 0 <= LowestEmpty(col) && |Blocks(col[..LowestEmpty(col)])| > 0
  {
    var i, j :| 0 <= i < j < |col| && col[i].Some? && col[j].None?;
    var p := LowestEmpty(col);
    assert j <= p;
    assert col[..p][i] == col[i];
    BlockGivesBlocks(col[..p], i);
  }

  /** On a column that is not settled the step removes at least one
      (block above empty cell) pair; on any column it adds none. */
  lemma DropColumnInversions(col: Column)
    ensures Inversions(DropColumn(col)) <= Inversions(col)
    ensures !Settled(col) ==> Inversions(DropColumn(col)) < Inversions(col)
  {
    DropFromInversions(col, |col|);
    if !Settled(col) {
      UnsettledLowestEmpty(col);
      var p := LowestEmpty(col);
      DropFromOverBlocks(col, p + 1, |col|);
      DropStepInversions(col, p);
      DropFromInversions(DropStep(col, p), p);
    }
  }

  /** An all-empty column is left as it is. */
  lemma DropColumnAllEmpty(col: Column)
    requires forall y :: 0 <= y < |col| ==> col[y].None?
    ensures DropColumn(col) == col
  {
    DropColumnFixedIffSettled(col);
  }

  /** An all-full column is left as it is. */
  lemma DropColumnAllFull(col: Column)
    requires forall y :: 0 <= y < |col| ==> col[y].Some?
    ensures DropColumn(col) == col
  {
    DropColumnFixedIffSettled(col);
  }

  /** n + 1 frames are n frames followed by one more gravity step. */
  lemma {:induction false} TicksLast(col: Column, n: nat)
    ensures Ticks(col, n + 1) == DropColumn(Ticks(col, n))
    decreases n
  {
    if n > 0 {
      TicksLast(DropColumn(col), n - 1);
    }
  }

  /** The gravity step leaves a column unchanged exactly when it is already
      settled (in particular an all-empty or all-full column). */
  lemma DropColumnFixedIffSettled(col: Column)
    ensures DropColumn(col) == col <==> Settled(col)
  {
    if Settled(col) {
      DropFromSettled(col, |col|);
    } else {
      DropColumnInversions(col);
    }
  }

  /** Repeated frames settle every column, within |blocks| * |empty cells|
      frames; the settled result is the column's compacted form. */
  lemma {:induction false} TicksSettle(col: Column, n: nat)
    requires n >= |Blocks(col)| * Empties(col)
    ensures Ticks(col, n) == Compacted(col)
  {
    InversionsBound(col);
    TicksSettleWithin(col, n);
  }

  lemma {:induction false} TicksSettleWithin(col: Column, n: nat)
    requires n >= Inversions(col)
    ensures Ticks(col, n) == Compacted(col)
    decreases n
  {
    if Settled(col) {
      TicksOfSettled(col, n);
      SettledIsCompacted(col);
    } else {
      DropColumnInversions(col);
      DropColumnKeepsBlocks(col);
      TicksSettleWithin(DropColumn(col), n - 1);
      assert Compacted(DropColumn(col)) == Compacted(col);
    }
  }

  lemma {:induction false} TicksOfSettled(col: Column, n: nat)
    requires Settled(col)
    ensures Ticks(col, n) == col
    decreases n
  {
    if n > 0 {
      DropColumnFixedIffSettled(col);
      TicksOfSettled(col, n - 1);
    }
  }

  // ---------------------------------------------------------------------
  // Concrete columns
  // ---------------------------------------------------------------------

  const RedCell: Cell := Some(Block(Red))
  const BlueCell: Cell := Some(Block(Blue))
  const GreenCell: Cell := Some(Block(Green))

  /** A block above a single gap falls into it in one call. */
  lemma DropOneGap()
    ensures DropColumn([None, RedCell, None, BlueCell]) == [None, None, RedCell, BlueCell]
  {
    var c := [None, RedCell, None, BlueCell];
    var d := [None, None, RedCell, BlueCell];
    assert DropStep(c, 3) == c;
    assert DropStep(c, 2) == d;
    assert DropStep(d, 1) == d;
    assert DropStep(d, 0) == d;
    calc {
      DropColumn(c);
      DropFrom(DropStep(c, 3), 3);
      DropFrom(DropStep(c, 2), 2);
      DropFrom(d, 2);
      DropFrom(DropStep(d, 1), 1);
      DropFrom(DropStep(d, 0), 0);
      d;
    }
  }

  /** After the empty cell at row y is removed, the cell from row y-1 sits
      on row y and is never looked at: a block above two gaps falls only
      one row per call, and a single call is not idempotent. */
  lemma DropSkipsShiftedCell()
    ensures DropColumn([RedCell, None, None, BlueCell]) == [None, RedCell, None, BlueCell]
    ensures DropColumn([None, RedCell, None, BlueCell]) == [None, None, RedCell, BlueCell]
    ensures DropColumn(DropColumn([RedCell, None, None, BlueCell])) != DropColumn([RedCell, None, None, BlueCell])
  {
    var c := [RedCell, None, None, BlueCell];
    var d := [None, RedCell, None, BlueCell];
    assert DropStep(c, 3) == c;
    assert DropStep(c, 2) == d;
    assert DropStep(d, 1) == d;
    assert DropStep(d, 0) == d;
    calc {
      DropColumn(c);
      DropFrom(DropStep(c, 3), 3);
      DropFrom(DropStep(c, 2), 2);
      DropFrom(d, 2);
      DropFrom(DropStep(d, 1), 1);
      DropFrom(DropStep(d, 0), 0);
      d;
    }
    DropOneGap();
  }

  /** An already settled column, and an all-empty one, are left as they are. */
  lemma DropSettledExamples()
    ensures DropColumn([None, None, GreenCell, RedCell]) == [None, None, GreenCell, RedCell]
    ensures DropColumn([None, None, None, None]) == [None, None, None, None]
  {
    DropColumnFixedIffSettled([None, None, GreenCell, RedCell]);
    DropColumnFixedIffSettled([None, None, None, None]);
  }
}
