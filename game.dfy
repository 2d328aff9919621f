/** The game state: the board that is filled once at start-up and then
    settled by the gravity step on every frame. */
module Game {
  import opened Board

  /** Fills a board column by column, each column top to bottom. The random
      draws are inputs: occupied[x * BoardHeight + y] says whether the draw
      for column x, row y came out as a block, and colors at the same index
      says which of the three colours was picked for it (it is ignored for
      an empty cell). */
  method RandomBoard(occupied: seq<bool>, colors: seq<BlockColor>) returns (board: seq<Column>)
    requires |occupied| == BoardWidth * BoardHeight && |colors| == BoardWidth * BoardHeight
    ensures |board| == BoardWidth
    ensures forall x :: 0 <= x < BoardWidth ==> |board[x]| == BoardHeight
    ensures forall x, y :: 0 <= x < BoardWidth && 0 <= y < BoardHeight ==>
      board[x][y] == if occupied[x * BoardHeight + y] then Some(Block(colors[x * BoardHeight + y])) else None
  {
    board := [];
    for x := 0 to BoardWidth
      invariant |board| == x
      invariant forall i :: 0 <= i < x ==> |board[i]| == BoardHeight
      invariant forall i, y :: 0 <= i < x && 0 <= y < BoardHeight ==>
        board[i][y] == if occupied[i * BoardHeight + y] then Some(Block(colors[i * BoardHeight + y])) else None
    {
      var col: Column := [];
      for y := 0 to BoardHeight
        invariant |col| == y
        invariant forall j :: 0 <= j < y ==>
          col[j] == if occupied[x * BoardHeight + j] then Some(Block(colors[x * BoardHeight + j])) else None
      {
        if occupied[x * BoardHeight + y] {
          col := col + [Some(Block(colors[x * BoardHeight + y]))];
        } else {
          col := col + [None];
        }
      }
      board := board + [col];
    }
  }

  class MainState {
    var board: seq<Column>

    /** The board keeps its dimensions: BoardWidth columns of BoardHeight
        cells each. */
    ghost predicate Valid()
      reads this
    {
      |board| == BoardWidth && forall x :: 0 <= x < BoardWidth ==> |board[x]| == BoardHeight
    }

    /** Start-up: the board is filled from the given draws. */
    constructor (occupied: seq<bool>, colors: seq<BlockColor>)
      requires |occupied| == BoardWidth * BoardHeight && |colors| == BoardWidth * BoardHeight
      ensures Valid()
      ensures forall x, y :: 0 <= x < BoardWidth && 0 <= y < BoardHeight ==>
        board[x][y] == if occupied[x * BoardHeight + y] then Some(Block(colors[x * BoardHeight + y])) else None
    {
      var b := RandomBoard(occupied, colors);
      board := b;
    }

    /** The gravity step over the whole board: each column in turn, from
        column 0 to the last. Each column ends as DropColumn of its own old
        value and of nothing else, and the dimensions are kept. */
    method DropBoard()
      requires Valid()
      modifies this
      ensures Valid()
      ensures forall x :: 0 <= x < BoardWidth ==> board[x] == DropColumn(old(board[x]))
    {
      for x := 0 to BoardWidth
        invariant Valid()
        invariant forall i :: 0 <= i < x ==> board[i] == DropColumn(old(board[i]))
        invariant forall i :: x <= i < BoardWidth ==> board[i] == old(board[i])
      {
        DropColumnAt(x);
      }
    }

    /** The inner loop of the gravity step on column x: rows are visited
        from the bottom up; at an empty cell the cell is removed and an
        empty cell is inserted at row 0. The column keeps its length, so
        every access stays in bounds, and no other column changes. */
    method DropColumnAt(x: nat)
      requires Valid() && x < BoardWidth
      modifies this
      ensures Valid()
      ensures board == old(board)[x := DropColumn(old(board[x]))]
    {
      ghost var target := DropColumn(board[x]);
      for y := BoardHeight downto 0
        invariant Valid()
        invariant board == old(board)[x := board[x]]
        invariant DropFrom(board[x], y) == target
      {
        if board[x][y].None? {
          RemoveAt(x, y);
          InsertEmptyOnTop(x);
        }
      }
    }

    /** `board[x].remove(y)`: the cell at row y of column x is taken out. */
    method RemoveAt(x: nat, y: nat)
      requires |board| == BoardWidth && x < BoardWidth && y < |board[x]|
      modifies this
      ensures board == old(board)[x := old(board[x])[..y] + old(board[x])[y + 1..]]
    {
      board := board[x := board[x][..y] + board[x][y + 1..]];
    }

    /** `board[x].insert(0, None)`: an empty cell is put on row 0 of column x. */
    method InsertEmptyOnTop(x: nat)
      requires |board| == BoardWidth && x < BoardWidth
      modifies this
      ensures board == old(board)[x := [None] + old(board[x])]
    {
      board := board[x := [None] + board[x]];
    }

    /** One frame: the gravity step is applied once, unconditionally. */
    method Update()
      requires Valid()
      modifies this
      ensures Valid()
      ensures forall x :: 0 <= x < BoardWidth ==> board[x] == DropColumn(old(board[x]))
    {
      DropBoard();
    }

    /** n frames, each calling Update once. Every column ends as n gravity
        steps of its old value; once n reaches the column's bound of
        blocks times empty cells, the column is settled in its compacted
        form. */
    method Frames(n: nat)
      requires Valid()
      modifies this
      ensures Valid()
      ensures forall x :: 0 <= x < BoardWidth ==> board[x] == Ticks(old(board[x]), n)
      ensures forall x :: 0 <= x < BoardWidth && n >= |Blocks(old(board[x]))| * Empties(old(board[x])) ==>
        board[x] == Compacted(old(board[x]))
    {
      for i := 0 to n
        invariant Valid()
        invariant forall x :: 0 <= x < BoardWidth ==> board[x] == Ticks(old(board[x]), i)
      {
        Update();
        forall x | 0 <= x < BoardWidth
          ensures board[x] == Ticks(old(board[x]), i + 1)
        {
          TicksLast(old(board[x]), i);
        }
      }
      forall x | 0 <= x < BoardWidth && n >= |Blocks(old(board[x]))| * Empties(old(board[x]))
        ensures board[x] == Compacted(old(board[x]))
      {
        TicksSettle(old(board[x]), n);
      }
    }
  }
}
