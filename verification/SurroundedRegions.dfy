/** Flood fill from the border: exactly the regions that touch it survive. */
module SurroundedRegions {

  datatype Cell = Cell(row: int, column: int)

  predicate Adjacent(a: Cell, b: Cell) {
    || (a.row == b.row && (a.column == b.column + 1 || b.column == a.column + 1))
    || (a.column == b.column && (a.row == b.row + 1 || b.row == a.row + 1))
  }

  /** A walk through neighbouring cells of a set. */
  ghost predicate IsPath(cells: set<Cell>, path: seq<Cell>) {
    && path != [] && (forall c <- path :: c in cells)
    && forall i :: 0 <= i < |path| - 1 ==> Adjacent(path[i], path[i + 1])
  }

  ghost predicate Connected(cells: set<Cell>, a: Cell, b: Cell) {
    exists path :: IsPath(cells, path) && path[0] == a && path[|path| - 1] == b
  }

  lemma ConnectedToSelf(cells: set<Cell>, a: Cell)
    requires a in cells
    ensures Connected(cells, a, a)
  {
    assert IsPath(cells, [a]);
  }

  lemma ConnectedStep(cells: set<Cell>, a: Cell, b: Cell, c: Cell)
    requires a in cells && Adjacent(a, b) && Connected(cells, b, c)
    ensures Connected(cells, a, c)
  {
    var path :| IsPath(cells, path) && path[0] == b && path[|path| - 1] == c;
    LongerPath(cells, a, path);
    assert ([a] + path)[0] == a && ([a] + path)[|path|] == c;
  }

  lemma LongerPath(cells: set<Cell>, a: Cell, path: seq<Cell>)
    requires IsPath(cells, path) && a in cells && Adjacent(a, path[0])
    ensures IsPath(cells, [a] + path)
  {
    hide Adjacent;
    var longer := [a] + path;
    assert forall c <- longer :: c == a || c in path;
    forall i | 0 <= i < |longer| - 1 ensures Adjacent(longer[i], longer[i + 1]) {
      if i > 0 { assert Adjacent(path[i - 1], path[i - 1 + 1]); }
    }
  }

  lemma ConnectedInMore(few: set<Cell>, many: set<Cell>, a: Cell, b: Cell)
    requires few <= many && Connected(few, a, b)
    ensures Connected(many, a, b)
  {
    var path :| IsPath(few, path) && path[0] == a && path[|path| - 1] == b;
    assert IsPath(many, path);
  }

  /** A set that contains the start and every neighbour of its members contains all that is connected. */
  lemma {:induction false} ClosedContainsConnected(cells: set<Cell>, closed: set<Cell>, path: seq<Cell>)
    requires IsPath(cells, path) && path[0] in closed
    requires forall a, b :: a in closed && b in cells && Adjacent(a, b) ==> b in closed
    ensures path[|path| - 1] in closed
    decreases |path|
  {
    if |path| > 1 {
      assert path[1] in cells;
      var rest := path[1..];
      assert forall i :: 0 <= i < |rest| ==> rest[i] == path[i + 1];
      ClosedContainsConnected(cells, closed, rest);
    }
  }

  predicate OnBoard(board: array2<char>, c: Cell) {
    0 <= c.row < board.Length0 && 0 <= c.column < board.Length1
  }

  predicate OnBorder(board: array2<char>, c: Cell) {
    OnBoard(board, c)
    && (c.row == 0 || c.row == board.Length0 - 1 || c.column == 0 || c.column == board.Length1 - 1)
  }

  ghost function AllCells(board: array2<char>): set<Cell> {
    set i, j | 0 <= i < board.Length0 && 0 <= j < board.Length1 :: Cell(i, j)
  }

  /** The cells that hold an 'O'. */
  ghost function Open(board: array2<char>): set<Cell>
    reads board
  {
    set c | c in AllCells(board) && board[c.row, c.column] == 'O'
  }

  /** Cells only ever change from 'O' to '.'. */
  twostate predicate OnlyMarked(board: array2<char>)
    reads board
  {
    forall i, j :: 0 <= i < board.Length0 && 0 <= j < board.Length1 ==>
      board[i, j] == old(board[i, j]) || (old(board[i, j]) == 'O' && board[i, j] == '.')
  }

  /** No cell that was opened before and is not any more has an open neighbour. */
  ghost predicate Settled(before: set<Cell>, now: set<Cell>) {
    forall a, b :: a in before && a !in now && b in now ==> !Adjacent(a, b)
  }

  ghost predicate AllReached(before: set<Cell>, now: set<Cell>, start: Cell) {
    forall c :: c in before && c !in now ==> Connected(before, start, c)
  }

  /** `dig`: marks the whole region of 'O' cells around a position. */
  method Dig(board: array2<char>, x: int, y: int)
    modifies board
    ensures OnlyMarked(board) && Open(board) <= old(Open(board)) && Cell(x, y) !in Open(board)
    ensures AllReached(old(Open(board)), Open(board), Cell(x, y)) && Settled(old(Open(board)), Open(board))
    decreases Open(board), 0
  {
    if x < 0 || y < 0 {
      return;
    }
    if x >= board.Length0 || y >= board.Length1 {
      return;
    }
    if board[x, y] != 'O' {
      return;
    }
    ghost var start := Cell(x, y);
    board[x, y] := '.';
    ghost var o0 := Open(board);
    assert o0 == old(Open(board)) - {start} && start in old(Open(board)) && OnlyMarked(board);
    DigNeighbours(board, x, y);
    AddStart(old(Open(board)), start, o0, Open(board));
  }

  /** The four recursive calls. */
  method DigNeighbours(board: array2<char>, x: int, y: int)
    modifies board
    ensures OnlyMarked(board) && Open(board) <= old(Open(board))
    ensures exists o :: FourSteps(o, Cell(x, y), old(Open(board)), Open(board))
    decreases Open(board), 1
  {
    hide AllReached, Settled, Open;
    ghost var start := Cell(x, y);
    ghost var o0 := Open(board);
    Dig(board, x - 1, y);
    ghost var o1 := Open(board);
    Dig(board, x + 1, y);
    ghost var o2 := Open(board);
    Dig(board, x, y - 1);
    ghost var o3 := Open(board);
    Dig(board, x, y + 1);
    assert FourSteps([o0, o1, o2, o3, Open(board)], start, o0, Open(board));
  }

  /** The open cells before, between and after the calls for the four neighbours. */
  ghost predicate FourSteps(o: seq<set<Cell>>, start: Cell, before: set<Cell>, now: set<Cell>) {
    && |o| == 5 && o[0] == before && o[4] == now
    && (forall k :: 0 <= k < 4 ==> o[k + 1] <= o[k] && Neighbour(start, k) !in o[k + 1])
    && (forall k :: 0 <= k < 4 ==> AllReached(o[k], o[k + 1], Neighbour(start, k)) && Settled(o[k], o[k + 1]))
  }

  lemma AddStart(all: set<Cell>, start: Cell, o0: set<Cell>, now: set<Cell>)
    requires start in all && o0 == all - {start} && exists o :: FourSteps(o, start, o0, now)
    ensures AllReached(all, now, start) && Settled(all, now) && start !in now && now <= all
  {
    var o :| FourSteps(o, start, o0, now);
    hide AllReached, Settled;
    FourNeighbours(all, start, o);
    assert o[4] <= o[3] <= o[2] <= o[1] <= o[0];
  }

  function Neighbour(c: Cell, k: nat): Cell {
    if k == 0 then Cell(c.row - 1, c.column) else if k == 1 then Cell(c.row + 1, c.column)
    else if k == 2 then Cell(c.row, c.column - 1) else Cell(c.row, c.column + 1)
  }

  /** Marking a cell and then the regions of its four neighbours marks its own region. */
  lemma FourNeighbours(all: set<Cell>, start: Cell, o: seq<set<Cell>>)
    requires start in all && |o| == 5 && o[0] == all - {start}
    requires forall k :: 0 <= k < 4 ==> o[k + 1] <= o[k] && Neighbour(start, k) !in o[k + 1]
    requires forall k :: 0 <= k < 4 ==> AllReached(o[k], o[k + 1], Neighbour(start, k)) && Settled(o[k], o[k + 1])
    ensures AllReached(all, o[4], start) && Settled(all, o[4])
  {
    assert o[4] <= o[3] <= o[2] <= o[1] <= o[0];
    forall c | c in all && c !in o[4] ensures Connected(all, start, c) && forall b <- o[4] :: !Adjacent(c, b) {
      if c == start {
        ConnectedToSelf(all, start);
        assert forall b :: Adjacent(start, b) ==> exists k :: 0 <= k < 4 && b == Neighbour(start, k);
      } else {
        var k :| 0 <= k < 4 && c in o[k] && c !in o[k + 1];
        ReachedFurther(all, start, o[k], o[k + 1], Neighbour(start, k));
      }
    }
  }

  /** What a call for a neighbour has marked is reached from here. */
  lemma ReachedFurther(all: set<Cell>, start: Cell, before: set<Cell>, now: set<Cell>, neighbour: Cell)
    requires start in all && before <= all && Adjacent(start, neighbour) && AllReached(before, now, neighbour)
    ensures forall c :: c in before && c !in now ==> Connected(all, start, c)
  {
    forall c | c in before && c !in now ensures Connected(all, start, c) {
      ConnectedInMore(before, all, neighbour, c);
      ConnectedStep(all, start, neighbour, c);
    }
  }

  /** The cell belongs to a region that touches the border. */
  ghost predicate Joined(board: array2<char>, open: set<Cell>, c: Cell) {
    exists b :: OnBorder(board, b) && Connected(open, b, c)
  }

  /** The state while the border is walked along. */
  ghost predicate Walking(board: array2<char>, open: set<Cell>)
    reads board
  {
    && Open(board) <= open && Settled(open, Open(board))
    && forall c :: c in open && c !in Open(board) ==> Joined(board, open, c)
  }

  method DigBorder(board: array2<char>, x: int, y: int, ghost open: set<Cell>)
    requires Walking(board, open) && (OnBoard(board, Cell(x, y)) ==> OnBorder(board, Cell(x, y)))
    modifies board
    ensures Walking(board, open) && OnlyMarked(board) && Open(board) <= old(Open(board)) && Cell(x, y) !in Open(board)
  {
    ghost var before := Open(board);
    Dig(board, x, y);
    forall c | c in before && c !in Open(board) ensures Joined(board, open, c) {
      assert Connected(before, Cell(x, y), c);
      StartIsMember(before, Cell(x, y), c);
      ConnectedInMore(before, open, Cell(x, y), c);
    }
  }

  lemma StartIsMember(cells: set<Cell>, a: Cell, b: Cell)
    requires Connected(cells, a, b)
    ensures a in cells
  {
    var path :| IsPath(cells, path) && path[0] == a && path[|path| - 1] == b;
    assert path[0] in path;
  }

  /** After the walk along the whole border, the open cells left are those of closed-in regions. */
  lemma OpenIsClosedIn(board: array2<char>, open: set<Cell>, c: Cell)
    requires Walking(board, open) && c in open && forall b <- Open(board) :: !OnBorder(board, b)
    ensures c in Open(board) <==> !Joined(board, open, c)
  {
    if Joined(board, open, c) {
      var b :| OnBorder(board, b) && Connected(open, b, c);
      StartIsMember(open, b, c);
      var path :| IsPath(open, path) && path[0] == b && path[|path| - 1] == c;
      ClosedContainsConnected(open, open - Open(board), path);
    }
  }

  /** The first two loops of `solve`: a start at every border cell. */
  method WalkBorder(board: array2<char>)
    requires board.Length0 > 1
    modifies board
    ensures Walking(board, old(Open(board))) && OnlyMarked(board)
    ensures forall b <- Open(board) :: !OnBorder(board, b)
  {
    ghost var open := Open(board);
    for i := 0 to board.Length0
      invariant Walking(board, open) && OnlyMarked(board)
      invariant forall b <- Open(board) :: b.row < i ==> b.column != 0 && b.column != board.Length1 - 1
    {
      DigBorder(board, i, 0, open);
      DigBorder(board, i, board.Length1 - 1, open);
    }
    for j := 0 to board.Length1
      invariant Walking(board, open) && OnlyMarked(board)
      invariant forall b <- Open(board) :: b.column != 0 && b.column != board.Length1 - 1
      invariant forall b <- Open(board) :: b.column < j ==> b.row != 0 && b.row != board.Length0 - 1
    {
      DigBorder(board, board.Length0 - 1, j, open);
      DigBorder(board, 0, j, open);
    }
  }

  function Final(c: char): char {
    if c == 'O' then 'X' else if c == '.' then 'O' else c
  }

  /** The last loops of `solve`. */
  method Finish(board: array2<char>)
    modifies board
    ensures forall i, j :: 0 <= i < board.Length0 && 0 <= j < board.Length1 ==> board[i, j] == Final(old(board[i, j]))
  {
    for i := 0 to board.Length0
      invariant forall k, l :: 0 <= k < board.Length0 && 0 <= l < board.Length1 ==>
        board[k, l] == if k < i then Final(old(board[k, l])) else old(board[k, l])
    {
      for j := 0 to board.Length1
        invariant forall k, l :: 0 <= k < board.Length0 && 0 <= l < board.Length1 ==>
          board[k, l] == if k < i || (k == i && l < j) then Final(old(board[k, l])) else old(board[k, l])
      {
        if board[i, j] == 'O' {
          board[i, j] := 'X';
        } else if board[i, j] == '.' {
          board[i, j] := 'O';
        }
      }
    }
  }

  /** `solve`: a cell keeps its 'O' exactly if its region touches the border; all other cells with 'O'
      become 'X', and nothing else changes. */
  method Solve(board: array2<char>)
    requires forall i, j :: 0 <= i < board.Length0 && 0 <= j < board.Length1 ==> board[i, j] != '.'
    modifies board
    ensures forall i, j :: 0 <= i < board.Length0 && 0 <= j < board.Length1 ==>
      board[i, j] == if old(board[i, j]) != 'O' then old(board[i, j])
                     else if Joined(board, old(Open(board)), Cell(i, j)) then 'O' else 'X'
  {
    ghost var open := Open(board);
    if board.Length0 <= 1 {
      forall c | c in open ensures Joined(board, open, c) {
        ConnectedToSelf(open, c);
      }
      return;
    }
    WalkBorder(board);
    label walked:
    forall c | c in open ensures c in Open(board) <==> !Joined(board, open, c) {
      OpenIsClosedIn(board, open, c);
    }
    Finish(board);
  }
}
