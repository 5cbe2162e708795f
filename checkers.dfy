/** The checkers move rules of A2/checkers.py. The board is 8 rows of 8
    one-character cells: '.' is empty, 'b' and 'r' are men, 'B' and 'R'
    kings. A State holds the board object its caller passed in (move writes
    into it) together with the piece counters. */
module Checkers {
  import opened Common

  /** A board square, the source's [row, col] pair. */
  datatype Cell = Cell(row: int, col: int)

  /** What valid_move returns: whether the move is legal, and for a jump
      the square that is jumped over. */
  datatype Check = Check(valid: bool, eaten: Option<Cell>)

  /** One entry of get_valid_moves: start square, target square, and None
      for a step or the captured squares of the jump chain. */
  datatype MoveEntry = MoveEntry(start: Cell, target: Cell, jumped: Option<seq<Cell>>)

  /** One link of a jump chain: where the piece lands and what it jumps. */
  datatype Hop = Hop(to: Cell, eaten: Cell)

  /** The k-th (row, column) offset, k < 4, visited by get_valid_moves'
      nested loops over x in [-s, s] (rows, outside) and y in [-s, s]
      (columns, inside): s = 1 for steps, s = 2 for jumps. */
  function Dir(s: int, k: nat): (int, int)
  {
    ((if k < 2 then -s else s), (if k == 0 || k == 2 then -s else s))
  }

  /** str.isupper() of a one-character string (ASCII letters). */
  predicate IsUpper(c: char) { 'A' <= c <= 'Z' }

  /** str.lower() of a one-character string (ASCII letters). */
  function Lower(c: char): char
  {
    if IsUpper(c) then (c as int + 32) as char else c
  }

  /** The symbol may travel in row direction dr: a king (any upper-case
      symbol) either way, 'b' towards higher rows, 'r' towards lower rows. */
  predicate Forward(player: char, dr: int)
  {
    IsUpper(player) || (player == 'b' && dr > 0) || (player == 'r' && dr < 0)
  }

  /** A one-square diagonal move in a permitted direction. */
  predicate IsStep(player: char, from: Cell, to: Cell)
  {
    Abs(to.row - from.row) == 1 && Abs(to.col - from.col) == 1 && Forward(player, to.row - from.row)
  }

  /** A two-square diagonal move in a permitted direction. */
  predicate IsJump(player: char, from: Cell, to: Cell)
  {
    Abs(to.row - from.row) == 2 && Abs(to.col - from.col) == 2 && Forward(player, to.row - from.row)
  }

  /** The capture test of valid_move: the jumped symbol, lowered, is neither
      the mover's own symbol nor empty. For a king the mover's symbol is
      upper-case, so only '.' is excluded. */
  predicate Capturable(player: char, over: char)
  {
    Lower(over) != player && Lower(over) != '.'
  }

  function Midpoint(from: Cell, to: Cell): Cell
  {
    Cell((from.row + to.row) / 2, (from.col + to.col) / 2)
  }

  /** The squares of the given colour: "b" means blue ('B' and 'b'), any
      other argument red ('R' and 'r'). */
  function ColourCells(color: string): (cls: set<char>)
    ensures color == "b" ==> cls == {'B', 'b'}
    ensures color != "b" ==> cls == {'R', 'r'}
  {
    if color == "b" then {'B', 'b'} else {'R', 'r'}
  }

  /** The four step offsets are exactly the diagonal neighbours. */
  lemma DiagonalNeighbours(p: Cell, t: Cell)
    ensures (exists j :: 0 <= j < 4 && t == Cell(p.row + Dir(1, j).0, p.col + Dir(1, j).1)) <==>
      Abs(t.row - p.row) == 1 && Abs(t.col - p.col) == 1
  {
    if Abs(t.row - p.row) == 1 && Abs(t.col - p.col) == 1 {
      var j := (if t.row < p.row then 0 else 2) + (if t.col < p.col then 0 else 1);
      assert t == Cell(p.row + Dir(1, j).0, p.col + Dir(1, j).1);
    }
  }

  /** Row-major order on squares. */
  predicate Before(a: Cell, b: Cell)
  {
    a.row < b.row || (a.row == b.row && a.col < b.col)
  }

  /** The squares are listed in strictly increasing row-major order (so
      none is listed twice). */
  predicate RowMajor(ps: seq<Cell>)
  {
    forall i, j :: 0 <= i < j < |ps| ==> Before(ps[i], ps[j])
  }

  /** The captured squares of a chain, in the order they were jumped. */
  function Captured(hops: seq<Hop>): (r: seq<Cell>)
    ensures |r| == |hops| && forall k :: 0 <= k < |hops| ==> r[k] == hops[k].eaten
  {
    if hops == [] then [] else [hops[0].eaten] + Captured(hops[1..])
  }

  /** The landing squares of a chain, in order. */
  function Landings(hops: seq<Hop>): (r: seq<Cell>)
    ensures |r| == |hops| && forall k :: 0 <= k < |hops| ==> r[k] == hops[k].to
  {
    if hops == [] then [] else [hops[0].to] + Landings(hops[1..])
  }

  /** The squares a chain from pos passes through: pos itself before the
      first hop, then the landing square of hop k - 1 before hop k. */
  function Trail(pos: Cell, hops: seq<Hop>, k: nat): Cell
    requires k <= |hops|
  {
    if k == 0 then pos else hops[k - 1].to
  }

  /** The direction the jump loop bans after making the hops `hops` from `pos`:
      the way back over the last hop, or the initial ban when there is none. */
  function FinalBan(pos: Cell, ban: Option<(int, int)>, hops: seq<Hop>): Option<(int, int)>
  {
    if hops == [] then ban
    else
      var from := Trail(pos, hops, |hops| - 1);
      var to := hops[|hops| - 1].to;
      Some((from.row - to.row, from.col - to.col))
  }

  /** Prefixing a hop in direction `d` keeps the final square and the final ban. */
  lemma FinalCons(pos: Cell, ban: Option<(int, int)>, h: Hop, d: (int, int), rest: seq<Hop>)
    requires h.to == Cell(pos.row + d.0, pos.col + d.1)
    ensures Trail(pos, [h] + rest, |rest| + 1) == Trail(h.to, rest, |rest|)
    ensures FinalBan(pos, ban, [h] + rest) == FinalBan(h.to, Some((-d.0, -d.1)), rest)
  {
  }

  /** The four squares, each with the direction banned on arrival, that a blue
      king circles on the board of `State.KingLoopBoard`. */
  function LoopSquare(i: nat): (Cell, (int, int))
    requires i < 4
  {
    if i == 0 then (Cell(0, 4), (2, -2))
    else if i == 1 then (Cell(2, 6), (-2, -2))
    else if i == 2 then (Cell(4, 4), (-2, 2))
    else (Cell(2, 2), (2, 2))
  }

  /** The jump entries of get_valid_moves. The source appends the same
      jumped_list object to every entry and keeps appending to it, so when
      the list of moves is returned every entry shows the whole chain. */
  function JumpEntries(p: Cell, targets: seq<Cell>, jumpedList: seq<Cell>): seq<MoveEntry>
  {
    seq(|targets|, k requires 0 <= k < |targets| => MoveEntry(p, targets[k], Some(jumpedList)))
  }

  /** get_opp_char: the two symbols of the other colour. */
  function GetOppChar(player: string): (opp: seq<string>)
    ensures player == "b" || player == "B" ==> opp == ["r", "R"]
    ensures player != "b" && player != "B" ==> opp == ["b", "B"]
  {
    if player in ["b", "B"] then ["r", "R"] else ["b", "B"]
  }

  /** get_next_turn: "r" hands over to "b"; everything else (not only "b")
      hands over to "r". */
  function GetNextTurn(currTurn: string): (next: string)
    ensures next == "b" || next == "r"
    ensures next == "b" <==> currTurn == "r"
  {
    if currTurn == "r" then "b" else "r"
  }

  /** For the two turn names, the next turn is an opponent's symbol, never
      one's own, and two turns lead back. */
  lemma TurnsAlternate(t: string)
    requires t == "b" || t == "r"
    ensures GetNextTurn(t) in GetOppChar(t) && t !in GetOppChar(t)
    ensures GetNextTurn(GetNextTurn(t)) == t
  {
  }

  class State {
    /** The board rows, shared with the caller: move writes into them. */
    const board: array2<char>
    const width: int := 8
    const height: int := 8
    var blueLeft: int
    var redLeft: int
    var blueKingLeft: int
    var redKingLeft: int
    /** Never set to true anywhere in the source. */
    var jumping: bool

    /** Every operation after construction reads the board as 8 rows of 8. */
    predicate Valid()
    {
      board.Length0 == height && board.Length1 == width
    }

    predicate InRange(row: int, col: int)
    {
      0 <= row < height && 0 <= col < width
    }

    /** The squares of row `row` among its first n columns whose symbol is
        in cls, left to right. */
    function RowPieces(cls: set<char>, row: nat, n: nat): seq<Cell>
      reads board
      requires row < board.Length0 && n <= board.Length1
    {
      if n == 0 then []
      else RowPieces(cls, row, n - 1) + (if board[row, n - 1] in cls then [Cell(row, n - 1)] else [])
    }

    /** The squares of the first m rows whose symbol is in cls, row-major. */
    function GridPieces(cls: set<char>, m: nat): seq<Cell>
      reads board
      requires m <= board.Length0
    {
      if m == 0 then [] else GridPieces(cls, m - 1) + RowPieces(cls, m - 1, board.Length1)
    }

    /** All squares whose symbol is in cls, row-major. */
    function Pieces(cls: set<char>): seq<Cell>
      reads board
    {
      GridPieces(cls, board.Length0)
    }

    lemma {:induction false} RowPiecesSpec(cls: set<char>, row: nat, n: nat)
      requires row < board.Length0 && n <= board.Length1
      ensures forall c :: c in RowPieces(cls, row, n) <==>
        c.row == row && 0 <= c.col < n && board[row, c.col] in cls
      ensures forall i, j :: 0 <= i < j < |RowPieces(cls, row, n)| ==>
        RowPieces(cls, row, n)[i].col < RowPieces(cls, row, n)[j].col
    {
      if n > 0 {
        RowPiecesSpec(cls, row, n - 1);
      }
    }

    lemma {:induction false} GridPiecesSpec(cls: set<char>, m: nat)
      requires m <= board.Length0
      ensures forall c :: c in GridPieces(cls, m) <==>
        0 <= c.row < m && 0 <= c.col < board.Length1 && board[c.row, c.col] in cls
      ensures RowMajor(GridPieces(cls, m))
    {
      if m > 0 {
        GridPiecesSpec(cls, m - 1);
        RowPiecesSpec(cls, m - 1, board.Length1);
        var a, b := GridPieces(cls, m - 1), RowPieces(cls, m - 1, board.Length1);
        forall i, j | 0 <= i < j < |a + b|
          ensures Before((a + b)[i], (a + b)[j])
        {
          if j < |a| {
          } else if i < |a| {
            assert a[i] in a && b[j - |a|] in b;
          } else {
            assert b[i - |a|].col < b[j - |a|].col;
            assert b[i - |a|] in b && b[j - |a|] in b;
          }
        }
      }
    }

    /** The pieces of a colour are exactly the squares holding one of its
        symbols, listed once each in row-major order. */
    lemma PiecesSpec(cls: set<char>)
      ensures forall c :: c in Pieces(cls) <==>
        0 <= c.row < board.Length0 && 0 <= c.col < board.Length1 && board[c.row, c.col] in cls
      ensures RowMajor(Pieces(cls))
    {
      GridPiecesSpec(cls, board.Length0);
    }

    /** State.__init__: keeps the caller's board and counts its men; kings
        are not counted, and no king counter starts above 0. */
    constructor (board: array2<char>)
      ensures this.board == board
      ensures blueLeft == |Pieces({'b'})| && redLeft == |Pieces({'r'})|
      ensures blueKingLeft == 0 && redKingLeft == 0 && !jumping
    {
      this.board := board;
      blueKingLeft, redKingLeft := 0, 0;
      jumping := false;
      new;
      blueLeft, redLeft := CountMen();
    }

    /** The counting loops of __init__: the number of 'b' and of 'r'
        squares on the board (kings are not counted). */
    method CountMen() returns (blue: int, red: int)
      ensures blue == |Pieces({'b'})| && red == |Pieces({'r'})|
    {
      blue, red := 0, 0;
      for row := 0 to board.Length0
        invariant blue == |GridPieces({'b'}, row)| && red == |GridPieces({'r'}, row)|
      {
        for col := 0 to board.Length1
          invariant blue == |GridPieces({'b'}, row)| + |RowPieces({'b'}, row, col)|
          invariant red == |GridPieces({'r'}, row)| + |RowPieces({'r'}, row, col)|
        {
          if board[row, col] == 'b' {
            blue := blue + 1;
          } else if board[row, col] == 'r' {
            red := red + 1;
          }
        }
      }
    }

    /** get_all_pieces: the squares of one colour, row by row. */
    method GetAllPieces(color: string) returns (pieces: seq<Cell>)
      requires Valid()
      ensures pieces == Pieces(ColourCells(color))
      ensures forall c :: c in pieces <==>
        InRange(c.row, c.col) && board[c.row, c.col] in ColourCells(color)
      ensures RowMajor(pieces)
    {
      var cls := ColourCells(color);
      pieces := [];
      for row := 0 to height
        invariant pieces == GridPieces(cls, row)
      {
        for col := 0 to width
          invariant pieces == GridPieces(cls, row) + RowPieces(cls, row, col)
        {
          if board[row, col] in cls {
            pieces := pieces + [Cell(row, col)];
          }
        }
      }
      PiecesSpec(cls);
    }

    /** The symbol a piece shows after landing on row newRow: on the first
        or last row 'r' becomes 'R' and any other symbol becomes 'B'. */
    function Landed(piece: char, newRow: int): char
    {
      if newRow == height - 1 || newRow == 0 then (if piece == 'r' then 'R' else 'B') else piece
    }

    /** move: the start square is emptied, the piece is written to the
        target (crowned on the first and last rows) and nothing else on the
        board changes; the jumped piece stays and the men counters stay. */
    method Move(oldRow: int, oldCol: int, newRow: int, newCol: int)
      requires Valid() && InRange(oldRow, oldCol) && InRange(newRow, newCol)
      modifies board, this`redKingLeft, this`blueKingLeft
      ensures forall r, c :: InRange(r, c) ==>
        board[r, c] == if r == newRow && c == newCol then Landed(old(board[oldRow, oldCol]), newRow)
                       else if r == oldRow && c == oldCol then '.'
                       else old(board[r, c])
      ensures var crowned := newRow == height - 1 || newRow == 0;
        var red := old(board[oldRow, oldCol]) == 'r';
        redKingLeft == old(redKingLeft) + (if crowned && red then 1 else 0) &&
        blueKingLeft == old(blueKingLeft) + (if crowned && !red then 1 else 0)
      ensures blueLeft == old(blueLeft) && redLeft == old(redLeft) && jumping == old(jumping)
    {
      var piece := board[oldRow, oldCol];
      board[oldRow, oldCol] := '.';
      board[newRow, newCol] := piece;
      if newRow == height - 1 || newRow == 0 {
        if piece == 'r' {
          board[newRow, newCol] := 'R';
          redKingLeft := redKingLeft + 1;
        } else {
          board[newRow, newCol] := 'B';
          blueKingLeft := blueKingLeft + 1;
        }
      }
    }

    /** Crowning is decided by the end row alone: a red king that moves
        onto an end row is rewritten as a blue king (and move counts it as a
        new blue king), while a blue man crowned on the last row gives 'B'. */
    lemma CrowningRecolours()
      ensures Landed('R', 0) == 'B' && Landed('R', height - 1) == 'B'
      ensures Landed('b', height - 1) == 'B' && Landed('r', 0) == 'R'
      ensures forall row :: 0 < row < height - 1 ==> Landed('R', row) == 'R' && Landed('B', row) == 'B'
    {
    }

    /** valid_move: whether `player` (a board symbol) may go from the old
        to the new square, and for a jump the square jumped over. A step
        needs `jumping` to be false; a jump needs a capturable piece in
        between. It reads the board and changes nothing. */
    function ValidMove(player: char, oldRow: int, oldCol: int, newRow: int, newCol: int): Check
      reads this, board
      requires Valid() && InRange(oldRow, oldCol) && InRange(newRow, newCol)
    {
      if board[newRow, newCol] != '.' then Check(false, None)
      else if IsUpper(player) && Abs(oldRow - newRow) == 1 && Abs(oldCol - newCol) == 1 && !jumping then
        Check(true, None)
      else if player == 'b' && newRow - oldRow == 1 && Abs(oldCol - newCol) == 1 && !jumping then
        Check(true, None)
      else if player == 'r' && oldRow - newRow == 1 && Abs(oldCol - newCol) == 1 && !jumping then
        Check(true, None)
      else if IsUpper(player) && Abs(oldRow - newRow) == 2 && Abs(oldCol - newCol) == 2 then
        var eatenRow := (newRow - oldRow) / 2 + oldRow;
        var eatenCol := (newCol - oldCol) / 2 + oldCol;
        if Capturable(player, board[eatenRow, eatenCol]) then Check(true, Some(Cell(eatenRow, eatenCol)))
        else Check(false, None)
      else if player == 'b' && newRow - oldRow == 2 && Abs(oldCol - newCol) == 2 then
        var eatenRow := (newRow - oldRow) / 2 + oldRow;
        var eatenCol := (newCol - oldCol) / 2 + oldCol;
        if Capturable(player, board[eatenRow, eatenCol]) then Check(true, Some(Cell(eatenRow, eatenCol)))
        else Check(false, None)
      else if player == 'r' && oldRow - newRow == 2 && Abs(oldCol - newCol) == 2 then
        var eatenRow := (newRow - oldRow) / 2 + oldRow;
        var eatenCol := (newCol - oldCol) / 2 + oldCol;
        if Capturable(player, board[eatenRow, eatenCol]) then Check(true, Some(Cell(eatenRow, eatenCol)))
        else Check(false, None)
      else Check(false, None)
    }

    /** What valid_move decides: an occupied target is refused; a move is
        accepted without a captured square exactly when it is a step in a
        permitted direction to an empty square while no jump is in
        progress; it names a captured square exactly when it is a jump in a
        permitted direction to an empty square over a capturable symbol,
        and that square is the midpoint. Anything else is refused. */
    lemma ValidMoveSpec(player: char, oldRow: int, oldCol: int, newRow: int, newCol: int)
      requires Valid() && InRange(oldRow, oldCol) && InRange(newRow, newCol)
      ensures var r := ValidMove(player, oldRow, oldCol, newRow, newCol);
        (board[newRow, newCol] != '.' ==> r == Check(false, None)) &&
        (!r.valid ==> r.eaten == None) &&
        (r.valid && r.eaten == None <==>
          board[newRow, newCol] == '.' && !jumping && IsStep(player, Cell(oldRow, oldCol), Cell(newRow, newCol))) &&
        (r.eaten.Some? <==>
          board[newRow, newCol] == '.' && IsJump(player, Cell(oldRow, oldCol), Cell(newRow, newCol)) &&
          Capturable(player, board[(oldRow + newRow) / 2, (oldCol + newCol) / 2])) &&
        (r.eaten.Some? ==> r.valid && r.eaten.value == Midpoint(Cell(oldRow, oldCol), Cell(newRow, newCol)))
    {
    }

    /** The capture test compares the lowered middle symbol with the king's
        upper-case symbol, so a king may jump a man of its own colour. */
    lemma KingMayJumpOwnMan(row: int, col: int)
      requires Valid() && InRange(row, col) && InRange(row + 2, col + 2)
      requires board[row + 1, col + 1] == 'b' && board[row + 2, col + 2] == '.'
      ensures ValidMove('B', row, col, row + 2, col + 2) == Check(true, Some(Cell(row + 1, col + 1)))
    {
    }

    /** winner: "b" once red has no men left (tested first), else "r" once
        blue has none, else None. Kings are not counted. */
    function Winner(): (w: Option<string>)
      reads this
      ensures w == Some("b") <==> redLeft <= 0
      ensures w == Some("r") <==> redLeft > 0 && blueLeft <= 0
      ensures w == None <==> redLeft > 0 && blueLeft > 0
    {
      if redLeft <= 0 then Some("b") else if blueLeft <= 0 then Some("r") else None
    }

    /** With the counters as the constructor sets them, blue has won exactly
        when no red man is on the board, however many red kings remain. */
    lemma WinnerOfFreshState()
      requires blueLeft == |Pieces({'b'})| && redLeft == |Pieces({'r'})|
      ensures Winner() == Some("b") <==>
        forall r, c :: 0 <= r < board.Length0 && 0 <= c < board.Length1 ==> board[r, c] != 'r'
    {
      PiecesSpec({'r'});
      if redLeft > 0 {
        var c := Pieces({'r'})[0];
        assert c in Pieces({'r'});
      } else {
        forall r, c | 0 <= r < board.Length0 && 0 <= c < board.Length1
          ensures board[r, c] != 'r'
        {
          assert Cell(r, c) !in Pieces({'r'});
        }
      }
    }

    /** The step from pos to its diagonal neighbour pos + d is legal for
        the symbol: the neighbour is on the board and empty, the row
        direction is permitted and no jump is in progress. */
    predicate StepOk(sym: char, pos: Cell, d: (int, int))
      reads this, board
      requires Valid()
    {
      var t := Cell(pos.row + d.0, pos.col + d.1);
      InRange(t.row, t.col) && board[t.row, t.col] == '.' && !jumping && Forward(sym, d.0)
    }

    /** To a diagonal neighbour, valid_move accepts exactly the legal
        steps, and never reports a captured square. */
    lemma StepCheck(sym: char, pos: Cell, d: (int, int))
      requires Valid() && InRange(pos.row, pos.col) && Abs(d.0) == 1 && Abs(d.1) == 1
      requires InRange(pos.row + d.0, pos.col + d.1)
      ensures ValidMove(sym, pos.row, pos.col, pos.row + d.0, pos.col + d.1) ==
        Check(StepOk(sym, pos, d), None)
    {
    }

    /** The step entries of get_valid_moves for the piece on p: among the
        first k diagonal neighbours, in loop order, those it may legally
        step to. */
    function StepsBefore(p: Cell, k: nat): seq<MoveEntry>
      reads this, board
      requires Valid() && InRange(p.row, p.col) && k <= 4
    {
      if k == 0 then []
      else
        var d := Dir(1, k - 1);
        StepsBefore(p, k - 1) +
          (if StepOk(board[p.row, p.col], p, d) then [MoveEntry(p, Cell(p.row + d.0, p.col + d.1), None)] else [])
    }

    /** The k-th jump of the loop from pos is legal for the symbol: it
        lands on pos + Dir(2, k), which is on the board and empty, in a
        permitted row direction, over a capturable symbol on pos + Dir(1, k). */
    predicate JumpOk(sym: char, pos: Cell, k: nat)
      reads this, board
      requires Valid() && InRange(pos.row, pos.col) && k < 4
    {
      var t := Cell(pos.row + Dir(2, k).0, pos.col + Dir(2, k).1);
      InRange(t.row, t.col) && board[t.row, t.col] == '.' && Forward(sym, Dir(2, k).0) &&
      Capturable(sym, board[pos.row + Dir(1, k).0, pos.col + Dir(1, k).1])
    }

    /** On the k-th two-square diagonal, valid_move accepts with the jumped
        square exactly the legal jumps, and refuses everything else. */
    lemma JumpCheck(sym: char, pos: Cell, k: nat)
      requires Valid() && InRange(pos.row, pos.col) && k < 4
      requires InRange(pos.row + Dir(2, k).0, pos.col + Dir(2, k).1)
      ensures ValidMove(sym, pos.row, pos.col, pos.row + Dir(2, k).0, pos.col + Dir(2, k).1) ==
        if JumpOk(sym, pos, k) then Check(true, Some(Cell(pos.row + Dir(1, k).0, pos.col + Dir(1, k).1)))
        else Check(false, None)
    {
    }

    /** One pass of the jump loop from pos: the first jump direction, from
        index k on, that is not the banned one and makes a legal jump,
        together with the hop it makes. */
    function JumpFrom(sym: char, pos: Cell, ban: Option<(int, int)>, k: nat): (r: Option<(Hop, (int, int))>)
      reads this, board
      requires Valid() && InRange(pos.row, pos.col) && k <= 4
      ensures r.Some? ==> InRange(r.value.0.to.row, r.value.0.to.col)
      decreases 4 - k
    {
      if k == 4 then None
      else if ban != Some(Dir(2, k)) && JumpOk(sym, pos, k) then
        Some((Hop(Cell(pos.row + Dir(2, k).0, pos.col + Dir(2, k).1),
                  Cell(pos.row + Dir(1, k).0, pos.col + Dir(1, k).1)), Dir(2, k)))
      else JumpFrom(sym, pos, ban, k + 1)
    }

    /** A legal hop for the symbol from square `from`, stated by the rules:
        both squares on the board, a jump in a permitted direction to an
        empty square, over a capturable symbol on the midpoint. */
    predicate HopOk(sym: char, from: Cell, h: Hop)
      reads this, board
      requires Valid()
    {
      InRange(from.row, from.col) && InRange(h.to.row, h.to.col) && IsJump(sym, from, h.to) &&
      board[h.to.row, h.to.col] == '.' &&
      2 * h.eaten.row == from.row + h.to.row && 2 * h.eaten.col == from.col + h.to.col &&
      Capturable(sym, board[h.eaten.row, h.eaten.col])
    }

    /** valid_move accepts a legal hop and reports its captured square. */
    lemma HopOkIsValidMove(sym: char, from: Cell, h: Hop)
      requires Valid() && HopOk(sym, from, h)
      ensures ValidMove(sym, from.row, from.col, h.to.row, h.to.col) == Check(true, Some(h.eaten))
    {
    }

    /** A pass that finds a hop found it in a direction, from index k on,
        that is not banned, landing two squares away diagonally, and the
        hop is legal. */
    lemma {:induction false} JumpFromFinds(sym: char, pos: Cell, ban: Option<(int, int)>, k: nat)
      requires Valid() && InRange(pos.row, pos.col) && k <= 4
      requires JumpFrom(sym, pos, ban, k).Some?
      ensures var (h, d) := JumpFrom(sym, pos, ban, k).value;
        Abs(d.0) == 2 && Abs(d.1) == 2 && ban != Some(d) && h.to == Cell(pos.row + d.0, pos.col + d.1) && HopOk(sym, pos, h)
      // the hop is the first unbanned legal jump in the loop's direction order
      ensures var d := JumpFrom(sym, pos, ban, k).value.1;
        exists j :: k <= j < 4 && d == Dir(2, j) &&
          forall i :: k <= i < j ==> ban == Some(Dir(2, i)) || !JumpOk(sym, pos, i)
      decreases 4 - k
    {
      if !(ban != Some(Dir(2, k)) && JumpOk(sym, pos, k)) {
        JumpFromFinds(sym, pos, ban, k + 1);
      } else {
        assert JumpFrom(sym, pos, ban, k).value.1 == Dir(2, k);
      }
    }

    /** A pass that finds nothing has tried every remaining direction that
        is not banned and stays on the board, and valid_move refused each. */
    lemma {:induction false} JumpFromMisses(sym: char, pos: Cell, ban: Option<(int, int)>, k: nat)
      requires Valid() && InRange(pos.row, pos.col) && k <= 4
      requires JumpFrom(sym, pos, ban, k).None?
      ensures forall j ::
        (k <= j < 4 && ban != Some(Dir(2, j)) && InRange(pos.row + Dir(2, j).0, pos.col + Dir(2, j).1)) ==>
        !ValidMove(sym, pos.row, pos.col, pos.row + Dir(2, j).0, pos.col + Dir(2, j).1).valid
      decreases 4 - k
    {
      if k < 4 {
        JumpFromMisses(sym, pos, ban, k + 1);
        if InRange(pos.row + Dir(2, k).0, pos.col + Dir(2, k).1) {
          JumpCheck(sym, pos, k);
        }
      }
    }

    /** The source's jump loop run for at most `fuel` passes from pos: the
        hops it makes before a pass finds no jump, or None if it would still
        be running after `fuel` passes. Each hop bans the way straight back. */
    function Chain(sym: char, pos: Cell, ban: Option<(int, int)>, fuel: nat): Option<seq<Hop>>
      reads this, board
      requires Valid() && InRange(pos.row, pos.col)
      decreases fuel
    {
      if fuel == 0 then None
      else match JumpFrom(sym, pos, ban, 0)
        case None => Some([])
        case Some((h, d)) =>
          match Chain(sym, h.to, Some((-d.0, -d.1)), fuel - 1)
          case None => None
          case Some(rest) => Some([h] + rest)
    }

    /** The jump loop in the form the method runs it: the landing and
        captured squares recorded so far are extended hop by hop. */
    ghost function ChainAcc(sym: char, pos: Cell, ban: Option<(int, int)>, fuel: nat,
                            targets: seq<Cell>, captured: seq<Cell>): Option<(seq<Cell>, seq<Cell>)>
      reads this, board
      requires Valid() && InRange(pos.row, pos.col)
      decreases fuel
    {
      if fuel == 0 then None
      else match JumpFrom(sym, pos, ban, 0)
        case None => Some((targets, captured))
        case Some((h, d)) =>
          ChainAcc(sym, h.to, Some((-d.0, -d.1)), fuel - 1, targets + [h.to], captured + [h.eaten])
    }

    /** Running the loop from recorded squares t and c ends (within the
        fuel) exactly when the chain does, with t and c extended by the
        chain's landing and captured squares. */
    lemma {:induction false} ChainAccIsChain(sym: char, pos: Cell, ban: Option<(int, int)>, fuel: nat,
                                             targets: seq<Cell>, captured: seq<Cell>)
      requires Valid() && InRange(pos.row, pos.col)
      ensures ChainAcc(sym, pos, ban, fuel, targets, captured).Some? <==> Chain(sym, pos, ban, fuel).Some?
      ensures Chain(sym, pos, ban, fuel).Some? ==>
        ChainAcc(sym, pos, ban, fuel, targets, captured) ==
        Some((targets + Landings(Chain(sym, pos, ban, fuel).value), captured + Captured(Chain(sym, pos, ban, fuel).value)))
      decreases fuel
    {
      if fuel > 0 {
        match JumpFrom(sym, pos, ban, 0)
        case None =>
          assert targets + [] == targets && captured + [] == captured;
        case Some((h, d)) =>
          var next := Some((-d.0, -d.1));
          ChainAccIsChain(sym, h.to, next, fuel - 1, targets + [h.to], captured + [h.eaten]);
          if Chain(sym, h.to, next, fuel - 1).Some? {
            var rest := Chain(sym, h.to, next, fuel - 1).value;
            assert ([h] + rest)[1..] == rest;
            assert (targets + [h.to]) + Landings(rest) == targets + Landings([h] + rest);
            assert (captured + [h.eaten]) + Captured(rest) == captured + Captured([h] + rest);
          }
      }
    }

    /** The jump loop of get_valid_moves ends within `fuel` passes (or there
        is no piece of the colour, so the loop is never entered). */
    ghost predicate ChainEnds(player: string, fuel: nat)
      reads this, board
      requires Valid()
    {
      var ps := Pieces(ColourCells(player));
      ps != [] ==>
        (InRange(ps[0].row, ps[0].col) && Chain(board[ps[0].row, ps[0].col], ps[0], None, fuel).Some?)
    }

    /** What get_valid_moves returns: None without a piece of the colour;
        otherwise, for the first piece only, its steps followed by one entry
        per hop of its jump chain. */
    ghost function ValidMoves(player: string, fuel: nat): Option<seq<MoveEntry>>
      reads this, board
      requires Valid() && ChainEnds(player, fuel)
    {
      var ps := Pieces(ColourCells(player));
      if ps == [] then None
      else
        var p := ps[0];
        var hops := Chain(board[p.row, p.col], p, None, fuel).value;
        Some(StepsBefore(p, 4) + JumpEntries(p, Landings(hops), Captured(hops)))
    }

    /** The first loop of get_valid_moves: a step entry for every diagonal
        neighbour of the piece on i that is on the board and accepted by
        valid_move for the piece's own symbol. */
    method StepMoves(i: Cell) returns (list: seq<MoveEntry>)
      requires Valid() && InRange(i.row, i.col)
      ensures list == StepsBefore(i, 4)
    {
      var sym := board[i.row, i.col];
      list := [];
      for k := 0 to 4
        invariant list == StepsBefore(i, k)
      {
        var newLoc := Cell(i.row + Dir(1, k).0, i.col + Dir(1, k).1);
        if InRange(newLoc.row, newLoc.col) {
          var check := ValidMove(sym, i.row, i.col, newLoc.row, newLoc.col);
          StepCheck(sym, i, Dir(1, k));
          if check.valid {
            list := list + [MoveEntry(i, newLoc, None)];
          }
        }
      }
    }

    /** The body of the inner jump loop for the k-th direction: the
        direction is tried unless it is banned or leaves the board, and
        valid_move decides; it succeeds exactly on the legal jumps. */
    method TryJump(sym: char, oldLoc: Cell, ban: Option<(int, int)>, k: nat)
      returns (found: bool, target: Cell, eaten: Cell)
      requires Valid() && InRange(oldLoc.row, oldLoc.col) && k < 4
      ensures found <==> ban != Some(Dir(2, k)) && JumpOk(sym, oldLoc, k)
      ensures found ==>
        target == Cell(oldLoc.row + Dir(2, k).0, oldLoc.col + Dir(2, k).1) &&
        eaten == Cell(oldLoc.row + Dir(1, k).0, oldLoc.col + Dir(1, k).1)
    {
      found, target, eaten := false, oldLoc, oldLoc;
      var d := Dir(2, k);
      var newLoc := Cell(oldLoc.row + d.0, oldLoc.col + d.1);
      if ban != Some(d) && InRange(newLoc.row, newLoc.col) {
        var check := ValidMove(sym, oldLoc.row, oldLoc.col, newLoc.row, newLoc.col);
        JumpCheck(sym, oldLoc, k);
        if check.valid {
          found, target, eaten := true, newLoc, check.eaten.value;
        }
      }
    }

    /** One pass of the jump loop of get_valid_moves: the four directions in
        order, skipping the banned one and any after the first jump found. */
    method JumpPass(sym: char, oldLoc: Cell, ban: Option<(int, int)>)
      returns (jumpFound: bool, newLoc: Cell, eaten: Cell, newBan: Option<(int, int)>, ghost dir: (int, int))
      requires Valid() && InRange(oldLoc.row, oldLoc.col)
      ensures !jumpFound ==> JumpFrom(sym, oldLoc, ban, 0).None?
      ensures jumpFound ==>
        JumpFrom(sym, oldLoc, ban, 0) == Some((Hop(newLoc, eaten), dir)) && newBan == Some((-dir.0, -dir.1))
    {
      jumpFound := false;
      newLoc, eaten, newBan := oldLoc, oldLoc, ban;
      dir := (0, 0);
      ghost var pass := JumpFrom(sym, oldLoc, ban, 0);
      for k := 0 to 4
        invariant pass == if jumpFound then Some((Hop(newLoc, eaten), dir)) else JumpFrom(sym, oldLoc, ban, k)
        invariant jumpFound ==> newBan == Some((-dir.0, -dir.1))
      {
        if !jumpFound {
          var found, target, jumped := TryJump(sym, oldLoc, ban, k);
          if found {
            jumpFound := true;
            newLoc, eaten := target, jumped;
            newBan := Some((-Dir(2, k).0, -Dir(2, k).1));
            dir := Dir(2, k);
          }
        }
      }
    }

    /** The jump loop of get_valid_moves from the piece on i: it records
        each hop's landing square and captured square until a pass finds no
        jump. The board is never updated, and only the way straight back is
        banned; the ghost `fuel` bounds the passes. */
    method JumpMoves(i: Cell, ghost fuel: nat) returns (targets: seq<Cell>, jumpedList: seq<Cell>)
      requires Valid() && InRange(i.row, i.col)
      requires Chain(board[i.row, i.col], i, None, fuel).Some?
      ensures var hops := Chain(board[i.row, i.col], i, None, fuel).value;
        targets == Landings(hops) && jumpedList == Captured(hops)
    {
      var sym := board[i.row, i.col];
      var canJump := true;
      var oldLoc := i;
      var ban: Option<(int, int)> := None;
      targets, jumpedList := [], [];
      ChainAccIsChain(sym, i, None, fuel, [], []);
      ghost var result := ChainAcc(sym, i, None, fuel, [], []);
      ghost var f := fuel;
      while canJump
        invariant InRange(oldLoc.row, oldLoc.col)
        invariant canJump ==> ChainAcc(sym, oldLoc, ban, f, targets, jumpedList) == result
        invariant !canJump ==> result == Some((targets, jumpedList))
        decreases f
      {
        var jumpFound, newLoc, eaten, newBan, dir := JumpPass(sym, oldLoc, ban);
        canJump := jumpFound;
        if jumpFound {
          jumpedList := jumpedList + [eaten];
          targets := targets + [newLoc];
          oldLoc, ban := newLoc, newBan;
        }
        f := f - 1;
      }
      assert [] + Landings(Chain(sym, i, None, fuel).value) == Landings(Chain(sym, i, None, fuel).value);
      assert [] + Captured(Chain(sym, i, None, fuel).value) == Captured(Chain(sym, i, None, fuel).value);
    }

    /** get_valid_moves. The `return` sits inside the loop over the pieces,
        so only the first piece is examined, and with no piece the function
        returns None. */
    method GetValidMoves(player: string, ghost fuel: nat) returns (moves: Option<seq<MoveEntry>>)
      requires Valid() && ChainEnds(player, fuel)
      ensures moves == ValidMoves(player, fuel)
      ensures moves.None? <==>
        forall r, c :: InRange(r, c) ==> board[r, c] !in ColourCells(player)
    {
      var pieces := GetAllPieces(player);
      if |pieces| == 0 {
        forall r, c | InRange(r, c)
          ensures board[r, c] !in ColourCells(player)
        {
          assert Cell(r, c) !in pieces;
        }
        return None;
      }
      var i := pieces[0];
      assert i in pieces;
      var list := StepMoves(i);
      var targets, jumpedList := JumpMoves(i, fuel);
      moves := Some(list + JumpEntries(i, targets, jumpedList));
    }

    /** The step entries among the first k directions are exactly the
        neighbours in those directions that valid_move accepts. */
    lemma {:induction false} StepsBeforeSpec(p: Cell, k: nat)
      requires Valid() && InRange(p.row, p.col) && k <= 4
      ensures forall e :: e in StepsBefore(p, k) <==>
        (e.start == p && e.jumped == None &&
         exists j :: 0 <= j < k && e.target == Cell(p.row + Dir(1, j).0, p.col + Dir(1, j).1) &&
           StepOk(board[p.row, p.col], p, Dir(1, j)))
    {
      if k > 0 {
        StepsBeforeSpec(p, k - 1);
      }
    }

    /** The step entries of a piece are exactly its legal steps: an empty
        diagonal neighbour in a permitted direction, and only while no jump
        is in progress. */
    lemma StepsLegal(p: Cell)
      requires Valid() && InRange(p.row, p.col)
      ensures forall e :: e in StepsBefore(p, 4) <==>
        (e.start == p && e.jumped == None && InRange(e.target.row, e.target.col) &&
         board[e.target.row, e.target.col] == '.' && !jumping && IsStep(board[p.row, p.col], p, e.target))
    {
      StepsBeforeSpec(p, 4);
      forall e: MoveEntry
        ensures e in StepsBefore(p, 4) <==>
          (e.start == p && e.jumped == None && InRange(e.target.row, e.target.col) &&
           board[e.target.row, e.target.col] == '.' && !jumping && IsStep(board[p.row, p.col], p, e.target))
      {
        DiagonalNeighbours(p, e.target);
      }
    }

    /** Hop by hop, each hop of the list is legal from the square the
        previous one landed on (from pos for the first). */
    ghost predicate Linked(sym: char, pos: Cell, hops: seq<Hop>)
      reads this, board
      requires Valid()
      decreases |hops|
    {
      hops == [] || (HopOk(sym, pos, hops[0]) && Linked(sym, hops[0].to, hops[1..]))
    }

    lemma {:induction false} LinkedHops(sym: char, pos: Cell, hops: seq<Hop>)
      requires Valid() && Linked(sym, pos, hops)
      ensures forall k :: 0 <= k < |hops| ==> HopOk(sym, Trail(pos, hops, k), hops[k])
      decreases |hops|
    {
      if hops != [] {
        LinkedHops(sym, hops[0].to, hops[1..]);
        forall k | 1 <= k < |hops|
          ensures HopOk(sym, Trail(pos, hops, k), hops[k])
        {
          assert hops[k] == hops[1..][k - 1];
          assert Trail(pos, hops, k) == Trail(hops[0].to, hops[1..], k - 1);
        }
      }
    }

    lemma {:induction false} ChainLinked(sym: char, pos: Cell, ban: Option<(int, int)>, fuel: nat)
      requires Valid() && InRange(pos.row, pos.col)
      requires Chain(sym, pos, ban, fuel).Some?
      ensures Linked(sym, pos, Chain(sym, pos, ban, fuel).value)
      decreases fuel
    {
      match JumpFrom(sym, pos, ban, 0)
      case None =>
      case Some((h, d)) =>
        JumpFromFinds(sym, pos, ban, 0);
        ChainLinked(sym, h.to, Some((-d.0, -d.1)), fuel - 1);
        var rest := Chain(sym, h.to, Some((-d.0, -d.1)), fuel - 1).value;
        var hops := [h] + rest;
        assert hops[0] == h && hops[1..] == rest;
        assert Chain(sym, pos, ban, fuel) == Some(hops);
    }

    /** A chain has fewer hops than the passes allowed for it: the last
        pass is the one that finds nothing. */
    lemma {:induction false} ChainShorterThanFuel(sym: char, pos: Cell, ban: Option<(int, int)>, fuel: nat)
      requires Valid() && InRange(pos.row, pos.col)
      requires Chain(sym, pos, ban, fuel).Some?
      ensures |Chain(sym, pos, ban, fuel).value| < fuel
      decreases fuel
    {
      match JumpFrom(sym, pos, ban, 0)
      case None =>
      case Some((h, d)) =>
        ChainShorterThanFuel(sym, h.to, Some((-d.0, -d.1)), fuel - 1);
    }

    /** Every hop of a chain is a jump of the piece's symbol from the square
        it stands on, accepted by valid_move with the hop's captured square;
        the chain has fewer hops than passes. */
    lemma ChainLinks(sym: char, pos: Cell, ban: Option<(int, int)>, fuel: nat)
      requires Valid() && InRange(pos.row, pos.col)
      requires Chain(sym, pos, ban, fuel).Some?
      ensures var hops := Chain(sym, pos, ban, fuel).value;
        |hops| < fuel &&
        forall k :: 0 <= k < |hops| ==> HopOk(sym, Trail(pos, hops, k), hops[k])
    {
      ChainShorterThanFuel(sym, pos, ban, fuel);
      ChainLinked(sym, pos, ban, fuel);
      LinkedHops(sym, pos, Chain(sym, pos, ban, fuel).value);
    }

    /** Prepending a hop from pos in direction d to a list that starts by
        avoiding the way back, and never turns back after that, gives a
        list that never turns back. */
    static lemma NeverTurnsBackCons(pos: Cell, h: Hop, d: (int, int), rest: seq<Hop>)
      requires h.to == Cell(pos.row + d.0, pos.col + d.1)
      requires rest != [] ==> rest[0].to != Cell(h.to.row - d.0, h.to.col - d.1)
      requires forall k :: 1 <= k < |rest| ==> rest[k].to != Trail(h.to, rest, k - 1)
      ensures forall k :: 1 <= k < |[h] + rest| ==> ([h] + rest)[k].to != Trail(pos, [h] + rest, k - 1)
    {
    }

    /** A chain stops only where the jump loop's last pass finds nothing: from
        the final square, with the way back over the last hop banned, no jump
        direction is left (see `JumpFromMisses`). */
    /** More passes than a chain needs change nothing: once the loop has
        ended within f passes, any larger bound gives the same hops. */
    lemma {:induction false} ChainSameForMoreFuel(sym: char, pos: Cell, ban: Option<(int, int)>, f: nat, g: nat)
      requires Valid() && InRange(pos.row, pos.col)
      requires Chain(sym, pos, ban, f).Some? && f <= g
      ensures Chain(sym, pos, ban, g) == Chain(sym, pos, ban, f)
      decreases f
    {
      match JumpFrom(sym, pos, ban, 0)
      case None =>
      case Some((h, d)) =>
        ChainSameForMoreFuel(sym, h.to, Some((-d.0, -d.1)), f - 1, g - 1);
    }

    lemma {:induction false} ChainStopsWhenStuck(sym: char, pos: Cell, ban: Option<(int, int)>, fuel: nat)
      requires Valid() && InRange(pos.row, pos.col)
      requires Chain(sym, pos, ban, fuel).Some?
      ensures var hops := Chain(sym, pos, ban, fuel).value;
        var last := Trail(pos, hops, |hops|);
        InRange(last.row, last.col) && JumpFrom(sym, last, FinalBan(pos, ban, hops), 0).None?
      decreases fuel
    {
      match JumpFrom(sym, pos, ban, 0)
      case None =>
      case Some((h, d)) =>
        JumpFromFinds(sym, pos, ban, 0);
        ChainStopsWhenStuck(sym, h.to, Some((-d.0, -d.1)), fuel - 1);
        var rest := Chain(sym, h.to, Some((-d.0, -d.1)), fuel - 1).value;
        FinalCons(pos, ban, h, d, rest);
        assert Chain(sym, pos, ban, fuel) == Some([h] + rest);
    }

    /** A chain never jumps straight back to the square it came from, and
        its first hop avoids the banned direction. Nothing else stops it
        from revisiting squares. */
    lemma {:induction false} ChainNeverTurnsBack(sym: char, pos: Cell, ban: Option<(int, int)>, fuel: nat)
      requires Valid() && InRange(pos.row, pos.col)
      requires Chain(sym, pos, ban, fuel).Some?
      ensures var hops := Chain(sym, pos, ban, fuel).value;
        (hops != [] && ban.Some? ==> hops[0].to != Cell(pos.row + ban.value.0, pos.col + ban.value.1)) &&
        forall k :: 1 <= k < |hops| ==> hops[k].to != Trail(pos, hops, k - 1)
      decreases fuel
    {
      match JumpFrom(sym, pos, ban, 0)
      case None =>
      case Some((h, d)) =>
        JumpFromFinds(sym, pos, ban, 0);
        ChainNeverTurnsBack(sym, h.to, Some((-d.0, -d.1)), fuel - 1);
        var rest := Chain(sym, h.to, Some((-d.0, -d.1)), fuel - 1).value;
        NeverTurnsBackCons(pos, h, d, rest);
        assert Chain(sym, pos, ban, fuel) == Some([h] + rest);
    }

    /** A man's chain ends: 'b' only jumps towards higher rows and 'r'
        towards lower ones, two rows a hop, so the passes needed are bounded
        by the rows left to cross. */
    lemma {:induction false} ManChainEnds(sym: char, pos: Cell, ban: Option<(int, int)>, fuel: nat)
      requires Valid() && InRange(pos.row, pos.col)
      requires (sym == 'b' && fuel > (7 - pos.row) / 2) || (sym == 'r' && fuel > pos.row / 2)
      ensures Chain(sym, pos, ban, fuel).Some?
      decreases fuel
    {
      match JumpFrom(sym, pos, ban, 0)
      case None =>
      case Some((h, d)) =>
        JumpFromFinds(sym, pos, ban, 0);
        ManChainEnds(sym, h.to, Some((-d.0, -d.1)), fuel - 1);
    }

    /** When a colour has no kings, four passes suffice for the jump loop of
        get_valid_moves. */
    lemma MenChainsFitFourPasses(player: string)
      requires Valid()
      requires forall r, c :: InRange(r, c) && board[r, c] in ColourCells(player) ==> !IsUpper(board[r, c])
      ensures ChainEnds(player, 4)
    {
      var ps := Pieces(ColourCells(player));
      PiecesSpec(ColourCells(player));
      if ps != [] {
        assert ps[0] in ps;
        ManChainEnds(board[ps[0].row, ps[0].col], ps[0], None, 4);
      }
    }

    /** A board on which a blue king's jump chain never ends: the king on
        (0, 0), any pieces on (1, 1), (1, 3), (1, 5), (3, 3) and (3, 5), and
        (2, 2), (0, 4), (2, 6) and (4, 4) empty. */
    predicate KingLoopBoard()
      reads this, board
      requires Valid()
    {
      board[0, 0] == 'B' &&
      board[1, 1] != '.' && board[1, 3] != '.' && board[1, 5] != '.' && board[3, 3] != '.' && board[3, 5] != '.' &&
      board[2, 2] == '.' && board[0, 4] == '.' && board[2, 6] == '.' && board[4, 4] == '.'
    }

    /** On that board each pass from a square of the circuit hops to the next
        square of the circuit and bans the way it came. */
    lemma LoopPass(i: nat)
      requires Valid() && KingLoopBoard() && i < 4
      ensures var (p, b) := LoopSquare(i);
        var (q, c) := LoopSquare((i + 1) % 4);
        var r := JumpFrom('B', p, Some(b), 0);
        r.Some? && r.value.0.to == q && r.value.1 == (-c.0, -c.1)
    {
      // the direction each pass takes; the earlier ones are off the board,
      // banned or blocked
      if i == 0 {
        var p, b := Cell(0, 4), Some((2, -2));
        assert JumpFrom('B', p, b, 1) == JumpFrom('B', p, b, 3) == Some((Hop(Cell(2, 6), Cell(1, 5)), (2, 2)));
      } else if i == 1 {
        assert JumpFrom('B', Cell(2, 6), Some((-2, -2)), 2) == Some((Hop(Cell(4, 4), Cell(3, 5)), (2, -2)));
      } else if i == 2 {
        assert JumpFrom('B', Cell(4, 4), Some((-2, 2)), 0) == Some((Hop(Cell(2, 2), Cell(3, 3)), (-2, -2)));
      } else {
        assert JumpFrom('B', Cell(2, 2), Some((2, 2)), 1) == Some((Hop(Cell(0, 4), Cell(1, 3)), (-2, 2)));
      }
    }

    lemma {:induction false} LoopNeverEnds(i: nat, fuel: nat)
      requires Valid() && KingLoopBoard() && i < 4
      ensures Chain('B', LoopSquare(i).0, Some(LoopSquare(i).1), fuel).None?
      decreases fuel
    {
      if fuel > 0 {
        LoopPass(i);
        LoopNeverEnds((i + 1) % 4, fuel - 1);
      }
    }

    /** A king's chain need not end: on this board the blue king hops
        (0, 0), (2, 2), (0, 4), (2, 6), (4, 4), (2, 2), (0, 4), ... for ever,
        so no bound on the passes lets `get_valid_moves` return. */
    lemma KingChainNeverEnds(fuel: nat)
      requires Valid() && KingLoopBoard()
      ensures Chain('B', Cell(0, 0), None, fuel).None?
      ensures !ChainEnds("b", fuel)
    {
      assert JumpFrom('B', Cell(0, 0), None, 1) == JumpFrom('B', Cell(0, 0), None, 3) == Some((Hop(Cell(2, 2), Cell(1, 1)), (2, 2)));
      assert JumpFrom('B', Cell(0, 0), None, 0) == Some((Hop(Cell(2, 2), Cell(1, 1)), (2, 2)));
      assert JumpFrom('B', Cell(2, 2), Some((-2, -2)), 0) == Some((Hop(Cell(0, 4), Cell(1, 3)), (-2, 2)));
      if fuel >= 2 {
        LoopNeverEnds(0, fuel - 2);
        assert Chain('B', Cell(2, 2), Some((-2, -2)), fuel - 1).None?;
      }
      var ps := Pieces(ColourCells("b"));
      PiecesSpec(ColourCells("b"));
      assert Cell(0, 0) in ps;
      assert ps[0] == Cell(0, 0);
    }

    /** The bound on the passes only decides whether get_valid_moves may be
        called: every bound that lets its jump loop end gives the same moves. */
    lemma ValidMovesSameForEveryFuel(player: string, f: nat, g: nat)
      requires Valid() && ChainEnds(player, f) && ChainEnds(player, g)
      ensures ValidMoves(player, f) == ValidMoves(player, g)
    {
      var ps := Pieces(ColourCells(player));
      if ps != [] {
        var p := ps[0];
        if f <= g {
          ChainSameForMoreFuel(board[p.row, p.col], p, None, f, g);
        } else {
          ChainSameForMoreFuel(board[p.row, p.col], p, None, g, f);
        }
      }
    }

    /** What get_valid_moves returns: None exactly when the colour has no
        piece; otherwise entries that all start at the colour's first square
        in row-major order, the steps first and then one entry per hop, each
        holding the captured squares of the whole chain. */
    lemma ValidMovesShape(player: string, fuel: nat)
      requires Valid() && ChainEnds(player, fuel)
      ensures ValidMoves(player, fuel).None? <==> Pieces(ColourCells(player)) == []
      ensures ValidMoves(player, fuel).Some? ==>
        var cls := ColourCells(player);
        var p := Pieces(cls)[0];
        InRange(p.row, p.col) && board[p.row, p.col] in cls &&
        (forall r, c :: InRange(r, c) && board[r, c] in cls ==> !Before(Cell(r, c), p))
      ensures ValidMoves(player, fuel).Some? ==>
        var p := Pieces(ColourCells(player))[0];
        var hops := Chain(board[p.row, p.col], p, None, fuel).value;
        var moves := ValidMoves(player, fuel).value;
        var n := |StepsBefore(p, 4)|;
        |moves| == n + |hops| &&
        (forall e :: e in moves ==> e.start == p) &&
        (forall k :: 0 <= k < n ==> moves[k].jumped == None) &&
        (forall k :: 0 <= k < |hops| ==> moves[n + k] == MoveEntry(p, hops[k].to, Some(Captured(hops))))
    {
      var cls := ColourCells(player);
      PiecesSpec(cls);
      var ps := Pieces(cls);
      if ps != [] {
        var p := ps[0];
        assert p in ps;
        forall r, c | InRange(r, c) && board[r, c] in cls
          ensures !Before(Cell(r, c), p)
        {
          assert Cell(r, c) in ps;
        }
        StepsBeforeSpec(p, 4);
      }
    }
  }
}
