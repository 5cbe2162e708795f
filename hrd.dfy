/** A piece of the Hua Rong Dao puzzle (A1/hrd.py): a record whose top-left
    corner moves one cell at a time on a board of 4 columns and 5 rows. */
module Hrd {
  import opened Common

  /** check_coord: the corner (x, y) lies on the board. Only the corner is
      tested, never the far edge of a wide or tall piece. */
  function CheckCoord(x: int, y: int): (ok: bool)
    ensures ok <==> 0 <= x <= 3 && 0 <= y <= 4
  {
    x > -1 && x < 4 && y > -1 && y < 5
  }

  /** The offset a direction name stands for; a name the source does not
      know stands for no offset at all. */
  function Offset(direction: string): (r: (int, int))
    ensures Abs(r.0) + Abs(r.1) == if direction in ["up", "down", "left", "right"] then 1 else 0
    ensures r.1 < 0 <==> direction == "up"
    ensures r.0 < 0 <==> direction == "left"
  {
    if direction == "up" then (0, -1)
    else if direction == "down" then (0, 1)
    else if direction == "left" then (-1, 0)
    else if direction == "right" then (1, 0)
    else (0, 0)
  }

  /** Where the corner (x, y) ends after a move in `direction`: shifted by the
      direction's offset when the shifted corner is on the board, otherwise
      where it was. */
  function Shifted(x: int, y: int, direction: string): (r: (int, int))
    ensures r == (x, y) || CheckCoord(r.0, r.1)
    ensures Abs(r.0 - x) + Abs(r.1 - y) <= 1
  {
    var (dx, dy) := Offset(direction);
    if CheckCoord(x + dx, y + dy) then (x + dx, y + dy) else (x, y)
  }

  class Piece {
    var isGoal: bool
    var isSingle: bool
    var coordX: int
    var coordY: int
    /** 'h' or 'v' for a 1x2 piece, None otherwise. */
    var orientation: Option<char>

    constructor (isGoal: bool, isSingle: bool, coordX: int, coordY: int, orientation: Option<char>)
      ensures this.isGoal == isGoal && this.isSingle == isSingle
      ensures this.coordX == coordX && this.coordY == coordY
      ensures this.orientation == orientation
    {
      this.isGoal := isGoal;
      this.isSingle := isSingle;
      this.coordX := coordX;
      this.coordY := coordY;
      this.orientation := orientation;
    }

    /** Piece.move: one cell towards `direction` if the new corner is on the
        board; a rejected move (the source prints "Invalid move") or an
        unknown direction leaves the piece as it was. */
    method Move(direction: string)
      modifies this`coordX, this`coordY
      ensures (coordX, coordY) == Shifted(old(coordX), old(coordY), direction)
      ensures isGoal == old(isGoal) && isSingle == old(isSingle) && orientation == old(orientation)
    {
      if direction == "up" {
        if CheckCoord(coordX, coordY - 1) {
          coordY := coordY - 1;
        }
      } else if direction == "down" {
        if CheckCoord(coordX, coordY + 1) {
          coordY := coordY + 1;
        }
      } else if direction == "left" {
        if CheckCoord(coordX - 1, coordY) {
          coordX := coordX - 1;
        }
      } else if direction == "right" {
        if CheckCoord(coordX + 1, coordY) {
          coordX := coordX + 1;
        }
      }
    }
  }

  /** Each of the four directions moves exactly its own coordinate by one,
      and does so exactly when check_coord accepts the new corner. */
  lemma ShiftedByDirection(x: int, y: int)
    ensures Shifted(x, y, "up") == if CheckCoord(x, y - 1) then (x, y - 1) else (x, y)
    ensures Shifted(x, y, "down") == if CheckCoord(x, y + 1) then (x, y + 1) else (x, y)
    ensures Shifted(x, y, "left") == if CheckCoord(x - 1, y) then (x - 1, y) else (x, y)
    ensures Shifted(x, y, "right") == if CheckCoord(x + 1, y) then (x + 1, y) else (x, y)
  {
  }

  /** A direction name outside up, down, left and right moves nothing. */
  lemma UnknownDirectionKeepsCorner(x: int, y: int, direction: string)
    requires direction != "up" && direction != "down" && direction != "left" && direction != "right"
    ensures Shifted(x, y, direction) == (x, y)
  {
  }

  /** A corner on the board stays on the board, whatever the direction. */
  lemma ShiftedStaysOnBoard(x: int, y: int, direction: string)
    requires CheckCoord(x, y)
    ensures CheckCoord(Shifted(x, y, direction).0, Shifted(x, y, direction).1)
  {
  }

  /** At most one coordinate changes, and by exactly one. */
  lemma ShiftedChangesOneCoordinate(x: int, y: int, direction: string)
    ensures var (nx, ny) := Shifted(x, y, direction);
      (nx == x && ny == y) || (nx == x && Abs(ny - y) == 1) || (ny == y && Abs(nx - x) == 1)
  {
  }

  /** The demonstration at the end of hrd.py: the goal piece created at (0, 0)
      and moved right, then down, ends with its corner at (1, 1). */
  method GoalPieceDemo() returns (x: int, y: int)
    ensures x == 1 && y == 1
  {
    var cao := new Piece(true, false, 0, 0, None);
    cao.Move("right");
    cao.Move("down");
    x, y := cao.coordX, cao.coordY;
  }
}
