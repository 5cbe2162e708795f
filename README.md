# Checkers move rules and Hua Rong Dao pieces, in Dafny

This project models two parts of a Python repository that plays the Hua Rong
Dao sliding-block puzzle and a checkers variant, and proves properties of the
model.

- `checkers.dfy` (module `Checkers`) models the `State` class of
  `A2/checkers.py`:
  - The board is an 8×8 grid of one-character symbols: `.` is empty, `b`/`r`
    are men, `B`/`R` are kings.
  - `State` holds the caller's board object and the piece counters.
  - `__init__` counts the men.
  - `get_all_pieces` lists one colour's squares row by row.
  - `move` rewrites the board and crowns pieces on the end rows.
  - `valid_move` decides steps and jumps.
  - `get_valid_moves` lists the steps and the chain of jumps of a piece.
  - `winner`, `get_opp_char` and `get_next_turn`.
- `hrd.dfy` (module `Hrd`) models `Piece` and `check_coord` of `A1/hrd.py`. A
  piece's top-left corner moves one cell at a time on a board 4 columns wide
  and 5 rows high.
- `common.dfy` (module `Common`) holds what both models share: the `Option`
  type, which stands for a Python value that may be `None`, and `Abs`.

The board is a Dafny `array2<char>` that `State` shares with its caller, and
`Move` writes into it. `Piece` is a class whose `Move` updates the corner in
place.

Each loop of the source is a method with loop invariants, and each is proved
equal to a specification function:
- `CountMen` and `GetAllPieces` against `Pieces`.
- `StepMoves` against `StepsBefore`.
- `TryJump`/`JumpPass` against `JumpOk`/`JumpFrom`.
- `JumpMoves` against `Chain`.
- `GetValidMoves` against `ValidMoves`.

The specification functions are then characterised by lemmas.

Where this differs from a plain reading of the rules, the model follows the
code as written:
- `get_valid_moves` returns from inside its loop over the pieces. Only the
  first piece of the colour (in row-major order) is examined, and with no
  piece the result is `None`.
- A king's capture test compares the jumped symbol, lowered, with the king's
  upper-case symbol, so a king may jump a man of its own colour
  (`KingMayJumpOwnMan`).
- Crowning gives `R` only to an `r` man. Any other piece landing on an end row
  becomes `B` (`CrowningRecolours`) and counts as a new blue king (`Move`).
- `move` neither removes the jumped piece nor changes `blue_left`/`red_left`.
  The jump chain is computed on an unchanged board.
- `jumping` is never set, so steps are never disabled by a jump.
- Every jump entry holds the same `jumped_list` object, which keeps growing.
  When the moves are returned, every jump entry therefore carries the whole
  chain's captured squares (`ValidMovesShape`).
- The jump chain bans only the direction straight back (`ChainNeverTurnsBack`).

## Model

| member | source | states |
|---|---|---|
| Hrd.CheckCoord | A1/hrd.py:64-65 | a corner is accepted exactly when 0 ≤ x ≤ 3 and 0 ≤ y ≤ 4 |
| Hrd.Offset | A1/hrd.py:42-62 | "up", "down", "left" and "right" each move the corner by one cell along one axis ("up" and "left" towards 0); any other name moves it not at all |
| Hrd.Shifted | A1/hrd.py:42-62 | the corner after a move is either unchanged or on the board, and moves by at most one cell |
| Hrd.Piece.constructor | A1/hrd.py:17-36 | all five fields take the given values |
| Hrd.Piece.Move | A1/hrd.py:42-62 | the new corner is `Shifted` of the old one; goal flag, size flag and orientation are unchanged |
| Hrd.ShiftedByDirection | A1/hrd.py:42-62 | each direction moves its own coordinate by one, exactly when `check_coord` accepts the new corner |
| Hrd.UnknownDirectionKeepsCorner | A1/hrd.py:42-62 | a direction other than up/down/left/right leaves the corner where it was |
| Hrd.ShiftedStaysOnBoard | A1/hrd.py:42-65 | a corner on the board stays on the board after any move |
| Hrd.ShiftedChangesOneCoordinate | A1/hrd.py:42-62 | at most one coordinate changes, and by exactly one |
| Hrd.GoalPieceDemo | A1/hrd.py:71-75 | the goal piece created at (0, 0) and moved right then down ends at (1, 1) |
| Checkers.GetOppChar | A2/checkers.py:155-159 | "b"/"B" give the red symbols, anything else the blue ones |
| Checkers.GetNextTurn | A2/checkers.py:161-165 | the next turn is "b" exactly after "r", and "r" otherwise |
| Checkers.TurnsAlternate | A2/checkers.py:155-165 | for "b" and "r", the next turn is an opponent symbol and not one's own, and two turns return to the start |
| Checkers.DiagonalNeighbours | A2/checkers.py:114-116 | the four offsets of the step loops are exactly the diagonal neighbours |
| Checkers.Captured | A2/checkers.py:138-139 | the captured list has one entry per hop, the k-th being the k-th hop's jumped square |
| Checkers.Landings | A2/checkers.py:139-141 | the landing list has one entry per hop, the k-th being the k-th hop's landing square |
| Checkers.State.RowPieces | A2/checkers.py:53-55 | one row of the scan over the board; `PiecesSpec` characterises the whole scan |
| Checkers.State.GridPieces | A2/checkers.py:52-55 | the scan over the first rows of the board; `PiecesSpec` characterises the whole scan |
| Checkers.State.Pieces | A2/checkers.py:46-56 | the squares `get_all_pieces` lists, as characterised by `PiecesSpec` |
| Checkers.State.PiecesSpec | A2/checkers.py:52-55 | a square is listed exactly when it is on the board with a symbol of the class, in strictly increasing row-major order |
| Checkers.State.constructor | A2/checkers.py:18-33 | the board is the caller's, blue_left/red_left are the numbers of `b`/`r` squares, king counters 0, not jumping |
| Checkers.State.CountMen | A2/checkers.py:28-33 | the counting loops return the numbers of `b` and `r` squares |
| Checkers.State.GetAllPieces | A2/checkers.py:46-56 | the result is exactly the colour's squares (B/b for "b", R/r otherwise), in row-major order |
| Checkers.State.Landed | A2/checkers.py:66-72 | the symbol a piece shows after landing on a row; `CrowningRecolours` states its cases and `Move` writes it |
| Checkers.State.Move | A2/checkers.py:61-72 | the start square is emptied and the target gets the piece (crowned on the end rows); nothing else on the board changes; the king counter of the crowned colour grows by one; men counters and `jumping` are unchanged |
| Checkers.State.CrowningRecolours | A2/checkers.py:66-72 | a red king reaching an end row becomes `B`; `b` is crowned `B` and `r` is crowned `R`; off the end rows a king of either colour keeps its symbol |
| Checkers.State.ValidMove | A2/checkers.py:75-108 | valid_move's answer (accepted, captured square); `ValidMoveSpec`, `StepCheck` and `JumpCheck` characterise it |
| Checkers.State.ValidMoveSpec | A2/checkers.py:75-108 | an occupied target is refused; a move is accepted without a captured square exactly when it is a step to an empty square in a permitted direction while not jumping; a captured square is returned exactly when it is a jump to an empty square over a capturable symbol, and that square is the midpoint; a refusal never names a square |
| Checkers.State.KingMayJumpOwnMan | A2/checkers.py:90-95 | a blue king may jump a blue man |
| Checkers.State.Winner | A2/checkers.py:147-152 | "b" exactly when red_left ≤ 0, "r" exactly when red_left > 0 and blue_left ≤ 0, None otherwise |
| Checkers.State.WinnerOfFreshState | A2/checkers.py:147-149 | with the counters `__init__` sets, blue has won exactly when no `r` is on the board |
| Checkers.State.StepCheck | A2/checkers.py:77-88 | to a diagonal neighbour, valid_move accepts exactly the legal steps, never with a captured square |
| Checkers.State.JumpCheck | A2/checkers.py:90-108 | on a jump diagonal, valid_move accepts exactly the legal jumps, with the middle square as captured square, and refuses the rest |
| Checkers.State.HopOkIsValidMove | A2/checkers.py:90-107 | valid_move accepts a legal hop and returns its captured square |
| Checkers.State.JumpFrom | A2/checkers.py:130-142 | a pass that finds a jump lands on the board |
| Checkers.State.JumpFromFinds | A2/checkers.py:130-142 | a found hop lies in a jump direction that is not banned, lands two squares away diagonally and is legal; its direction is the first, in loop order, that is neither banned nor illegal |
| Checkers.State.JumpFromMisses | A2/checkers.py:130-142 | when a pass finds nothing, valid_move refused every remaining unbanned direction that stays on the board |
| Checkers.State.ChainAccIsChain | A2/checkers.py:124-142 | running the loop with recorded squares ends exactly when the chain does, appending the chain's landing and captured squares |
| Checkers.State.StepMoves | A2/checkers.py:114-121 | the step loop produces `StepsBefore` for the piece |
| Checkers.State.TryJump | A2/checkers.py:132-142 | one direction succeeds exactly when it is not banned and the jump is legal, and it yields the landing and jumped squares |
| Checkers.State.JumpPass | A2/checkers.py:128-142 | a pass finds exactly the hop `JumpFrom` names, and bans the way back |
| Checkers.State.JumpMoves | A2/checkers.py:122-142 | the jump loop's targets and jumped list are the landing and captured squares of the chain |
| Checkers.State.GetValidMoves | A2/checkers.py:111-144 | the result is `ValidMoves`; it is None exactly when the colour has no piece on the board |
| Checkers.State.StepsBefore | A2/checkers.py:114-121 | the step entries of the piece; `StepsBeforeSpec` and `StepsLegal` characterise them and `StepMoves` computes them |
| Checkers.State.Chain | A2/checkers.py:127-143 | the hops of the jump loop within a bound on its passes, None when the bound is reached; `ChainLinks`, `ChainNeverTurnsBack`, `ChainStopsWhenStuck` and `ChainShorterThanFuel` characterise it and `JumpMoves` computes it |
| Checkers.State.ValidMoves | A2/checkers.py:111-144 | the list get_valid_moves returns; `ValidMovesShape` characterises it and `GetValidMoves` computes it |
| Checkers.State.StepsBeforeSpec | A2/checkers.py:114-121 | an entry is among the first k step entries exactly when it is a step from the piece in one of the first k directions that is legal |
| Checkers.State.StepsLegal | A2/checkers.py:114-121 | the step entries are exactly the legal steps: an empty diagonal neighbour in a permitted direction, while not jumping |
| Checkers.State.ChainShorterThanFuel | A2/checkers.py:127-142 | a chain has fewer hops than passes |
| Checkers.State.ChainLinks | A2/checkers.py:127-142 | every hop is a legal jump from the square the previous hop landed on; the chain is shorter than its passes |
| Checkers.State.ChainSameForMoreFuel | A2/checkers.py:127-143 | once the jump loop has ended within some number of passes, allowing more passes gives the same hops |
| Checkers.State.ChainStopsWhenStuck | A2/checkers.py:127-143 | the chain stops only on a square where the next pass, with the way back over the last hop banned, finds no jump (so, by `JumpFromMisses`, valid_move refuses every other jump from there that stays on the board) |
| Checkers.State.ChainNeverTurnsBack | A2/checkers.py:132-142 | no hop returns to the square the piece just came from, and the first hop avoids the banned direction |
| Checkers.State.ManChainEnds | A2/checkers.py:127-142 | a man's chain ends within the passes allowed by the rows left to cross |
| Checkers.State.MenChainsFitFourPasses | A2/checkers.py:127-142 | for a colour without kings the jump loop ends within four passes |
| Checkers.State.KingChainNeverEnds | A2/checkers.py:111-143 | with a blue king on (0, 0), pieces on (1, 1), (1, 3), (1, 5), (3, 3) and (3, 5), and (2, 2), (0, 4), (2, 6) and (4, 4) empty, the king's chain exceeds every bound on the passes, so the jump loop of get_valid_moves("b") never ends |
| Checkers.State.ValidMovesSameForEveryFuel | A2/checkers.py:111-144 | every bound on the passes that lets the jump loop end gives the same moves, so the bound only decides whether get_valid_moves may be called |
| Checkers.State.ValidMovesShape | A2/checkers.py:111-144 | None exactly without a piece; otherwise all entries start at the colour's first square in row-major order, steps first, then one entry per hop, each carrying the whole chain's captured squares |

## Left out

- Printing is not modelled: `display`, the `print` inside `move`, and the "Invalid move" message of `Piece.move`.
- `read_from_file`, the `__main__` blocks, the command-line parsing and the module-level `cache` are input/output and test harness.
- `eval` uses floating point (kings count 0.5).
- `alpha_beta_search` is unfinished in the source; it calls only `winner` and `eval`.
- `Piece.__repr__` only formats a string, and `get_board` only returns the board.
- Checkers.State.GetValidMoves: requires a ghost bound `fuel` on the passes of the jump loop with `ChainEnds`. The loop bans only the way straight back and never removes a jumped piece, so nothing bounds a king's chain. A men-only colour always meets the bound with four passes (`MenChainsFitFourPasses`). A king whose chain never ends is outside the model; `KingChainNeverEnds` shows such a board. The result does not depend on which bound is chosen (`ValidMovesSameForEveryFuel`).
- The shared `jumped_list` object is modelled by the value every jump entry shows once `get_valid_moves` returns. Its identity and its growth while the loop runs are not modelled.
- `isupper` and `lower` are modelled for ASCII letters only.
- The board is a rectangular `array2`. A ragged list of lists is not modelled.
- Checkers.State.Move and Checkers.State.ValidMove: require `Valid()`, an 8×8 board, as the class documents its board (A2/checkers.py:17). So do `GetAllPieces`, `GetValidMoves` and the functions behind them, which index the board with the fixed width and height. `__init__` counts over a board of any size.
- Negative Python indices, which wrap around, are excluded by the `InRange` preconditions of `ValidMove` and `Move`.
- `valid_move`'s `player` parameter is modelled as a single board symbol, which is how `get_valid_moves` calls it.
- The nested `x`/`y` loops over the four diagonal offsets are one loop over `Dir(s, k)`, k = 0..3, in the same order.
- The `jump_found` flag and the early `old_loc = new_loc` assignment inside the inner loop are folded into `TryJump` and `JumpPass`. They have no effect once a jump is found.
