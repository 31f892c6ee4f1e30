# Checkers rules engine in Dafny

This project models the rules core of a terminal checkers game written in C++: the
8x8 `Board` container, the move-legality engine of `Game` (`find_captures`,
`find_simple_moves`, `can_player_capture`, `get_valid_moves`) and the turn state
machine (`Game()`, `switch_player`, `make_move`). The game plays Russian-style
checkers: capture is mandatory, kings fly along diagonals, and a multi-jump is made
one leg at a time, the same side keeping the turn while the moved piece can jump
again.

Everything is modelled with pure functions over immutable values:

- `pieces.dfy` (module `Pieces`): pieces, players, moves and the colour tests of the C++ code.
- `board.dfy` (module `Boards`): the board as eight rows of eight cells, with bounds-checked
  access, relocation, the opening layout and piece counting.
- `legality.dfy` (module `Legality`): diagonal directions as pairs of unit offsets, the cell
  k steps along a direction, per-direction scans, the capture and simple-move searches,
  the whole-board capture scan and the per-cell legal-move query. It also holds reference
  definitions of each kind of leg that do not depend on scan order, with lemmas proving that
  the searches return exactly those legs.
- `turns.dfy` (module `Turns`): the game state, matching a requested leg against the legal
  legs, removing the jumped piece, promotion, multi-jump continuation and the end-of-game
  check.
- `turn_properties.dfy` (module `TurnProperties`): what an accepted move does to the board,
  and who moves next, stated against the reference definitions.
- `opening.dfy` (module `Opening`): the first move of a game, White's man stepping from
  (5, 0) to (4, 1), carried through the contracts above from the opening position.

The model keeps the C++ code's behaviour where it departs from the usual rules:

- The king-capture search derives the moving king's colour with a test that matches
  either king kind, so every king counts as white. A king therefore jumps only black
  pieces: a white king never jumps its own pieces, and a black king jumps its own
  side's pieces but never white ones (`Pieces.KingColourAsWritten`,
  `Legality.KingsJumpOnlyBlackPieces`).
- The colour test in `get_valid_moves` reads an empty cell as black (`Pieces.DerivedColour`, `Legality.EmptyCellHasNoLegs`).
  An empty cell still yields no legs, because both searches find nothing there.
- A man's simple step goes in the forward direction of the player to move. Only that
  player's pieces reach the search, so this is the piece's own forward direction.
- After a capturing leg, any legal capture is accepted next. Nothing ties the next leg to
  the piece that just jumped. The continuation test looks only at the destination cell.
- `make_move` does not consult the game-over flag. Moves are still accepted after the
  game has ended, and an ended game stays ended (`TurnProperties.MakeMoveKeepsWinnerRecorded`).
- The caller's capture flag is ignored: the matching legal leg's flag is used
  (`TurnProperties.CaptureFlagIgnored`).
- The capture walk removes the first occupied cell strictly between the two ends of the leg.

## Model

| member | source | states |
|---|---|---|
| Pieces.OwnershipIsExclusive | checkers.cpp:139-142 | a piece belongs to exactly one player, an empty cell to neither |
| Pieces.KingColourAsWritten | checkers.cpp:236 | the colour the king-capture search derives for the moving king is right for a white king and wrong for a black king |
| Pieces.Other | checkers.cpp:68 | the other player is never the same player |
| Boards.NewBoard | checkers.cpp:9 | a fresh board has every cell empty |
| Boards.ValidCoordIsBoardIndex | checkers.cpp:48-50 | the coordinate test accepts exactly the row and column indices of the board's cells |
| Boards.CellsDetermineBoard | checkers.cpp:28-33 | two boards on which reading every on-board cell gives the same pieces are the same board |
| Boards.Set | checkers.cpp:35-40 | the addressed cell holds the new piece and every other cell is unchanged |
| Boards.MovePiece | checkers.cpp:42-46 | the source becomes empty, the destination receives the source's old piece, all other cells are unchanged; moving a piece onto its own cell leaves that cell empty |
| Boards.FillDark | checkers.cpp:12-24 | every dark cell of the row range not yet visited gets the piece; all other cells are unchanged |
| Boards.Initialize | checkers.cpp:11-26 | black men on the dark cells of rows 0-2, white men on the dark cells of rows 5-7, every other cell unchanged |
| Boards.CountOwned | checkers.cpp:124-134 | the count of a player's pieces from a scan position on is zero exactly when no cell from there on holds one |
| Boards.CountPieces | checkers.cpp:124-134 | a player's piece count is zero exactly when no cell of the board holds one of their pieces |
| Legality.StepIsScaledOffset | checkers.cpp:222-223 | the cell k steps along a direction is the source plus k times the unit offset, as the search loops compute it |
| Legality.BeyondBoard | checkers.cpp:221-225 | eight or more steps from an on-board cell leave the board, so the searches' bound of seven steps never cuts a line short |
| Legality.Ray | checkers.cpp:276-288 | the legs to the consecutive empty on-board cells along a diagonal, in order, stopping before the first blocked or off-board step |
| Legality.FirstOccupied | checkers.cpp:221-232 | the step of the first piece along a diagonal, with only empty cells before it; none when the line reaches the edge with no piece on it |
| Legality.RayMembership | checkers.cpp:276-288 | a leg is on the ray exactly when every cell up to and including its destination is on the board and empty |
| Legality.ManCapture | checkers.cpp:200-216 | every leg found is a capture from the man's cell to an empty cell along a diagonal |
| Legality.ManCaptureMembership | checkers.cpp:200-216 | a man's jump along a direction is found exactly when the cell two steps away is empty and the adjacent cell holds a piece of the other colour |
| Legality.ManCapturesExact | checkers.cpp:199-216 | a leg is among a man's captures exactly when it is one of the man's jumps by the rules |
| Legality.KingCapture | checkers.cpp:218-255 | every leg found is a capture from the king's cell to an empty cell along a diagonal |
| Legality.KingCaptureSound | checkers.cpp:218-255 | every leg found jumps the first piece on the line, whose colour differs from the king's derived colour, onto a cell of the clear run behind it |
| Legality.KingCaptureComplete | checkers.cpp:218-255 | every such jump is found |
| Legality.KingCaptureIsJump | checkers.cpp:218-255 | every leg the search finds along one direction is a king's jump by the rules |
| Legality.KingCapturesExact | checkers.cpp:217-256 | a leg is among a king's captures exactly when it is one of the king's jumps by the rules |
| Legality.ManStepMembership | checkers.cpp:266-273 | a man's step along a direction is found exactly when the adjacent cell is on the board and empty |
| Legality.ManStep | checkers.cpp:266-273 | every leg found is a non-capture from the man's cell to an empty cell along a diagonal |
| Legality.FindCaptures | checkers.cpp:195-257 | every leg found is a capture from the given cell onto an empty cell along a diagonal |
| Legality.CapturesAreExactlyJumps | checkers.cpp:195-257 | a leg is found exactly when the rules allow the piece on the cell that jump; an empty cell has none |
| Legality.FindSimpleMoves | checkers.cpp:259-291 | every leg found is a non-capture from the given cell onto an empty cell along a diagonal |
| Legality.SimpleMovesAreExactlySteps | checkers.cpp:259-291 | a leg is found exactly when it is a forward diagonal step onto an empty cell for a man, or a slide along a clear diagonal for a king |
| Legality.KingsJumpOnlyBlackPieces | checkers.cpp:234-239 | every jump a king makes passes over a black piece, whatever the king's own colour |
| Legality.CaptureScan | checkers.cpp:294-309 | the row-major scan from a cell on finds a piece of the player that can jump exactly when one exists from that cell on |
| Legality.CanPlayerCapture | checkers.cpp:293-310 | true exactly when some piece of the player can jump |
| Legality.CanPlayerCaptureMatchesRules | checkers.cpp:293-310 | true exactly when some piece of the player has a jump by the rules' definition |
| Legality.GetValidMoves | checkers.cpp:168-185 | no legs unless the cell holds a piece of the player to move; every leg starts on the cell, lands on an empty cell along a diagonal, and is a capture exactly when the player can capture somewhere |
| Legality.EmptyCellHasNoLegs | checkers.cpp:168-185 | an empty cell reads as black, so with Black to move it passes the colour test, yet both searches and the legal-move query return nothing for it |
| Legality.ValidMovesAreExactlyLegal | checkers.cpp:168-185 | a leg is legal exactly when the cell holds a piece of the player to move and the leg is one of its jumps if that player can jump anywhere, otherwise one of its non-capturing legs |
| Legality.MandatoryCaptureBlocksOtherPieces | checkers.cpp:177-182 | while the player has a jump anywhere, a piece of theirs without a jump has no legal leg |
| Turns.NewGame | checkers.cpp:54-57 | White moves first, the game is not over, no winner, and the opening layout is on the board |
| Turns.SwitchPlayer | checkers.cpp:67-69 | the turn passes to the other player and nothing else changes |
| Turns.FindDestination | checkers.cpp:73-75 | the first leg in the list that ends on the requested cell, or none when no leg does |
| Turns.MatchedLeg | checkers.cpp:72-79 | the matched leg is legal, ends on the requested cell and carries the mandatory-capture flag, not the caller's; none when no legal leg ends there |
| Turns.LegGeometry | checkers.cpp:88-89 | a diagonal leg has a unit direction and a positive length that lead from its source to its destination |
| Turns.ClearJumped | checkers.cpp:87-101 | the walk empties the first occupied cell strictly before the destination and reports its step; when every such cell is empty, the board is unchanged |
| Turns.Promote | checkers.cpp:103-110 | a promotion is reported exactly when the piece, as it stood before the leg, is a man arriving on its side's promotion row; the destination then holds a king of the man's colour and nothing else changes; otherwise the board is unchanged |
| Turns.MoveScan | checkers.cpp:136-151 | the row-major scan from a cell on finds a piece of the player with a legal leg exactly when one exists from that cell on |
| Turns.PlayerCanMove | checkers.cpp:136-151 | true exactly when some cell holds a legal leg for the player |
| Turns.ScanFindsSomeLeg | checkers.cpp:136-151 | the full scan succeeds exactly when some cell has a legal leg |
| Turns.EvaluateEnd | checkers.cpp:154-163 | no white pieces makes Black the winner, else no black pieces makes White the winner, else a player to move with no legal leg loses; otherwise nothing changes |
| Turns.RelocateAndCapture | checkers.cpp:81-101 | the source ends empty; only a capture removes a piece, at a step strictly inside the leg whose cell is on the board and ends empty |
| Turns.PlayLeg | checkers.cpp:81-110 | the source ends empty; a capture is reported only for a capturing leg, at a cell of the board; a promotion is reported exactly when the moved piece is a man reaching its promotion row |
| Turns.ApplyLeg | checkers.cpp:81-119 | the move is accepted and the reported board, captured cell and promotion are those of playing the leg |
| Turns.MakeMove | checkers.cpp:71-79 | accepted exactly when a legal leg from the source ends on the requested cell; a rejected move leaves the game untouched |
| TurnProperties.PlayLegEnds | checkers.cpp:81-110 | after a leg the source is empty and the destination holds the moved piece, crowned exactly when it is a man that reached its promotion row |
| TurnProperties.PlayLegQuiet | checkers.cpp:81-82 | a non-capturing leg reports no capture and changes only its two ends |
| TurnProperties.RelocationCapture | checkers.cpp:87-101 | a capture walk removes the first piece strictly between the ends and changes nothing else besides the two ends; when it removes nothing there was no piece between them |
| TurnProperties.WalkFindsNothing | checkers.cpp:87-101 | a capture walk that removes nothing met no piece strictly between the ends, and only the two ends changed |
| TurnProperties.WalkFindsPiece | checkers.cpp:87-101 | a capture walk that removes a piece removed the first one strictly between the ends, and only that cell and the two ends changed |
| TurnProperties.PlayLegCapture | checkers.cpp:87-101 | a capturing leg removes and reports the first piece strictly between its ends; the other cells, besides the two ends, are unchanged |
| TurnProperties.ManCaptureJumpsPiece | checkers.cpp:199-216 | a man's jump passes over the adjacent piece, which is of the other colour |
| TurnProperties.KingCaptureJumpsPiece | checkers.cpp:234-252 | a king's jump passes over the first piece on its line, and that piece is black |
| TurnProperties.AcceptedMoveEffects | checkers.cpp:71-110 | an accepted move starts on a piece of the side to move and ends on the board; the source empties and the destination holds the piece, crowned when a man reaches its promotion row; when capture is mandatory the first piece strictly between the ends is removed and reported, otherwise nothing is reported; no other cell changes |
| TurnProperties.AcceptedLeg | checkers.cpp:71-79 | an accepted move plays the legal leg from its source to the requested destination, carrying the mandatory-capture flag |
| TurnProperties.LegalLegEffects | checkers.cpp:81-110 | the effect of playing a legal leg, as listed for an accepted move |
| TurnProperties.LegEffects | checkers.cpp:81-110 | the same effect for any diagonal leg on the board, provided a capturing leg has a piece between its ends |
| TurnProperties.CapturingLegEffects | checkers.cpp:87-101 | a capturing leg with a piece between its ends reports the first such piece, empties its cell and changes nothing else besides the two ends |
| TurnProperties.LegalLegShape | checkers.cpp:168-185 | a legal leg starts on a piece of the player to move and goes along a diagonal to a cell of the board; a capturing one is among that piece's jumps |
| TurnProperties.JumpPassesPiece | checkers.cpp:195-257 | every jump the search finds has a piece strictly between its ends |
| TurnProperties.CanJumpAgainMatchesSearch | checkers.cpp:113-118 | the continuation search finds a jump exactly when the piece on the destination has one by the rules |
| TurnProperties.PlayerCanMoveMatchesRules | checkers.cpp:136-151 | the scan finds a legal leg exactly when the player has one by the rules |
| TurnProperties.SearchedLegIsRuleLeg | checkers.cpp:136-151 | a leg found by the scan is a leg of the rules |
| TurnProperties.RuleLegIsSearched | checkers.cpp:136-151 | a leg of the rules is found by the scan |
| TurnProperties.LegalLegIsRuleLeg | checkers.cpp:168-185 | a player with a leg the per-cell query returns has a leg by the rules |
| TurnProperties.RuleLegIsLegal | checkers.cpp:168-185 | a leg by the rules makes the scan for a legal leg succeed |
| TurnProperties.TurnAfterAcceptedMove | checkers.cpp:112-163 | after a mandatory capture from which the piece on the destination has a jump by the rules, the same side moves and nothing but the board changes; otherwise the turn passes to the other side and: no white pieces makes Black the winner, else no black pieces makes White the winner, else the side now to move with no leg by the rules loses; if none holds the game-over flag and winner stay as they were |
| TurnProperties.LegTurn | checkers.cpp:112-163 | the same turn rule for a leg already known to be legal |
| TurnProperties.EndByRules | checkers.cpp:154-163 | the end-of-game check against the rules' definition of a legal leg: the board and the side to move never change, and the winner follows the cascade above |
| TurnProperties.CaptureFlagIgnored | checkers.cpp:73-75 | the outcome of a move does not depend on the capture flag the caller supplies |
| TurnProperties.MakeMoveKeepsWinnerRecorded | checkers.cpp:154-163 | a winner is recorded exactly when the game is over, every move keeps this, and a finished game stays finished |
| TurnProperties.EndKeepsWinnerRecorded | checkers.cpp:154-163 | the end-of-game check keeps a winner recorded exactly when the game is over, and never reopens a finished game |
| Opening.OpeningHasNoWhiteJump | checkers.cpp:11-26 | in the opening layout no white piece has a jump by the rules |
| Opening.OpeningStepIsLegal | checkers.cpp:168-185 | in the opening layout White cannot capture, and the step from (5, 0) to (4, 1) is among the legal legs of the man on (5, 0) |
| Opening.OpeningMoveFrom | checkers.cpp:71-119 | from the opening layout with White to move, that step, even flagged as a capture, is accepted, captures and crowns nothing, moves the man to (4, 1), changes no other cell and hands the turn to Black |
| Opening.OpeningMove | checkers.cpp:54-57 | the first move of a new game may be that step, with the same outcome |

## Left out

- The ncurses user interface, `main` and the move log written to `log.txt` are not modelled: they are I/O.
- The accessors `get_board`, `get_current_player`, `is_game_over` and `get_winner` only read fields. The state is a datatype, so they are its field selectors.
- `get_piece` and `set_piece` throw on an off-board coordinate. This becomes the precondition `IsValidCoord`. `make_move` therefore requires an on-board source, since `get_valid_moves` would throw there.
- Before the game ends, the winner field is left uninitialised by the constructor. It is modelled as `Option<Player>` with `None` until a winner is recorded.
- Coordinates stay in 0..7 and counts stay at most 64, so the C++ code's `int` arithmetic never overflows. Unbounded integers model it exactly.
