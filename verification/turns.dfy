/** The turn state machine: applying a leg, removing the jumped piece, promotion,
    multi-jump continuation, switching sides and detecting the end of the game. */
module Turns {
  import opened Pieces
  import opened Boards
  import opened Legality

  /** The state of a game. The winner is recorded only once the game is over. */
  datatype GameState = GameState(board: Board, current: Player, gameOver: bool, winner: Option<Player>)

  /** What applying a leg reports: whether it was accepted, the resulting state, the
      cell of the captured piece and whether the moved man was promoted. */
  datatype MoveResult = MoveResult(accepted: bool, game: GameState, captured: Option<Cell>, promoted: bool)

  /** The state a new game starts in: the opening position, White to move. */
  function NewGame(): (g: GameState)
    ensures g.current == White && !g.gameOver && g.winner == None
    ensures forall r, c {:trigger Get(g.board, r, c)} :: IsValidCoord(r, c) ==>
              Get(g.board, r, c) == (if r < 3 && IsDark(r, c) then BlackMan
                                     else if 5 <= r && IsDark(r, c) then WhiteMan
                                     else Empty)
  {
    GameState(StartBoard(), White, false, None)
  }

  /** Hands the turn to the other side and changes nothing else. */
  function SwitchPlayer(g: GameState): (g': GameState)
    ensures g'.current != g.current
    ensures g'.board == g.board && g'.gameOver == g.gameOver && g'.winner == g.winner
  {
    g.(current := Other(g.current))
  }

  // ---------------------------------------------------------------------------
  // Matching the requested destination against the legal legs

  /** The index of the first leg in ms that ends on (tr, tc). */
  function FindDestination(ms: seq<Move>, tr: int, tc: int): (o: Option<int>)
    ensures o.Some? ==> 0 <= o.value < |ms| && ms[o.value].toRow == tr && ms[o.value].toCol == tc
    ensures o.Some? ==> forall i :: 0 <= i < o.value ==> !(ms[i].toRow == tr && ms[i].toCol == tc)
    ensures o.None? ==> forall i :: 0 <= i < |ms| ==> !(ms[i].toRow == tr && ms[i].toCol == tc)
  {
    if ms == [] then None
    else if ms[0].toRow == tr && ms[0].toCol == tc then Some(0)
    else
      match FindDestination(ms[1..], tr, tc)
      case None => None
      case Some(i) => Some(i + 1)
  }

  /** The legal leg of the piece on the requested source that ends on the requested
      destination, if there is one; the caller's capture flag plays no part. */
  function MatchedLeg(g: GameState, m: Move): (o: Option<Move>)
    requires IsValidCoord(m.fromRow, m.fromCol)
    ensures o.Some? ==> o.value in GetValidMoves(g.board, g.current, m.fromRow, m.fromCol)
    ensures o.Some? ==> o.value == Move(m.fromRow, m.fromCol, m.toRow, m.toCol, CanPlayerCapture(g.board, g.current))
    ensures o.None? ==> forall mv {:trigger mv in GetValidMoves(g.board, g.current, m.fromRow, m.fromCol)} :: mv in GetValidMoves(g.board, g.current, m.fromRow, m.fromCol) ==>
                          !(mv.toRow == m.toRow && mv.toCol == m.toCol)
  {
    var ms := GetValidMoves(g.board, g.current, m.fromRow, m.fromCol);
    match FindDestination(ms, m.toRow, m.toCol)
    case None => None
    case Some(i) => Some(ms[i])
  }

  // ---------------------------------------------------------------------------
  // Removing the jumped piece

  /** Geometry of a diagonal leg: its direction and its length in steps. */
  function LegDir(mv: Move): Dir {
    Dir(if mv.toRow > mv.fromRow then 1 else -1, if mv.toCol > mv.fromCol then 1 else -1)
  }

  function LegLength(mv: Move): int {
    if mv.toRow > mv.fromRow then mv.toRow - mv.fromRow else mv.fromRow - mv.toRow
  }

  lemma LegGeometry(mv: Move)
    requires IsDiagonalLeg(mv)
    ensures LegLength(mv) >= 1
    ensures Step(mv.fromRow, LegDir(mv).dr, LegLength(mv)) == mv.toRow
    ensures Step(mv.fromCol, LegDir(mv).dc, LegLength(mv)) == mv.toCol
  {
  }

  /** A step strictly inside a leg between two cells of the board is on the board. */
  lemma StepInside(r: int, c: int, d: Dir, i: int, n: int)
    requires 0 <= i <= n
    requires IsValidCoord(r, c) && IsValidCoord(Step(r, d.dr, n), Step(c, d.dc, n))
    ensures IsValidCoord(Step(r, d.dr, i), Step(c, d.dc, i))
  {
  }

  /** Walks the leg from step i towards step n (the destination) and empties the
      first occupied cell it meets; reports that cell's step, if any. */
  function ClearJumped(b: Board, r: int, c: int, d: Dir, i: int, n: int): (res: (Board, Option<int>))
    requires 1 <= i <= n
    requires IsValidCoord(r, c) && IsValidCoord(Step(r, d.dr, n), Step(c, d.dc, n))
    decreases n - i
    ensures res.1.None? ==> res.0 == b && ClearRun(b, r, c, d, i, n - 1)
    ensures res.1.Some? ==>
              var j := res.1.value;
              i <= j < n && ClearRun(b, r, c, d, i, j - 1) && OccupiedStep(b, r, c, d, j)
              && res.0 == Set(b, Step(r, d.dr, j), Step(c, d.dc, j), Empty)
  {
    if i == n then (b, None)
    else
      StepInside(r, c, d, i, n);
      if Get(b, Step(r, d.dr, i), Step(c, d.dc, i)) != Empty then (Set(b, Step(r, d.dr, i), Step(c, d.dc, i), Empty), Some(i))
      else ClearJumped(b, r, c, d, i + 1, n)
  }

  // ---------------------------------------------------------------------------
  // Promotion

  /** The row on which a man of pl is crowned: the row farthest from its own side. */
  function PromotionRow(pl: Player): int {
    if pl == White then 0 else 7
  }

  function KingOf(pl: Player): Piece {
    if pl == White then WhiteKing else BlackKing
  }

  /** What a piece becomes on arriving on row `row`: a man reaching its promotion row
      becomes a king of its own colour; anything else stays as it is. */
  function Crowned(p: Piece, row: int): Piece {
    if IsMan(p) && row == PromotionRow(DerivedColour(p)) then KingOf(DerivedColour(p)) else p
  }

  /** Crowns the piece that arrived on (tr, tc): a white man on row 0 or a black man on
      row 7. The test is made on the piece as it stood before the leg. */
  function Promote(b: Board, piece: Piece, tr: int, tc: int): (res: (Board, bool))
    requires IsValidCoord(tr, tc)
    ensures res.1 <==> Crowned(piece, tr) != piece
    ensures !res.1 ==> res.0 == b
    ensures res.1 ==> res.0 == Set(b, tr, tc, Crowned(piece, tr))
  {
    if piece == WhiteMan && tr == 0 then (Set(b, tr, tc, WhiteKing), true)
    else if piece == BlackMan && tr == 7 then (Set(b, tr, tc, BlackKing), true)
    else (b, false)
  }

  // ---------------------------------------------------------------------------
  // End of a turn

  /** The piece on (r, c) belongs to pl and has at least one legal leg. */
  predicate HasMoveFrom(b: Board, pl: Player, r: int, c: int)
    requires IsValidCoord(r, c)
  {
    Owns(Get(b, r, c), pl) && GetValidMoves(b, pl, r, c) != []
  }

  /** Row-major scan, from (r, c) on, for a piece of pl with a legal leg. */
  function MoveScan(b: Board, pl: Player, r: int, c: int): (found: bool)
    requires 0 <= r <= 8 && 0 <= c <= 8
    decreases 8 - r, 8 - c
    ensures found <==> exists rr, cc {:trigger HasMoveFrom(b, pl, rr, cc)} :: IsValidCoord(rr, cc) && AtOrAfter(rr, cc, r, c) && HasMoveFrom(b, pl, rr, cc)
  {
    if r == 8 then false
    else if c == 8 then MoveScan(b, pl, r + 1, 0)
    else HasMoveFrom(b, pl, r, c) || MoveScan(b, pl, r, c + 1)
  }

  /** Whether player pl, to move on b, has a legal leg with any piece. */
  function PlayerCanMove(b: Board, pl: Player): (can: bool)
    ensures can <==> exists r, c, m :: IsValidCoord(r, c) && m in GetValidMoves(b, pl, r, c)
  {
    ScanFindsSomeLeg(b, pl);
    MoveScan(b, pl, 0, 0)
  }

  lemma ScanFindsSomeLeg(b: Board, pl: Player)
    ensures MoveScan(b, pl, 0, 0) <==> exists r, c, m :: IsValidCoord(r, c) && m in GetValidMoves(b, pl, r, c)
  {
    if MoveScan(b, pl, 0, 0) {
      ScanHitHasLeg(b, pl);
    }
    if r, c, m :| IsValidCoord(r, c) && m in GetValidMoves(b, pl, r, c) {
      ScanFindsPiece(b, pl, r, c, m);
    }
  }

  lemma ScanFindsPiece(b: Board, pl: Player, r: int, c: int, m: Move)
    requires IsValidCoord(r, c) && m in GetValidMoves(b, pl, r, c)
    ensures MoveScan(b, pl, 0, 0)
  {
    assert HasMoveFrom(b, pl, r, c);
    assert AtOrAfter(r, c, 0, 0);
  }

  lemma ScanHitHasLeg(b: Board, pl: Player)
    requires MoveScan(b, pl, 0, 0)
    ensures exists r, c, m :: IsValidCoord(r, c) && m in GetValidMoves(b, pl, r, c)
  {
    var r, c :| IsValidCoord(r, c) && AtOrAfter(r, c, 0, 0) && HasMoveFrom(b, pl, r, c);
    LegOfMovablePiece(b, pl, r, c);
  }

  lemma LegOfMovablePiece(b: Board, pl: Player, r: int, c: int)
    requires IsValidCoord(r, c) && HasMoveFrom(b, pl, r, c)
    ensures exists m :: m in GetValidMoves(b, pl, r, c)
  {
    var ms := GetValidMoves(b, pl, r, c);
    assert ms[0] in ms;
  }

  ghost predicate NoPieces(b: Board, pl: Player) {
    forall r, c {:trigger Get(b, r, c)} :: IsValidCoord(r, c) ==> !Owns(Get(b, r, c), pl)
  }

  /** The end-of-turn check for the player now to move: no white pieces means Black
      wins, else no black pieces means White wins, else a player to move without a
      legal leg loses. Otherwise the state is left as it was. */
  function EvaluateEnd(g: GameState): (g': GameState)
    ensures g'.board == g.board && g'.current == g.current
    ensures NoPieces(g.board, White) ==> g'.gameOver && g'.winner == Some(Black)
    ensures !NoPieces(g.board, White) && NoPieces(g.board, Black) ==> g'.gameOver && g'.winner == Some(White)
    ensures !NoPieces(g.board, White) && !NoPieces(g.board, Black) && !PlayerCanMove(g.board, g.current) ==>
              g'.gameOver && g'.winner == Some(Other(g.current))
    ensures !NoPieces(g.board, White) && !NoPieces(g.board, Black) && PlayerCanMove(g.board, g.current) ==> g' == g
  {
    var whitePieces := CountPieces(g.board, White);
    var blackPieces := CountPieces(g.board, Black);
    var canMove := PlayerCanMove(g.board, g.current);
    assert whitePieces == 0 <==> NoPieces(g.board, White);
    assert blackPieces == 0 <==> NoPieces(g.board, Black);
    if whitePieces == 0 then g.(gameOver := true, winner := Some(Black))
    else if blackPieces == 0 then g.(gameOver := true, winner := Some(White))
    else if !canMove then g.(gameOver := true, winner := Some(Other(g.current)))
    else g
  }

  // ---------------------------------------------------------------------------
  // Applying a leg

  /** The board-level effect of a leg: the resulting board, the cell of the piece
      removed by a capture and whether the moved man was crowned. */
  datatype LegEffect = LegEffect(board: Board, captured: Option<Cell>, promoted: bool)

  /** Relocates the piece and, on a capture, empties the first occupied cell strictly
      between the two ends; reports that cell's step along the leg. */
  function RelocateAndCapture(b: Board, mv: Move): (res: (Board, Option<int>))
    requires IsValidCoord(mv.fromRow, mv.fromCol) && IsValidCoord(mv.toRow, mv.toCol) && IsDiagonalLeg(mv)
    ensures !mv.isCapture ==> res.1.None?
    ensures res.1.Some? ==>
              var j := res.1.value;
              1 <= j < LegLength(mv) && IsValidCoord(Step(mv.fromRow, LegDir(mv).dr, j), Step(mv.fromCol, LegDir(mv).dc, j))
              && Get(res.0, Step(mv.fromRow, LegDir(mv).dr, j), Step(mv.fromCol, LegDir(mv).dc, j)) == Empty
    ensures Get(res.0, mv.fromRow, mv.fromCol) == Empty
  {
    LegGeometry(mv);
    var moved := MovePiece(b, mv);
    if mv.isCapture then ClearJumped(moved, mv.fromRow, mv.fromCol, LegDir(mv), 1, LegLength(mv)) else (moved, None)
  }

  /** Relocates the piece, removes the jumped piece on a capture, then crowns a man
      that reached its far row. */
  function PlayLeg(b: Board, mv: Move): (e: LegEffect)
    requires IsValidCoord(mv.fromRow, mv.fromCol) && IsValidCoord(mv.toRow, mv.toCol) && IsDiagonalLeg(mv)
    ensures e.captured.Some? ==> mv.isCapture && IsValidCoord(e.captured.value.row, e.captured.value.col)
    ensures !mv.isCapture ==> e.captured.None?
    ensures e.promoted <==> Crowned(Get(b, mv.fromRow, mv.fromCol), mv.toRow) != Get(b, mv.fromRow, mv.fromCol)
    ensures Get(e.board, mv.fromRow, mv.fromCol) == Empty
  {
    var piece := Get(b, mv.fromRow, mv.fromCol);
    var (cleared, jumped) := RelocateAndCapture(b, mv);
    var captured :=
      if jumped.Some? then Some(Cell(Step(mv.fromRow, LegDir(mv).dr, jumped.value), Step(mv.fromCol, LegDir(mv).dc, jumped.value)))
      else None;
    var (crowned, promoted) := Promote(cleared, piece, mv.toRow, mv.toCol);
    LegEffect(crowned, captured, promoted)
  }

  /** Applies a legal leg. After a capture from which the piece on the destination
      can jump again, the same side keeps the turn and the end-of-game check is
      skipped; otherwise the turn passes and the end of the game is evaluated. */
  function ApplyLeg(g: GameState, mv: Move): (res: MoveResult)
    requires IsValidCoord(mv.fromRow, mv.fromCol) && IsValidCoord(mv.toRow, mv.toCol) && IsDiagonalLeg(mv)
    ensures res.accepted
    ensures var e := PlayLeg(g.board, mv);
            res.game.board == e.board && res.captured == e.captured && res.promoted == e.promoted
  {
    var e := PlayLeg(g.board, mv);
    if mv.isCapture && FindCaptures(e.board, mv.toRow, mv.toCol) != [] then
      MoveResult(true, g.(board := e.board), e.captured, e.promoted)
    else
      MoveResult(true, EvaluateEnd(SwitchPlayer(g.(board := e.board))), e.captured, e.promoted)
  }

  /** Applies the requested leg if its destination is among the legal legs of its
      source cell; otherwise rejects it and leaves the state untouched. The game-over
      flag is not consulted. */
  function MakeMove(g: GameState, m: Move): (res: MoveResult)
    requires IsValidCoord(m.fromRow, m.fromCol)
    ensures res.accepted <==>
              exists mv {:trigger mv in GetValidMoves(g.board, g.current, m.fromRow, m.fromCol)} :: mv in GetValidMoves(g.board, g.current, m.fromRow, m.fromCol) && mv.toRow == m.toRow && mv.toCol == m.toCol
    ensures !res.accepted ==> res == MoveResult(false, g, None, false)
  {
    match MatchedLeg(g, m)
    case None => MoveResult(false, g, None, false)
    case Some(mv) => ApplyLeg(g, mv)
  }
}
