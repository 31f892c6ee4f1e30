/** Properties of the turn state machine, stated against reference definitions. */
module TurnProperties {
  import opened Pieces
  import opened Boards
  import opened Legality
  import opened Turns

  /** b and b' agree on every cell outside `cells`. */
  ghost predicate SameExcept(b: Board, b': Board, cells: set<Cell>) {
    forall r, c {:trigger Get(b', r, c)} :: IsValidCoord(r, c) && Cell(r, c) !in cells ==> Get(b', r, c) == Get(b, r, c)
  }

  /** Step j of the leg mv holds the first piece met when walking from its source
      towards its destination, strictly between the two. */
  ghost predicate FirstPieceBetween(b: Board, mv: Move, j: int) {
    var d := LegDir(mv);
    1 <= j < LegLength(mv) && ClearRun(b, mv.fromRow, mv.fromCol, d, 1, j - 1) && OccupiedStep(b, mv.fromRow, mv.fromCol, d, j)
  }

  function StepCell(mv: Move, j: int): Cell {
    Cell(Step(mv.fromRow, LegDir(mv).dr, j), Step(mv.fromCol, LegDir(mv).dc, j))
  }

  /** The cells strictly inside a leg are on the board and are neither of its ends,
      so relocating the piece leaves them as they were. */
  lemma InnerStepUntouched(b: Board, mv: Move, j: int)
    requires IsValidCoord(mv.fromRow, mv.fromCol) && IsValidCoord(mv.toRow, mv.toCol) && IsDiagonalLeg(mv)
    requires 1 <= j < LegLength(mv)
    ensures var s := StepCell(mv, j);
            IsValidCoord(s.row, s.col) && (s.row != mv.fromRow || s.col != mv.fromCol) && (s.row != mv.toRow || s.col != mv.toCol)
            && Get(MovePiece(b, mv), s.row, s.col) == Get(b, s.row, s.col)
  {
    LegGeometry(mv);
    var d := LegDir(mv);
    var n := LegLength(mv);
    StepInside(mv.fromRow, mv.fromCol, d, j, n);
  }

  lemma {:induction false} FirstPieceUntouched(b: Board, mv: Move, j: int)
    requires IsValidCoord(mv.fromRow, mv.fromCol) && IsValidCoord(mv.toRow, mv.toCol) && IsDiagonalLeg(mv)
    requires 1 <= j < LegLength(mv)
    ensures FirstPieceBetween(MovePiece(b, mv), mv, j) <==> FirstPieceBetween(b, mv, j)
  {
    var moved := MovePiece(b, mv);
    var d := LegDir(mv);
    forall k | 1 <= k <= j
      ensures EmptyStep(moved, mv.fromRow, mv.fromCol, d, k) <==> EmptyStep(b, mv.fromRow, mv.fromCol, d, k)
      ensures OccupiedStep(moved, mv.fromRow, mv.fromCol, d, k) <==> OccupiedStep(b, mv.fromRow, mv.fromCol, d, k)
    {
      InnerStepUntouched(b, mv, k);
    }
  }

  lemma RelocationEnds(b: Board, mv: Move)
    requires IsValidCoord(mv.fromRow, mv.fromCol) && IsValidCoord(mv.toRow, mv.toCol) && IsDiagonalLeg(mv)
    ensures var cleared := RelocateAndCapture(b, mv).0;
            Get(cleared, mv.fromRow, mv.fromCol) == Empty && Get(cleared, mv.toRow, mv.toCol) == Get(b, mv.fromRow, mv.fromCol)
  {
    LegGeometry(mv);
    var jumped := RelocateAndCapture(b, mv).1;
    if mv.isCapture && jumped.Some? {
      InnerStepUntouched(b, mv, jumped.value);
    }
  }

  /** The ends of a leg: the source is emptied and the destination holds the moved
      piece, crowned if it is a man that reached its promotion row. */
  lemma PlayLegEnds(b: Board, mv: Move)
    requires IsValidCoord(mv.fromRow, mv.fromCol) && IsValidCoord(mv.toRow, mv.toCol) && IsDiagonalLeg(mv)
    ensures var e := PlayLeg(b, mv);
            var piece := Get(b, mv.fromRow, mv.fromCol);
            && Get(e.board, mv.fromRow, mv.fromCol) == Empty
            && Get(e.board, mv.toRow, mv.toCol) == Crowned(piece, mv.toRow)
            && (e.promoted <==> Crowned(piece, mv.toRow) != piece)
  {
    RelocationEnds(b, mv);
    LegGeometry(mv);
  }

  /** A non-capturing leg touches its two ends only. */
  lemma PlayLegQuiet(b: Board, mv: Move)
    requires IsValidCoord(mv.fromRow, mv.fromCol) && IsValidCoord(mv.toRow, mv.toCol) && IsDiagonalLeg(mv)
    requires !mv.isCapture
    ensures var e := PlayLeg(b, mv);
            e.captured.None? && SameExcept(b, e.board, {Cell(mv.fromRow, mv.fromCol), Cell(mv.toRow, mv.toCol)})
  {
    var piece := Get(b, mv.fromRow, mv.fromCol);
    var moved := MovePiece(b, mv);
    assert RelocateAndCapture(b, mv) == (moved, None);
    var (crowned, promoted) := Promote(moved, piece, mv.toRow, mv.toCol);
    assert PlayLeg(b, mv) == LegEffect(crowned, None, promoted);
  }

  lemma RelocationCapture(b: Board, mv: Move)
    requires IsValidCoord(mv.fromRow, mv.fromCol) && IsValidCoord(mv.toRow, mv.toCol) && IsDiagonalLeg(mv)
    requires mv.isCapture
    ensures var (cleared, jumped) := RelocateAndCapture(b, mv);
            && (jumped.None? ==>
                  (forall j :: !FirstPieceBetween(b, mv, j))
                  && SameExcept(b, cleared, {Cell(mv.fromRow, mv.fromCol), Cell(mv.toRow, mv.toCol)}))
            && (jumped.Some? ==>
                  var s := StepCell(mv, jumped.value);
                  FirstPieceBetween(b, mv, jumped.value) && (s.row != mv.toRow || s.col != mv.toCol)
                  && Get(cleared, s.row, s.col) == Empty
                  && SameExcept(b, cleared, {Cell(mv.fromRow, mv.fromCol), Cell(mv.toRow, mv.toCol), s}))
  {
    if RelocateAndCapture(b, mv).1.None? {
      WalkFindsNothing(b, mv);
    } else {
      WalkFindsPiece(b, mv);
    }
  }

  /** A capture walk that meets no piece: there is none between the ends. */
  lemma WalkFindsNothing(b: Board, mv: Move)
    requires IsValidCoord(mv.fromRow, mv.fromCol) && IsValidCoord(mv.toRow, mv.toCol) && IsDiagonalLeg(mv)
    requires mv.isCapture && RelocateAndCapture(b, mv).1.None?
    ensures forall j :: !FirstPieceBetween(b, mv, j)
    ensures SameExcept(b, RelocateAndCapture(b, mv).0, {Cell(mv.fromRow, mv.fromCol), Cell(mv.toRow, mv.toCol)})
  {
    LegGeometry(mv);
    var moved := MovePiece(b, mv);
    assert RelocateAndCapture(b, mv) == ClearJumped(moved, mv.fromRow, mv.fromCol, LegDir(mv), 1, LegLength(mv));
    forall j | 1 <= j < LegLength(mv)
      ensures !FirstPieceBetween(b, mv, j)
    {
      NoPieceOnClearLeg(b, mv, j);
    }
  }

  /** When the relocated board is clear strictly between the ends, so was the board before. */
  lemma NoPieceOnClearLeg(b: Board, mv: Move, j: int)
    requires IsValidCoord(mv.fromRow, mv.fromCol) && IsValidCoord(mv.toRow, mv.toCol) && IsDiagonalLeg(mv)
    requires 1 <= j < LegLength(mv)
    requires ClearRun(MovePiece(b, mv), mv.fromRow, mv.fromCol, LegDir(mv), 1, LegLength(mv) - 1)
    ensures !FirstPieceBetween(b, mv, j)
  {
    FirstPieceUntouched(b, mv, j);
    assert EmptyStep(MovePiece(b, mv), mv.fromRow, mv.fromCol, LegDir(mv), j);
  }

  /** A capture walk that meets a piece: it is the first one between the ends, and
      only it and the two ends change. */
  lemma WalkFindsPiece(b: Board, mv: Move)
    requires IsValidCoord(mv.fromRow, mv.fromCol) && IsValidCoord(mv.toRow, mv.toCol) && IsDiagonalLeg(mv)
    requires mv.isCapture && RelocateAndCapture(b, mv).1.Some?
    ensures var (cleared, jumped) := RelocateAndCapture(b, mv);
            var s := StepCell(mv, jumped.value);
            FirstPieceBetween(b, mv, jumped.value) && (s.row != mv.toRow || s.col != mv.toCol)
            && Get(cleared, s.row, s.col) == Empty
            && SameExcept(b, cleared, {Cell(mv.fromRow, mv.fromCol), Cell(mv.toRow, mv.toCol), s})
  {
    LegGeometry(mv);
    var moved := MovePiece(b, mv);
    assert RelocateAndCapture(b, mv) == ClearJumped(moved, mv.fromRow, mv.fromCol, LegDir(mv), 1, LegLength(mv));
    var j := RelocateAndCapture(b, mv).1.value;
    FirstPieceUntouched(b, mv, j);
    InnerStepUntouched(b, mv, j);
  }

  /** A capturing leg removes the first piece strictly between its ends and reports
      its cell; if the line holds no piece, nothing beyond the two ends changes. */
  lemma PlayLegCapture(b: Board, mv: Move)
    requires IsValidCoord(mv.fromRow, mv.fromCol) && IsValidCoord(mv.toRow, mv.toCol) && IsDiagonalLeg(mv)
    requires mv.isCapture
    ensures var e := PlayLeg(b, mv);
            && (e.captured.None? ==>
                  (forall j :: !FirstPieceBetween(b, mv, j))
                  && SameExcept(b, e.board, {Cell(mv.fromRow, mv.fromCol), Cell(mv.toRow, mv.toCol)}))
            && (e.captured.Some? ==>
                  (exists j :: FirstPieceBetween(b, mv, j) && e.captured.value == StepCell(mv, j))
                  && Get(e.board, e.captured.value.row, e.captured.value.col) == Empty
                  && SameExcept(b, e.board, {Cell(mv.fromRow, mv.fromCol), Cell(mv.toRow, mv.toCol), e.captured.value}))
  {
    RelocationCapture(b, mv);
    var jumped := RelocateAndCapture(b, mv).1;
    if jumped.Some? {
      assert PlayLeg(b, mv).captured == Some(StepCell(mv, jumped.value));
    }
  }

  /** A leg of k steps along d has direction d and length k. */
  lemma LegOfSteps(r: int, c: int, d: Dir, k: int, capture: bool)
    requires k >= 1
    ensures var mv := Move(r, c, Step(r, d.dr, k), Step(c, d.dc, k), capture);
            IsDiagonalLeg(mv) && LegDir(mv) == d && LegLength(mv) == k
  {
  }

  /** A man's jump passes over the adjacent piece, which has the other colour. */
  lemma ManCaptureJumpsPiece(b: Board, r: int, c: int, mv: Move)
    requires IsValidCoord(r, c) && IsMan(Get(b, r, c)) && mv in FindCaptures(b, r, c)
    ensures FirstPieceBetween(b, mv, 1)
    ensures var s := StepCell(mv, 1); DerivedColour(Get(b, s.row, s.col)) != DerivedColour(Get(b, r, c))
  {
    ManCapturesExact(b, r, c, mv);
    var d :| ManJump(b, r, c, d) && mv == Move(r, c, Step(r, d.dr, 2), Step(c, d.dc, 2), true);
    ManJumpPassesPiece(b, r, c, d);
  }

  lemma ManJumpPassesPiece(b: Board, r: int, c: int, d: Dir)
    requires IsValidCoord(r, c) && ManJump(b, r, c, d)
    ensures var mv := Move(r, c, Step(r, d.dr, 2), Step(c, d.dc, 2), true);
            FirstPieceBetween(b, mv, 1) && StepCell(mv, 1) == Cell(Step(r, d.dr, 1), Step(c, d.dc, 1))
            && DerivedColour(Get(b, Step(r, d.dr, 1), Step(c, d.dc, 1))) != DerivedColour(Get(b, r, c))
  {
    var mv := Move(r, c, Step(r, d.dr, 2), Step(c, d.dc, 2), true);
    LegOfSteps(r, c, d, 2, true);
    assert LegDir(mv) == d && LegLength(mv) == 2;
  }

  /** A king's jump passes over the first piece on its line, and that piece is black
      whatever the king's own colour. */
  lemma KingCaptureJumpsPiece(b: Board, r: int, c: int, mv: Move)
    requires IsValidCoord(r, c) && IsKing(Get(b, r, c)) && mv in FindCaptures(b, r, c)
    ensures exists j :: FirstPieceBetween(b, mv, j) &&
              var s := StepCell(mv, j); Owns(Get(b, s.row, s.col), Black)
  {
    KingCapturesExact(b, r, c, mv);
    var d, j, k :| KingJump(b, r, c, d, j, k) && mv == Move(r, c, Step(r, d.dr, k), Step(c, d.dc, k), true);
    KingJumpPassesBlackPiece(b, r, c, d, j, k);
  }

  lemma KingJumpPassesBlackPiece(b: Board, r: int, c: int, d: Dir, j: int, k: int)
    requires IsValidCoord(r, c) && IsKing(Get(b, r, c)) && KingJump(b, r, c, d, j, k)
    ensures var mv := Move(r, c, Step(r, d.dr, k), Step(c, d.dc, k), true);
            FirstPieceBetween(b, mv, j) && StepCell(mv, j) == Cell(Step(r, d.dr, j), Step(c, d.dc, j))
            && Owns(Get(b, Step(r, d.dr, j), Step(c, d.dc, j)), Black)
  {
    var mv := Move(r, c, Step(r, d.dr, k), Step(c, d.dc, k), true);
    LegOfSteps(r, c, d, k, true);
    assert LegDir(mv) == d && LegLength(mv) == k;
  }

  /** What playing the leg mv on b does, e being the reported effect: the source
      is emptied; the destination receives the moved piece, crowned if it is a man
      reaching its promotion row; a non-capturing leg changes nothing else; a
      capturing leg also removes and reports the first piece strictly between its
      ends, and changes nothing else. */
  ghost predicate LegOutcome(b: Board, mv: Move, e: LegEffect)
    requires IsValidCoord(mv.fromRow, mv.fromCol) && IsValidCoord(mv.toRow, mv.toCol)
  {
    var piece := Get(b, mv.fromRow, mv.fromCol);
    && Get(e.board, mv.fromRow, mv.fromCol) == Empty
    && Get(e.board, mv.toRow, mv.toCol) == Crowned(piece, mv.toRow)
    && (e.promoted <==> Crowned(piece, mv.toRow) != piece)
    && (!mv.isCapture ==> e.captured.None? && SameExcept(b, e.board, {Cell(mv.fromRow, mv.fromCol), Cell(mv.toRow, mv.toCol)}))
    && (mv.isCapture ==>
          e.captured.Some?
          && (exists j :: FirstPieceBetween(b, mv, j) && e.captured.value == StepCell(mv, j))
          && IsValidCoord(e.captured.value.row, e.captured.value.col)
          && Get(e.board, e.captured.value.row, e.captured.value.col) == Empty
          && SameExcept(b, e.board, {Cell(mv.fromRow, mv.fromCol), Cell(mv.toRow, mv.toCol), e.captured.value}))
  }

  /** What an accepted move does: it moves a piece of the side to move, and its
      outcome is that of the requested leg with the capture flag the mandatory-capture
      rule sets, whatever flag the caller gave. */
  lemma AcceptedMoveEffects(g: GameState, m: Move)
    requires IsValidCoord(m.fromRow, m.fromCol) && MakeMove(g, m).accepted
    ensures IsValidCoord(m.toRow, m.toCol) && Owns(Get(g.board, m.fromRow, m.fromCol), g.current)
    ensures var res := MakeMove(g, m);
            var mv := Move(m.fromRow, m.fromCol, m.toRow, m.toCol, CanPlayerCapture(g.board, g.current));
            LegOutcome(g.board, mv, LegEffect(res.game.board, res.captured, res.promoted))
  {
    var mv := AcceptedLeg(g, m);
    LegalLegEffects(g, mv);
  }

  /** An accepted move plays the matching legal leg, which carries the mandatory-capture flag. */
  lemma AcceptedLeg(g: GameState, m: Move) returns (mv: Move)
    requires IsValidCoord(m.fromRow, m.fromCol) && MakeMove(g, m).accepted
    ensures mv == Move(m.fromRow, m.fromCol, m.toRow, m.toCol, CanPlayerCapture(g.board, g.current))
    ensures mv in GetValidMoves(g.board, g.current, m.fromRow, m.fromCol)
    ensures IsValidCoord(mv.toRow, mv.toCol) && IsDiagonalLeg(mv)
    ensures MakeMove(g, m) == ApplyLeg(g, mv)
  {
    mv := MatchedLeg(g, m).value;
    LegalLegShape(g.board, g.current, m.fromRow, m.fromCol, mv);
  }

  /** AcceptedMoveEffects for a leg already known to be legal. */
  lemma LegalLegEffects(g: GameState, mv: Move)
    requires IsValidCoord(mv.fromRow, mv.fromCol) && mv in GetValidMoves(g.board, g.current, mv.fromRow, mv.fromCol)
    ensures IsValidCoord(mv.toRow, mv.toCol) && IsDiagonalLeg(mv) && Owns(Get(g.board, mv.fromRow, mv.fromCol), g.current)
    ensures var res := ApplyLeg(g, mv);
            LegOutcome(g.board, mv, LegEffect(res.game.board, res.captured, res.promoted))
  {
    var b := g.board;
    LegalLegShape(b, g.current, mv.fromRow, mv.fromCol, mv);
    if mv.isCapture {
      JumpPassesPiece(b, mv);
    }
    LegEffects(b, mv);
    var res := ApplyLeg(g, mv);
    assert LegEffect(res.game.board, res.captured, res.promoted) == PlayLeg(b, mv);
  }

  /** AcceptedMoveEffects for a diagonal leg on the board, stated on the effect of playing it. */
  lemma LegEffects(b: Board, mv: Move)
    requires IsValidCoord(mv.fromRow, mv.fromCol) && IsValidCoord(mv.toRow, mv.toCol) && IsDiagonalLeg(mv)
    requires mv.isCapture ==> exists j :: FirstPieceBetween(b, mv, j)
    ensures LegOutcome(b, mv, PlayLeg(b, mv))
  {
    PlayLegEnds(b, mv);
    if mv.isCapture {
      var j :| FirstPieceBetween(b, mv, j);
      CapturingLegEffects(b, mv, j);
    } else {
      PlayLegQuiet(b, mv);
    }
  }

  /** A legal leg moves a piece of the player to move along a diagonal onto the
      board; when it is a capture it is one of that piece's jumps. */
  lemma LegalLegShape(b: Board, pl: Player, r: int, c: int, mv: Move)
    requires IsValidCoord(r, c) && mv in GetValidMoves(b, pl, r, c)
    ensures Owns(Get(b, r, c), pl) && mv.fromRow == r && mv.fromCol == c
    ensures IsValidCoord(mv.toRow, mv.toCol) && IsDiagonalLeg(mv)
    ensures mv.isCapture ==> mv in FindCaptures(b, r, c)
  {
  }

  /** A jump found by the search passes over a piece strictly between its ends. */
  lemma JumpPassesPiece(b: Board, mv: Move)
    requires IsValidCoord(mv.fromRow, mv.fromCol) && mv in FindCaptures(b, mv.fromRow, mv.fromCol)
    ensures exists j :: FirstPieceBetween(b, mv, j)
  {
    if IsMan(Get(b, mv.fromRow, mv.fromCol)) {
      ManCaptureJumpsPiece(b, mv.fromRow, mv.fromCol, mv);
    } else {
      KingCaptureJumpsPiece(b, mv.fromRow, mv.fromCol, mv);
    }
  }

  /** A capturing leg over a piece removes that piece and reports its cell. */
  lemma CapturingLegEffects(b: Board, mv: Move, j: int)
    requires IsValidCoord(mv.fromRow, mv.fromCol) && IsValidCoord(mv.toRow, mv.toCol) && IsDiagonalLeg(mv)
    requires mv.isCapture && FirstPieceBetween(b, mv, j)
    ensures var e := PlayLeg(b, mv);
            && e.captured.Some?
            && (exists j :: FirstPieceBetween(b, mv, j) && e.captured.value == StepCell(mv, j))
            && IsValidCoord(e.captured.value.row, e.captured.value.col)
            && Get(e.board, e.captured.value.row, e.captured.value.col) == Empty
            && SameExcept(b, e.board, {Cell(mv.fromRow, mv.fromCol), Cell(mv.toRow, mv.toCol), e.captured.value})
  {
    PlayLegCapture(b, mv);
    assert PlayLeg(b, mv).captured.Some?;
  }

  /** The piece on (r, c) can jump again, by the rules' definition of a jump. */
  ghost predicate CanJumpAgain(b: Board, r: int, c: int) {
    IsValidCoord(r, c) && exists m :: CaptureTo(b, r, c, m)
  }

  /** Reference definition of one legal leg: it starts on a piece of the player to
      move and is one of that piece's jumps if the player can jump anywhere, or
      else one of its non-capturing legs. */
  ghost predicate RuleLeg(b: Board, pl: Player, r: int, c: int, m: Move) {
    IsValidCoord(r, c) && Owns(Get(b, r, c), pl)
    && (if PlayerHasJump(b, pl) then CaptureTo(b, r, c, m) else SimpleTo(b, pl, r, c, m))
  }

  /** Reference definition of "the player to move has some legal leg". */
  ghost predicate HasLegalLeg(b: Board, pl: Player) {
    exists r, c, m :: RuleLeg(b, pl, r, c, m)
  }

  lemma PlayerCanMoveMatchesRules(b: Board, pl: Player)
    ensures PlayerCanMove(b, pl) <==> HasLegalLeg(b, pl)
  {
    if PlayerCanMove(b, pl) {
      SearchedLegIsRuleLeg(b, pl);
    }
    if HasLegalLeg(b, pl) {
      RuleLegIsSearched(b, pl);
    }
  }

  lemma SearchedLegIsRuleLeg(b: Board, pl: Player)
    requires PlayerCanMove(b, pl)
    ensures HasLegalLeg(b, pl)
  {
    var r, c, m :| IsValidCoord(r, c) && m in GetValidMoves(b, pl, r, c);
    LegalLegIsRuleLeg(b, pl, r, c, m);
  }

  lemma RuleLegIsSearched(b: Board, pl: Player)
    requires HasLegalLeg(b, pl)
    ensures PlayerCanMove(b, pl)
  {
    var r, c, m :| RuleLeg(b, pl, r, c, m);
    RuleLegIsLegal(b, pl, r, c, m);
  }

  lemma RuleLegIsLegal(b: Board, pl: Player, r: int, c: int, m: Move)
    requires RuleLeg(b, pl, r, c, m)
    ensures PlayerCanMove(b, pl)
  {
    ValidMovesAreExactlyLegal(b, pl, r, c, m);
    assert m in GetValidMoves(b, pl, r, c);
  }

  lemma LegalLegIsRuleLeg(b: Board, pl: Player, r: int, c: int, m: Move)
    requires IsValidCoord(r, c) && m in GetValidMoves(b, pl, r, c)
    ensures HasLegalLeg(b, pl)
  {
    LegalLegFollowsRules(b, pl, r, c, m);
    RuleLegWitness(b, pl, r, c, m);
  }

  lemma LegalLegFollowsRules(b: Board, pl: Player, r: int, c: int, m: Move)
    requires IsValidCoord(r, c) && m in GetValidMoves(b, pl, r, c)
    ensures RuleLeg(b, pl, r, c, m)
  {
    ValidMovesAreExactlyLegal(b, pl, r, c, m);
  }

  lemma RuleLegWitness(b: Board, pl: Player, r: int, c: int, m: Move)
    requires RuleLeg(b, pl, r, c, m)
    ensures HasLegalLeg(b, pl)
  {
  }

  lemma CanJumpAgainMatchesSearch(b: Board, r: int, c: int)
    requires IsValidCoord(r, c)
    ensures CanJumpAgain(b, r, c) <==> FindCaptures(b, r, c) != []
  {
    var ms := FindCaptures(b, r, c);
    if ms != [] {
      CapturesAreExactlyJumps(b, r, c, ms[0]);
      assert CaptureTo(b, r, c, ms[0]);
    }
    if m :| CaptureTo(b, r, c, m) {
      CapturesAreExactlyJumps(b, r, c, m);
      assert m in ms;
    }
  }

  /** Who moves next and whether the game ended, when the game before the leg was g
      and `again` says whether the leg was a capture from which the moved piece can
      jump again. If so, the same side moves again and the end-of-game check is
      skipped. Otherwise the turn passes and, for the side now to move: no white
      pieces makes Black the winner, else no black pieces makes White the winner, else
      having no legal leg loses; if none of these holds the game-over flag and winner
      are left as they were. */
  ghost predicate TurnRule(g: GameState, again: bool, g': GameState) {
    var b' := g'.board;
    var next := Other(g.current);
    && (again ==> g' == g.(board := b'))
    && (!again ==> g'.current == next)
    && (!again && NoPieces(b', White) ==> g'.gameOver && g'.winner == Some(Black))
    && (!again && !NoPieces(b', White) && NoPieces(b', Black) ==> g'.gameOver && g'.winner == Some(White))
    && (!again && !NoPieces(b', White) && !NoPieces(b', Black) && !HasLegalLeg(b', next) ==>
          g'.gameOver && g'.winner == Some(g.current))
    && (!again && !NoPieces(b', White) && !NoPieces(b', Black) && HasLegalLeg(b', next) ==>
          g'.gameOver == g.gameOver && g'.winner == g.winner)
  }

  /** The turn rule for an accepted move: the piece can jump again exactly when capture
      was mandatory and the piece on the destination has a jump. */
  lemma TurnAfterAcceptedMove(g: GameState, m: Move)
    requires IsValidCoord(m.fromRow, m.fromCol) && MakeMove(g, m).accepted
    ensures var g' := MakeMove(g, m).game;
            TurnRule(g, CanPlayerCapture(g.board, g.current) && CanJumpAgain(g'.board, m.toRow, m.toCol), g')
  {
    var mv := AcceptedLeg(g, m);
    LegTurn(g, mv);
  }

  /** TurnAfterAcceptedMove for one leg already known to be legal. */
  lemma LegTurn(g: GameState, mv: Move)
    requires IsValidCoord(mv.fromRow, mv.fromCol) && IsValidCoord(mv.toRow, mv.toCol) && IsDiagonalLeg(mv)
    ensures var g' := ApplyLeg(g, mv).game;
            TurnRule(g, mv.isCapture && CanJumpAgain(g'.board, mv.toRow, mv.toCol), g')
  {
    var b' := PlayLeg(g.board, mv).board;
    CanJumpAgainMatchesSearch(b', mv.toRow, mv.toCol);
    if mv.isCapture && FindCaptures(b', mv.toRow, mv.toCol) != [] {
      assert ApplyLeg(g, mv).game == g.(board := b');
    } else {
      var g1 := SwitchPlayer(g.(board := b'));
      assert ApplyLeg(g, mv).game == EvaluateEnd(g1);
      assert g1.current == Other(g.current);
      EndByRules(g1);
      OtherIsInvolution(g.current);
    }
  }

  /** The end-of-turn check against the reference definition of a legal leg. */
  lemma EndByRules(g: GameState)
    ensures var g' := EvaluateEnd(g);
            var b := g.board;
            && g'.board == b && g'.current == g.current
            && (NoPieces(b, White) ==> g'.gameOver && g'.winner == Some(Black))
            && (!NoPieces(b, White) && NoPieces(b, Black) ==> g'.gameOver && g'.winner == Some(White))
            && (!NoPieces(b, White) && !NoPieces(b, Black) && !HasLegalLeg(b, g.current) ==>
                  g'.gameOver && g'.winner == Some(Other(g.current)))
            && (!NoPieces(b, White) && !NoPieces(b, Black) && HasLegalLeg(b, g.current) ==> g' == g)
  {
    PlayerCanMoveMatchesRules(g.board, g.current);
  }

  /** The caller's capture flag is ignored: the flag of the matching legal leg is used. */
  lemma CaptureFlagIgnored(g: GameState, m: Move)
    requires IsValidCoord(m.fromRow, m.fromCol)
    ensures MakeMove(g, m) == MakeMove(g, m.(isCapture := !m.isCapture))
  {
    assert MatchedLeg(g, m) == MatchedLeg(g, m.(isCapture := !m.isCapture));
  }

  /** The winner is recorded exactly when the game is over. */
  ghost predicate WinnerRecorded(g: GameState) {
    g.gameOver <==> g.winner.Some?
  }

  /** Every move keeps the invariant, and a finished game stays finished (though
      moves are still accepted). A new game meets it: not over, no winner. */
  lemma MakeMoveKeepsWinnerRecorded(g: GameState, m: Move)
    requires IsValidCoord(m.fromRow, m.fromCol) && WinnerRecorded(g)
    ensures WinnerRecorded(MakeMove(g, m).game)
    ensures g.gameOver ==> MakeMove(g, m).game.gameOver
  {
    match MatchedLeg(g, m)
    case None =>
    case Some(mv) =>
      assert MakeMove(g, m) == ApplyLeg(g, mv);
      var b' := PlayLeg(g.board, mv).board;
      if mv.isCapture && FindCaptures(b', mv.toRow, mv.toCol) != [] {
        assert ApplyLeg(g, mv).game == g.(board := b');
      } else {
        var g1 := SwitchPlayer(g.(board := b'));
        assert ApplyLeg(g, mv).game == EvaluateEnd(g1);
        EndKeepsWinnerRecorded(g1);
      }
  }

  lemma EndKeepsWinnerRecorded(g: GameState)
    requires WinnerRecorded(g)
    ensures WinnerRecorded(EvaluateEnd(g))
    ensures g.gameOver ==> EvaluateEnd(g).gameOver
  {
  }
}
