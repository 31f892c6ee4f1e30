/** The first move of a game, played through the contracts of the engine: White's
    man on (5, 0) steps to (4, 1). The caller marks it as a capture; the flag is
    ignored because no white piece can jump in the opening position. */
module Opening {
  import opened Pieces
  import opened Boards
  import opened Legality
  import opened Turns
  import opened TurnProperties

  /** The opening layout: black men on the dark cells of rows 0-2, white men on the
      dark cells of rows 5-7, every other cell empty. */
  ghost predicate OpeningLayout(b: Board) {
    forall r, c {:trigger Get(b, r, c)} :: IsValidCoord(r, c) ==>
      Get(b, r, c) == (if r < 3 && IsDark(r, c) then BlackMan
                       else if 5 <= r && IsDark(r, c) then WhiteMan
                       else Empty)
  }

  /** No white piece can jump in the opening layout: every white piece is a man on
      rows 5-7, and the cells next to it are empty or hold white men. */
  lemma OpeningHasNoWhiteJump(b: Board)
    requires OpeningLayout(b)
    ensures !PlayerHasJump(b, White)
  {
    forall r, c, m | IsValidCoord(r, c) && Owns(Get(b, r, c), White)
      ensures !CaptureTo(b, r, c, m)
    {
      assert Get(b, r, c) == WhiteMan && 5 <= r;
      forall d: Dir
        ensures !ManJump(b, r, c, d)
      {
        var r1, c1 := Step(r, d.dr, 1), Step(c, d.dc, 1);
        if IsValidCoord(r1, c1) {
          assert Get(b, r1, c1) == Empty || Get(b, r1, c1) == WhiteMan;
        }
      }
    }
  }

  /** The step from (5, 0) to (4, 1) is a legal leg of White's in the opening layout,
      and White has no jump there. */
  lemma OpeningStepIsLegal(b: Board)
    requires OpeningLayout(b)
    ensures !CanPlayerCapture(b, White)
    ensures Move(5, 0, 4, 1, false) in GetValidMoves(b, White, 5, 0)
  {
    var leg := Move(5, 0, 4, 1, false);
    OpeningHasNoWhiteJump(b);
    CanPlayerCaptureMatchesRules(b, White);
    assert Get(b, 5, 0) == WhiteMan && Get(b, 4, 1) == Empty;
    assert EmptyStep(b, 5, 0, NE, 1);
    assert ManStepTo(b, White, 5, 0, leg);
    ValidMovesAreExactlyLegal(b, White, 5, 0, leg);
  }

  /** From the opening layout with White to move, the step from (5, 0) to (4, 1), even
      flagged as a capture, is accepted, relocates the man without capturing or
      crowning, changes no other cell and hands the turn to Black. */
  lemma OpeningMoveFrom(g: GameState)
    requires g.current == White && OpeningLayout(g.board)
    ensures var res := MakeMove(g, Move(5, 0, 4, 1, true));
            && res.accepted && res.captured == None && !res.promoted
            && res.game.current == Black
            && Get(res.game.board, 5, 0) == Empty && Get(res.game.board, 4, 1) == WhiteMan
            && SameExcept(g.board, res.game.board, {Cell(5, 0), Cell(4, 1)})
  {
    var m := Move(5, 0, 4, 1, true);
    OpeningStepIsLegal(g.board);
    assert MakeMove(g, m).accepted;
    AcceptedMoveEffects(g, m);
    assert Crowned(WhiteMan, 4) == WhiteMan;
    TurnAfterAcceptedMove(g, m);
  }

  /** A new game starts in the opening layout with White to move, so its first move
      may be the step from (5, 0) to (4, 1). */
  lemma OpeningMove()
    ensures var res := MakeMove(NewGame(), Move(5, 0, 4, 1, true));
            res.accepted && res.captured == None && res.game.current == Black
            && Get(res.game.board, 5, 0) == Empty && Get(res.game.board, 4, 1) == WhiteMan
  {
    OpeningMoveFrom(NewGame());
  }
}
