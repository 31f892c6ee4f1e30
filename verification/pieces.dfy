/** Cell contents, player colours and single-leg moves of the checkers engine. */
module Pieces {

  /** Conventional optional value; used for the winner, which is meaningful only once the game is over. */
  datatype Option<+T> = None | Some(value: T)

  /** The five kinds of cell content. */
  datatype Piece = Empty | WhiteMan | BlackMan | WhiteKing | BlackKing

  /** The two sides; White moves first. */
  datatype Player = White | Black

  /** One leg of play: a source cell, a destination cell and whether the leg jumps a piece.
      A multi-jump is a series of such legs, each applied on its own. */
  datatype Move = Move(fromRow: int, fromCol: int, toRow: int, toCol: int, isCapture: bool)

  /** A board cell, as reported for a captured piece. */
  datatype Cell = Cell(row: int, col: int)

  predicate IsMan(p: Piece) {
    p == WhiteMan || p == BlackMan
  }

  predicate IsKing(p: Piece) {
    p == WhiteKing || p == BlackKing
  }

  /** The colour the engine derives from a cell's content. Anything that is not a
      white man or a white king counts as black, so an empty cell reads as black;
      callers that care test for emptiness first. */
  function DerivedColour(p: Piece): (pl: Player)
    ensures pl == White <==> p in {WhiteMan, WhiteKing}
  {
    if p == WhiteMan || p == WhiteKing then White else Black
  }

  /** The piece on a cell belongs to the given player. */
  predicate Owns(p: Piece, pl: Player) {
    p != Empty && DerivedColour(p) == pl
  }

  /** The colour the king-capture search assigns to the moving king: the
      expression tests for either king kind, so every king is taken to be white:
      right for a white king, wrong for a black one. */
  function KingColourAsWritten(p: Piece): (pl: Player)
    ensures p == WhiteKing ==> pl == DerivedColour(p)
    ensures p == BlackKing ==> pl != DerivedColour(p)
  {
    if p == WhiteKing || p == BlackKing then White else Black
  }

  function Other(pl: Player): (q: Player)
    ensures q != pl
  {
    if pl == White then Black else White
  }

  lemma OtherIsInvolution(pl: Player)
    ensures Other(Other(pl)) == pl
  {
  }

  lemma OwnershipIsExclusive(p: Piece)
    ensures p == Empty <==> !Owns(p, White) && !Owns(p, Black)
    ensures !(Owns(p, White) && Owns(p, Black))
    ensures Owns(p, White) <==> p == WhiteMan || p == WhiteKing
    ensures Owns(p, Black) <==> p == BlackMan || p == BlackKing
  {
  }
}
