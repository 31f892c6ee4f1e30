/** The 8x8 board container: bounds-checked access and raw relocation, no game rules. */
module Boards {
  import opened Pieces

  predicate IsGrid(g: seq<seq<Piece>>) {
    |g| == 8 && forall i :: 0 <= i < 8 ==> |g[i]| == 8
  }

  /** A board is eight rows of eight cells. */
  type Board = g: seq<seq<Piece>> | IsGrid(g) witness seq(8, _ => seq(8, _ => Empty))

  /** Whether (row, col) names a cell; it depends on no board. */
  predicate IsValidCoord(row: int, col: int) {
    0 <= row < 8 && 0 <= col < 8
  }

  /** Row-major order of a scan over the board: (rr, cc) is not yet visited by a
      scan whose next cell is (r, c). */
  predicate AtOrAfter(rr: int, cc: int, r: int, c: int) {
    rr > r || (rr == r && cc >= c)
  }

  /** Whether (row, col) holds one of the dark cells, where (row + col) is odd. */
  predicate IsDark(row: int, col: int) {
    (row + col) % 2 != 0
  }

  /** The board a fresh container holds: every cell empty. */
  function NewBoard(): (b: Board)
    ensures forall r, c {:trigger Get(b, r, c)} :: IsValidCoord(r, c) ==> Get(b, r, c) == Empty
  {
    seq(8, _ => seq(8, _ => Empty))
  }

  function Get(b: Board, row: int, col: int): Piece
    requires IsValidCoord(row, col)
  {
    b[row][col]
  }

  /** The coordinate test accepts exactly the indices of a board's cells, so it is
      the guard under which reading a cell is defined. */
  lemma ValidCoordIsBoardIndex(b: Board, row: int, col: int)
    ensures IsValidCoord(row, col) <==> 0 <= row < |b| && 0 <= col < |b[row]|
  {
  }

  /** Reading the 64 cells observes the whole board: boards that agree on every
      cell are the same board. */
  lemma {:induction false} CellsDetermineBoard(b: Board, b': Board)
    requires forall r, c {:trigger Get(b', r, c)} :: IsValidCoord(r, c) ==> Get(b', r, c) == Get(b, r, c)
    ensures b' == b
  {
    forall r | 0 <= r < 8
      ensures b'[r] == b[r]
    {
      forall c | 0 <= c < 8
        ensures b'[r][c] == b[r][c]
      {
        assert Get(b', r, c) == Get(b, r, c);
      }
    }
  }

  /** Overwrites one cell; every other cell keeps its content. */
  function Set(b: Board, row: int, col: int, p: Piece): (b': Board)
    requires IsValidCoord(row, col)
    ensures Get(b', row, col) == p
    ensures forall r, c {:trigger Get(b', r, c)} :: IsValidCoord(r, c) && (r != row || c != col) ==> Get(b', r, c) == Get(b, r, c)
  {
    b[row := b[row][col := p]]
  }

  /** Relocates the content of the source cell to the destination and empties the
      source. With source and destination equal, the cell ends up empty. */
  function MovePiece(b: Board, m: Move): (b': Board)
    requires IsValidCoord(m.fromRow, m.fromCol) && IsValidCoord(m.toRow, m.toCol)
    ensures Get(b', m.fromRow, m.fromCol) == Empty
    ensures (m.toRow != m.fromRow || m.toCol != m.fromCol) ==> Get(b', m.toRow, m.toCol) == Get(b, m.fromRow, m.fromCol)
    ensures forall r, c {:trigger Get(b', r, c)} :: IsValidCoord(r, c) && (r != m.fromRow || c != m.fromCol) && (r != m.toRow || c != m.toCol)
              ==> Get(b', r, c) == Get(b, r, c)
  {
    var piece := Get(b, m.fromRow, m.fromCol);
    var b1 := Set(b, m.toRow, m.toCol, piece);
    Set(b1, m.fromRow, m.fromCol, Empty)
  }

  /** Puts piece p on every dark cell of rows i..hi-1 still ahead of the row-major
      position (i, j); every other cell is left as it was. */
  function FillDark(b: Board, i: int, j: int, hi: int, p: Piece): (b': Board)
    requires 0 <= i <= hi <= 8 && 0 <= j <= 8
    decreases hi - i, 8 - j
    ensures forall r, c {:trigger Get(b', r, c)} :: IsValidCoord(r, c) ==>
              Get(b', r, c) == (if r < hi && AtOrAfter(r, c, i, j) && IsDark(r, c) then p else Get(b, r, c))
  {
    if i == hi then b
    else if j == 8 then FillDark(b, i + 1, 0, hi, p)
    else FillDark(if IsDark(i, j) then Set(b, i, j, p) else b, i, j + 1, hi, p)
  }

  /** Lays out the opening: black men on the dark cells of rows 0-2, white men on the
      dark cells of rows 5-7; the cells of rows 3-4 and the light cells keep their content. */
  function Initialize(b: Board): (b': Board)
    ensures forall r, c {:trigger Get(b', r, c)} :: IsValidCoord(r, c) ==>
              Get(b', r, c) == (if r < 3 && IsDark(r, c) then BlackMan
                                else if 5 <= r && IsDark(r, c) then WhiteMan
                                else Get(b, r, c))
  {
    var b1 := FillDark(b, 0, 0, 3, BlackMan);
    FillDark(b1, 5, 0, 8, WhiteMan)
  }

  /** The standard opening position. */
  function StartBoard(): Board {
    Initialize(NewBoard())
  }

  /** Cells still ahead of the row-major position (r, c) that hold a piece of player pl. */
  function CountOwned(b: Board, pl: Player, r: int, c: int): (n: nat)
    requires 0 <= r <= 8 && 0 <= c <= 8
    decreases 8 - r, 8 - c
    ensures n == 0 <==> forall rr, cc {:trigger Get(b, rr, cc)} :: IsValidCoord(rr, cc) && AtOrAfter(rr, cc, r, c) ==> !Owns(Get(b, rr, cc), pl)
  {
    if r == 8 then 0
    else if c == 8 then CountOwned(b, pl, r + 1, 0)
    else (if Owns(Get(b, r, c), pl) then 1 else 0) + CountOwned(b, pl, r, c + 1)
  }

  /** The number of pieces of player pl on the board. */
  function CountPieces(b: Board, pl: Player): (n: nat)
    ensures n == 0 <==> forall r, c {:trigger Get(b, r, c)} :: IsValidCoord(r, c) ==> !Owns(Get(b, r, c), pl)
  {
    CountOwned(b, pl, 0, 0)
  }
}
