/** The move-legality engine: per-cell capture and simple-move search, and the
    whole-board mandatory-capture rule. */
module Legality {
  import opened Pieces
  import opened Boards

  /** A unit step along one axis: +1 or -1. */
  type Unit = u: int | u == 1 || u == -1 witness 1

  /** A diagonal direction as a (row, column) step. */
  datatype Dir = Dir(dr: Unit, dc: Unit)

  const NW: Dir := Dir(-1, -1)
  const NE: Dir := Dir(-1, 1)
  const SW: Dir := Dir(1, -1)
  const SE: Dir := Dir(1, 1)

  /** The coordinate k unit steps u away from x, that is x + k * u, written without
      the product. */
  function Step(x: int, u: Unit, k: int): int {
    if u == 1 then x + k else x - k
  }

  lemma StepIsScaledOffset(x: int, u: Unit, k: int)
    ensures Step(x, u, k) == x + k * u
  {
    if u == 1 { assert k * u == k; } else { assert k * u == -k; }
  }

  /** The row in which a man of player pl makes its non-capturing step: towards row 0 for White. */
  function Forward(pl: Player): Unit {
    if pl == White then -1 else 1
  }

  /** A leg that moves a positive number of cells along one diagonal. */
  predicate IsDiagonalLeg(m: Move) {
    var dr := m.toRow - m.fromRow;
    var dc := m.toCol - m.fromCol;
    dr != 0 && (dc == dr || dc == -dr)
  }

  predicate EmptyAt(b: Board, r: int, c: int) {
    IsValidCoord(r, c) && Get(b, r, c) == Empty
  }

  /** The cell k steps from (r, c) along d is on the board and empty. */
  predicate EmptyStep(b: Board, r: int, c: int, d: Dir, k: int) {
    EmptyAt(b, Step(r, d.dr, k), Step(c, d.dc, k))
  }

  /** The cell k steps from (r, c) along d is on the board and holds a piece. */
  predicate OccupiedStep(b: Board, r: int, c: int, d: Dir, k: int) {
    IsValidCoord(Step(r, d.dr, k), Step(c, d.dc, k)) && Get(b, Step(r, d.dr, k), Step(c, d.dc, k)) != Empty
  }

  /** Every cell from step lo to step hi along d is on the board and empty. */
  ghost predicate ClearRun(b: Board, r: int, c: int, d: Dir, lo: int, hi: int) {
    forall k :: lo <= k <= hi ==> EmptyStep(b, r, c, d, k)
  }

  lemma BeyondBoard(r: int, c: int, d: Dir, k: int)
    requires IsValidCoord(r, c) && k >= 8
    ensures !IsValidCoord(Step(r, d.dr, k), Step(c, d.dc, k))
  {
  }

  // ---------------------------------------------------------------------------
  // Scans along one diagonal

  /** The legs from (r, c) to the cells at steps i, i+1, ... along d, as long as
      they are on the board and empty; the scan gives up at step 8. */
  function Ray(b: Board, r: int, c: int, d: Dir, i: int, capture: bool): (ms: seq<Move>)
    requires 1 <= i <= 8
    decreases 8 - i
    ensures |ms| <= 8 - i
    ensures forall t :: 0 <= t < |ms| ==> ms[t] == Move(r, c, Step(r, d.dr, i + t), Step(c, d.dc, i + t), capture)
    ensures ClearRun(b, r, c, d, i, i + |ms| - 1)
    ensures i + |ms| < 8 ==> !EmptyStep(b, r, c, d, i + |ms|)
  {
    if i == 8 then []
    else if EmptyStep(b, r, c, d, i) then
      var rest := Ray(b, r, c, d, i + 1, capture);
      assert ClearRun(b, r, c, d, i, i + |rest|);
      [Move(r, c, Step(r, d.dr, i), Step(c, d.dc, i), capture)] + rest
    else []
  }

  /** The step, from i on, of the first occupied cell along d before the edge, if any. */
  function FirstOccupied(b: Board, r: int, c: int, d: Dir, i: int): (o: Option<int>)
    requires 1 <= i <= 8
    decreases 8 - i
    ensures o.Some? ==> i <= o.value < 8 && ClearRun(b, r, c, d, i, o.value - 1) && OccupiedStep(b, r, c, d, o.value)
    ensures o.None? ==> forall k :: i <= k < 8 && ClearRun(b, r, c, d, i, k - 1) ==> !OccupiedStep(b, r, c, d, k)
  {
    if i == 8 then None
    else if !IsValidCoord(Step(r, d.dr, i), Step(c, d.dc, i)) then assert !EmptyStep(b, r, c, d, i); None
    else if Get(b, Step(r, d.dr, i), Step(c, d.dc, i)) != Empty then Some(i)
    else FirstOccupied(b, r, c, d, i + 1)
  }

  /** A leg k steps along a diagonal direction is a diagonal leg. */
  lemma StepIsDiagonal(r: int, c: int, d: Dir, k: int, capture: bool)
    requires k >= 1
    ensures IsDiagonalLeg(Move(r, c, Step(r, d.dr, k), Step(c, d.dc, k), capture))
  {
  }

  lemma RayLegs(b: Board, r: int, c: int, d: Dir, i: int, capture: bool)
    requires 1 <= i <= 8
    ensures forall m {:trigger m in Ray(b, r, c, d, i, capture)} :: m in Ray(b, r, c, d, i, capture) ==>
              m.isCapture == capture && m.fromRow == r && m.fromCol == c && EmptyAt(b, m.toRow, m.toCol) && IsDiagonalLeg(m)
  {
    var ms := Ray(b, r, c, d, i, capture);
    forall t | 0 <= t < |ms|
      ensures EmptyAt(b, ms[t].toRow, ms[t].toCol) && IsDiagonalLeg(ms[t])
    {
      assert EmptyStep(b, r, c, d, i + t);
      StepIsDiagonal(r, c, d, i + t, capture);
    }
  }

  /** Every leg of a ray lands on a step whose whole approach is clear. */
  lemma {:induction false} RayLegIsClear(b: Board, r: int, c: int, d: Dir, i: int, capture: bool, t: int)
    requires 1 <= i <= 8
    requires 0 <= t < |Ray(b, r, c, d, i, capture)|
    ensures ClearRun(b, r, c, d, i, i + t)
    ensures Ray(b, r, c, d, i, capture)[t] == Move(r, c, Step(r, d.dr, i + t), Step(c, d.dc, i + t), capture)
  {
    var ms := Ray(b, r, c, d, i, capture);
    forall k | i <= k <= i + t
      ensures EmptyStep(b, r, c, d, k)
    {
    }
  }

  /** A ray reaches every step whose approach is clear. */
  lemma {:induction false} ClearStepIsOnRay(b: Board, r: int, c: int, d: Dir, i: int, capture: bool, k: int)
    requires IsValidCoord(r, c) && 1 <= i <= 8 && i <= k
    requires ClearRun(b, r, c, d, i, k)
    ensures k - i < |Ray(b, r, c, d, i, capture)|
  {
    var e := i + |Ray(b, r, c, d, i, capture)|;
    if e >= 8 {
      BeyondBoard(r, c, d, e);
    }
    assert !EmptyStep(b, r, c, d, e);
  }

  lemma RayMembership(b: Board, r: int, c: int, d: Dir, i: int, capture: bool, m: Move)
    requires IsValidCoord(r, c) && 1 <= i <= 8
    ensures m in Ray(b, r, c, d, i, capture) <==>
              exists k {:trigger ClearRun(b, r, c, d, i, k)} :: i <= k && ClearRun(b, r, c, d, i, k) && m == Move(r, c, Step(r, d.dr, k), Step(c, d.dc, k), capture)
  {
    var ms := Ray(b, r, c, d, i, capture);
    if m in ms {
      var t :| 0 <= t < |ms| && ms[t] == m;
      RayLegIsClear(b, r, c, d, i, capture, t);
      var k := i + t;
      assert ClearRun(b, r, c, d, i, k) && m == Move(r, c, Step(r, d.dr, k), Step(c, d.dc, k), capture);
    }
    if k :| i <= k && ClearRun(b, r, c, d, i, k) && m == Move(r, c, Step(r, d.dr, k), Step(c, d.dc, k), capture) {
      ClearStepIsOnRay(b, r, c, d, i, capture, k);
      assert ms[k - i] == m;
    }
  }

  lemma {:induction false} FirstOccupiedIs(b: Board, r: int, c: int, d: Dir, j: int)
    requires IsValidCoord(r, c) && 1 <= j
    requires ClearRun(b, r, c, d, 1, j - 1) && OccupiedStep(b, r, c, d, j)
    ensures FirstOccupied(b, r, c, d, 1) == Some(j)
  {
    assert j < 8 by {
      if j >= 8 {
        BeyondBoard(r, c, d, j);
      }
    }
    forall k | 1 <= k < j
      ensures !OccupiedStep(b, r, c, d, k)
    {
      assert EmptyStep(b, r, c, d, k);
    }
    assert !EmptyStep(b, r, c, d, j);
  }

  // ---------------------------------------------------------------------------
  // Per-cell searches

  /** The jump of a man at (r, c) along d over the adjacent cell. */
  function ManCapture(b: Board, r: int, c: int, d: Dir): (ms: seq<Move>)
    requires IsValidCoord(r, c)
    ensures forall m {:trigger m in ms} :: m in ms ==>
              m.isCapture && m.fromRow == r && m.fromCol == c && EmptyAt(b, m.toRow, m.toCol) && IsDiagonalLeg(m)
  {
    var tr := Step(r, d.dr, 2);
    var tc := Step(c, d.dc, 2);
    if IsValidCoord(tr, tc) && Get(b, tr, tc) == Empty then
      var opponent := Get(b, Step(r, d.dr, 1), Step(c, d.dc, 1));
      if opponent != Empty && DerivedColour(Get(b, r, c)) != DerivedColour(opponent) then [Move(r, c, tr, tc, true)]
      else []
    else []
  }

  /** The jumps of a king at (r, c) along d: past the first piece on the line, onto
      each empty cell up to the edge or the next piece. The first piece is capturable
      when its colour differs from the king's colour as the C++ code derives it. The
      landing scan is counted from the king's cell, from step j+1 on; the line leaves
      the board before step 8, so this names the same cells as counting from the
      jumped piece. */
  function KingCapture(b: Board, r: int, c: int, d: Dir): (ms: seq<Move>)
    requires IsValidCoord(r, c)
    ensures forall m {:trigger m in ms} :: m in ms ==>
              m.isCapture && m.fromRow == r && m.fromCol == c && EmptyAt(b, m.toRow, m.toCol) && IsDiagonalLeg(m)
  {
    match FirstOccupied(b, r, c, d, 1)
    case None => []
    case Some(j) =>
      var opponent := Get(b, Step(r, d.dr, j), Step(c, d.dc, j));
      if KingColourAsWritten(Get(b, r, c)) != DerivedColour(opponent) then RayLegs(b, r, c, d, j + 1, true); Ray(b, r, c, d, j + 1, true)
      else []
  }

  /** The non-capturing step of a man from (r, c) along d. */
  function ManStep(b: Board, r: int, c: int, d: Dir): (ms: seq<Move>)
    requires IsValidCoord(r, c)
    ensures forall m {:trigger m in ms} :: m in ms ==>
              !m.isCapture && m.fromRow == r && m.fromCol == c && EmptyAt(b, m.toRow, m.toCol) && IsDiagonalLeg(m)
  {
    if EmptyStep(b, r, c, d, 1) then [Move(r, c, Step(r, d.dr, 1), Step(c, d.dc, 1), false)] else []
  }

  /** Every jump the piece at (r, c) could make, in the order NW, NE, SW, SE. */
  function FindCaptures(b: Board, r: int, c: int): (ms: seq<Move>)
    requires IsValidCoord(r, c)
    ensures forall m {:trigger m in ms} :: m in ms ==>
              m.isCapture && m.fromRow == r && m.fromCol == c && EmptyAt(b, m.toRow, m.toCol) && IsDiagonalLeg(m)
  {
    var p := Get(b, r, c);
    if IsMan(p) then
      ManCapture(b, r, c, NW) + ManCapture(b, r, c, NE) + ManCapture(b, r, c, SW) + ManCapture(b, r, c, SE)
    else if IsKing(p) then
      KingCapture(b, r, c, NW) + KingCapture(b, r, c, NE) + KingCapture(b, r, c, SW) + KingCapture(b, r, c, SE)
    else []
  }

  /** Every non-capturing leg of the piece at (r, c) when player pl is to move: a man
      steps one cell forward for pl, a king slides along any diagonal. */
  function FindSimpleMoves(b: Board, pl: Player, r: int, c: int): (ms: seq<Move>)
    requires IsValidCoord(r, c)
    ensures forall m {:trigger m in ms} :: m in ms ==>
              !m.isCapture && m.fromRow == r && m.fromCol == c && EmptyAt(b, m.toRow, m.toCol) && IsDiagonalLeg(m)
  {
    var p := Get(b, r, c);
    var forward := Forward(pl);
    if IsMan(p) then
      ManStep(b, r, c, Dir(forward, -1)) + ManStep(b, r, c, Dir(forward, 1))
    else if IsKing(p) then
      var nw, ne, sw, se := Ray(b, r, c, NW, 1, false), Ray(b, r, c, NE, 1, false), Ray(b, r, c, SW, 1, false), Ray(b, r, c, SE, 1, false);
      RayLegs(b, r, c, NW, 1, false); RayLegs(b, r, c, NE, 1, false);
      RayLegs(b, r, c, SW, 1, false); RayLegs(b, r, c, SE, 1, false);
      assert forall m :: m in nw + ne + sw + se ==> m in nw || m in ne || m in sw || m in se;
      nw + ne + sw + se
    else []
  }

  // ---------------------------------------------------------------------------
  // Reference definitions of the legs, independent of the scan order

  /** A man at (r, c) can jump along d: the cell two steps away is on the board and
      empty, the adjacent one holds a piece of the other colour. */
  ghost predicate ManJump(b: Board, r: int, c: int, d: Dir)
    requires IsValidCoord(r, c)
  {
    EmptyStep(b, r, c, d, 2) && OccupiedStep(b, r, c, d, 1)
    && DerivedColour(Get(b, Step(r, d.dr, 1), Step(c, d.dc, 1))) != DerivedColour(Get(b, r, c))
  }

  ghost predicate ManCaptureTo(b: Board, r: int, c: int, m: Move)
    requires IsValidCoord(r, c)
  {
    exists d {:trigger ManJump(b, r, c, d)} :: ManJump(b, r, c, d) && m == Move(r, c, Step(r, d.dr, 2), Step(c, d.dc, 2), true)
  }

  /** A king at (r, c) can jump along d over the piece at step j onto step k. */
  ghost predicate KingJump(b: Board, r: int, c: int, d: Dir, j: int, k: int)
    requires IsValidCoord(r, c)
  {
    1 <= j < k && ClearRun(b, r, c, d, 1, j - 1) && OccupiedStep(b, r, c, d, j)
    && DerivedColour(Get(b, Step(r, d.dr, j), Step(c, d.dc, j))) != KingColourAsWritten(Get(b, r, c))
    && ClearRun(b, r, c, d, j + 1, k)
  }

  ghost predicate KingCaptureTo(b: Board, r: int, c: int, m: Move)
    requires IsValidCoord(r, c)
  {
    exists d, j, k :: KingJump(b, r, c, d, j, k) && m == Move(r, c, Step(r, d.dr, k), Step(c, d.dc, k), true)
  }

  ghost predicate CaptureTo(b: Board, r: int, c: int, m: Move)
    requires IsValidCoord(r, c)
  {
    (IsMan(Get(b, r, c)) && ManCaptureTo(b, r, c, m)) || (IsKing(Get(b, r, c)) && KingCaptureTo(b, r, c, m))
  }

  ghost predicate ManStepTo(b: Board, pl: Player, r: int, c: int, m: Move) {
    exists d: Dir {:trigger EmptyStep(b, r, c, d, 1)} :: d.dr == Forward(pl) && EmptyStep(b, r, c, d, 1) && m == Move(r, c, Step(r, d.dr, 1), Step(c, d.dc, 1), false)
  }

  ghost predicate KingSlideTo(b: Board, r: int, c: int, m: Move) {
    exists d, k {:trigger ClearRun(b, r, c, d, 1, k)} :: 1 <= k && ClearRun(b, r, c, d, 1, k) && m == Move(r, c, Step(r, d.dr, k), Step(c, d.dc, k), false)
  }

  ghost predicate SimpleTo(b: Board, pl: Player, r: int, c: int, m: Move)
    requires IsValidCoord(r, c)
  {
    (IsMan(Get(b, r, c)) && ManStepTo(b, pl, r, c, m)) || (IsKing(Get(b, r, c)) && KingSlideTo(b, r, c, m))
  }

  // ---------------------------------------------------------------------------
  // The searches produce exactly the legs of the reference definitions

  lemma DirCases(d: Dir)
    ensures d == NW || d == NE || d == SW || d == SE
  {
  }

  lemma ManCaptureMembership(b: Board, r: int, c: int, d: Dir, m: Move)
    requires IsValidCoord(r, c)
    ensures m in ManCapture(b, r, c, d) <==> ManJump(b, r, c, d) && m == Move(r, c, Step(r, d.dr, 2), Step(c, d.dc, 2), true)
  {
  }

  lemma KingCaptureSound(b: Board, r: int, c: int, d: Dir, m: Move)
    requires IsValidCoord(r, c)
    requires m in KingCapture(b, r, c, d)
    ensures exists j, k :: KingJump(b, r, c, d, j, k) && m == Move(r, c, Step(r, d.dr, k), Step(c, d.dc, k), true)
  {
    var j := FirstOccupied(b, r, c, d, 1).value;
    assert m in Ray(b, r, c, d, j + 1, true);
    RayMembership(b, r, c, d, j + 1, true, m);
    var k :| j + 1 <= k && ClearRun(b, r, c, d, j + 1, k) && m == Move(r, c, Step(r, d.dr, k), Step(c, d.dc, k), true);
    assert KingJump(b, r, c, d, j, k);
  }

  lemma KingCaptureComplete(b: Board, r: int, c: int, d: Dir, j: int, k: int)
    requires IsValidCoord(r, c)
    requires KingJump(b, r, c, d, j, k)
    ensures Move(r, c, Step(r, d.dr, k), Step(c, d.dc, k), true) in KingCapture(b, r, c, d)
  {
    FirstOccupiedIs(b, r, c, d, j);
    var m := Move(r, c, Step(r, d.dr, k), Step(c, d.dc, k), true);
    RayMembership(b, r, c, d, j + 1, true, m);
    assert ClearRun(b, r, c, d, j + 1, k);
  }

  lemma ManStepMembership(b: Board, r: int, c: int, d: Dir, m: Move)
    requires IsValidCoord(r, c)
    ensures m in ManStep(b, r, c, d) <==> EmptyStep(b, r, c, d, 1) && m == Move(r, c, Step(r, d.dr, 1), Step(c, d.dc, 1), false)
  {
  }

  lemma ManCapturesExact(b: Board, r: int, c: int, m: Move)
    requires IsValidCoord(r, c) && IsMan(Get(b, r, c))
    ensures m in FindCaptures(b, r, c) <==> ManCaptureTo(b, r, c, m)
  {
    assert FindCaptures(b, r, c) ==
      ManCapture(b, r, c, NW) + ManCapture(b, r, c, NE) + ManCapture(b, r, c, SW) + ManCapture(b, r, c, SE);
    ManCaptureMembership(b, r, c, NW, m);
    ManCaptureMembership(b, r, c, NE, m);
    ManCaptureMembership(b, r, c, SW, m);
    ManCaptureMembership(b, r, c, SE, m);
    if ManCaptureTo(b, r, c, m) {
      var d :| ManJump(b, r, c, d) && m == Move(r, c, Step(r, d.dr, 2), Step(c, d.dc, 2), true);
      DirCases(d);
    }
  }

  /** A leg found along one direction is a king's jump by the rules. */
  lemma KingCaptureIsJump(b: Board, r: int, c: int, d: Dir, m: Move)
    requires IsValidCoord(r, c)
    requires m in KingCapture(b, r, c, d)
    ensures KingCaptureTo(b, r, c, m)
  {
    KingCaptureSound(b, r, c, d, m);
    var j, k :| KingJump(b, r, c, d, j, k) && m == Move(r, c, Step(r, d.dr, k), Step(c, d.dc, k), true);
    assert KingJump(b, r, c, d, j, k) && m == Move(r, c, Step(r, d.dr, k), Step(c, d.dc, k), true);
  }

  lemma KingCapturesExact(b: Board, r: int, c: int, m: Move)
    requires IsValidCoord(r, c) && IsKing(Get(b, r, c))
    ensures m in FindCaptures(b, r, c) <==> KingCaptureTo(b, r, c, m)
  {
    var nw, ne, sw, se := KingCapture(b, r, c, NW), KingCapture(b, r, c, NE), KingCapture(b, r, c, SW), KingCapture(b, r, c, SE);
    assert FindCaptures(b, r, c) == nw + ne + sw + se;
    assert m in FindCaptures(b, r, c) <==> m in nw || m in ne || m in sw || m in se;
    if m in nw {
      KingCaptureIsJump(b, r, c, NW, m);
    } else if m in ne {
      KingCaptureIsJump(b, r, c, NE, m);
    } else if m in sw {
      KingCaptureIsJump(b, r, c, SW, m);
    } else if m in se {
      KingCaptureIsJump(b, r, c, SE, m);
    }
    if KingCaptureTo(b, r, c, m) {
      var d, j, k :| KingJump(b, r, c, d, j, k) && m == Move(r, c, Step(r, d.dr, k), Step(c, d.dc, k), true);
      DirCases(d);
      KingCaptureComplete(b, r, c, d, j, k);
    }
  }

  /** FindCaptures yields exactly the jumps the rules allow the piece on (r, c):
      for a man, over an adjacent piece of the other colour in any of the four
      directions; for a king, over the first piece on a line, when its colour is
      not the king's colour as the C++ code derives it, onto any empty cell of the
      run behind it. */
  lemma CapturesAreExactlyJumps(b: Board, r: int, c: int, m: Move)
    requires IsValidCoord(r, c)
    ensures m in FindCaptures(b, r, c) <==> CaptureTo(b, r, c, m)
  {
    var p := Get(b, r, c);
    if IsMan(p) {
      ManCapturesExact(b, r, c, m);
    } else if IsKing(p) {
      KingCapturesExact(b, r, c, m);
    }
  }

  /** FindSimpleMoves yields exactly the non-capturing legs the rules allow: one
      forward diagonal step onto an empty cell for a man, any distance along a
      clear diagonal for a king. */
  lemma {:induction false} SimpleMovesAreExactlySteps(b: Board, pl: Player, r: int, c: int, m: Move)
    requires IsValidCoord(r, c)
    ensures m in FindSimpleMoves(b, pl, r, c) <==> SimpleTo(b, pl, r, c, m)
  {
    var p := Get(b, r, c);
    var f := Forward(pl);
    if IsMan(p) {
      ManStepMembership(b, r, c, Dir(f, -1), m);
      ManStepMembership(b, r, c, Dir(f, 1), m);
      if ManStepTo(b, pl, r, c, m) {
        var d: Dir :| d.dr == f && EmptyStep(b, r, c, d, 1) && m == Move(r, c, Step(r, d.dr, 1), Step(c, d.dc, 1), false);
        assert d == Dir(f, -1) || d == Dir(f, 1);
      }
    } else if IsKing(p) {
      RayMembership(b, r, c, NW, 1, false, m);
      RayMembership(b, r, c, NE, 1, false, m);
      RayMembership(b, r, c, SW, 1, false, m);
      RayMembership(b, r, c, SE, 1, false, m);
      if KingSlideTo(b, r, c, m) {
        var d, k :| 1 <= k && ClearRun(b, r, c, d, 1, k) && m == Move(r, c, Step(r, d.dr, k), Step(c, d.dc, k), false);
        DirCases(d);
      }
    }
  }

  /** The king-colour quirk: whatever the king's own colour, the piece it jumps is black. */
  lemma KingsJumpOnlyBlackPieces(b: Board, r: int, c: int, m: Move)
    requires IsValidCoord(r, c) && IsKing(Get(b, r, c))
    requires m in FindCaptures(b, r, c)
    ensures exists d, j, k {:trigger KingJump(b, r, c, d, j, k)} :: KingJump(b, r, c, d, j, k) && Owns(Get(b, Step(r, d.dr, j), Step(c, d.dc, j)), Black)
              && m == Move(r, c, Step(r, d.dr, k), Step(c, d.dc, k), true)
  {
    KingCapturesExact(b, r, c, m);
    var d, j, k :| KingJump(b, r, c, d, j, k) && m == Move(r, c, Step(r, d.dr, k), Step(c, d.dc, k), true);
    assert Owns(Get(b, Step(r, d.dr, j), Step(c, d.dc, j)), Black);
  }

  // ---------------------------------------------------------------------------
  // Mandatory capture and the per-cell legal-move query

  /** The piece on (r, c) belongs to pl and has at least one jump. */
  predicate CanCaptureFrom(b: Board, pl: Player, r: int, c: int)
    requires IsValidCoord(r, c)
  {
    Owns(Get(b, r, c), pl) && FindCaptures(b, r, c) != []
  }

  /** Row-major scan, from (r, c) on, for a piece of pl that can jump; stops at the first one. */
  function CaptureScan(b: Board, pl: Player, r: int, c: int): (found: bool)
    requires 0 <= r <= 8 && 0 <= c <= 8
    decreases 8 - r, 8 - c
    ensures found <==> exists rr, cc {:trigger CanCaptureFrom(b, pl, rr, cc)} :: IsValidCoord(rr, cc) && AtOrAfter(rr, cc, r, c) && CanCaptureFrom(b, pl, rr, cc)
  {
    if r == 8 then false
    else if c == 8 then CaptureScan(b, pl, r + 1, 0)
    else CanCaptureFrom(b, pl, r, c) || CaptureScan(b, pl, r, c + 1)
  }

  /** Whether any piece of pl anywhere on the board can jump. */
  function CanPlayerCapture(b: Board, pl: Player): (can: bool)
    ensures can <==> exists rr, cc {:trigger CanCaptureFrom(b, pl, rr, cc)} :: IsValidCoord(rr, cc) && CanCaptureFrom(b, pl, rr, cc)
  {
    CaptureScan(b, pl, 0, 0)
  }

  /** The legal legs of the piece on (r, c) with pl to move: none unless the piece
      is pl's; only its jumps while any piece of pl can jump; otherwise only its
      non-capturing legs. The colour test reads an empty cell as black, so with
      Black to move an empty cell reaches the searches, which find nothing there. */
  function GetValidMoves(b: Board, pl: Player, r: int, c: int): (ms: seq<Move>)
    requires IsValidCoord(r, c)
    ensures !Owns(Get(b, r, c), pl) ==> ms == []
    ensures forall m {:trigger m in ms} :: m in ms ==>
              m.fromRow == r && m.fromCol == c && EmptyAt(b, m.toRow, m.toCol) && IsDiagonalLeg(m)
              && (m.isCapture <==> CanPlayerCapture(b, pl))
  {
    var piece := Get(b, r, c);
    if DerivedColour(piece) != pl then []
    else if CanPlayerCapture(b, pl) then FindCaptures(b, r, c)
    else FindSimpleMoves(b, pl, r, c)
  }

  /** An empty cell reads as black, so with Black to move it passes the colour test;
      both searches find nothing there, so it still has no legal leg. */
  lemma EmptyCellHasNoLegs(b: Board, pl: Player, r: int, c: int)
    requires IsValidCoord(r, c) && Get(b, r, c) == Empty
    ensures DerivedColour(Get(b, r, c)) == Black
    ensures FindCaptures(b, r, c) == [] && FindSimpleMoves(b, pl, r, c) == []
    ensures GetValidMoves(b, pl, r, c) == []
  {
  }

  /** Reference definition of the mandatory-capture trigger: some piece of pl has a jump. */
  ghost predicate PlayerHasJump(b: Board, pl: Player) {
    exists rr, cc, m :: IsValidCoord(rr, cc) && Owns(Get(b, rr, cc), pl) && CaptureTo(b, rr, cc, m)
  }

  lemma CanPlayerCaptureMatchesRules(b: Board, pl: Player)
    ensures CanPlayerCapture(b, pl) <==> PlayerHasJump(b, pl)
  {
    if CanPlayerCapture(b, pl) {
      var rr, cc :| IsValidCoord(rr, cc) && CanCaptureFrom(b, pl, rr, cc);
      var m := FindCaptures(b, rr, cc)[0];
      CapturesAreExactlyJumps(b, rr, cc, m);
    }
    if PlayerHasJump(b, pl) {
      var rr, cc, m :| IsValidCoord(rr, cc) && Owns(Get(b, rr, cc), pl) && CaptureTo(b, rr, cc, m);
      CapturesAreExactlyJumps(b, rr, cc, m);
      assert CanCaptureFrom(b, pl, rr, cc);
    }
  }

  /** The legal legs of a cell, stated against the reference definitions: a leg is
      legal exactly when the cell holds a piece of the player to move and the leg is
      one of its jumps, if that player has a jump anywhere, or else one of its
      non-capturing legs. */
  lemma ValidMovesAreExactlyLegal(b: Board, pl: Player, r: int, c: int, m: Move)
    requires IsValidCoord(r, c)
    ensures m in GetValidMoves(b, pl, r, c) <==>
              Owns(Get(b, r, c), pl) && (if PlayerHasJump(b, pl) then CaptureTo(b, r, c, m) else SimpleTo(b, pl, r, c, m))
  {
    CanPlayerCaptureMatchesRules(b, pl);
    CapturesAreExactlyJumps(b, r, c, m);
    SimpleMovesAreExactlySteps(b, pl, r, c, m);
  }

  /** Mandatory capture: while some piece of pl can jump, a piece of pl that cannot
      jump has no legal leg at all, whatever non-capturing legs it has. */
  lemma MandatoryCaptureBlocksOtherPieces(b: Board, pl: Player, r: int, c: int)
    requires IsValidCoord(r, c) && PlayerHasJump(b, pl)
    requires forall m :: !CaptureTo(b, r, c, m)
    ensures GetValidMoves(b, pl, r, c) == []
  {
    var ms := GetValidMoves(b, pl, r, c);
    if ms != [] {
      ValidMovesAreExactlyLegal(b, pl, r, c, ms[0]);
    }
  }
}
