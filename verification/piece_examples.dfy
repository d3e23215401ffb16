/** Concrete attack sets: the expectations of the repository's unit tests, and
    the inputs that show where the Knight and King guards leave the geometry. */
module PieceExamples {
  import opened Pieces

  lemma KnightFromCorner()
    ensures KnightTargets(3, 3, 0, 0) == {(1, 2), (2, 1)}
  {
  }

  lemma KnightFromCentre()
    ensures KnightTargets(3, 3, 1, 1) == {}
    ensures KnightTargets(4, 4, 1, 1) == {(3, 0), (0, 3), (2, 3), (3, 2)}
  {
  }

  lemma KingFromCorner()
    ensures KingTargets(3, 3, 0, 0) == {(0, 1), (1, 1), (1, 0)}
  {
  }

  lemma KingFromCentre()
    ensures KingTargets(3, 3, 1, 1) == {(0, 0), (0, 1), (0, 2), (1, 0), (1, 2), (2, 0), (2, 1), (2, 2)}
  {
  }

  lemma RookFromCorner()
    ensures RookTargets(3, 3, 0, 0) == {(0, 1), (0, 2), (1, 0), (2, 0)}
  {
    RookTargetsExact(3, 3, 0, 0);
  }

  lemma RookFromCentre()
    ensures RookTargets(3, 3, 1, 1) == {(0, 1), (1, 0), (1, 2), (2, 1)}
  {
    RookTargetsExact(3, 3, 1, 1);
  }

  lemma BishopFromCorner()
    ensures BishopTargets(3, 3, 0, 0) == {(1, 1), (2, 2)}
  {
    BishopTargetsExact(3, 3, 0, 0);
  }

  lemma BishopFromCentre()
    ensures BishopTargets(3, 3, 1, 1) == {(0, 0), (2, 0), (0, 2), (2, 2)}
  {
    BishopTargetsExact(3, 3, 1, 1);
  }

  lemma QueenFromCorner()
    ensures QueenTargets(3, 3, 0, 0) == {(0, 1), (1, 1), (0, 2), (1, 0), (2, 0), (2, 2)}
  {
    RookFromCorner();
    BishopFromCorner();
  }

  lemma QueenFromCentre()
    ensures QueenTargets(3, 3, 1, 1) == {(0, 0), (0, 1), (0, 2), (1, 0), (1, 2), (2, 0), (2, 1), (2, 2)}
  {
    RookFromCentre();
    BishopFromCentre();
  }

  /** With 2 columns and 3 rows, a Knight on (0, 0) does attack (2, 1), but the
      guard `row + 2 < m` leaves it out. */
  lemma KnightRowGuardMissesMove()
    ensures OnBoard(2, 3, (2, 1)) && Threatens(Knight, (0, 0), (2, 1))
    ensures (2, 1) !in KnightTargets(2, 3, 0, 0)
    ensures (2, 1) in CorrectedKnightTargets(2, 3, 0, 0)
  {
  }

  /** The guard `col < m` lets a Knight in the last column list a square in
      column `m`, off the board. */
  lemma KnightColumnGuardLeavesBoard()
    ensures (2, 3) in KnightTargets(3, 3, 0, 2) && !OnBoard(3, 3, (2, 3))
    ensures (2, 3) !in CorrectedKnightTargets(3, 3, 0, 2)
  {
  }

  /** The King's guards use the row count for columns and the column count for
      rows: on one row of two columns it misses its right-hand neighbour, and
      on one column of three rows it lists a square in column 1. */
  lemma KingGuardsSwapDimensions()
    ensures OnBoard(2, 1, (0, 1)) && Threatens(King, (0, 0), (0, 1))
    ensures (0, 1) !in KingTargets(2, 1, 0, 0) && (0, 1) in CorrectedKingTargets(2, 1, 0, 0)
    ensures OnBoard(1, 2, (1, 0)) && Threatens(King, (0, 0), (1, 0))
    ensures (1, 0) !in KingTargets(1, 2, 0, 0) && (1, 0) in CorrectedKingTargets(1, 2, 0, 0)
    ensures (0, 1) in KingTargets(1, 3, 0, 0) && !OnBoard(1, 3, (0, 1))
  {
  }
}
