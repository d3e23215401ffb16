/** The piece attack model: for each kind of chess piece, the set of squares it
    attacks from a given square, as a function of the board's column count `m`,
    row count `n` and the piece's (row, col). Squares are (row, col) pairs. */
module Pieces {

  /** A square as (row, col). The attack functions may produce squares off the
      board (see the Knight and King guards), so coordinates are `int`. */
  type Pos = (int, int)

  /** The closed set of piece kinds; it replaces the class hierarchy. */
  datatype Kind = Knight | King | Rook | Bishop | Queen

  datatype Option<T> = None | Some(value: T)

  /** The single-character tag callers use for each kind. */
  function Symbol(k: Kind): char
  {
    match k
    case Knight => 'n'
    case King => 'k'
    case Rook => 'r'
    case Bishop => 'b'
    case Queen => 'q'
  }

  /** The registry: the kind a tag stands for, if any. */
  function KindOf(tag: char): (k: Option<Kind>)
    ensures k.Some? ==> Symbol(k.value) == tag
    ensures k.None? ==> forall kind: Kind :: Symbol(kind) != tag
  {
    match tag
    case 'n' => Some(Knight)
    case 'k' => Some(King)
    case 'r' => Some(Rook)
    case 'b' => Some(Bishop)
    case 'q' => Some(Queen)
    case _ => None
  }

  /** Every kind is registered under its own tag. */
  lemma SymbolRegistered(k: Kind)
    ensures KindOf(Symbol(k)) == Some(k)
  {
  }

  // ---------------------------------------------------------------------------
  // Reference geometry, independent of the guards used by the source.

  function Abs(x: int): nat
  {
    if x < 0 then -x else x
  }

  predicate OnBoard(m: nat, n: nat, p: Pos)
  {
    0 <= p.0 < n && 0 <= p.1 < m
  }

  /** Chess geometry: a piece of kind `k` on `p` attacks `q` (on an unbounded
      board, with no blocking). */
  predicate Threatens(k: Kind, p: Pos, q: Pos)
  {
    var dr, dc := Abs(q.0 - p.0), Abs(q.1 - p.1);
    match k
    case Knight => (dr == 1 && dc == 2) || (dr == 2 && dc == 1)
    case King => p != q && dr <= 1 && dc <= 1
    case Rook => p != q && (dr == 0 || dc == 0)
    case Bishop => dr == dc && dr > 0
    case Queen => p != q && (dr == 0 || dc == 0 || dr == dc)
  }

  // ---------------------------------------------------------------------------
  // Helpers mirroring Python's range, reversed and zip.

  /** range(lo, hi). */
  function Range(lo: int, hi: int): (s: seq<int>)
    ensures |s| == if hi > lo then hi - lo else 0
    ensures forall i :: 0 <= i < |s| ==> s[i] == lo + i
  {
    seq(if hi > lo then hi - lo else 0, i => lo + i)
  }

  /** reversed(s). */
  function Reversed(s: seq<int>): (r: seq<int>)
    ensures |r| == |s|
    ensures forall i :: 0 <= i < |s| ==> r[i] == s[|s| - 1 - i]
  {
    seq(|s|, i requires 0 <= i < |s| => s[|s| - 1 - i])
  }

  /** set(zip(a, b)): the pairing stops at the shorter sequence. */
  function ZipSet(a: seq<int>, b: seq<int>): set<Pos>
  {
    set i | 0 <= i < |a| && i < |b| :: (a[i], b[i])
  }

  /** `{p}` when the guard holds, `{}` otherwise: one guarded append. */
  function When(guard: bool, p: Pos): set<Pos>
  {
    if guard then {p} else {}
  }

  // ---------------------------------------------------------------------------
  // The attack sets, with the source's bound guards exactly as written.

  /** Knight: the two-rows-away moves are guarded by `row + 2 < m` (the column
      count) and by `col < m`, which holds for every on-board column. */
  function KnightTargets(m: nat, n: nat, row: int, col: int): (r: set<Pos>)
    ensures forall q :: q in r ==> Threatens(Knight, (row, col), q)
  {
    When(row > 0 && col > 1, (row - 1, col - 2)) +
    When(row > 0 && col + 2 < m, (row - 1, col + 2)) +
    When(row + 1 < n && col > 1, (row + 1, col - 2)) +
    When(row + 1 < n && col + 2 < m, (row + 1, col + 2)) +
    When(row > 1 && col > 0, (row - 2, col - 1)) +
    When(row > 1 && col < m, (row - 2, col + 1)) +
    When(row + 2 < m && col > 0, (row + 2, col - 1)) +
    When(row + 2 < m && col < m, (row + 2, col + 1))
  }

  /** King: the row below is guarded by `row + 1 < m` and the square to the
      right by `col + 1 < n`, with the board's dimensions swapped. */
  function KingTargets(m: nat, n: nat, row: int, col: int): (r: set<Pos>)
    ensures forall q :: q in r ==> Threatens(King, (row, col), q)
  {
    When(row > 0, (row - 1, col)) +
    When(row > 0 && col > 0, (row - 1, col - 1)) +
    When(row > 0 && col + 1 < m, (row - 1, col + 1)) +
    When(row + 1 < m, (row + 1, col)) +
    When(row + 1 < m && col > 0, (row + 1, col - 1)) +
    When(row + 1 < m && col + 1 < m, (row + 1, col + 1)) +
    When(col > 0, (row, col - 1)) +
    When(col + 1 < n, (row, col + 1))
  }

  /** Rook: the whole row and the whole column, minus the origin. */
  function RookTargets(m: nat, n: nat, row: int, col: int): (r: set<Pos>)
    ensures forall q :: q in r ==> Threatens(Rook, (row, col), q)
  {
    ((set x | 0 <= x < m :: (row, x)) + (set x | 0 <= x < n :: (x, col))) - {(row, col)}
  }

  /** Bishop: the four diagonal rays, each zipping a row range with a column
      range, so a ray stops where either coordinate runs out. */
  function BishopTargets(m: nat, n: nat, row: int, col: int): (r: set<Pos>)
    ensures forall q :: q in r ==> Threatens(Bishop, (row, col), q)
    ensures OnBoard(m, n, (row, col)) ==> forall q :: q in r ==> OnBoard(m, n, q)
  {
    ZipSet(Reversed(Range(0, row)), Range(col + 1, m)) +
    ZipSet(Range(row + 1, n), Reversed(Range(0, col))) +
    ZipSet(Reversed(Range(0, row)), Reversed(Range(0, col))) +
    ZipSet(Range(row + 1, n), Range(col + 1, m))
  }

  /** Queen: what a rook and a bishop on the same square attack; removing the
      origin changes nothing, since neither includes it. */
  function QueenTargets(m: nat, n: nat, row: int, col: int): (r: set<Pos>)
    ensures r == RookTargets(m, n, row, col) + BishopTargets(m, n, row, col)
    ensures forall q :: q in r ==> Threatens(Queen, (row, col), q)
  {
    (RookTargets(m, n, row, col) + BishopTargets(m, n, row, col)) - {(row, col)}
  }

  // ---------------------------------------------------------------------------
  // Knight and King with the guards the geometry calls for.

  function CorrectedKnightTargets(m: nat, n: nat, row: int, col: int): (r: set<Pos>)
    ensures forall q :: q in r ==> Threatens(Knight, (row, col), q)
  {
    When(row > 0 && col > 1, (row - 1, col - 2)) +
    When(row > 0 && col + 2 < m, (row - 1, col + 2)) +
    When(row + 1 < n && col > 1, (row + 1, col - 2)) +
    When(row + 1 < n && col + 2 < m, (row + 1, col + 2)) +
    When(row > 1 && col > 0, (row - 2, col - 1)) +
    When(row > 1 && col + 1 < m, (row - 2, col + 1)) +
    When(row + 2 < n && col > 0, (row + 2, col - 1)) +
    When(row + 2 < n && col + 1 < m, (row + 2, col + 1))
  }

  function CorrectedKingTargets(m: nat, n: nat, row: int, col: int): (r: set<Pos>)
    ensures forall q :: q in r ==> Threatens(King, (row, col), q)
  {
    When(row > 0, (row - 1, col)) +
    When(row > 0 && col > 0, (row - 1, col - 1)) +
    When(row > 0 && col + 1 < m, (row - 1, col + 1)) +
    When(row + 1 < n, (row + 1, col)) +
    When(row + 1 < n && col > 0, (row + 1, col - 1)) +
    When(row + 1 < n && col + 1 < m, (row + 1, col + 1)) +
    When(col > 0, (row, col - 1)) +
    When(col + 1 < m, (row, col + 1))
  }

  /** Which Knight and King guards to use: the source's, or the corrected ones. */
  datatype Geometry = AsWritten | Corrected

  /** The registry lookup followed by the kind's attack query. */
  function Targets(geo: Geometry, k: Kind, m: nat, n: nat, row: int, col: int): (r: set<Pos>)
    ensures forall q :: q in r ==> Threatens(k, (row, col), q)
  {
    match k
    case Knight => if geo == AsWritten then KnightTargets(m, n, row, col) else CorrectedKnightTargets(m, n, row, col)
    case King => if geo == AsWritten then KingTargets(m, n, row, col) else CorrectedKingTargets(m, n, row, col)
    case Rook => RookTargets(m, n, row, col)
    case Bishop => BishopTargets(m, n, row, col)
    case Queen => QueenTargets(m, n, row, col)
  }

  // ---------------------------------------------------------------------------
  // Exactness against the reference geometry.

  /** A rook attacks exactly the other squares of its row and its column. */
  lemma RookTargetsExact(m: nat, n: nat, row: int, col: int)
    requires OnBoard(m, n, (row, col))
    ensures forall q :: q in RookTargets(m, n, row, col) <==> OnBoard(m, n, q) && Threatens(Rook, (row, col), q)
  {
    forall q | OnBoard(m, n, q) && Threatens(Rook, (row, col), q)
      ensures q in RookTargets(m, n, row, col)
    {
      if q.0 == row {
        assert q in (set x | 0 <= x < m :: (row, x));
      } else {
        assert q in (set x | 0 <= x < n :: (x, col));
      }
    }
  }

  /** A bishop attacks exactly the on-board squares of its two diagonals. */
  lemma BishopTargetsExact(m: nat, n: nat, row: int, col: int)
    requires OnBoard(m, n, (row, col))
    ensures forall q :: q in BishopTargets(m, n, row, col) <==> OnBoard(m, n, q) && Threatens(Bishop, (row, col), q)
  {
    var up, down := Reversed(Range(0, row)), Range(row + 1, n);
    var left, right := Reversed(Range(0, col)), Range(col + 1, m);
    forall q | OnBoard(m, n, q) && Threatens(Bishop, (row, col), q)
      ensures q in BishopTargets(m, n, row, col)
    {
      if q.0 < row {
        var i := row - 1 - q.0;
        assert up[i] == q.0;
        if q.1 > col {
          assert right[i] == q.1;
          assert q in ZipSet(up, right);
        } else {
          assert left[i] == q.1;
          assert q in ZipSet(up, left);
        }
      } else {
        var i := q.0 - row - 1;
        assert down[i] == q.0;
        if q.1 > col {
          assert right[i] == q.1;
          assert q in ZipSet(down, right);
        } else {
          assert left[i] == q.1;
          assert q in ZipSet(down, left);
        }
      }
    }
  }

  /** A queen attacks exactly the squares a rook or a bishop on its square would. */
  lemma QueenTargetsExact(m: nat, n: nat, row: int, col: int)
    requires OnBoard(m, n, (row, col))
    ensures forall q :: q in QueenTargets(m, n, row, col) <==> OnBoard(m, n, q) && Threatens(Queen, (row, col), q)
  {
    RookTargetsExact(m, n, row, col);
    BishopTargetsExact(m, n, row, col);
  }

  lemma CorrectedKnightExact(m: nat, n: nat, row: int, col: int)
    requires OnBoard(m, n, (row, col))
    ensures forall q :: q in CorrectedKnightTargets(m, n, row, col) <==> OnBoard(m, n, q) && Threatens(Knight, (row, col), q)
  {
  }

  lemma CorrectedKingExact(m: nat, n: nat, row: int, col: int)
    requires OnBoard(m, n, (row, col))
    ensures forall q :: q in CorrectedKingTargets(m, n, row, col) <==> OnBoard(m, n, q) && Threatens(King, (row, col), q)
  {
  }

  /** With the corrected guards every kind attacks exactly the on-board squares
      the reference geometry says it does. */
  lemma CorrectedTargetsExact(k: Kind, m: nat, n: nat, row: int, col: int)
    requires OnBoard(m, n, (row, col))
    ensures forall q :: q in Targets(Corrected, k, m, n, row, col) <==> OnBoard(m, n, q) && Threatens(k, (row, col), q)
  {
    match k
    case Knight => CorrectedKnightExact(m, n, row, col);
    case King => CorrectedKingExact(m, n, row, col);
    case Rook => RookTargetsExact(m, n, row, col);
    case Bishop => BishopTargetsExact(m, n, row, col);
    case Queen => QueenTargetsExact(m, n, row, col);
  }

  /** On a square board the source's guards agree with the corrected ones on
      every on-board square; the only difference is that a Knight in the last
      column may list squares in column `m`, which is off the board. */
  lemma SquareBoardAgrees(k: Kind, m: nat, row: int, col: int)
    requires OnBoard(m, m, (row, col))
    ensures forall q :: OnBoard(m, m, q) ==>
              (q in Targets(AsWritten, k, m, m, row, col) <==> q in Targets(Corrected, k, m, m, row, col))
  {
  }
}
