/** The placement search as a pure specification. `Configs` follows one call of
    the recursive search: it returns, in discovery order, every completed
    placement below that call. A placement here remembers which kind stands on
    each square; the search itself emits only the squares (`Occupancies`). */
module Enumeration {
  import opened Coordinates
  import opened Pieces

  /** The attack query the search consults: the squares a piece of the given
      kind attacks from the given square. */
  type AttackQuery = (Kind, Pos) -> set<Pos>

  /** The registry's attack query on an m-by-n board. */
  function AttacksOn(geo: Geometry, m: nat, n: nat): AttackQuery
  {
    (k: Kind, p: Pos) => Targets(geo, k, m, n, p.0, p.1)
  }

  /** A partial or completed placement: the kind standing on each occupied square. */
  type Placement = map<Pos, Kind>

  /** The fixed order in which the remaining kinds are tried at a cell. */
  const KindOrder: seq<Kind> := [Knight, King, Rook, Bishop, Queen]

  /** Remaining count of kind `k` (absent means zero). */
  function Count(counts: map<Kind, nat>, k: Kind): nat
  {
    if k in counts then counts[k] else 0
  }

  /** Number of pieces still to place. */
  function Total(counts: map<Kind, nat>): nat
  {
    Count(counts, Knight) + Count(counts, King) + Count(counts, Rook) + Count(counts, Bishop) + Count(counts, Queen)
  }

  /** The counts with the zero entries dropped. */
  function Live(counts: map<Kind, nat>): (live: map<Kind, nat>)
    ensures forall k :: k in live ==> live[k] > 0
    ensures forall k :: Count(live, k) == Count(counts, k)
    ensures live == map[] <==> Total(counts) == 0
  {
    var live := map k | k in counts && counts[k] > 0 :: counts[k];
    EmptyExactlyWhenNoneLeft(counts, live);
    live
  }

  lemma EmptyExactlyWhenNoneLeft(counts: map<Kind, nat>, live: map<Kind, nat>)
    requires live == map k | k in counts && counts[k] > 0 :: counts[k]
    ensures live == map[] <==> Total(counts) == 0
  {
    if Total(counts) == 0 {
      forall k ensures Count(counts, k) <= Total(counts) {
        match k
        case Knight =>
        case King =>
        case Rook =>
        case Bishop =>
        case Queen =>
      }
      forall k ensures k !in live {
        assert Count(counts, k) == 0;
      }
      assert live.Keys == {};
    } else if Count(counts, Knight) > 0 {
      assert Knight in live;
    } else if Count(counts, King) > 0 {
      assert King in live;
    } else if Count(counts, Rook) > 0 {
      assert Rook in live;
    } else if Count(counts, Bishop) > 0 {
      assert Bishop in live;
    } else {
      assert Queen in live;
    }
  }

  /** Number of squares holding a piece of kind `k`. */
  function KindCount(t: Placement, k: Kind): nat
  {
    |set p | p in t && t[p] == k|
  }

  /** Square `p` comes before square `q` in scan order (row by row, left to right). */
  predicate Before(p: Pos, q: Pos)
  {
    p.0 < q.0 || (p.0 == q.0 && p.1 < q.1)
  }

  /** No piece of `t` lists another occupied square among its targets. */
  ghost predicate AttackFree(attacks: AttackQuery, t: Placement)
  {
    forall p, q :: p in t && q in t && p != q ==> q !in attacks(t[p], p)
  }

  /** What holds at every call of the search: the placed pieces lie on the
      board before the cursor, attack no other placed piece, and everything
      they attack is prohibited. */
  ghost predicate Reachable(attacks: AttackQuery, m: nat, n: nat, row: nat, col: nat, placed: Placement, prohibited: set<Pos>)
  {
    && (m == 0 || col < m)
    && (forall p :: p in placed ==> OnBoard(m, n, p) && Before(p, (row, col)))
    && AttackFree(attacks, placed)
    && (forall p :: p in placed ==> attacks(placed[p], p) <= prohibited)
  }

  /** `t` completes `placed` with exactly the pieces of `counts`, on the board
      and attack-free. */
  ghost predicate Completes(attacks: AttackQuery, m: nat, n: nat, counts: map<Kind, nat>, placed: Placement, t: Placement)
  {
    && |t| == |placed| + Total(counts)
    && (forall k :: KindCount(t, k) == KindCount(placed, k) + Count(counts, k))
    && (forall p :: p in t ==> OnBoard(m, n, p))
    && AttackFree(attacks, t)
  }

  /** `t` assigns kinds to the squares of configuration `c`: exactly the
      requested pieces, none listing another among its targets. */
  ghost predicate Tagging(attacks: AttackQuery, counts: map<Kind, nat>, c: set<Pos>, t: Placement)
  {
    && t.Keys == c
    && (forall k :: KindCount(t, k) == Count(counts, k))
    && AttackFree(attacks, t)
  }

  /** The completed placements found by one call of the search at (row, col),
      in the order the search appends them. */
  function Configs(attacks: AttackQuery, m: nat, n: nat, counts: map<Kind, nat>, row: nat, col: nat,
                   placed: Placement, prohibited: set<Pos>): (r: seq<Placement>)
    requires m == 0 || col < m
    ensures forall t :: t in r ==> placed.Keys <= t.Keys
    decreases n - row, m - col, 1
  {
    var live := Live(counts);
    if live == map[] then [placed]
    else if ScanDone(row, m, n) then []
    else
      var next := NextInScan(col, row, m);
      if (row, col) in prohibited then
        Configs(attacks, m, n, live, next.1, next.0, placed, prohibited)
      else
        TryKinds(attacks, m, n, live, row, col, placed, prohibited, KindOrder)
        + Configs(attacks, m, n, live, next.1, next.0, placed, prohibited)
  }

  /** The placements found by placing each kind of `ks`, in order, on the
      free cell (row, col); a kind is skipped when it would attack an occupied
      square. */
  function TryKinds(attacks: AttackQuery, m: nat, n: nat, live: map<Kind, nat>, row: nat, col: nat,
                    placed: Placement, prohibited: set<Pos>, ks: seq<Kind>): (r: seq<Placement>)
    requires col < m && row < n
    requires forall k :: k in live ==> live[k] > 0
    ensures forall t :: t in r ==> placed.Keys + {(row, col)} <= t.Keys
    decreases n - row, m - col, 0, |ks|
  {
    if ks == [] then []
    else
      TryKinds(attacks, m, n, live, row, col, placed, prohibited, ks[..|ks| - 1])
      + TryKind(attacks, m, n, live, row, col, placed, prohibited, ks[|ks| - 1])
  }

  /** The placements found by placing kind `k` on the free cell (row, col):
      none when no piece of that kind is left or when its targets include an
      occupied square. */
  function TryKind(attacks: AttackQuery, m: nat, n: nat, live: map<Kind, nat>, row: nat, col: nat,
                   placed: Placement, prohibited: set<Pos>, k: Kind): (r: seq<Placement>)
    requires col < m && row < n
    requires forall k :: k in live ==> live[k] > 0
    ensures forall t :: t in r ==> placed.Keys + {(row, col)} <= t.Keys
    decreases n - row, m - col, 0, 0
  {
    var targets := attacks(k, (row, col));
    if k in live && placed.Keys * targets == {} then
      var next := NextInScan(col, row, m);
      Configs(attacks, m, n, live[k := live[k] - 1], next.1, next.0, placed[(row, col) := k], prohibited + targets)
    else []
  }

  /** One step of `Configs` on a cell of the board with pieces still to place. */
  lemma ConfigsOnCell(attacks: AttackQuery, m: nat, n: nat, counts: map<Kind, nat>, row: nat, col: nat,
                      placed: Placement, prohibited: set<Pos>)
    requires Live(counts) != map[]
    requires col < m && row < n
    ensures var live, next := Live(counts), NextInScan(col, row, m);
            Configs(attacks, m, n, counts, row, col, placed, prohibited)
            == if (row, col) in prohibited then Configs(attacks, m, n, live, next.1, next.0, placed, prohibited)
               else TryKinds(attacks, m, n, live, row, col, placed, prohibited, KindOrder)
                    + Configs(attacks, m, n, live, next.1, next.0, placed, prohibited)
  {
  }

  /** Trying one more kind of `KindOrder` appends that kind's placements
      after those of the kinds before it. */
  lemma TryKindsStep(attacks: AttackQuery, m: nat, n: nat, live: map<Kind, nat>, row: nat, col: nat,
                     placed: Placement, prohibited: set<Pos>, i: nat, start: seq<set<Pos>>)
    requires col < m && row < n
    requires forall k :: k in live ==> live[k] > 0
    requires i < |KindOrder|
    ensures start + Occupancies(TryKinds(attacks, m, n, live, row, col, placed, prohibited, KindOrder[..i]))
                  + Occupancies(TryKind(attacks, m, n, live, row, col, placed, prohibited, KindOrder[i]))
         == start + Occupancies(TryKinds(attacks, m, n, live, row, col, placed, prohibited, KindOrder[..i + 1]))
  {
    assert KindOrder[..i + 1][..i] == KindOrder[..i];
    AppendOccupancies(start, TryKinds(attacks, m, n, live, row, col, placed, prohibited, KindOrder[..i]),
                      TryKind(attacks, m, n, live, row, col, placed, prohibited, KindOrder[i]));
  }

  /** The occupied squares of each placement: what the search emits. */
  function Occupancies(ts: seq<Placement>): (cs: seq<set<Pos>>)
    ensures |cs| == |ts|
  {
    seq(|ts|, i requires 0 <= i < |ts| => ts[i].Keys)
  }

  lemma OccupanciesAppend(a: seq<Placement>, b: seq<Placement>)
    ensures Occupancies(a + b) == Occupancies(a) + Occupancies(b)
  {
    assert forall i :: 0 <= i < |a + b| ==> Occupancies(a + b)[i] == (Occupancies(a) + Occupancies(b))[i];
  }

  /** The squares of every listed placement are among the occupancies. */
  lemma KeysAmongOccupancies(ts: seq<Placement>, t: Placement)
    requires t in ts
    ensures t.Keys in Occupancies(ts)
  {
    var i :| 0 <= i < |ts| && ts[i] == t;
    assert Occupancies(ts)[i] == t.Keys;
  }

  /** Appending the occupancies of `found` after those of `done`. */
  lemma AppendOccupancies(start: seq<set<Pos>>, done: seq<Placement>, found: seq<Placement>)
    ensures start + Occupancies(done) + Occupancies(found) == start + Occupancies(done + found)
  {
    OccupanciesAppend(done, found);
  }

  // ---------------------------------------------------------------------------
  // Bookkeeping facts for one placement.

  lemma KindCountAdd(t: Placement, p: Pos, k: Kind, kind: Kind)
    requires p !in t
    ensures KindCount(t[p := k], kind) == KindCount(t, kind) + (if kind == k then 1 else 0)
  {
    var before := set q | q in t && t[q] == kind;
    var t' := t[p := k];
    var after := set q | q in t' && t'[q] == kind;
    assert p !in before;
    if kind == k {
      assert forall q :: q in after <==> q in before || q == p;
      assert after == before + {p};
    } else {
      assert forall q :: q in after <==> q in before;
      assert after == before;
    }
  }

  lemma TotalDecrement(live: map<Kind, nat>, k: Kind)
    requires k in live && live[k] > 0
    ensures Total(live[k := live[k] - 1]) == Total(live) - 1
    ensures forall kind :: Count(live[k := live[k] - 1], kind) == Count(live, kind) - (if kind == k then 1 else 0)
  {
  }

  /** No kind has more pieces than the placement has squares. */
  lemma KindCountAtMost(t: Placement, k: Kind)
    ensures KindCount(t, k) <= |t|
  {
    var s := set p | p in t && t[p] == k;
    assert t.Keys == s + (t.Keys - s);
    assert s * (t.Keys - s) == {};
  }

  /** A completion of the placement with one more piece on `cell` completes
      the placement without it, with that piece counted back in. */
  lemma CompletesAfterPlacing(attacks: AttackQuery, m: nat, n: nat, live: map<Kind, nat>, placed: Placement,
                              cell: Pos, k: Kind, t: Placement)
    requires cell !in placed
    requires k in live && live[k] > 0
    requires Completes(attacks, m, n, live[k := live[k] - 1], placed[cell := k], t)
    ensures Completes(attacks, m, n, live, placed, t)
  {
    TotalDecrement(live, k);
    forall kind ensures KindCount(t, kind) == KindCount(placed, kind) + Count(live, kind) {
      KindCountAdd(placed, cell, k, kind);
    }
  }

  /** Moving past a cell without placing anything keeps the search invariant. */
  lemma SkipKeepsReachable(attacks: AttackQuery, m: nat, n: nat, row: nat, col: nat,
                           placed: Placement, prohibited: set<Pos>)
    requires Reachable(attacks, m, n, row, col, placed, prohibited)
    requires col < m
    ensures var next := NextInScan(col, row, m);
            Reachable(attacks, m, n, next.1, next.0, placed, prohibited)
  {
  }

  /** Placing a piece on a free, unprohibited cell whose targets avoid the
      occupied squares keeps the search invariant. */
  lemma {:induction false} PlaceKeepsReachable(attacks: AttackQuery, m: nat, n: nat, row: nat, col: nat,
                                               placed: Placement, prohibited: set<Pos>, k: Kind)
    requires Reachable(attacks, m, n, row, col, placed, prohibited)
    requires col < m && row < n
    requires (row, col) !in prohibited
    requires placed.Keys * attacks(k, (row, col)) == {}
    ensures (row, col) !in placed
    ensures var next := NextInScan(col, row, m);
            Reachable(attacks, m, n, next.1, next.0, placed[(row, col) := k], prohibited + attacks(k, (row, col)))
  {
    var next := NextInScan(col, row, m);
    var cell := (row, col);
    var placed' := placed[cell := k];
    var prohibited' := prohibited + attacks(k, (row, col));
    forall p, q | p in placed' && q in placed' && p != q
      ensures q !in attacks(placed'[p], p)
    {
      if p == cell {
        assert q in placed.Keys && placed'[p] == k;
        assert q !in placed.Keys * attacks(k, cell);
        assert q !in attacks(placed'[p], p);
      } else if q == cell {
        assert p in placed && placed'[p] == placed[p];
        assert attacks(placed[p], p) <= prohibited;
        assert q !in attacks(placed'[p], p);
      } else {
        assert p in placed && q in placed && placed'[p] == placed[p];
        assert q !in attacks(placed'[p], p);
      }
    }
  }

  // ---------------------------------------------------------------------------
  // Soundness: every emitted placement is complete.

  lemma {:induction false} ConfigsSound(attacks: AttackQuery, m: nat, n: nat, counts: map<Kind, nat>, row: nat, col: nat,
                                        placed: Placement, prohibited: set<Pos>)
    requires Reachable(attacks, m, n, row, col, placed, prohibited)
    ensures forall t :: t in Configs(attacks, m, n, counts, row, col, placed, prohibited) ==>
              Completes(attacks, m, n, counts, placed, t)
    decreases n - row, m - col, 1
  {
    var live := Live(counts);
    if live == map[] {
      NothingLeftCompletes(attacks, m, n, counts, row, col, placed, prohibited);
    } else if !ScanDone(row, m, n) {
      var next := NextInScan(col, row, m);
      var skipped := Configs(attacks, m, n, live, next.1, next.0, placed, prohibited);
      var tried := if (row, col) in prohibited then []
                   else TryKinds(attacks, m, n, live, row, col, placed, prohibited, KindOrder);
      assert Configs(attacks, m, n, counts, row, col, placed, prohibited) == tried + skipped by {
        ConfigsOnCell(attacks, m, n, counts, row, col, placed, prohibited);
      }
      SkipKeepsReachable(attacks, m, n, row, col, placed, prohibited);
      ConfigsSound(attacks, m, n, live, next.1, next.0, placed, prohibited);
      if (row, col) !in prohibited {
        TryKindsSound(attacks, m, n, live, row, col, placed, prohibited, KindOrder);
      }
      forall t | t in tried + skipped
        ensures Completes(attacks, m, n, counts, placed, t)
      {
        CompletesLive(attacks, m, n, counts, placed, t);
      }
    }
  }

  /** With nothing left to place, the placement so far is complete. */
  lemma NothingLeftCompletes(attacks: AttackQuery, m: nat, n: nat, counts: map<Kind, nat>, row: nat, col: nat,
                             placed: Placement, prohibited: set<Pos>)
    requires Reachable(attacks, m, n, row, col, placed, prohibited)
    requires Live(counts) == map[]
    ensures Completes(attacks, m, n, counts, placed, placed)
  {
    forall k ensures KindCount(placed, k) == KindCount(placed, k) + Count(counts, k) {
      assert Count(Live(counts), k) == 0;
    }
  }

  /** Dropping the zero counts does not change what completes a placement. */
  lemma CompletesLive(attacks: AttackQuery, m: nat, n: nat, counts: map<Kind, nat>, placed: Placement, t: Placement)
    requires Completes(attacks, m, n, Live(counts), placed, t)
    ensures Completes(attacks, m, n, counts, placed, t)
  {
    var live := Live(counts);
    assert Total(live) == Total(counts) by {
      assert Count(live, Knight) == Count(counts, Knight);
      assert Count(live, King) == Count(counts, King);
      assert Count(live, Rook) == Count(counts, Rook);
      assert Count(live, Bishop) == Count(counts, Bishop);
      assert Count(live, Queen) == Count(counts, Queen);
    }
  }

  lemma {:induction false} TryKindsSound(attacks: AttackQuery, m: nat, n: nat, live: map<Kind, nat>, row: nat, col: nat,
                                         placed: Placement, prohibited: set<Pos>, ks: seq<Kind>)
    requires Reachable(attacks, m, n, row, col, placed, prohibited)
    requires col < m && row < n
    requires (row, col) !in prohibited
    requires forall k :: k in live ==> live[k] > 0
    ensures forall t :: t in TryKinds(attacks, m, n, live, row, col, placed, prohibited, ks) ==>
              Completes(attacks, m, n, live, placed, t)
    decreases n - row, m - col, 0, |ks|
  {
    if ks != [] {
      var k := ks[|ks| - 1];
      var targets := attacks(k, (row, col));
      TryKindsSound(attacks, m, n, live, row, col, placed, prohibited, ks[..|ks| - 1]);
      if k in live && placed.Keys * targets == {} {
        var next := NextInScan(col, row, m);
        var placed', live' := placed[(row, col) := k], live[k := live[k] - 1];
        PlaceKeepsReachable(attacks, m, n, row, col, placed, prohibited, k);
        ConfigsSound(attacks, m, n, live', next.1, next.0, placed', prohibited + targets);
        forall t | t in Configs(attacks, m, n, live', next.1, next.0, placed', prohibited + targets)
          ensures Completes(attacks, m, n, live, placed, t)
        {
          CompletesAfterPlacing(attacks, m, n, live, placed, (row, col), k, t);
        }
      }
    }
  }

  // ---------------------------------------------------------------------------
  // Completeness: every completion the cursor can still reach is emitted.

  /** `t` is a completion of `placed` that the search at (row, col) can still
      reach: it keeps the placed pieces, each of its other squares is on the
      board, at or after the cursor and not prohibited, it holds exactly the
      remaining pieces, and it is attack-free. */
  ghost predicate Extends(attacks: AttackQuery, m: nat, n: nat, counts: map<Kind, nat>, row: nat, col: nat,
                          placed: Placement, prohibited: set<Pos>, t: Placement)
  {
    && (forall p :: p in placed ==> p in t && t[p] == placed[p])
    && (forall q :: q in t && q !in placed ==> OnBoard(m, n, q) && !Before(q, (row, col)) && q !in prohibited)
    && (forall k :: KindCount(t, k) == KindCount(placed, k) + Count(counts, k))
    && AttackFree(attacks, t)
  }

  /** The squares of `t` outside `placed` that hold a piece of kind `k`. */
  function NewSquares(placed: Placement, t: Placement, k: Kind): set<Pos>
  {
    set q | q in t && q !in placed && t[q] == k
  }

  /** When `t` keeps every piece of `placed`, it holds as many pieces of each
      kind as `placed` does plus its new squares of that kind. */
  lemma ExtraSquares(placed: Placement, t: Placement, k: Kind)
    requires forall p :: p in placed ==> p in t && t[p] == placed[p]
    ensures KindCount(t, k) == KindCount(placed, k) + |NewSquares(placed, t, k)|
  {
    var before := set p | p in placed && placed[p] == k;
    var added := NewSquares(placed, t, k);
    var after := set p | p in t && t[p] == k;
    assert after == before + added by {
      forall p
        ensures p in after <==> p in before || p in added
      {
        if p in placed {
          assert t[p] == placed[p];
        }
      }
    }
    assert before * added == {};
  }

  /** With no pieces left, the only reachable completion is the placement itself. */
  lemma NothingLeftIsPlaced(attacks: AttackQuery, m: nat, n: nat, counts: map<Kind, nat>, row: nat, col: nat,
                            placed: Placement, prohibited: set<Pos>, t: Placement)
    requires Extends(attacks, m, n, counts, row, col, placed, prohibited, t)
    requires Total(counts) == 0
    ensures t == placed
  {
    forall q | q in t
      ensures q in placed
    {
      var k := t[q];
      ExtraSquares(placed, t, k);
      assert Count(counts, k) == 0;
      assert q !in NewSquares(placed, t, k);
    }
    assert t.Keys == placed.Keys;
  }

  /** With pieces left, a reachable completion has a square on the board at or
      after the cursor, so the scan is not over. */
  lemma PendingSquareAhead(attacks: AttackQuery, m: nat, n: nat, counts: map<Kind, nat>, row: nat, col: nat,
                           placed: Placement, prohibited: set<Pos>, t: Placement, k: Kind)
    requires Extends(attacks, m, n, counts, row, col, placed, prohibited, t)
    requires Count(counts, k) > 0
    ensures !ScanDone(row, m, n)
  {
    ExtraSquares(placed, t, k);
    var q :| q in NewSquares(placed, t, k);
    assert OnBoard(m, n, q) && !Before(q, (row, col));
  }

  /** Passing over a cell that `t` leaves empty, or that is already placed,
      keeps `t` reachable. */
  lemma SkipKeepsExtends(attacks: AttackQuery, m: nat, n: nat, counts: map<Kind, nat>, row: nat, col: nat,
                         placed: Placement, prohibited: set<Pos>, t: Placement)
    requires col < m
    requires Extends(attacks, m, n, counts, row, col, placed, prohibited, t)
    requires (row, col) in placed || (row, col) !in t
    ensures var next := NextInScan(col, row, m);
            Extends(attacks, m, n, Live(counts), next.1, next.0, placed, prohibited, t)
  {
    var next := NextInScan(col, row, m);
    forall q | q in t && q !in placed
      ensures OnBoard(m, n, q) && !Before(q, (next.1, next.0)) && q !in prohibited
    {
      assert q != (row, col);
    }
    forall k
      ensures KindCount(t, k) == KindCount(placed, k) + Count(Live(counts), k)
    {
      assert Count(Live(counts), k) == Count(counts, k);
    }
  }

  /** Dropping the zero counts keeps `t` reachable. */
  lemma ExtendsLive(attacks: AttackQuery, m: nat, n: nat, counts: map<Kind, nat>, row: nat, col: nat,
                    placed: Placement, prohibited: set<Pos>, t: Placement)
    requires Extends(attacks, m, n, counts, row, col, placed, prohibited, t)
    ensures Extends(attacks, m, n, Live(counts), row, col, placed, prohibited, t)
  {
    forall k
      ensures KindCount(t, k) == KindCount(placed, k) + Count(Live(counts), k)
    {
      assert Count(Live(counts), k) == Count(counts, k);
    }
  }

  /** The piece that `t` has on the cursor is one the search may place there:
      one is left, the cell is not prohibited, and its targets avoid the
      occupied squares. */
  lemma PlaceAllowed(attacks: AttackQuery, m: nat, n: nat, live: map<Kind, nat>, row: nat, col: nat,
                     placed: Placement, prohibited: set<Pos>, t: Placement)
    requires Extends(attacks, m, n, live, row, col, placed, prohibited, t)
    requires (row, col) in t && (row, col) !in placed
    ensures Count(live, t[(row, col)]) > 0
    ensures (row, col) !in prohibited
    ensures placed.Keys * attacks(t[(row, col)], (row, col)) == {}
  {
    var cell := (row, col);
    var k := t[cell];
    ExtraSquares(placed, t, k);
    assert cell in NewSquares(placed, t, k);
    forall p | p in placed
      ensures p !in attacks(k, cell)
    {
      assert p in t && p != cell;
    }
  }

  /** Placing on the cursor the piece that `t` has there keeps `t` reachable,
      with that piece counted off. */
  lemma PlaceKeepsExtends(attacks: AttackQuery, m: nat, n: nat, live: map<Kind, nat>, row: nat, col: nat,
                          placed: Placement, prohibited: set<Pos>, k: Kind, t: Placement)
    requires col < m
    requires Extends(attacks, m, n, live, row, col, placed, prohibited, t)
    requires (row, col) in t && (row, col) !in placed && t[(row, col)] == k
    requires k in live && live[k] > 0
    ensures var next := NextInScan(col, row, m);
            Extends(attacks, m, n, live[k := live[k] - 1], next.1, next.0,
                    placed[(row, col) := k], prohibited + attacks(k, (row, col)), t)
  {
    var cell := (row, col);
    var next := NextInScan(col, row, m);
    var placed', prohibited' := placed[cell := k], prohibited + attacks(k, cell);
    forall q | q in t && q !in placed'
      ensures OnBoard(m, n, q) && !Before(q, (next.1, next.0)) && q !in prohibited'
    {
      assert q != cell && q !in placed;
      assert q !in attacks(t[cell], cell);
    }
    CountsAfterPlacing(placed, live, cell, k, t);
  }

  /** Moving one piece of kind `k` from the counts onto a free square keeps
      "`t` holds the placed pieces plus the remaining ones". */
  lemma CountsAfterPlacing(placed: Placement, live: map<Kind, nat>, cell: Pos, k: Kind, t: Placement)
    requires cell !in placed
    requires k in live && live[k] > 0
    requires forall kind :: KindCount(t, kind) == KindCount(placed, kind) + Count(live, kind)
    ensures forall kind :: KindCount(t, kind) == KindCount(placed[cell := k], kind) + Count(live[k := live[k] - 1], kind)
  {
    forall kind
      ensures KindCount(t, kind) == KindCount(placed[cell := k], kind) + Count(live[k := live[k] - 1], kind)
    {
      KindCountAdd(placed, cell, k, kind);
    }
  }

  /** The loop over kinds tries every kind. */
  lemma EveryKindTried(k: Kind)
    ensures k in KindOrder
  {
    match k
    case Knight => assert KindOrder[0] == k;
    case King => assert KindOrder[1] == k;
    case Rook => assert KindOrder[2] == k;
    case Bishop => assert KindOrder[3] == k;
    case Queen => assert KindOrder[4] == k;
  }

  /** A placement found by one kind is found by the loop over any kinds that
      include it. */
  lemma {:induction false} TryKindInTryKinds(attacks: AttackQuery, m: nat, n: nat, live: map<Kind, nat>, row: nat, col: nat,
                                             placed: Placement, prohibited: set<Pos>, ks: seq<Kind>, k: Kind, t: Placement)
    requires col < m && row < n
    requires forall k :: k in live ==> live[k] > 0
    requires k in ks
    requires t in TryKind(attacks, m, n, live, row, col, placed, prohibited, k)
    ensures t in TryKinds(attacks, m, n, live, row, col, placed, prohibited, ks)
    decreases |ks|
  {
    var init := ks[..|ks| - 1];
    if ks[|ks| - 1] != k {
      assert ks == init + [ks[|ks| - 1]];
      assert k in init;
      TryKindInTryKinds(attacks, m, n, live, row, col, placed, prohibited, init, k, t);
    }
  }

  /** Completeness: from any state of the search, every completion it can
      still reach is among the placements it emits. */
  lemma {:induction false} ConfigsComplete(attacks: AttackQuery, m: nat, n: nat, counts: map<Kind, nat>, row: nat, col: nat,
                                           placed: Placement, prohibited: set<Pos>, t: Placement)
    requires m == 0 || col < m
    requires Extends(attacks, m, n, counts, row, col, placed, prohibited, t)
    ensures t in Configs(attacks, m, n, counts, row, col, placed, prohibited)
    decreases n - row, m - col, 1
  {
    var live := Live(counts);
    if live == map[] {
      NothingLeftIsPlaced(attacks, m, n, counts, row, col, placed, prohibited, t);
    } else {
      var k0 :| k0 in live;
      PendingSquareAhead(attacks, m, n, counts, row, col, placed, prohibited, t, k0);
      var next := NextInScan(col, row, m);
      ConfigsOnCell(attacks, m, n, counts, row, col, placed, prohibited);
      if (row, col) in t && (row, col) !in placed {
        ExtendsLive(attacks, m, n, counts, row, col, placed, prohibited, t);
        PlaceAllowed(attacks, m, n, live, row, col, placed, prohibited, t);
        PlacedComplete(attacks, m, n, live, row, col, placed, prohibited, t);
      } else {
        SkipKeepsExtends(attacks, m, n, counts, row, col, placed, prohibited, t);
        ConfigsComplete(attacks, m, n, live, next.1, next.0, placed, prohibited, t);
      }
    }
  }

  /** A reachable completion with a new piece on the cursor is found by the
      loop over kinds there, under the kind it puts on the cursor. */
  lemma {:induction false} PlacedComplete(attacks: AttackQuery, m: nat, n: nat, live: map<Kind, nat>, row: nat, col: nat,
                                          placed: Placement, prohibited: set<Pos>, t: Placement)
    requires col < m && row < n
    requires forall k :: k in live ==> live[k] > 0
    requires Extends(attacks, m, n, live, row, col, placed, prohibited, t)
    requires (row, col) in t && (row, col) !in placed
    ensures t in TryKinds(attacks, m, n, live, row, col, placed, prohibited, KindOrder)
    decreases n - row, m - col, 0
  {
    var cell := (row, col);
    var k := t[cell];
    var next := NextInScan(col, row, m);
    PlaceAllowed(attacks, m, n, live, row, col, placed, prohibited, t);
    PlaceKeepsExtends(attacks, m, n, live, row, col, placed, prohibited, k, t);
    ConfigsComplete(attacks, m, n, live[k := live[k] - 1], next.1, next.0,
                    placed[cell := k], prohibited + attacks(k, cell), t);
    assert t in TryKind(attacks, m, n, live, row, col, placed, prohibited, k);
    EveryKindTried(k);
    TryKindInTryKinds(attacks, m, n, live, row, col, placed, prohibited, KindOrder, k, t);
  }

  // ---------------------------------------------------------------------------
  // Boundary behaviour.

  /** With nothing left to place, the search emits the current placement once. */
  lemma NothingLeftEmitsOnce(attacks: AttackQuery, m: nat, n: nat, counts: map<Kind, nat>, row: nat, col: nat,
                             placed: Placement, prohibited: set<Pos>)
    requires m == 0 || col < m
    requires Total(counts) == 0
    ensures Configs(attacks, m, n, counts, row, col, placed, prohibited) == [placed]
  {
  }

  /** More pieces left than cells left: the search emits nothing. */
  lemma {:induction false} OverfullEmitsNothing(attacks: AttackQuery, m: nat, n: nat, counts: map<Kind, nat>, row: nat, col: nat,
                                                placed: Placement, prohibited: set<Pos>)
    requires m == 0 || col < m
    requires ColRowToPos(col, row, m) <= m * n
    requires Total(counts) > m * n - ColRowToPos(col, row, m)
    ensures Configs(attacks, m, n, counts, row, col, placed, prohibited) == []
    decreases n - row, m - col, 1
  {
    var live := Live(counts);
    ScanDoneAtEnd(col, row, m, n);
    if live != map[] && !ScanDone(row, m, n) {
      var next := NextInScan(col, row, m);
      ScanAdvancesIndex(col, row, m);
      OverfullEmitsNothing(attacks, m, n, live, next.1, next.0, placed, prohibited);
      if (row, col) !in prohibited {
        OverfullTriesNothing(attacks, m, n, live, row, col, placed, prohibited, KindOrder);
      }
    }
  }

  lemma {:induction false} OverfullTriesNothing(attacks: AttackQuery, m: nat, n: nat, live: map<Kind, nat>, row: nat, col: nat,
                                                placed: Placement, prohibited: set<Pos>, ks: seq<Kind>)
    requires col < m && row < n
    requires forall k :: k in live ==> live[k] > 0
    requires Total(live) > m * n - ColRowToPos(col, row, m)
    ensures TryKinds(attacks, m, n, live, row, col, placed, prohibited, ks) == []
    decreases n - row, m - col, 0, |ks|
  {
    if ks != [] {
      var k := ks[|ks| - 1];
      var targets := attacks(k, (row, col));
      OverfullTriesNothing(attacks, m, n, live, row, col, placed, prohibited, ks[..|ks| - 1]);
      if k in live && placed.Keys * targets == {} {
        var next := NextInScan(col, row, m);
        ScanDoneAtEnd(col, row, m, n);
        ScanAdvancesIndex(col, row, m);
        TotalDecrement(live, k);
        OverfullEmitsNothing(attacks, m, n, live[k := live[k] - 1], next.1, next.0, placed[(row, col) := k], prohibited + targets);
      }
    }
  }

  // ---------------------------------------------------------------------------
  // The whole search, from the first cell with nothing placed.

  /** A configuration the search may emit for `counts`: the requested number
      of squares, all on the board, carrying a kind assignment with the
      requested counts in which no piece lists another among its targets. */
  ghost predicate ValidConfig(attacks: AttackQuery, m: nat, n: nat, counts: map<Kind, nat>, c: set<Pos>)
  {
    && |c| == Total(counts)
    && (forall p :: p in c ==> OnBoard(m, n, p))
    && exists t :: Tagging(attacks, counts, c, t)
  }

  /** Every placement of a whole search holds exactly the requested pieces, on
      the board, none listing another among its targets. */
  lemma SearchSound(attacks: AttackQuery, m: nat, n: nat, counts: map<Kind, nat>)
    ensures forall t :: t in Configs(attacks, m, n, counts, 0, 0, map[], {}) ==>
              && |t| == Total(counts)
              && (forall k :: KindCount(t, k) == Count(counts, k))
              && (forall p :: p in t ==> OnBoard(m, n, p))
              && AttackFree(attacks, t)
  {
    ConfigsSound(attacks, m, n, counts, 0, 0, map[], {});
    var empty: Placement := map[];
    forall k ensures KindCount(empty, k) == 0 {
      KindCountAtMost(empty, k);
    }
  }

  /** Every placement of exactly the requested pieces, on the board and
      attack-free, is found by the whole search. */
  lemma SearchComplete(attacks: AttackQuery, m: nat, n: nat, counts: map<Kind, nat>, t: Placement)
    requires forall p :: p in t ==> OnBoard(m, n, p)
    requires forall k :: KindCount(t, k) == Count(counts, k)
    requires AttackFree(attacks, t)
    ensures t in Configs(attacks, m, n, counts, 0, 0, map[], {})
  {
    var empty: Placement := map[];
    forall k ensures KindCount(t, k) == KindCount(empty, k) + Count(counts, k) {
      KindCountAtMost(empty, k);
    }
    ConfigsComplete(attacks, m, n, counts, 0, 0, empty, {}, t);
  }

  /** Each configuration the whole search emits is a valid one. */
  lemma EmittedAreValid(attacks: AttackQuery, m: nat, n: nat, counts: map<Kind, nat>)
    ensures forall c :: c in Occupancies(Configs(attacks, m, n, counts, 0, 0, map[], {})) ==>
              ValidConfig(attacks, m, n, counts, c)
  {
    var all := Configs(attacks, m, n, counts, 0, 0, map[], {});
    var configs := Occupancies(all);
    SearchSound(attacks, m, n, counts);
    forall c | c in configs
      ensures ValidConfig(attacks, m, n, counts, c)
    {
      var i :| 0 <= i < |configs| && configs[i] == c;
      assert all[i] in all;
      assert Tagging(attacks, counts, c, all[i]);
    }
  }

  /** Each valid configuration is emitted by the whole search. */
  lemma ValidAreEmitted(attacks: AttackQuery, m: nat, n: nat, counts: map<Kind, nat>)
    ensures forall c :: ValidConfig(attacks, m, n, counts, c) ==>
              c in Occupancies(Configs(attacks, m, n, counts, 0, 0, map[], {}))
  {
    var all := Configs(attacks, m, n, counts, 0, 0, map[], {});
    var configs := Occupancies(all);
    forall c | ValidConfig(attacks, m, n, counts, c)
      ensures c in configs
    {
      var t :| Tagging(attacks, counts, c, t);
      SearchComplete(attacks, m, n, counts, t);
      var i :| 0 <= i < |all| && all[i] == t;
      assert configs[i] == c;
    }
  }

  // ---------------------------------------------------------------------------
  // Distinctness: no placement is emitted twice.
  // ---------------------------------------------------------------------------

  /** No element occurs twice in `s`. */
  ghost predicate Distinct<T>(s: seq<T>)
  {
    forall i, j :: 0 <= i < j < |s| ==> s[i] != s[j]
  }

  /** Two runs of output without a common element concatenate without
      repeats. */
  lemma DistinctAppend<T>(a: seq<T>, b: seq<T>)
    requires Distinct(a) && Distinct(b)
    requires forall x :: x in a ==> x !in b
    ensures Distinct(a + b)
  {
    forall i, j | 0 <= i < j < |a + b|
      ensures (a + b)[i] != (a + b)[j]
    {
      if j < |a| {
        assert (a + b)[i] == a[i] && (a + b)[j] == a[j];
      } else if |a| <= i {
        assert (a + b)[i] == b[i - |a|] && (a + b)[j] == b[j - |a|];
      } else {
        assert (a + b)[i] == a[i] && (a + b)[j] == b[j - |a|];
        assert a[i] in a;
      }
    }
  }

  /** `t` keeps every piece of `placed` and adds pieces only on squares at or
      after the cursor (row, col). */
  ghost predicate GrowsFrom(placed: Placement, row: nat, col: nat, t: Placement)
  {
    && (forall p :: p in placed ==> p in t && t[p] == placed[p])
    && (forall q :: q in t && q !in placed ==> !Before(q, (row, col)))
  }

  /** Every placement one call emits grows the current placement at or after
      the cursor. */
  lemma {:induction false} NewAtOrAfter(attacks: AttackQuery, m: nat, n: nat, counts: map<Kind, nat>, row: nat, col: nat,
                                        placed: Placement, prohibited: set<Pos>)
    requires m == 0 || col < m
    requires forall p :: p in placed ==> Before(p, (row, col))
    ensures forall t :: t in Configs(attacks, m, n, counts, row, col, placed, prohibited) ==> GrowsFrom(placed, row, col, t)
    decreases n - row, m - col, 1
  {
    var live := Live(counts);
    if live != map[] && !ScanDone(row, m, n) {
      var next := NextInScan(col, row, m);
      ScanAdvancesIndex(col, row, m);
      NewAtOrAfter(attacks, m, n, live, next.1, next.0, placed, prohibited);
      if (row, col) !in prohibited {
        NewAtOrAfterKinds(attacks, m, n, live, row, col, placed, prohibited, KindOrder);
      }
    }
  }

  /** Every placement the loop over `ks` yields grows the current placement
      at or after the cursor and puts one of the kinds of `ks` on the cursor. */
  lemma {:induction false} NewAtOrAfterKinds(attacks: AttackQuery, m: nat, n: nat, live: map<Kind, nat>, row: nat, col: nat,
                                             placed: Placement, prohibited: set<Pos>, ks: seq<Kind>)
    requires col < m && row < n
    requires forall k :: k in live ==> live[k] > 0
    requires forall p :: p in placed ==> Before(p, (row, col))
    ensures forall t :: t in TryKinds(attacks, m, n, live, row, col, placed, prohibited, ks) ==>
              GrowsFrom(placed, row, col, t) && (row, col) in t && t[(row, col)] in ks
    decreases n - row, m - col, 0, |ks|
  {
    if ks != [] {
      var rest, k := ks[..|ks| - 1], ks[|ks| - 1];
      NewAtOrAfterKinds(attacks, m, n, live, row, col, placed, prohibited, rest);
      assert forall x :: x in rest ==> x in ks;
      var targets := attacks(k, (row, col));
      if k in live && placed.Keys * targets == {} {
        var next := NextInScan(col, row, m);
        ScanAdvancesIndex(col, row, m);
        var placedK := placed[(row, col) := k];
        NewAtOrAfter(attacks, m, n, live[k := live[k] - 1], next.1, next.0, placedK, prohibited + targets);
        forall t | t in TryKind(attacks, m, n, live, row, col, placed, prohibited, k)
          ensures GrowsFrom(placed, row, col, t) && (row, col) in t && t[(row, col)] == k
        {
          assert GrowsFrom(placedK, next.1, next.0, t);
          assert (row, col) in placedK;
        }
      }
    }
  }

  /** From any state whose pieces all stand before the cursor, one call emits
      no placement twice. */
  lemma {:induction false} ConfigsDistinct(attacks: AttackQuery, m: nat, n: nat, counts: map<Kind, nat>, row: nat, col: nat,
                                           placed: Placement, prohibited: set<Pos>)
    requires m == 0 || col < m
    requires forall p :: p in placed ==> Before(p, (row, col))
    ensures Distinct(Configs(attacks, m, n, counts, row, col, placed, prohibited))
    decreases n - row, m - col, 1
  {
    var live := Live(counts);
    if live != map[] && !ScanDone(row, m, n) {
      var next := NextInScan(col, row, m);
      ScanAdvancesIndex(col, row, m);
      var skip := Configs(attacks, m, n, live, next.1, next.0, placed, prohibited);
      ConfigsDistinct(attacks, m, n, live, next.1, next.0, placed, prohibited);
      if (row, col) !in prohibited {
        var tried := TryKinds(attacks, m, n, live, row, col, placed, prohibited, KindOrder);
        TryKindsDistinct(attacks, m, n, live, row, col, placed, prohibited, KindOrder);
        NewAtOrAfterKinds(attacks, m, n, live, row, col, placed, prohibited, KindOrder);
        NewAtOrAfter(attacks, m, n, live, next.1, next.0, placed, prohibited);
        assert forall t :: t in skip ==> (row, col) !in t;
        DistinctAppend(tried, skip);
        ConfigsOnCell(attacks, m, n, counts, row, col, placed, prohibited);
      }
    }
  }

  /** The loop over distinct kinds `ks` yields no placement twice. */
  lemma {:induction false} TryKindsDistinct(attacks: AttackQuery, m: nat, n: nat, live: map<Kind, nat>, row: nat, col: nat,
                                            placed: Placement, prohibited: set<Pos>, ks: seq<Kind>)
    requires col < m && row < n
    requires forall k :: k in live ==> live[k] > 0
    requires forall p :: p in placed ==> Before(p, (row, col))
    requires Distinct(ks)
    ensures Distinct(TryKinds(attacks, m, n, live, row, col, placed, prohibited, ks))
    decreases n - row, m - col, 0, |ks|
  {
    if ks != [] {
      var rest, k := ks[..|ks| - 1], ks[|ks| - 1];
      assert k !in rest;
      TryKindsDistinct(attacks, m, n, live, row, col, placed, prohibited, rest);
      NewAtOrAfterKinds(attacks, m, n, live, row, col, placed, prohibited, rest);
      var targets := attacks(k, (row, col));
      if k in live && placed.Keys * targets == {} {
        var next := NextInScan(col, row, m);
        ScanAdvancesIndex(col, row, m);
        var placedK := placed[(row, col) := k];
        ConfigsDistinct(attacks, m, n, live[k := live[k] - 1], next.1, next.0, placedK, prohibited + targets);
        NewAtOrAfter(attacks, m, n, live[k := live[k] - 1], next.1, next.0, placedK, prohibited + targets);
        DistinctAppend(TryKinds(attacks, m, n, live, row, col, placed, prohibited, rest),
                       TryKind(attacks, m, n, live, row, col, placed, prohibited, k));
      }
    }
  }

  /** The whole search emits one empty configuration when nothing is
      requested, and none when more pieces are requested than the board has
      cells. */
  lemma SearchBoundaries(attacks: AttackQuery, m: nat, n: nat, counts: map<Kind, nat>)
    ensures Total(counts) == 0 ==> Occupancies(Configs(attacks, m, n, counts, 0, 0, map[], {})) == [{}]
    ensures Total(counts) > m * n ==> Occupancies(Configs(attacks, m, n, counts, 0, 0, map[], {})) == []
  {
    if Total(counts) == 0 {
      NothingLeftEmitsOnce(attacks, m, n, counts, 0, 0, map[], {});
      assert Occupancies(Configs(attacks, m, n, counts, 0, 0, map[], {}))[0] == {};
    }
    if Total(counts) > m * n {
      OverfullEmitsNothing(attacks, m, n, counts, 0, 0, map[], {});
    }
  }

  /** The whole search emits no placement twice. */
  lemma SearchDistinct(attacks: AttackQuery, m: nat, n: nat, counts: map<Kind, nat>)
    ensures Distinct(Configs(attacks, m, n, counts, 0, 0, map[], {}))
  {
    ConfigsDistinct(attacks, m, n, counts, 0, 0, map[], {});
  }

  /** A configuration that occurs twice among the results carries two
      different valid kind assignments. */
  lemma RepeatsAreOtherKinds(attacks: AttackQuery, m: nat, n: nat, counts: map<Kind, nat>)
    ensures var configs := Occupancies(Configs(attacks, m, n, counts, 0, 0, map[], {}));
            forall i, j :: 0 <= i < j < |configs| && configs[i] == configs[j] ==>
              exists t1, t2 :: t1 != t2 && Tagging(attacks, counts, configs[i], t1) && Tagging(attacks, counts, configs[i], t2)
  {
    var all := Configs(attacks, m, n, counts, 0, 0, map[], {});
    var configs := Occupancies(all);
    SearchDistinct(attacks, m, n, counts);
    SearchSound(attacks, m, n, counts);
    forall i, j | 0 <= i < j < |configs| && configs[i] == configs[j]
      ensures exists t1, t2 :: t1 != t2 && Tagging(attacks, counts, configs[i], t1) && Tagging(attacks, counts, configs[i], t2)
    {
      assert all[i] in all && all[j] in all;
      assert all[i] != all[j];
      assert Tagging(attacks, counts, configs[i], all[i]) && Tagging(attacks, counts, configs[i], all[j]);
    }
  }

  /** A valid configuration that carries two different valid kind assignments
      occurs at least twice among the results. */
  lemma OtherKindsRepeat(attacks: AttackQuery, m: nat, n: nat, counts: map<Kind, nat>)
    ensures var configs := Occupancies(Configs(attacks, m, n, counts, 0, 0, map[], {}));
            forall c, t1, t2 :: ValidConfig(attacks, m, n, counts, c) && t1 != t2 && Tagging(attacks, counts, c, t1) && Tagging(attacks, counts, c, t2) ==>
              exists i, j :: 0 <= i < j < |configs| && configs[i] == c && configs[j] == c
  {
    var configs := Occupancies(Configs(attacks, m, n, counts, 0, 0, map[], {}));
    forall c, t1, t2 | ValidConfig(attacks, m, n, counts, c) && t1 != t2 && Tagging(attacks, counts, c, t1) && Tagging(attacks, counts, c, t2)
      ensures exists i, j :: 0 <= i < j < |configs| && configs[i] == c && configs[j] == c
    {
      TwoTaggingsTwice(attacks, m, n, counts, c, t1, t2);
    }
  }

  /** Two different valid kind assignments of one configuration put it at two
      positions of the results. */
  lemma TwoTaggingsTwice(attacks: AttackQuery, m: nat, n: nat, counts: map<Kind, nat>, c: set<Pos>, t1: Placement, t2: Placement)
    requires forall p :: p in c ==> OnBoard(m, n, p)
    requires t1 != t2 && Tagging(attacks, counts, c, t1) && Tagging(attacks, counts, c, t2)
    ensures var configs := Occupancies(Configs(attacks, m, n, counts, 0, 0, map[], {}));
            exists i, j :: 0 <= i < j < |configs| && configs[i] == c && configs[j] == c
  {
    var all := Configs(attacks, m, n, counts, 0, 0, map[], {});
    var configs := Occupancies(all);
    SearchComplete(attacks, m, n, counts, t1);
    SearchComplete(attacks, m, n, counts, t2);
    var i1 :| 0 <= i1 < |all| && all[i1] == t1;
    var i2 :| 0 <= i2 < |all| && all[i2] == t2;
    assert configs[i1] == c && configs[i2] == c;
    if i1 < i2 {
      assert 0 <= i1 < i2 < |configs|;
    } else {
      assert 0 <= i2 < i1 < |configs|;
    }
  }

  /** What the search emits: exactly the configurations of the requested
      number of squares, all on the board, that carry a kind assignment with
      the requested counts in which no piece lists another among its targets;
      one empty configuration when nothing is requested, and none when more
      pieces are requested than the board has cells. */
  lemma SearchResults(attacks: AttackQuery, m: nat, n: nat, counts: map<Kind, nat>)
    ensures forall c :: c in Occupancies(Configs(attacks, m, n, counts, 0, 0, map[], {})) <==>
              ValidConfig(attacks, m, n, counts, c)
    ensures Total(counts) == 0 ==> Occupancies(Configs(attacks, m, n, counts, 0, 0, map[], {})) == [{}]
    ensures Total(counts) > m * n ==> Occupancies(Configs(attacks, m, n, counts, 0, 0, map[], {})) == []
  {
    EmittedAreValid(attacks, m, n, counts);
    ValidAreEmitted(attacks, m, n, counts);
    SearchBoundaries(attacks, m, n, counts);
  }


  /** With the corrected guards no two pieces of an emitted placement attack
      each other in chess geometry. */
  lemma CorrectedSearchThreatFree(m: nat, n: nat, counts: map<Kind, nat>)
    ensures forall t, p, q :: t in Configs(AttacksOn(Corrected, m, n), m, n, counts, 0, 0, map[], {}) && p in t && q in t && p != q ==>
              !Threatens(t[p], p, q)
  {
    var attacks := AttacksOn(Corrected, m, n);
    SearchSound(attacks, m, n, counts);
    forall t, p, q | t in Configs(attacks, m, n, counts, 0, 0, map[], {}) && p in t && q in t && p != q
      ensures !Threatens(t[p], p, q)
    {
      CorrectedTargetsExact(t[p], m, n, p.0, p.1);
      assert q !in attacks(t[p], p);
    }
  }

  /** On a square board the source's guards already give placements in which
      no two pieces attack each other in chess geometry. */
  lemma SquareSearchThreatFree(m: nat, counts: map<Kind, nat>)
    ensures forall t, p, q :: t in Configs(AttacksOn(AsWritten, m, m), m, m, counts, 0, 0, map[], {}) && p in t && q in t && p != q ==>
              !Threatens(t[p], p, q)
  {
    var attacks := AttacksOn(AsWritten, m, m);
    SearchSound(attacks, m, m, counts);
    forall t, p, q | t in Configs(attacks, m, m, counts, 0, 0, map[], {}) && p in t && q in t && p != q
      ensures !Threatens(t[p], p, q)
    {
      SquareBoardAgrees(t[p], m, p.0, p.1);
      CorrectedTargetsExact(t[p], m, m, p.0, p.1);
      assert q !in attacks(t[p], p);
    }
  }
}
