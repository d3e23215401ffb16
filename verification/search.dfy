/** The placement search as the repository runs it: a recursive procedure that
    walks the cells in scan order and appends every completed placement to one
    shared, growing list of configurations. */
module Search {
  import opened Coordinates
  import opened Pieces
  import opened Enumeration

  /** The shared list of configurations found so far; it is only ever appended to. */
  class ConfigCollector {
    var configs: seq<set<Pos>>

    constructor ()
      ensures configs == []
    {
      configs := [];
    }

    method Add(config: set<Pos>)
      modifies this
      ensures configs == old(configs) + [config]
    {
      configs := configs + [config];
    }
  }

  /** One call of the search at cell (row, col): `attacks` is the registry's
      attack query, `occupied` holds the pieces placed so far (with their kinds
      in the ghost `placed`) and `prohibited` the squares they attack. Appends,
      in order, the occupied squares of every placement that `Configs`
      describes. */
  method PlacePiece(counts: map<Kind, nat>, attacks: AttackQuery, m: nat, n: nat, row: nat, col: nat,
                    collector: ConfigCollector, occupied: set<Pos>, prohibited: set<Pos>,
                    ghost placed: Placement)
    requires m == 0 || col < m
    requires occupied == placed.Keys
    modifies collector
    ensures collector.configs
         == old(collector.configs) + Occupancies(Configs(attacks, m, n, counts, row, col, placed, prohibited))
    decreases n - row, m - col, 1
  {
    var pieces := Live(counts);
    if pieces == map[] {
      collector.Add(occupied);
      return;
    }
    ScanDoneAtEnd(col, row, m, n);
    if ColRowToPos(col, row, m) >= m * n {
      return;
    }
    var next := NextColRow(col, row, m);
    ConfigsOnCell(attacks, m, n, counts, row, col, placed, prohibited);
    if (row, col) in prohibited {
      PlacePiece(pieces, attacks, m, n, next.1, next.0, collector, occupied, prohibited, placed);
      return;
    }
    PlaceEachKind(pieces, attacks, m, n, row, col, collector, occupied, prohibited, placed);
    ghost var tried := TryKinds(attacks, m, n, pieces, row, col, placed, prohibited, KindOrder);
    ghost var skipped := Configs(attacks, m, n, pieces, next.1, next.0, placed, prohibited);
    PlacePiece(pieces, attacks, m, n, next.1, next.0, collector, occupied, prohibited, placed);
    AppendOccupancies(old(collector.configs), tried, skipped);
  }

  /** The loop over the remaining kinds at the free cell (row, col): each kind
      whose targets avoid the occupied squares is placed there, and the search
      goes on at the next cell. */
  method PlaceEachKind(pieces: map<Kind, nat>, attacks: AttackQuery, m: nat, n: nat, row: nat, col: nat,
                       collector: ConfigCollector, occupied: set<Pos>, prohibited: set<Pos>,
                       ghost placed: Placement)
    requires occupied == placed.Keys
    requires col < m && row < n
    requires forall k :: k in pieces ==> pieces[k] > 0
    modifies collector
    ensures collector.configs
         == old(collector.configs) + Occupancies(TryKinds(attacks, m, n, pieces, row, col, placed, prohibited, KindOrder))
    decreases n - row, m - col, 0, 1
  {
    var i := 0;
    while i < |KindOrder|
      invariant i <= |KindOrder|
      invariant collector.configs
             == old(collector.configs) + Occupancies(TryKinds(attacks, m, n, pieces, row, col, placed, prohibited, KindOrder[..i]))
    {
      PlaceKind(KindOrder[i], pieces, attacks, m, n, row, col, collector, occupied, prohibited, placed);
      TryKindsStep(attacks, m, n, pieces, row, col, placed, prohibited, i, old(collector.configs));
      i := i + 1;
    }
    assert KindOrder[..|KindOrder|] == KindOrder;
  }

  /** The body of that loop for kind `p`: when a piece of that kind is left
      and its targets avoid the occupied squares, it is placed on (row, col)
      and the search goes on at the next cell with one piece fewer. */
  method PlaceKind(p: Kind, pieces: map<Kind, nat>, attacks: AttackQuery, m: nat, n: nat, row: nat, col: nat,
                   collector: ConfigCollector, occupied: set<Pos>, prohibited: set<Pos>,
                   ghost placed: Placement)
    requires occupied == placed.Keys
    requires col < m && row < n
    requires forall k :: k in pieces ==> pieces[k] > 0
    modifies collector
    ensures collector.configs
         == old(collector.configs) + Occupancies(TryKind(attacks, m, n, pieces, row, col, placed, prohibited, p))
    decreases n - row, m - col, 0, 0
  {
    if p in pieces {
      var targets := attacks(p, (row, col));
      if occupied * targets == {} {
        var next := NextColRow(col, row, m);
        PlacePiece(pieces[p := pieces[p] - 1], attacks, m, n, next.1, next.0, collector,
                   occupied + {(row, col)}, prohibited + targets, placed[(row, col) := p]);
        return;
      }
    }
    assert TryKind(attacks, m, n, pieces, row, col, placed, prohibited, p) == [];
  }

  /** The piece counts keyed by kind, from the counts keyed by tag. */
  function CountsOf(pieces: map<char, nat>): (counts: map<Kind, nat>)
    ensures forall tag :: tag in pieces && KindOf(tag).Some? ==> Count(counts, KindOf(tag).value) == pieces[tag]
    ensures forall k :: Symbol(k) !in pieces ==> Count(counts, k) == 0
  {
    map k | k in {Knight, King, Rook, Bishop, Queen} && Symbol(k) in pieces :: pieces[Symbol(k)]
  }

  /** Every configuration of `pieces` (tag to count) on a board of `m` columns
      and `n` rows, in the order the search finds them. A tag with a nonzero
      count must be registered; tags with a zero count are dropped unread. */
  method GetUniqueConfigurations(m: nat, n: nat, pieces: map<char, nat>) returns (configs: seq<set<Pos>>)
    requires forall tag :: tag in pieces && pieces[tag] > 0 ==> KindOf(tag).Some?
    ensures configs == Occupancies(Configs(AttacksOn(AsWritten, m, n), m, n, CountsOf(pieces), 0, 0, map[], {}))
    ensures forall c :: c in configs <==> ValidConfig(AttacksOn(AsWritten, m, n), m, n, CountsOf(pieces), c)
    ensures Total(CountsOf(pieces)) == 0 ==> configs == [{}]
    ensures Total(CountsOf(pieces)) > m * n ==> configs == []
    ensures forall i, j :: 0 <= i < j < |configs| && configs[i] == configs[j] ==>
              exists t1, t2 :: t1 != t2 && Tagging(AttacksOn(AsWritten, m, n), CountsOf(pieces), configs[i], t1)
                                        && Tagging(AttacksOn(AsWritten, m, n), CountsOf(pieces), configs[i], t2)
    ensures forall c, t1, t2 :: && ValidConfig(AttacksOn(AsWritten, m, n), m, n, CountsOf(pieces), c) && t1 != t2
                                && Tagging(AttacksOn(AsWritten, m, n), CountsOf(pieces), c, t1)
                                && Tagging(AttacksOn(AsWritten, m, n), CountsOf(pieces), c, t2) ==>
              exists i, j :: 0 <= i < j < |configs| && configs[i] == c && configs[j] == c
  {
    var collector := new ConfigCollector();
    ghost var placed: Placement := map[];
    PlacePiece(CountsOf(pieces), AttacksOn(AsWritten, m, n), m, n, 0, 0, collector, {}, {}, placed);
    configs := collector.configs;
    SearchResults(AttacksOn(AsWritten, m, n), m, n, CountsOf(pieces));
    RepeatsAreOtherKinds(AttacksOn(AsWritten, m, n), m, n, CountsOf(pieces));
    OtherKindsRepeat(AttacksOn(AsWritten, m, n), m, n, CountsOf(pieces));
  }
}
