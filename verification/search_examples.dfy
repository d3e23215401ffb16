/** Concrete results of the whole search: the configurations the repository's
    unit test expects for two Kings and a Rook on a 3x3 board, and a
    configuration the source's King guards let through. */
module SearchExamples {
  import opened Pieces
  import opened PieceExamples
  import opened Enumeration
  import opened Search

  /** The configurations the search returns for `pieces` on an m-by-n board,
      with the source's attack guards. */
  function Found(m: nat, n: nat, pieces: map<char, nat>): seq<set<Pos>>
  {
    Occupancies(Configs(AttacksOn(AsWritten, m, n), m, n, CountsOf(pieces), 0, 0, map[], {}))
  }

  /** The pieces of the repository's 3x3 unit test: two Kings and a Rook. */
  const KingsAndRook: map<char, nat> := map['k' := 2, 'r' := 1]

  /** One King and one Rook. */
  const KingAndRook: map<char, nat> := map['k' := 1, 'r' := 1]

  lemma TwoKingsOneRook()
    ensures CountsOf(KingsAndRook) == map[King := 2, Rook := 1]
  {
  }

  lemma OneKingOneRook()
    ensures CountsOf(KingAndRook) == map[King := 1, Rook := 1]
  {
  }

  /** King targets from the other corners of the 3x3 board. */
  lemma KingFromOtherCorners()
    ensures KingTargets(3, 3, 0, 2) == {(0, 1), (1, 1), (1, 2)}
    ensures KingTargets(3, 3, 2, 0) == {(1, 0), (1, 1), (2, 1)}
    ensures KingTargets(3, 3, 2, 2) == {(1, 2), (1, 1), (2, 1)}
  {
  }

  /** A placement is found, as its set of squares, once the search would
      find it. */
  lemma Emitted(attacks: AttackQuery, m: nat, n: nat, counts: map<Kind, nat>, t: Placement)
    requires forall p :: p in t ==> OnBoard(m, n, p)
    requires forall k :: KindCount(t, k) == Count(counts, k)
    requires AttackFree(attacks, t)
    ensures t.Keys in Occupancies(Configs(attacks, m, n, counts, 0, 0, map[], {}))
  {
    SearchComplete(attacks, m, n, counts, t);
    KeysAmongOccupancies(Configs(attacks, m, n, counts, 0, 0, map[], {}), t);
  }

  /** The kinds counted in a placement of two Kings and a Rook. */
  lemma KingsAndRookCounts(k1: Pos, k2: Pos, r: Pos)
    requires k1 != k2 && k1 != r && k2 != r
    ensures forall k :: KindCount(map[k1 := King, k2 := King, r := Rook], k) == Count(map[King := 2, Rook := 1], k)
  {
    var empty: Placement := map[];
    forall k
      ensures KindCount(map[k1 := King, k2 := King, r := Rook], k) == Count(map[King := 2, Rook := 1], k)
    {
      KindCountAtMost(empty, k);
      KindCountAdd(empty, k1, King, k);
      KindCountAdd(empty[k1 := King], k2, King, k);
      KindCountAdd(empty[k1 := King][k2 := King], r, Rook, k);
      assert empty[k1 := King][k2 := King][r := Rook] == map[k1 := King, k2 := King, r := Rook];
    }
  }

  /** Kings on `k1` and `k2` and a Rook on `r` stand on distinct squares of
      the board, and none lists another among its targets. */
  ghost predicate KingsAndRookApart(attacks: AttackQuery, m: nat, n: nat, k1: Pos, k2: Pos, r: Pos)
  {
    && k1 != k2 && k1 != r && k2 != r
    && OnBoard(m, n, k1) && OnBoard(m, n, k2) && OnBoard(m, n, r)
    && k2 !in attacks(King, k1) && r !in attacks(King, k1)
    && k1 !in attacks(King, k2) && r !in attacks(King, k2)
    && k1 !in attacks(Rook, r) && k2 !in attacks(Rook, r)
  }

  /** Two Kings and a Rook, none listing another among its targets, are
      found by the search. */
  lemma KingsAndRookFound(attacks: AttackQuery, m: nat, n: nat, k1: Pos, k2: Pos, r: Pos)
    requires KingsAndRookApart(attacks, m, n, k1, k2, r)
    ensures {k1, k2, r} in Occupancies(Configs(attacks, m, n, map[King := 2, Rook := 1], 0, 0, map[], {}))
  {
    var t := map[k1 := King, k2 := King, r := Rook];
    KingsAndRookCounts(k1, k2, r);
    assert AttackFree(attacks, t) by {
      forall p, q | p in t && q in t && p != q
        ensures q !in attacks(t[p], p)
      {
        if p == r {
          assert t[p] == Rook;
        } else {
          assert t[p] == King;
        }
      }
    }
    Emitted(attacks, m, n, map[King := 2, Rook := 1], t);
    assert t.Keys == {k1, k2, r};
  }

  /** Two Kings and a Rook kept apart by the source's 3x3 guards are among
      the configurations found for the tags of the 3x3 unit test. */
  lemma ThreeByThreeFound(k1: Pos, k2: Pos, r: Pos, found: set<Pos>)
    requires KingsAndRookApart(AttacksOn(AsWritten, 3, 3), 3, 3, k1, k2, r)
    requires found == {k1, k2, r}
    ensures found in Found(3, 3, KingsAndRook)
  {
    KingsAndRookFound(AttacksOn(AsWritten, 3, 3), 3, 3, k1, k2, r);
    TwoKingsOneRook();
  }

  /** The source's guards on 3x3 keep the pieces of `FirstExpectedFound`
      apart. */
  lemma FirstApart()
    ensures KingsAndRookApart(AttacksOn(AsWritten, 3, 3), 3, 3, (0, 0), (0, 2), (2, 1))
  {
    var a := AttacksOn(AsWritten, 3, 3);
    assert a(King, (0, 0)) == {(0, 1), (1, 1), (1, 0)} by { KingFromCorner(); }
    assert a(King, (0, 2)) == {(0, 1), (1, 1), (1, 2)} by { KingFromOtherCorners(); }
    assert a(Rook, (2, 1)) == RookTargets(3, 3, 2, 1);
    RookTargetsExact(3, 3, 2, 1);
  }

  /** Two Kings on (0, 0) and (0, 2), a Rook on (2, 1). */
  lemma FirstExpectedFound()
    ensures {(0, 0), (0, 2), (2, 1)} in Found(3, 3, KingsAndRook)
  {
    FirstApart();
    ThreeByThreeFound((0, 0), (0, 2), (2, 1), {(0, 0), (0, 2), (2, 1)});
  }

  /** The source's guards on 3x3 keep the pieces of `SecondExpectedFound`
      apart. */
  lemma SecondApart()
    ensures KingsAndRookApart(AttacksOn(AsWritten, 3, 3), 3, 3, (2, 0), (0, 0), (1, 2))
  {
    var a := AttacksOn(AsWritten, 3, 3);
    assert a(King, (2, 0)) == {(1, 0), (1, 1), (2, 1)} by { KingFromOtherCorners(); }
    assert a(King, (0, 0)) == {(0, 1), (1, 1), (1, 0)} by { KingFromCorner(); }
    assert a(Rook, (1, 2)) == RookTargets(3, 3, 1, 2);
    RookTargetsExact(3, 3, 1, 2);
  }

  /** Two Kings on (2, 0) and (0, 0), a Rook on (1, 2). */
  lemma SecondExpectedFound()
    ensures {(1, 2), (2, 0), (0, 0)} in Found(3, 3, KingsAndRook)
  {
    SecondApart();
    ThreeByThreeFound((2, 0), (0, 0), (1, 2), {(1, 2), (2, 0), (0, 0)});
  }

  /** The source's guards on 3x3 keep the pieces of `ThirdExpectedFound`
      apart. */
  lemma ThirdApart()
    ensures KingsAndRookApart(AttacksOn(AsWritten, 3, 3), 3, 3, (2, 0), (2, 2), (0, 1))
  {
    var a := AttacksOn(AsWritten, 3, 3);
    assert a(King, (2, 0)) == {(1, 0), (1, 1), (2, 1)} by { KingFromOtherCorners(); }
    assert a(King, (2, 2)) == {(1, 2), (1, 1), (2, 1)} by { KingFromOtherCorners(); }
    assert a(Rook, (0, 1)) == RookTargets(3, 3, 0, 1);
    RookTargetsExact(3, 3, 0, 1);
  }

  /** Two Kings on (2, 0) and (2, 2), a Rook on (0, 1). */
  lemma ThirdExpectedFound()
    ensures {(0, 1), (2, 0), (2, 2)} in Found(3, 3, KingsAndRook)
  {
    ThirdApart();
    ThreeByThreeFound((2, 0), (2, 2), (0, 1), {(0, 1), (2, 0), (2, 2)});
  }

  /** The source's guards on 3x3 keep the pieces of `FourthExpectedFound`
      apart. */
  lemma FourthApart()
    ensures KingsAndRookApart(AttacksOn(AsWritten, 3, 3), 3, 3, (0, 2), (2, 2), (1, 0))
  {
    var a := AttacksOn(AsWritten, 3, 3);
    assert a(King, (0, 2)) == {(0, 1), (1, 1), (1, 2)} by { KingFromOtherCorners(); }
    assert a(King, (2, 2)) == {(1, 2), (1, 1), (2, 1)} by { KingFromOtherCorners(); }
    assert a(Rook, (1, 0)) == RookTargets(3, 3, 1, 0);
    RookTargetsExact(3, 3, 1, 0);
  }

  /** Two Kings on (0, 2) and (2, 2), a Rook on (1, 0). */
  lemma FourthExpectedFound()
    ensures {(1, 0), (0, 2), (2, 2)} in Found(3, 3, KingsAndRook)
  {
    FourthApart();
    ThreeByThreeFound((0, 2), (2, 2), (1, 0), {(1, 0), (0, 2), (2, 2)});
  }

  /** The kinds counted in a placement of one King and one Rook. */
  lemma KingAndRookCounts(k: Pos, r: Pos)
    requires k != r
    ensures forall kind :: KindCount(map[k := King, r := Rook], kind) == Count(map[King := 1, Rook := 1], kind)
  {
    var empty: Placement := map[];
    forall kind
      ensures KindCount(map[k := King, r := Rook], kind) == Count(map[King := 1, Rook := 1], kind)
    {
      KindCountAtMost(empty, kind);
      KindCountAdd(empty, k, King, kind);
      KindCountAdd(empty[k := King], r, Rook, kind);
      assert empty[k := King][r := Rook] == map[k := King, r := Rook];
    }
  }

  /** A King and a Rook, neither listing the other among its targets, are
      found by the search. */
  lemma KingAndRookFound(attacks: AttackQuery, m: nat, n: nat, k: Pos, r: Pos)
    requires k != r
    requires OnBoard(m, n, k) && OnBoard(m, n, r)
    requires r !in attacks(King, k) && k !in attacks(Rook, r)
    ensures {k, r} in Occupancies(Configs(attacks, m, n, map[King := 1, Rook := 1], 0, 0, map[], {}))
  {
    var t := map[k := King, r := Rook];
    KingAndRookCounts(k, r);
    assert AttackFree(attacks, t) by {
      forall p, q | p in t && q in t && p != q
        ensures q !in attacks(t[p], p)
      {
        if p == r {
          assert t[p] == Rook;
        } else {
          assert t[p] == King;
        }
      }
    }
    Emitted(attacks, m, n, map[King := 1, Rook := 1], t);
    assert t.Keys == {k, r};
  }

  /** The source's guards on 2 columns and 3 rows let a King on (1, 0) and a
      Rook on (2, 1) stand together. */
  lemma KingRookApart()
    ensures var a := AttacksOn(AsWritten, 2, 3);
            (2, 1) !in a(King, (1, 0)) && (1, 0) !in a(Rook, (2, 1))
  {
    assert KingTargets(2, 3, 1, 0) == {(0, 0), (0, 1), (1, 1)};
    RookTargetsExact(2, 3, 2, 1);
  }

  /** On a board of 2 columns and 3 rows, a King on (1, 0) and a Rook on
      (2, 1) are returned together although the King attacks the Rook: the
      King's guard `row + 1 < m` drops its lower neighbours, and a Rook does
      not attack diagonally. */
  lemma KingThreatenedRookFound()
    ensures Threatens(King, (1, 0), (2, 1))
    ensures {(1, 0), (2, 1)} in Found(2, 3, KingAndRook)
  {
    KingRookApart();
    KingAndRookFound(AttacksOn(AsWritten, 2, 3), 2, 3, (1, 0), (2, 1));
    OneKingOneRook();
  }
}
