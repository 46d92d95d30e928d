/** The two-level bitmap behind the ready list and every event's wait list: a group byte whose bit y says
    that table byte y is not empty, and table bytes whose bit x says that priority 8*y + x is a member. */
module PrioBitmap {
  import opened Bits

  const TBL_SIZE: nat := 3
  const SLOTS: nat := 8 * TBL_SIZE

  ghost predicate ValidMap(grp: bv8, tbl: seq<bv8>) {
    |tbl| == TBL_SIZE && forall y: nat | y < 8 :: Bit(grp, y) <==> y < TBL_SIZE && tbl[y] != 0
  }

  /** The set of priorities a table stands for. */
  ghost function Members(tbl: seq<bv8>): set<nat>
    requires |tbl| == TBL_SIZE
  {
    set p: nat | p < SLOTS && Bit(tbl[p / 8], p % 8)
  }

  lemma EmptyMap(tbl: seq<bv8>)
    requires |tbl| == TBL_SIZE && forall y | 0 <= y < TBL_SIZE :: tbl[y] == 0
    ensures ValidMap(0, tbl) && Members(tbl) == {}
  {
    ZeroIffNoBit(0);
  }

  lemma InsertMember(grp: bv8, tbl: seq<bv8>, y: nat, x: nat, grp': bv8, tbl': seq<bv8>)
    requires ValidMap(grp, tbl) && y < TBL_SIZE && x < 8
    requires grp' == Or(grp, Mask(y)) && tbl' == tbl[y := Or(tbl[y], Mask(x))]
    ensures ValidMap(grp', tbl') && Members(tbl') == Members(tbl) + {8 * y + x}
  {
    SetBit(tbl[y], x, tbl'[y]);
    SetBit(grp, y, grp');
    forall k: nat | k < 8 ensures Bit(grp', k) <==> k < TBL_SIZE && tbl'[k] != 0 {}
    forall p: nat | p < SLOTS ensures p in Members(tbl') <==> p in Members(tbl) || p == 8 * y + x {}
  }

  lemma RemoveMember(grp: bv8, tbl: seq<bv8>, y: nat, x: nat, grp': bv8, tbl': seq<bv8>)
    requires ValidMap(grp, tbl) && y < TBL_SIZE && x < 8
    requires tbl' == tbl[y := AndNot(tbl[y], Mask(x))] && grp' == if tbl'[y] == 0 then AndNot(grp, Mask(y)) else grp
    ensures ValidMap(grp', tbl') && Members(tbl') == Members(tbl) - {8 * y + x}
  {
    ClearBit(tbl[y], x, tbl'[y]);
    ClearBit(grp, y, AndNot(grp, Mask(y)));
    forall k: nat | k < 8 ensures Bit(grp', k) <==> k < TBL_SIZE && tbl'[k] != 0 {}
    forall p: nat | p < SLOTS ensures p in Members(tbl') <==> p in Members(tbl) && p != 8 * y + x {}
  }

  lemma GroupZeroIffEmpty(grp: bv8, tbl: seq<bv8>)
    requires ValidMap(grp, tbl)
    ensures grp == 0 <==> Members(tbl) == {}
  {
    ZeroIffNoBit(grp);
    if grp != 0 {
      var y :| 0 <= y < 8 && Bit(grp, y);
      ZeroIffNoBit(tbl[y]);
      var x :| 0 <= x < 8 && Bit(tbl[y], x);
      assert (8 * y + x) / 8 == y && (8 * y + x) % 8 == x;
      assert 8 * y + x in Members(tbl);
    } else {
      forall p: nat | p < SLOTS ensures p !in Members(tbl) {
        assert !Bit(grp, p / 8);
        ZeroIffNoBit(tbl[p / 8]);
      }
    }
  }

  /** Two table look-ups find the smallest member. */
  lemma TopIsMin(grp: bv8, tbl: seq<bv8>)
    requires ValidMap(grp, tbl) && Members(tbl) != {}
    ensures grp != 0 && UnMap(grp) < TBL_SIZE && UnMap(tbl[UnMap(grp)]) < 8
    ensures var p := 8 * UnMap(grp) + UnMap(tbl[UnMap(grp)]);
      p in Members(tbl) && forall q :: q in Members(tbl) ==> p <= q
  {
    GroupZeroIffEmpty(grp, tbl);
    UnMapIsLowest(grp);
    var y := UnMap(grp);
    UnMapIsLowest(tbl[y]);
    var x := UnMap(tbl[y]);
    assert (8 * y + x) / 8 == y && (8 * y + x) % 8 == x;
    forall q | q in Members(tbl) ensures 8 * y + x <= q {
      ZeroIffNoBit(tbl[q / 8]);
      assert Bit(grp, q / 8) && y <= q / 8;
      assert q / 8 == y ==> x <= q % 8;
    }
  }
}
