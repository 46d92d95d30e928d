module Bits {
  /** The single-bit mask 1 << j. */
  function Mask(j: nat): bv8
    requires j < 8
  {
    if j == 0 then 0x01 else if j == 1 then 0x02 else if j == 2 then 0x04 else if j == 3 then 0x08
    else if j == 4 then 0x10 else if j == 5 then 0x20 else if j == 6 then 0x40 else 0x80
  }

  predicate Bit(b: bv8, j: nat)
    requires j < 8
  {
    b & Mask(j) != 0
  }

  const UNMAP_TBL: seq<seq<nat>> := [
    [0, 0, 1, 0, 2, 0, 1, 0, 3, 0, 1, 0, 2, 0, 1, 0],
    [4, 0, 1, 0, 2, 0, 1, 0, 3, 0, 1, 0, 2, 0, 1, 0],
    [5, 0, 1, 0, 2, 0, 1, 0, 3, 0, 1, 0, 2, 0, 1, 0],
    [4, 0, 1, 0, 2, 0, 1, 0, 3, 0, 1, 0, 2, 0, 1, 0],
    [6, 0, 1, 0, 2, 0, 1, 0, 3, 0, 1, 0, 2, 0, 1, 0],
    [4, 0, 1, 0, 2, 0, 1, 0, 3, 0, 1, 0, 2, 0, 1, 0],
    [5, 0, 1, 0, 2, 0, 1, 0, 3, 0, 1, 0, 2, 0, 1, 0],
    [4, 0, 1, 0, 2, 0, 1, 0, 3, 0, 1, 0, 2, 0, 1, 0],
    [7, 0, 1, 0, 2, 0, 1, 0, 3, 0, 1, 0, 2, 0, 1, 0],
    [4, 0, 1, 0, 2, 0, 1, 0, 3, 0, 1, 0, 2, 0, 1, 0],
    [5, 0, 1, 0, 2, 0, 1, 0, 3, 0, 1, 0, 2, 0, 1, 0],
    [4, 0, 1, 0, 2, 0, 1, 0, 3, 0, 1, 0, 2, 0, 1, 0],
    [6, 0, 1, 0, 2, 0, 1, 0, 3, 0, 1, 0, 2, 0, 1, 0],
    [4, 0, 1, 0, 2, 0, 1, 0, 3, 0, 1, 0, 2, 0, 1, 0],
    [5, 0, 1, 0, 2, 0, 1, 0, 3, 0, 1, 0, 2, 0, 1, 0],
    [4, 0, 1, 0, 2, 0, 1, 0, 3, 0, 1, 0, 2, 0, 1, 0]
  ]

  function Nibble(b: bv8): (n: nat)
    requires b < 16
    ensures n < 16
  {
    b as nat
  }

  function UnMap(b: bv8): nat
  {
    UNMAP_TBL[Nibble(b >> 4)][Nibble(b & 0x0F)]
  }

  lemma UnMapIsLowest(b: bv8)
    requires b != 0
    ensures UnMap(b) < 8 && Bit(b, UnMap(b))
    ensures forall j | 0 <= j < UnMap(b) :: !Bit(b, j)
  {
  }
  /** b |= m. */
  function Or(b: bv8, m: bv8): bv8 {
    b | m
  }

  /** b &= ~m. */
  function AndNot(b: bv8, m: bv8): bv8 {
    b & !m
  }

  lemma SetBit(b: bv8, j: nat, r: bv8)
    requires j < 8 && r == Or(b, Mask(j))
    ensures r != 0
    ensures forall k: nat | k < 8 :: Bit(r, k) <==> j == k || Bit(b, k)
  {
  }

  lemma ClearBit(b: bv8, j: nat, r: bv8)
    requires j < 8 && r == AndNot(b, Mask(j))
    ensures b == 0 ==> r == 0
    ensures forall k: nat | k < 8 :: Bit(r, k) <==> j != k && Bit(b, k)
  {
  }

  lemma ZeroIffNoBit(b: bv8)
    ensures b == 0 <==> forall k: nat | k < 8 :: !Bit(b, k)
  {
    if b != 0 {
      UnMapIsLowest(b);
    }
  }
}
