/** What the operations on 32-bit status words (tools/slabs.c) do to the bits, counted from the most
    significant one: the slabs keep the bits of the words one by one. */
module Words {
  const ONES: bv32 := 0xffff_ffff

  /** toggle_bit: exclusive or with 0x80000000 >> i flips bit i and no other. */
  lemma {:induction false} ToggleFlips(w: bv32, i: bv32, k: bv32)
    requires i < 32 && k < 32
    ensures (w ^ (0x8000_0000 >> i)) & (0x8000_0000 >> k) != 0
       <==> if i == k then w & (0x8000_0000 >> k) == 0 else w & (0x8000_0000 >> k) != 0
  {
  }

  /** allocate_slab: or with 1 << (31 - j) sets bit j and no other. */
  lemma {:induction false} OrSets(w: bv32, j: bv32, k: bv32)
    requires j < 32 && k < 32
    ensures (w | (1 << (31 - j))) & (0x8000_0000 >> k) != 0 <==> j == k || w & (0x8000_0000 >> k) != 0
  {
  }

  /** get_free_index: if ~w is below 2^(32 - n), that is, has n leading zeros or more, then w starts with
      n ones. */
  lemma {:induction false} LeadingOnes(w: bv32, n: bv32, k: bv32)
    requires k < n < 32 && !w <= ONES >> n
    ensures w & (0x8000_0000 >> k) != 0
  {
  }

  lemma {:induction false} TopBit(x: bv32, m: bv32)
    requires m & (m + 1) == 0 && x <= m && x > m / 2
    ensures x & (m - m / 2) != 0
  {
  }

  lemma {:induction false} TopOf(m: bv32, n: bv32)
    requires n < 32 && m == ONES >> n
    ensures m & (m + 1) == 0 && m - m / 2 == 0x8000_0000 >> n
  {
  }

  /** And if ~w is not below 2^(31 - n), that is, has no more leading zeros, a zero follows the ones. */
  lemma {:induction false} FirstZero(w: bv32, n: bv32, m: bv32)
    requires n < 32 && m == ONES >> n && m / 2 < !w <= m
    ensures w & (0x8000_0000 >> n) == 0
  {
    TopOf(m, n);
    var top := m - m / 2;
    TopBit(!w, m);
    TopClear(w, m, top);
  }

  lemma {:induction false} TopClear(w: bv32, m: bv32, top: bv32)
    requires top == m - m / 2 && top & (top - 1) == 0 && !w & top != 0
    ensures w & top == 0
  {
  }

  /** Every bit of ~0 is set. */
  lemma {:induction false} AllOnes(w: bv32, k: bv32)
    requires k < 32 && w == ONES
    ensures w & (0x8000_0000 >> k) != 0
  {
  }
}
