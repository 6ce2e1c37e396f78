/**
 * The 32-bit occupancy bitmap of a HAMT table (src/hamt.c:19-21, 105-117).
 *
 * Bit positions are `bv32` values below 32, as the source's `uint32_t` indices
 * are. `CountBelow` is the reference definition of "number of set bits below a
 * position"; `Popcount` and `GetPos` are the source's functions, proved against it.
 */
module Bits {

  /** Bit `i` of `b` is set. */
  predicate Bit(b: bv32, i: bv32)
    requires i < 32
  {
    b & (1 << i) != 0
  }

  /** The number of set bits of `b` at positions strictly below `n`. */
  function CountBelow(b: bv32, n: bv32): nat
    requires n <= 32
  {
    if n == 0 then 0 else CountBelow(b, n - 1) + (if Bit(b, n - 1) then 1 else 0)
  }

  /** `get_popcount`: the number of set bits of `n`. */
  function Popcount(n: bv32): (r: nat)
    ensures r == CountBelow(n, 32)
    ensures r <= 32
  {
    CountBelowBound(n, 32);
    CountBelow(n, 32)
  }

  /** `has_index`: whether the table with bitmap `bitmap` has a row for chunk `index`. */
  function HasIndex(bitmap: bv32, index: bv32): (r: bool)
    requires index < 32
    ensures r == Bit(bitmap, index)
    ensures r <==> CountBelow(bitmap, index + 1) == CountBelow(bitmap, index) + 1
  {
    bitmap & (1 << index) != 0
  }

  /** `b | (1 << i)`: the bitmap with bit `i` set as well. */
  function WithBit(b: bv32, i: bv32): (r: bv32)
    requires i < 32
    ensures forall j: bv32 :: j < 32 ==> Bit(r, j) == (Bit(b, j) || j == i)
    ensures !Bit(b, i) ==> Popcount(r) == Popcount(b) + 1
  {
    forall j: bv32 | j < 32
      ensures Bit(b | (1 << i), j) == (Bit(b, j) || j == i)
    {
      BitOfSet(b, i, j);
    }
    if !Bit(b, i) then
      CountAfterSet(b, i, 32);
      b | (1 << i)
    else
      b | (1 << i)
  }

  /** `b & ~(1 << i)`: the bitmap with bit `i` cleared. */
  function WithoutBit(b: bv32, i: bv32): (r: bv32)
    requires i < 32
    ensures forall j: bv32 :: j < 32 ==> Bit(r, j) == (Bit(b, j) && j != i)
    ensures Bit(b, i) ==> Popcount(r) + 1 == Popcount(b)
  {
    forall j: bv32 | j < 32
      ensures Bit(b & !(1 << i), j) == (Bit(b, j) && j != i)
    {
      BitOfClear(b, i, j);
    }
    if Bit(b, i) then
      CountAfterClear(b, i, 32);
      b & !(1 << i)
    else
      b & !(1 << i)
  }

  /** `1 << i`: the bitmap with the single bit `i`. */
  function Singleton(i: bv32): (r: bv32)
    requires i < 32
    ensures forall j: bv32 :: j < 32 ==> Bit(r, j) == (j == i)
    ensures Popcount(r) == 1
  {
    var r := 1 << i;
    forall j: bv32 | j < 32
      ensures Bit(r, j) == (j == i)
    {
      BitOfSingle(i, j);
    }
    CountSingle(i, 32);
    r
  }

  /** Setting a clear bit and clearing it again gives back the bitmap. */
  lemma WithoutUndoesWith(b: bv32, i: bv32)
    requires i < 32 && !Bit(b, i)
    ensures WithoutBit(WithBit(b, i), i) == b
  {
    SetClear(b, i);
  }

  lemma SetClear(b: bv32, i: bv32)
    requires i < 32 && !Bit(b, i)
    ensures (b | (1 << i)) & !(1 << i) == b
  {
  }

  /**
   * `get_pos`: the dense row position of the sparse chunk index `sparseIndex`,
   * i.e. the number of set bits of `bitmap` below it. A set bit addresses a row
   * strictly inside the table.
   */
  function GetPos(sparseIndex: bv32, bitmap: bv32): (r: nat)
    requires sparseIndex < 32
    ensures r == CountBelow(bitmap, sparseIndex)
    ensures r <= Popcount(bitmap)
    ensures Bit(bitmap, sparseIndex) ==> r < Popcount(bitmap)
  {
    CountMasked(bitmap, sparseIndex, 32);
    CountStrictlyMonotone(bitmap, sparseIndex, 32);
    Popcount(bitmap & ((1 << sparseIndex) - 1))
  }

  lemma {:induction false} CountBelowBound(b: bv32, n: bv32)
    requires n <= 32
    ensures CountBelow(b, n) <= n as nat
  {
    if n > 0 {
      CountBelowBound(b, n - 1);
    }
  }

  lemma BitOfMask(b: bv32, i: bv32, j: bv32)
    requires i < 32 && j < 32
    ensures Bit(b & ((1 << i) - 1), j) == (Bit(b, j) && j < i)
  {
  }

  /** Masking with `(1 << i) - 1` keeps exactly the bits below `i`. */
  lemma CountMasked(b: bv32, i: bv32, n: bv32)
    requires i < 32 && n <= 32
    ensures CountBelow(b & ((1 << i) - 1), n) == CountBelow(b, if n <= i then n else i)
  {
    var m := b & ((1 << i) - 1);
    forall j: bv32 | j < 32
      ensures Bit(m, j) == (Bit(b, j) && j < i)
    {
      BitOfMask(b, i, j);
    }
    CountPrefix(m, b, i, n);
  }

  /** If `m` holds exactly the bits of `b` below `i`, it counts the bits of `b` below `i` in any wider range. */
  lemma {:induction false} CountPrefix(m: bv32, b: bv32, i: bv32, n: bv32)
    requires i < 32 && n <= 32
    requires forall j: bv32 :: j < 32 ==> Bit(m, j) == (Bit(b, j) && j < i)
    ensures CountBelow(m, n) == CountBelow(b, if n <= i then n else i)
  {
    if n > 0 {
      CountPrefix(m, b, i, n - 1);
    }
  }

  /** Counting up to a higher position counts at least as many bits, and one more if bit `i` is set. */
  lemma {:induction false} CountStrictlyMonotone(b: bv32, i: bv32, n: bv32)
    requires i < n <= 32
    ensures CountBelow(b, i) + (if Bit(b, i) then 1 else 0) <= CountBelow(b, n)
  {
    if n - 1 > i {
      CountStrictlyMonotone(b, i, n - 1);
    }
  }

  /** Two bitmaps that agree on every bit below `n` count the same number of bits below `n`. */
  lemma {:induction false} CountAgrees(b: bv32, c: bv32, n: bv32)
    requires n <= 32
    requires forall j: bv32 :: j < n ==> Bit(b, j) == Bit(c, j)
    ensures CountBelow(b, n) == CountBelow(c, n)
  {
    if n > 0 {
      CountAgrees(b, c, n - 1);
    }
  }

  lemma BitOfSet(b: bv32, i: bv32, j: bv32)
    requires i < 32 && j < 32
    ensures Bit(b | (1 << i), j) == (Bit(b, j) || j == i)
  {
  }

  lemma BitOfClear(b: bv32, i: bv32, j: bv32)
    requires i < 32 && j < 32
    ensures Bit(b & !(1 << i), j) == (Bit(b, j) && j != i)
  {
  }

  lemma BitOfSingle(i: bv32, j: bv32)
    requires i < 32 && j < 32
    ensures Bit(1 << i, j) == (j == i)
  {
  }

  /**
   * If `c` differs from `b` only in bit `i`, which `c` has and `b` lacks, `c`
   * counts one more bit in every range that contains `i`.
   */
  lemma {:induction false} CountOneMore(b: bv32, c: bv32, i: bv32, n: bv32)
    requires i < 32 && n <= 32 && !Bit(b, i) && Bit(c, i)
    requires forall j: bv32 :: j < 32 && j != i ==> Bit(c, j) == Bit(b, j)
    ensures CountBelow(c, n) == CountBelow(b, n) + (if i < n then 1 else 0)
  {
    if n <= i {
      CountAgrees(b, c, n);
    } else {
      CountOneMore(b, c, i, n - 1);
      if n - 1 != i {
        assert Bit(c, n - 1) == Bit(b, n - 1);
      }
    }
  }

  /** Setting a clear bit `i` adds one to the count of every range that contains `i`. */
  lemma CountAfterSet(b: bv32, i: bv32, n: bv32)
    requires i < 32 && n <= 32 && !Bit(b, i)
    ensures CountBelow(b | (1 << i), n) == CountBelow(b, n) + (if i < n then 1 else 0)
  {
    forall j: bv32 | j < 32
      ensures Bit(b | (1 << i), j) == (Bit(b, j) || j == i)
    {
      BitOfSet(b, i, j);
    }
    CountOneMore(b, b | (1 << i), i, n);
  }

  /** Clearing a set bit `i` removes one from the count of every range that contains `i`. */
  lemma CountAfterClear(b: bv32, i: bv32, n: bv32)
    requires i < 32 && n <= 32 && Bit(b, i)
    ensures CountBelow(b & !(1 << i), n) + (if i < n then 1 else 0) == CountBelow(b, n)
  {
    forall j: bv32 | j < 32
      ensures Bit(b & !(1 << i), j) == (Bit(b, j) && j != i)
    {
      BitOfClear(b, i, j);
    }
    CountOneMore(b & !(1 << i), b, i, n);
  }

  /** A bitmap with the single bit `i` counts one bit in every range that contains `i`. */
  lemma CountSingle(i: bv32, n: bv32)
    requires i < 32 && n <= 32
    ensures CountBelow(1 << i, n) == if i < n then 1 else 0
  {
    forall j: bv32 | j < 32
      ensures Bit(1 << i, j) == (j == i) && !Bit(0, j)
    {
      BitOfSingle(i, j);
    }
    AllClearCount(0, n);
    CountOneMore(0, 1 << i, i, n);
  }

  /** Distinct set bits have distinct dense positions, ordered as the bits are. */
  lemma PosOrdered(b: bv32, i: bv32, j: bv32)
    requires i < 32 && j < 32 && Bit(b, i) && Bit(b, j)
    ensures i < j <==> CountBelow(b, i) < CountBelow(b, j)
    ensures i == j <==> CountBelow(b, i) == CountBelow(b, j)
  {
    if i < j {
      CountStrictlyMonotone(b, i, j);
    } else if j < i {
      CountStrictlyMonotone(b, j, i);
    }
  }

  /**
   * When `c` is `b` with the clear bit `i` set, every set bit `q` of `b` keeps its
   * dense position if it lies below `i` and moves up by one otherwise.
   */
  lemma PosAfterInsert(b: bv32, c: bv32, i: bv32, q: bv32)
    requires i < 32 && q < 32 && !Bit(b, i) && Bit(c, i) && Bit(b, q)
    requires forall j: bv32 :: j < 32 && j != i ==> Bit(c, j) == Bit(b, j)
    ensures Bit(c, q)
    ensures CountBelow(c, q) ==
      if CountBelow(b, q) < CountBelow(b, i) then CountBelow(b, q) else CountBelow(b, q) + 1
  {
    CountOneMore(b, c, i, q);
    if q < i {
      CountStrictlyMonotone(b, q, i);
    } else {
      CountStrictlyMonotone(b, i, q);
    }
  }

  /**
   * When `c` is `b` with the set bit `i` cleared, every other set bit `q` of `b`
   * has a position distinct from that of `i`, keeps it if it lies below `i` and
   * moves down by one otherwise.
   */
  lemma PosAfterRemove(b: bv32, c: bv32, i: bv32, q: bv32)
    requires i < 32 && q < 32 && Bit(b, i) && !Bit(c, i) && Bit(b, q) && q != i
    requires forall j: bv32 :: j < 32 && j != i ==> Bit(c, j) == Bit(b, j)
    ensures Bit(c, q)
    ensures CountBelow(b, q) != CountBelow(b, i)
    ensures CountBelow(c, q) ==
      if CountBelow(b, q) < CountBelow(b, i) then CountBelow(b, q) else CountBelow(b, q) - 1
  {
    CountOneMore(c, b, i, q);
    PosOrdered(b, i, q);
  }

  /** Setting the clear bit `i` leaves the position that `i` addresses where it was. */
  lemma PosOfNewBit(b: bv32, i: bv32)
    requires i < 32 && !Bit(b, i)
    ensures GetPos(i, WithBit(b, i)) == GetPos(i, b)
  {
    CountOneMore(b, WithBit(b, i), i, i);
  }

  /** In a bitmap with the single bit `i`, chunk `i` addresses the first row. */
  lemma SingletonPos(i: bv32)
    requires i < 32
    ensures GetPos(i, Singleton(i)) == 0
  {
    assert forall j: bv32 :: j < 32 ==> !Bit(0, j);
    CountOneMore(0, Singleton(i), i, i);
    AllClearCount(0, i);
  }

  /**
   * With exactly the bits `i` and `j` set, the lower of the two addresses the
   * first row and the higher the second.
   */
  lemma PairPos(i: bv32, j: bv32)
    requires i < 32 && j < 32 && i != j
    ensures Bit(WithBit(Singleton(i), j), i) && Bit(WithBit(Singleton(i), j), j)
    ensures Popcount(WithBit(Singleton(i), j)) == 2
    ensures GetPos(i, WithBit(Singleton(i), j)) == if j < i then 1 else 0
    ensures GetPos(j, WithBit(Singleton(i), j)) == if i < j then 1 else 0
  {
    var s := Singleton(i);
    var bm := WithBit(s, j);
    CountOneMore(s, bm, j, i);
    CountOneMore(s, bm, j, j);
    CountSingle(i, i);
    CountSingle(i, j);
  }

  /**
   * The known answers of the compact-index test: for the bitmap with bits 7, 15
   * and 19 set, chunk indices 0, 6, 7, 8, 14, 16, 18 and 20 map to rows
   * 0, 0, 0, 1, 1, 2, 2 and 3.
   */
  lemma GetPosKnownAnswers()
    ensures var bitmap: bv32 := (1 << 7) | (1 << 15) | (1 << 19);
      GetPos(0, bitmap) == 0 && GetPos(6, bitmap) == 0 && GetPos(7, bitmap) == 0 &&
      GetPos(8, bitmap) == 1 && GetPos(14, bitmap) == 1 && GetPos(16, bitmap) == 2 &&
      GetPos(18, bitmap) == 2 && GetPos(20, bitmap) == 3
  {
    var bitmap: bv32 := (1 << 7) | (1 << 15) | (1 << 19);
    var b7: bv32 := 1 << 7;
    var b15: bv32 := b7 | (1 << 15);
    assert !Bit(b7, 15) && !Bit(b15, 19);
    forall n: bv32 | n <= 32
      ensures CountBelow(bitmap, n) == (if 7 < n then 1 else 0) + (if 15 < n then 1 else 0) + (if 19 < n then 1 else 0)
    {
      CountSingle(7, n);
      CountAfterSet(b7, 15, n);
      CountAfterSet(b15, 19, n);
    }
  }

  /** `get_popcount` on the test's spot checks: 0, 42, 1337 and `UINT32_MAX` have 0, 3, 6 and 32 set bits. */
  lemma PopcountKnownAnswers()
    ensures Popcount(0) == 0 && Popcount(42) == 3 && Popcount(1337) == 6 && Popcount(0xFFFF_FFFF) == 32
  {
    assert forall j: bv32 :: j < 32 ==> !Bit(0, j);
    assert forall j: bv32 :: j < 32 ==> Bit(0xFFFF_FFFF, j);
    AllClearCount(0, 32);
    AllSetCount(0xFFFF_FFFF, 32);
    SmallCount(42, 6);
    SmallCount(1337, 11);
  }

  lemma {:induction false} AllClearCount(b: bv32, n: bv32)
    requires n <= 32 && forall j: bv32 :: j < 32 ==> !Bit(b, j)
    ensures CountBelow(b, n) == 0
  {
    if n > 0 {
      AllClearCount(b, n - 1);
    }
  }

  lemma {:induction false} AllSetCount(b: bv32, n: bv32)
    requires n <= 32 && forall j: bv32 :: j < 32 ==> Bit(b, j)
    ensures CountBelow(b, n) == n as nat
  {
    if n > 0 {
      AllSetCount(b, n - 1);
    }
  }

  /** A value below `1 << n` has no set bits at or above `n`. */
  lemma {:induction false} SmallCount(b: bv32, n: bv32)
    requires n < 32 && b < 1 << n
    ensures CountBelow(b, 32) == CountBelow(b, n)
  {
    forall j: bv32 | n <= j < 32
      ensures !Bit(b, j)
    {
    }
    HighClear(b, n, 32);
  }

  lemma {:induction false} HighClear(b: bv32, n: bv32, m: bv32)
    requires n <= m <= 32
    requires forall j: bv32 :: n <= j < 32 ==> !Bit(b, j)
    ensures CountBelow(b, m) == CountBelow(b, n)
  {
    if m > n {
      HighClear(b, n, m - 1);
    }
  }
}
