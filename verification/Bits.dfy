/** Single bits of machine words, and the multiply-and-look-up tricks that find the lowest and the highest. */
module Bits {
  /** The word with bit `k` alone: `1ULL << k`. */
  function Mask32(k: nat): bv32
    requires k < 32
  {
    if k == 0 then 1 else Mask32(k - 1) << 1
  }

  function Twice64(m: bv64): bv64
  {
    m << 1
  }

  function Mask64(k: nat): bv64
    requires k < 64
  {
    if k == 0 then 1 else Twice64(Mask64(k - 1))
  }

  predicate Bit32(x: bv32, k: nat)
  {
    k < 32 && Has32(x, Mask32(k))
  }

  predicate Bit64(x: bv64, k: nat)
  {
    k < 64 && Has64(x, Mask64(k))
  }

  predicate Single32(m: bv32)
  {
    m != 0 && m & (m - 1) == 0
  }

  lemma {:induction false} Mask32Is(k: nat)
    requires k < 32
    ensures Single32(Mask32(k)) && (k < 31 ==> Mask32(k) < 0x8000_0000)
    ensures Mask32(k) == Literal32(k)
  {
    if k > 0 {
      Mask32Is(k - 1);
      NextLiteral(k);
    }
    AllSingle(k);
  }

  lemma NextLiteral(k: nat)
    requires 0 < k < 32
    ensures Literal32(k) == Literal32(k - 1) << 1
  {
  }

  lemma AllSingle(k: nat)
    requires k < 32
    ensures Single32(Literal32(k)) && (k < 31 ==> Literal32(k) < 0x8000_0000)
  {
    if k < 16 {
      LowerSingle(k);
    } else {
      UpperSingle(k);
    }
  }

  lemma LowerSingle(k: nat)
    requires k < 16
    ensures Single32(Literal32(k)) && Literal32(k) < 0x8000_0000
  {
  }

  lemma UpperSingle(k: nat)
    requires 16 <= k < 32
    ensures Single32(Literal32(k)) && (k < 31 ==> Literal32(k) < 0x8000_0000)
  {
  }

  function Literal32(k: nat): bv32
    requires k < 32
  {
    if k == 0 then 0x1 else if k == 1 then 0x2 else if k == 2 then 0x4 else if k == 3 then 0x8
    else if k == 4 then 0x10 else if k == 5 then 0x20 else if k == 6 then 0x40 else if k == 7 then 0x80
    else if k == 8 then 0x100 else if k == 9 then 0x200 else if k == 10 then 0x400 else if k == 11 then 0x800
    else if k == 12 then 0x1000 else if k == 13 then 0x2000 else if k == 14 then 0x4000 else if k == 15 then 0x8000
    else if k == 16 then 0x1_0000 else if k == 17 then 0x2_0000 else if k == 18 then 0x4_0000 else if k == 19 then 0x8_0000
    else if k == 20 then 0x10_0000 else if k == 21 then 0x20_0000 else if k == 22 then 0x40_0000 else if k == 23 then 0x80_0000
    else if k == 24 then 0x100_0000 else if k == 25 then 0x200_0000 else if k == 26 then 0x400_0000 else if k == 27 then 0x800_0000
    else if k == 28 then 0x1000_0000 else if k == 29 then 0x2000_0000 else if k == 30 then 0x4000_0000 else 0x8000_0000
  }

  // ----- the lowest bit -----

  /** The table of `count_trailing_zero_32`. */
  function LowTable(i: bv32): nat
  {
    if i == 0 then 0 else if i == 1 then 1 else if i == 2 then 28 else if i == 3 then 2
    else if i == 4 then 29 else if i == 5 then 14 else if i == 6 then 24 else if i == 7 then 3
    else if i == 8 then 30 else if i == 9 then 22 else if i == 10 then 20 else if i == 11 then 15
    else if i == 12 then 25 else if i == 13 then 17 else if i == 14 then 4 else if i == 15 then 8
    else if i == 16 then 31 else if i == 17 then 27 else if i == 18 then 13 else if i == 19 then 23
    else if i == 20 then 21 else if i == 21 then 19 else if i == 22 then 16 else if i == 23 then 7
    else if i == 24 then 26 else if i == 25 then 12 else if i == 26 then 18 else if i == 27 then 6
    else if i == 28 then 11 else if i == 29 then 5 else if i == 30 then 10 else 9
  }

  function Ctz32(v: bv32): nat
  {
    LowTable(LowIndex(Lowest(v)))
  }

  function Lowest(v: bv32): bv32
  {
    v & (!v + 1)
  }

  function LowIndex(x: bv32): bv32
  {
    (x * 0x077CB531) >> 27
  }

  /** The table sends each single bit to its position. */
  lemma LowTableIsRight(k: nat)
    requires k < 32
    ensures LowTable(LowIndex(Literal32(k))) == k
  {
    if k < 16 {
      LowTableLower(k);
    } else {
      LowTableUpper(k);
    }
  }

  lemma LowTableLower(k: nat)
    requires k < 16
    ensures LowTable(LowIndex(Literal32(k))) == k
  {
  }

  lemma LowTableUpper(k: nat)
    requires 16 <= k < 32
    ensures LowTable(LowIndex(Literal32(k))) == k
  {
  }

  /** No bit of `v` below the single bit `m`. */
  predicate LowClear(v: bv32, m: bv32)
  {
    v & (m - 1) == 0
  }

  predicate Has32(v: bv32, m: bv32)
  {
    v & m != 0
  }

  predicate Doubles32(m: bv32, next: bv32)
  {
    m < 0x8000_0000 && next == m << 1
  }

  /** `v & (~v + 1)` is the lowest bit of `v`. */
  lemma LowestAlone(v: bv32, m: bv32)
    requires Single32(m) && Has32(v, m) && LowClear(v, m)
    ensures Lowest(v) == m
  {
  }

  lemma NextLow(v: bv32, m: bv32, next: bv32)
    requires Single32(m) && Doubles32(m, next) && !Has32(v, m) && LowClear(v, m)
    ensures LowClear(v, next)
  {
  }

  lemma NoBitLeft(v: bv32, m: bv32)
    requires m == 0x8000_0000 && !Has32(v, m) && LowClear(v, m)
    ensures v == 0
  {
  }

  lemma NextMask(k: nat)
    requires k < 32
    ensures Single32(Mask32(k)) && (k < 31 ==> Doubles32(Mask32(k), Mask32(k + 1))) && (k == 31 ==> Mask32(k) == 0x8000_0000)
  {
    Mask32Is(k);
    hide Single32;
  }

  lemma Ctz32Is(v: bv32, k: nat)
    requires k < 32 && Bit32(v, k) && LowClear(v, Mask32(k))
    ensures Ctz32(v) == k
  {
    hide LowTable, LowIndex, Lowest, Mask32, Literal32, Single32, LowClear, Has32;
    Mask32Is(k);
    LowestAlone(v, Mask32(k));
    LowTableIsRight(k);
  }

  /** `count_trailing_zero_32` is the position of the lowest bit. */
  lemma {:induction false} Ctz32From(v: bv32, k: nat)
    requires v != 0 && k < 32 && LowClear(v, Mask32(k)) && forall j | 0 <= j < k :: !Bit32(v, j)
    ensures Ctz32(v) < 32 && Bit32(v, Ctz32(v)) && forall j | 0 <= j < Ctz32(v) :: !Bit32(v, j)
    decreases 32 - k
  {
    hide Ctz32, Mask32, LowClear, Has32, Single32, Doubles32;
    NextMask(k);
    if Bit32(v, k) {
      Ctz32Is(v, k);
    } else if k == 31 {
      NoBitLeft(v, Mask32(k));
    } else {
      NextLow(v, Mask32(k), Mask32(k + 1));
      Ctz32From(v, k + 1);
    }
  }

  // ----- the highest bit -----

  /** The table of `log2_32`. */
  function HighTable(i: bv32): nat
  {
    if i == 0 then 0 else if i == 1 then 9 else if i == 2 then 1 else if i == 3 then 10
    else if i == 4 then 13 else if i == 5 then 21 else if i == 6 then 2 else if i == 7 then 29
    else if i == 8 then 11 else if i == 9 then 14 else if i == 10 then 16 else if i == 11 then 18
    else if i == 12 then 22 else if i == 13 then 25 else if i == 14 then 3 else if i == 15 then 30
    else if i == 16 then 8 else if i == 17 then 12 else if i == 18 then 20 else if i == 19 then 28
    else if i == 20 then 15 else if i == 21 then 17 else if i == 22 then 24 else if i == 23 then 7
    else if i == 24 then 19 else if i == 25 then 27 else if i == 26 then 23 else if i == 27 then 6
    else if i == 28 then 26 else if i == 29 then 5 else if i == 30 then 4 else 31
  }

  /** All bits from the highest of `v` down. */
  function Smear(v: bv32): bv32
  {
    var v1 := v | (v >> 1);
    var v2 := v1 | (v1 >> 2);
    var v4 := v2 | (v2 >> 4);
    var v8 := v4 | (v4 >> 8);
    v8 | (v8 >> 16)
  }

  function Log32(v: bv32): nat
  {
    HighTable(HighIndex(Smear(v)))
  }

  function HighIndex(x: bv32): bv32
  {
    (x * 0x07C4ACDD) >> 27
  }

  function UpTo32(m: bv32): bv32
  {
    m | (m - 1)
  }

  /** No bit of `v` above the single bit `m`. */
  predicate HighClear(v: bv32, m: bv32)
  {
    v & !UpTo32(m) == 0
  }

  lemma HighTableIsRight(k: nat)
    requires k < 32
    ensures HighTable(HighIndex(UpTo32(Literal32(k)))) == k
  {
    if k < 16 {
      HighTableLower(k);
    } else {
      HighTableUpper(k);
    }
  }

  lemma HighTableLower(k: nat)
    requires k < 16
    ensures HighTable(HighIndex(UpTo32(Literal32(k)))) == k
  {
  }

  lemma HighTableUpper(k: nat)
    requires 16 <= k < 32
    ensures HighTable(HighIndex(UpTo32(Literal32(k)))) == k
  {
  }

  lemma SmearsDown(v: bv32, m: bv32)
    requires Single32(m) && Has32(v, m) && HighClear(v, m)
    ensures Smear(v) == UpTo32(m)
  {
  }

  lemma NextHigh(v: bv32, m: bv32, next: bv32)
    requires Single32(m) && Doubles32(m, next) && !Has32(v, next) && HighClear(v, next)
    ensures HighClear(v, m)
  {
  }

  lemma NoBitAbove(v: bv32)
    requires !Has32(v, 1) && HighClear(v, 1)
    ensures v == 0
  {
  }

  lemma TopMask(v: bv32)
    ensures HighClear(v, 0x8000_0000)
  {
  }

  lemma Log32Is(v: bv32, k: nat)
    requires k < 32 && Bit32(v, k) && HighClear(v, Mask32(k))
    ensures Log32(v) == k
  {
    hide HighTable, HighIndex, Mask32, Literal32, Single32, HighClear, Has32, Smear, UpTo32;
    Mask32Is(k);
    SmearsDown(v, Mask32(k));
    HighTableIsRight(k);
  }

  /** `log2_32` is the position of the highest bit. */
  lemma {:induction false} Log32From(v: bv32, k: nat)
    requires v != 0 && k < 32 && HighClear(v, Mask32(k)) && forall j | k < j < 32 :: !Bit32(v, j)
    ensures Log32(v) < 32 && Bit32(v, Log32(v)) && forall j | Log32(v) < j < 32 :: !Bit32(v, j)
    decreases k
  {
    hide Log32, Mask32, HighClear, Has32, Single32, Doubles32;
    if Bit32(v, k) {
      Log32Is(v, k);
    } else if k == 0 {
      FirstMask();
      NoBitAbove(v);
    } else {
      NextMask(k - 1);
      NextHigh(v, Mask32(k - 1), Mask32(k));
      Log32From(v, k - 1);
    }
  }

  lemma FirstMask()
    ensures Mask32(0) == 1
  {
  }

  // ----- words of 64 bits -----

  function Low(v: bv64): bv32
  {
    (v & 0xFFFF_FFFF) as bv32
  }

  function High(v: bv64): bv32
  {
    (v >> 32) as bv32
  }

  /** `count_trailing_zero_64`. */
  function Ctz64(v: bv64): (k: nat)
  {
    if v & 0xFFFF_FFFF != 0 then Ctz32(Low(v)) else Ctz32(High(v)) + 32
  }

  /** `log2_64`. */
  function Log64(v: bv64): (k: nat)
  {
    if v > 0xFFFF_FFFF then Log32(High(v)) + 32 else Log32(Low(v))
  }

  function Wide(m: bv32): bv64
  {
    m as bv64
  }

  function Upper(m: bv32): bv64
  {
    (m as bv64) << 32
  }

  function And(x: bv64, m: bv64): bv64
  {
    x & m
  }

  predicate Has64(x: bv64, m: bv64)
  {
    And(x, m) != 0
  }

  lemma WideDoubles(m: bv32, next: bv32)
    requires Doubles32(m, next)
    ensures Twice64(Wide(m)) == Wide(next) && Twice64(Upper(m)) == Upper(next)
  {
  }

  lemma FirstUpper()
    ensures Wide(1) == 1 && Twice64(Wide(0x8000_0000)) == Upper(1)
  {
  }

  lemma {:induction false} Mask64Is(k: nat)
    requires k < 32
    ensures Mask64(k) == Wide(Mask32(k)) && Mask64(k + 32) == Upper(Mask32(k))
  {
    hide Wide, Upper, Doubles32, Mask32, Twice64, Single32;
    FirstMask();
    FirstUpper();
    if k > 0 {
      Mask64Is(k - 1);
      NextMask(k - 1);
      WideDoubles(Mask32(k - 1), Mask32(k));
    } else {
      Mask64Low(31);
      NextMask(31);
    }
  }

  lemma {:induction false} Mask64Low(k: nat)
    requires k < 32
    ensures Mask64(k) == Wide(Mask32(k))
  {
    hide Wide, Upper, Doubles32, Mask32, Twice64, Single32;
    FirstMask();
    FirstUpper();
    if k > 0 {
      Mask64Low(k - 1);
      NextMask(k - 1);
      WideDoubles(Mask32(k - 1), Mask32(k));
    }
  }

  lemma HalvesHave(x: bv64, m: bv32)
    ensures Has64(x, Wide(m)) <==> Has32(Low(x), m)
    ensures Has64(x, Upper(m)) <==> Has32(High(x), m)
  {
  }

  lemma HalfBits(x: bv64, k: nat)
    requires k < 32
    ensures Bit64(x, k) <==> Bit32(Low(x), k)
    ensures Bit64(x, k + 32) <==> Bit32(High(x), k)
  {
    hide Wide, Upper, Mask32, Mask64, Twice64, Has64, Has32, Low, High;
    Mask64Is(k);
    HalvesHave(x, Mask32(k));
  }

  lemma HalvesZero(x: bv64)
    ensures x & 0xFFFF_FFFF == 0 <==> Low(x) == 0
    ensures x > 0xFFFF_FFFF <==> High(x) != 0
    ensures x == 0 <==> Low(x) == 0 && High(x) == 0
  {
  }

  lemma NoBitsInZero(k: nat)
    ensures !Bit32(0, k)
  {
  }

  /** `count_trailing_zero_64` is the position of the lowest bit. */
  lemma Ctz64IsLowest(x: bv64)
    requires x != 0
    ensures Ctz64(x) < 64 && Bit64(x, Ctz64(x)) && forall j | 0 <= j < Ctz64(x) :: !Bit64(x, j)
  {
    hide Ctz32, Bit32, Bit64, Low, High;
    HalvesZero(x);
    var half := if Low(x) != 0 then Low(x) else High(x);
    FirstMask();
    BelowFirst(half);
    Ctz32From(half, 0);
    var t := Ctz64(x);
    HalfBits(x, if t < 32 then t else t - 32);
    forall j | 0 <= j < t
      ensures !Bit64(x, j)
    {
      HalfBits(x, if j < 32 then j else j - 32);
      if j < 32 {
        NoBitsInZero(j);
      }
    }
  }

  lemma BelowFirst(v: bv32)
    ensures LowClear(v, 1)
  {
  }

  /** `log2_64` is the position of the highest bit. */
  lemma Log64IsHighest(x: bv64)
    requires x != 0
    ensures Log64(x) < 64 && Bit64(x, Log64(x)) && forall j | Log64(x) < j < 64 :: !Bit64(x, j)
  {
    hide Log32, Bit32, Bit64, Low, High;
    HalvesZero(x);
    var half := if High(x) != 0 then High(x) else Low(x);
    NextMask(31);
    TopMask(half);
    Log32From(half, 31);
    var t := Log64(x);
    HalfBits(x, if t < 32 then t else t - 32);
    forall j | t < j < 64
      ensures !Bit64(x, j)
    {
      HalfBits(x, if j < 32 then j else j - 32);
      if j >= 32 {
        NoBitsInZero(j - 32);
      }
    }
  }
}
