/** The bits of a 64-bit row, and the two callbacks that change one row (src/bitfield.c). */
module Words {
  import opened Base

  const ALL_ONES: bv64 := 0xffff_ffff_ffff_ffff

  // ---- one bit of a word ----

  predicate At(v: bv64, p: bv7)
    requires p < 64
  {
    (v >> p) & 1 == 1
  }

  predicate Bit(v: bv64, i: nat)
    requires i < 64
  {
    PosBound(i);
    At(v, i as bv7)
  }

  lemma PosBound(i: nat)
    requires i <= 64
    ensures (i as bv7) as int == i && (i as bv7) <= 64
    ensures i < 64 ==> (i as bv7) < 64
  {}

  lemma PosLess(p: bv7, q: bv7)
    ensures p < q <==> p as int < q as int
  {}

  lemma PosInc(i: nat)
    requires i < 64
    ensures (i + 1) as bv7 == (i as bv7) + 1
  {
    PosBound(i);
    PosBound(i + 1);
    PosIncInt(i as bv7);
    PosInjective((i + 1) as bv7, (i as bv7) + 1);
  }

  lemma PosIncInt(p: bv7)
    requires p < 127
    ensures (p + 1) as int == p as int + 1
  {}

  lemma PosInjective(p: bv7, q: bv7)
    requires p as int == q as int
    ensures p == q
  {}

  lemma AtOr(v: bv64, w: bv64, p: bv7)
    requires p < 64 && (At(v, p) || At(w, p))
    ensures At(v | w, p)
  {}

  lemma OrAt(v: bv64, w: bv64, p: bv7)
    requires p < 64 && At(v | w, p)
    ensures At(v, p) || At(w, p)
  {}

  lemma AtAnd(v: bv64, w: bv64, p: bv7)
    requires p < 64 && At(v, p) && At(w, p)
    ensures At(v & w, p)
  {}

  lemma AndAt(v: bv64, w: bv64, p: bv7)
    requires p < 64 && At(v & w, p)
    ensures At(v, p) && At(w, p)
  {}

  lemma AtNot(v: bv64, p: bv7)
    requires p < 64 && !At(v, p)
    ensures At(!v, p)
  {}

  lemma NotAt(v: bv64, p: bv7)
    requires p < 64 && At(!v, p)
    ensures !At(v, p)
  {}

  lemma BitOr(v: bv64, w: bv64, i: nat)
    requires i < 64
    ensures Bit(v | w, i) <==> Bit(v, i) || Bit(w, i)
  {
    PosBound(i);
    var p := i as bv7;
    if At(v | w, p) {
      OrAt(v, w, p);
    } else if At(v, p) || At(w, p) {
      AtOr(v, w, p);
    }
  }

  lemma BitAnd(v: bv64, w: bv64, i: nat)
    requires i < 64
    ensures Bit(v & w, i) <==> Bit(v, i) && Bit(w, i)
  {
    PosBound(i);
    var p := i as bv7;
    if At(v & w, p) {
      AndAt(v, w, p);
    } else if At(v, p) && At(w, p) {
      AtAnd(v, w, p);
    }
  }

  lemma BitNot(v: bv64, i: nat)
    requires i < 64
    ensures Bit(!v, i) <==> !Bit(v, i)
  {
    PosBound(i);
    var p := i as bv7;
    if At(!v, p) {
      NotAt(v, p);
    } else if !At(v, p) {
      AtNot(v, p);
    }
  }

  lemma ZeroBit(i: nat)
    requires i < 64
    ensures !Bit(0, i) && Bit(ALL_ONES, i)
  {
    PosBound(i);
    OnesAt(i as bv7);
  }

  lemma OnesAt(p: bv7)
    requires p < 64
    ensures !At(0, p) && At(ALL_ONES, p)
  {}

  lemma ShiftStep(v: bv64, p: bv7)
    requires p < 64 && v >> (p + 1) == 0 && !At(v, p)
    ensures v >> p == 0
  {}

  lemma {:induction false} NoBitsFrom(v: bv64, k: nat)
    requires k <= 64 && forall i :: k <= i < 64 ==> !Bit(v, i)
    ensures (k as bv7) <= 64 && v >> (k as bv7) == 0
    decreases 64 - k
  {
    PosBound(k);
    if k < 64 {
      NoBitsFrom(v, k + 1);
      PosInc(k);
      assert !Bit(v, k);
      ShiftStep(v, k as bv7);
    }
  }

  lemma NoBits(v: bv64)
    requires forall i :: 0 <= i < 64 ==> !Bit(v, i)
    ensures v == 0
  {
    NoBitsFrom(v, 0);
  }

  /** A word is determined by its bits. */
  lemma SameBits(v: bv64, w: bv64)
    requires forall i :: 0 <= i < 64 ==> (Bit(v, i) <==> Bit(w, i))
    ensures v == w
  {
    BitInside(v, w);
    BitInside(w, v);
    SameByParts(v, w);
  }

  lemma BitInside(v: bv64, w: bv64)
    requires forall i :: 0 <= i < 64 ==> Bit(v, i) ==> Bit(w, i)
    ensures v & !w == 0
  {
    var n := !w;
    forall i: nat | i < 64
      ensures Bit(n, i) <==> !Bit(w, i)
    {
      BitNot(w, i);
    }
    BitApart(v, n);
  }

  /** Two words without a common bit. */
  lemma BitApart(v: bv64, w: bv64)
    requires forall i :: 0 <= i < 64 ==> !(Bit(v, i) && Bit(w, i))
    ensures v & w == 0
  {
    var d := v & w;
    forall i: nat | i < 64
      ensures !Bit(d, i)
    {
      BitAnd(v, w, i);
    }
    NoBits(d);
  }

  lemma ApartAt(v: bv64, w: bv64, i: nat)
    requires v & w == 0 && i < 64
    ensures !(Bit(v, i) && Bit(w, i))
  {
    BitAnd(v, w, i);
    ZeroBit(i);
  }

  lemma SameByParts(v: bv64, w: bv64)
    requires v & !w == 0 && w & !v == 0
    ensures v == w
  {}

  // ---- aligned blocks inside a word ----

  /** The bits of `m` that are set are `b`, ..., `b + n - 1`. */
  predicate IsRun(m: bv64, b: nat, n: nat)
  {
    forall i :: 0 <= i < 64 ==> (Bit(m, i) <==> b <= i < b + n)
  }

  /** The mask of the 2^`order` bits from `b` on. */
  function RunMask(order: nat, b: nat): bv64
    requires order <= 6 && b + Pow2(order) <= 64
  {
    SmallPow(order);
    PosBound(b);
    if order == 0 then (0x1 as bv64) << (b as bv7)
    else if order == 1 then (0x3 as bv64) << (b as bv7)
    else if order == 2 then (0xf as bv64) << (b as bv7)
    else if order == 3 then (0xff as bv64) << (b as bv7)
    else if order == 4 then (0xffff as bv64) << (b as bv7)
    else if order == 5 then (0xffff_ffff as bv64) << (b as bv7)
    else ALL_ONES
  }

  lemma RunBits(order: nat, b: nat)
    requires order <= 6 && b + Pow2(order) <= 64
    ensures IsRun(RunMask(order, b), b, Pow2(order))
  {
    SmallPow(order);
    if order == 0 {
      Run0(b);
    } else if order == 1 {
      Run1(b);
    } else if order == 2 {
      Run2(b);
    } else if order == 3 {
      Run3(b);
    } else if order == 4 {
      Run4(b);
    } else if order == 5 {
      Run5(b);
    } else {
      Run6();
    }
  }

  lemma Run0(b: nat)
    requires b + 1 <= 64
    ensures IsRun((0x1 as bv64) << (b as bv7), b, 1)
  {
    PosBound(b);
    var m := (0x1 as bv64) << (b as bv7);
    forall i: nat | i < 64
      ensures Bit(m, i) <==> b <= i < b + 1
    {
      PosBound(i);
      RunAt0(b as bv7, i as bv7);
    }
  }

  lemma RunAt0(b: bv7, p: bv7)
    requires p < 64 && b as int + 1 <= 64
    ensures b < 64 && (At((0x1 as bv64) << b, p) <==> b as int <= p as int < b as int + 1)
  {}

  lemma Run1(b: nat)
    requires b + 2 <= 64
    ensures IsRun((0x3 as bv64) << (b as bv7), b, 2)
  {
    PosBound(b);
    var m := (0x3 as bv64) << (b as bv7);
    forall i: nat | i < 64
      ensures Bit(m, i) <==> b <= i < b + 2
    {
      PosBound(i);
      RunAt1(b as bv7, i as bv7);
    }
  }

  lemma RunAt1(b: bv7, p: bv7)
    requires p < 64 && b as int + 2 <= 64
    ensures b < 64 && (At((0x3 as bv64) << b, p) <==> b as int <= p as int < b as int + 2)
  {}

  lemma Run2(b: nat)
    requires b + 4 <= 64
    ensures IsRun((0xf as bv64) << (b as bv7), b, 4)
  {
    PosBound(b);
    var m := (0xf as bv64) << (b as bv7);
    forall i: nat | i < 64
      ensures Bit(m, i) <==> b <= i < b + 4
    {
      PosBound(i);
      RunAt2(b as bv7, i as bv7);
    }
  }

  lemma RunAt2(b: bv7, p: bv7)
    requires p < 64 && b as int + 4 <= 64
    ensures b < 64 && (At((0xf as bv64) << b, p) <==> b as int <= p as int < b as int + 4)
  {}

  lemma Run3(b: nat)
    requires b + 8 <= 64
    ensures IsRun((0xff as bv64) << (b as bv7), b, 8)
  {
    PosBound(b);
    var m := (0xff as bv64) << (b as bv7);
    forall i: nat | i < 64
      ensures Bit(m, i) <==> b <= i < b + 8
    {
      PosBound(i);
      RunAt3(b as bv7, i as bv7);
    }
  }

  lemma RunAt3(b: bv7, p: bv7)
    requires p < 64 && b as int + 8 <= 64
    ensures b < 64 && (At((0xff as bv64) << b, p) <==> b as int <= p as int < b as int + 8)
  {}

  lemma Run4(b: nat)
    requires b + 16 <= 64
    ensures IsRun((0xffff as bv64) << (b as bv7), b, 16)
  {
    PosBound(b);
    var m := (0xffff as bv64) << (b as bv7);
    forall i: nat | i < 64
      ensures Bit(m, i) <==> b <= i < b + 16
    {
      PosBound(i);
      RunAt4(b as bv7, i as bv7);
    }
  }

  lemma RunAt4(b: bv7, p: bv7)
    requires p < 64 && b as int + 16 <= 64
    ensures b < 64 && (At((0xffff as bv64) << b, p) <==> b as int <= p as int < b as int + 16)
  {}

  lemma Run5(b: nat)
    requires b + 32 <= 64
    ensures IsRun((0xffff_ffff as bv64) << (b as bv7), b, 32)
  {
    PosBound(b);
    var m := (0xffff_ffff as bv64) << (b as bv7);
    forall i: nat | i < 64
      ensures Bit(m, i) <==> b <= i < b + 32
    {
      PosBound(i);
      RunAt5(b as bv7, i as bv7);
    }
  }

  lemma RunAt5(b: bv7, p: bv7)
    requires p < 64 && b as int + 32 <= 64
    ensures b < 64 && (At((0xffff_ffff as bv64) << b, p) <==> b as int <= p as int < b as int + 32)
  {}

  /** `UINT64_MAX << free` has the bits from `free` on. */
  lemma HighBits(b: nat)
    requires b < 64
    ensures IsRun(ALL_ONES << (b as bv7), b, 64 - b)
  {
    PosBound(b);
    var m := ALL_ONES << (b as bv7);
    forall i: nat | i < 64
      ensures Bit(m, i) <==> b <= i < 64
    {
      PosBound(i);
      HighAt(b as bv7, i as bv7);
      PosLess(i as bv7, b as bv7);
    }
  }

  lemma HighAt(b: bv7, p: bv7)
    requires p < 64 && b < 64
    ensures At(ALL_ONES << b, p) <==> !(p < b)
  {}

  lemma Run6()
    ensures IsRun(ALL_ONES, 0, 64)
  {
    forall i: nat | i < 64
      ensures Bit(ALL_ONES, i)
    {
      ZeroBit(i);
    }
  }

  predicate FreeAt(v: bv64, b: nat, n: nat)
  {
    AllAt(v, b, n, false)
  }

  predicate AllAt(v: bv64, b: nat, n: nat, value: bool)
  {
    b + n <= 64 && forall i :: b <= i < b + n ==> Bit(v, i) == value
  }

  lemma RunTest(v: bv64, m: bv64, b: nat, n: nat)
    requires b + n <= 64 && IsRun(m, b, n)
    ensures v & m == 0 <==> FreeAt(v, b, n)
  {
    if v & m == 0 {
      forall i | b <= i < b + n
        ensures !Bit(v, i)
      {
        ApartAt(v, m, i);
      }
    } else if FreeAt(v, b, n) {
      BitApart(v, m);
    }
  }

  /** `w` is `v` with the `n` bits from `b` on set to `value`. */
  predicate BitsChanged(v: bv64, w: bv64, b: nat, n: nat, value: bool)
  {
    forall i :: 0 <= i < 64 ==> Bit(w, i) == if b <= i < b + n then value else Bit(v, i)
  }

  lemma SetBits(v: bv64, w: bv64, m: bv64, b: nat, n: nat)
    requires IsRun(m, b, n) && w == v | m
    ensures BitsChanged(v, w, b, n, true)
  {
    forall i: nat | i < 64
      ensures Bit(w, i) <==> Bit(v, i) || Bit(m, i)
    {
      BitOr(v, m, i);
    }
  }

  lemma ClearBits(v: bv64, w: bv64, m: bv64, c: bv64, b: nat, n: nat)
    requires IsRun(m, b, n) && c == !m && w == v & c
    ensures BitsChanged(v, w, b, n, false)
  {
    forall i: nat | i < 64
      ensures Bit(w, i) <==> Bit(v, i) && !Bit(m, i)
    {
      BitAnd(v, c, i);
      BitNot(m, i);
    }
  }

  lemma TakenTest(v: bv64, c: bv64, m: bv64, b: nat, n: nat)
    requires b + n <= 64 && IsRun(m, b, n) && c == !v
    ensures v & m == m <==> AllAt(v, b, n, true)
  {
    Complement(v, c, m);
    RunTest(c, m, b, n);
    ComplementBits(v, c, b, n);
  }

  lemma ComplementBits(v: bv64, c: bv64, b: nat, n: nat)
    requires b + n <= 64 && c == !v
    ensures FreeAt(c, b, n) <==> AllAt(v, b, n, true)
  {
    forall i: nat | i < 64
      ensures Bit(c, i) <==> !Bit(v, i)
    {
      BitNot(v, i);
    }
  }

  /** Whether all bits of the mask have the expected value. */
  predicate MaskHas(v: bv64, mask: bv64, expected: bool)
  {
    if expected then v & mask == mask else v & mask == 0
  }

  function MaskFlip(v: bv64, mask: bv64, expected: bool): bv64
  {
    if expected then v & !mask else v | mask
  }

  lemma ToggleTest(v: bv64, m: bv64, b: nat, n: nat, expected: bool)
    requires b + n <= 64 && IsRun(m, b, n)
    ensures MaskHas(v, m, expected) <==> AllAt(v, b, n, expected)
  {
    hide IsRun, AllAt;
    if expected {
      var c := !v;
      TakenTest(v, c, m, b, n);
    } else {
      EmptyTest(v, m, b, n);
    }
  }

  lemma EmptyTest(v: bv64, m: bv64, b: nat, n: nat)
    requires b + n <= 64 && IsRun(m, b, n)
    ensures v & m == 0 <==> AllAt(v, b, n, false)
  {
    RunTest(v, m, b, n);
  }

  lemma ToggleEffect(v: bv64, m: bv64, b: nat, n: nat, expected: bool)
    requires IsRun(m, b, n)
    ensures BitsChanged(v, MaskFlip(v, m, expected), b, n, !expected)
  {
    hide IsRun, BitsChanged;
    if expected {
      ClearEffect(v, MaskFlip(v, m, true), m, b, n);
    } else {
      SetEffect(v, MaskFlip(v, m, false), m, b, n);
    }
  }

  lemma SetEffect(v: bv64, w: bv64, m: bv64, b: nat, n: nat)
    requires IsRun(m, b, n) && w == MaskFlip(v, m, false)
    ensures BitsChanged(v, w, b, n, true)
  {
    hide IsRun, BitsChanged;
    SetBits(v, w, m, b, n);
  }

  lemma ClearEffect(v: bv64, w: bv64, m: bv64, b: nat, n: nat)
    requires IsRun(m, b, n) && w == MaskFlip(v, m, true)
    ensures BitsChanged(v, w, b, n, false)
  {
    hide IsRun, BitsChanged;
    var c := !m;
    ClearBits(v, w, m, c, b, n);
  }

  lemma Complement(v: bv64, c: bv64, m: bv64)
    requires c == !v
    ensures v & m == m <==> c & m == 0
  {
    if v & m == m {
      CoverClear(v, m);
    } else if c & m == 0 {
      ClearCover(v, m);
    }
  }

  lemma CoverClear(v: bv64, m: bv64)
    requires v & m == m
    ensures !v & m == 0
  {}

  lemma ClearCover(v: bv64, m: bv64)
    requires !v & m == 0
    ensures v & m == m
  {}

  /** `__builtin_ctzll`: the number of zero bits below the lowest one. */
  function TrailingZeros(v: bv64): (z: nat)
    ensures z <= 64 && (z < 64 ==> Bit(v, z))
    ensures forall i :: 0 <= i < z ==> !Bit(v, i)
  {
    TrailingZerosFrom(v, 0)
  }

  function TrailingZerosFrom(v: bv64, k: nat): (z: nat)
    requires k <= 64
    ensures k <= z <= 64 && (z < 64 ==> Bit(v, z))
    ensures forall i :: k <= i < z ==> !Bit(v, i)
    decreases 64 - k
  {
    if k == 64 || Bit(v, k) then k else TrailingZerosFrom(v, k + 1)
  }

  lemma LowClear(x: bv64, p: nat)
    requires p <= 64 && forall i :: 0 <= i < p ==> !Bit(x, i)
    ensures (p as bv7) <= 64 && x & (((1 as bv64) << (p as bv7)) - 1) == 0
  {
    PosBound(p);
    var low := ((1 as bv64) << (p as bv7)) - 1;
    forall i: nat | p <= i < 64
      ensures !Bit(low, i)
    {
      PosBound(i);
      PosLess(i as bv7, p as bv7);
      LowAt(p as bv7, i as bv7);
    }
    BitApart(x, low);
  }

  lemma LowAt(p: bv7, q: bv7)
    requires p <= q < 64
    ensures !At(((1 as bv64) << p) - 1, q)
  {}

  // ---- the words searched by first_zeros_aligned ----

  function Pairs(v: bv64): bv64 { !((v | (v >> 1)) | 0xaaaa_aaaa_aaaa_aaaa) }
  function Nibbles(v: bv64): bv64 { (((v - 0x1111_1111_1111_1111) & !v) >> 3) & 0x1111_1111_1111_1111 }
  function Bytes(v: bv64): bv64 { (((v - 0x0101_0101_0101_0101) & !v) >> 7) & 0x0101_0101_0101_0101 }
  function Halves(v: bv64): bv64 { (((v - 0x0001_0001_0001_0001) & !v) >> 15) & 0x0001_0001_0001_0001 }

  predicate IsLowest(x: bv64, p: bv7)
    requires p < 64
  {
    At(x, p) && x & (((1 as bv64) << p) - 1) == 0
  }

  lemma PairFound(v: bv64, p: bv7)
    requires p < 64 && At(Pairs(v), p)
    ensures p as int % 2 == 0 && v & ((0x3 as bv64) << p) == 0
  {}

  lemma PairMissed(v: bv64, p: bv7)
    requires p < 64 && p as int % 2 == 0 && v & ((0x3 as bv64) << p) == 0
    ensures At(Pairs(v), p)
  {}

  lemma NibbleAligned(v: bv64, p: bv7)
    requires p < 64 && At(Nibbles(v), p)
    ensures p as int % 4 == 0
  {}

  /** Below the lowest marked position no borrow starts, so the mark there is right. */
  lemma NibbleFound(v: bv64, p: bv7)
    requires p < 64 && IsLowest(Nibbles(v), p)
    ensures v & ((0xf as bv64) << p) == 0
  {}

  lemma NibbleMissed(v: bv64, p: bv7)
    requires p < 64 && p as int % 4 == 0 && v & ((0xf as bv64) << p) == 0
    ensures Nibbles(v) & (((1 as bv64) << (p + 1)) - 1) != 0
  {}

  lemma ByteAligned(v: bv64, p: bv7)
    requires p < 64 && At(Bytes(v), p)
    ensures p as int % 8 == 0
  {}

  lemma ByteFound(v: bv64, p: bv7)
    requires p < 64 && IsLowest(Bytes(v), p)
    ensures v & ((0xff as bv64) << p) == 0
  {}

  lemma ByteMissed(v: bv64, p: bv7)
    requires p < 64 && p as int % 8 == 0 && v & ((0xff as bv64) << p) == 0
    ensures Bytes(v) & (((1 as bv64) << (p + 1)) - 1) != 0
  {}

  lemma HalfAligned(v: bv64, p: bv7)
    requires p < 64 && At(Halves(v), p)
    ensures p as int % 16 == 0
  {}

  lemma HalfFound(v: bv64, p: bv7)
    requires p < 64 && IsLowest(Halves(v), p)
    ensures v & ((0xffff as bv64) << p) == 0
  {}

  lemma HalfMissed(v: bv64, p: bv7)
    requires p < 64 && p as int % 16 == 0 && v & ((0xffff as bv64) << p) == 0
    ensures Halves(v) & (((1 as bv64) << (p + 1)) - 1) != 0
  {}

  /** The lowest free block of 2^`order` bits at a multiple of 2^`order` from `q` on; 64 if none. */
  function FirstFree(v: bv64, order: nat, q: nat): (p: nat)
    requires order <= 6 && q <= 64 && Aligned(q, order)
    ensures q <= p <= 64 && Aligned(p, order) && (p < 64 ==> FreeAt(v, p, Pow2(order)))
    ensures forall b :: q <= b < p && Aligned(b, order) ==> !FreeAt(v, b, Pow2(order))
    decreases 64 - q
  {
    if q == 64 || FreeAt(v, q, Pow2(order)) then q
    else
      NextAligned(q, order);
      FirstFree(v, order, q + Pow2(order))
  }

  /** The lowest free aligned block of the whole word; 64 if none. */
  function Lowest(v: bv64, order: nat): (p: nat)
    requires order <= 6
    ensures p <= 64 && Aligned(p, order) && (p < 64 ==> FreeAt(v, p, Pow2(order)))
    ensures forall b :: 0 <= b < p && Aligned(b, order) ==> !FreeAt(v, b, Pow2(order))
  {
    FirstFree(v, order, 0)
  }

  lemma NextAligned(q: nat, order: nat)
    requires order <= 6 && q < 64 && Aligned(q, order)
    ensures q + Pow2(order) <= 64 && Aligned(q + Pow2(order), order)
    ensures forall b :: q < b < q + Pow2(order) ==> !Aligned(b, order)
  {
    BlockInRow(q, order);
    NextMultiple(q, Pow2(order));
  }

  lemma NextMultiple(q: nat, n: nat)
    requires n > 0 && q % n == 0
    ensures (q + n) % n == 0
    ensures forall b :: q < b < q + n ==> b % n != 0
  {
    var k := q / n;
    DivBounds(q, n);
    MulStep(k, n);
    DivIs(q + n, n, k + 1);
    forall b | q < b < q + n
      ensures b % n != 0
    {
      DivIs(b, n, k);
    }
  }

  lemma LowestIs(v: bv64, order: nat, p: nat)
    requires order <= 6 && p <= 64 && Aligned(p, order) && (p < 64 ==> FreeAt(v, p, Pow2(order)))
    requires forall b :: 0 <= b < p && Aligned(b, order) ==> !FreeAt(v, b, Pow2(order))
    ensures Lowest(v, order) == p
  {}

  lemma PairClear(v: bv64, b: nat)
    requires b + 2 <= 64 && (b as bv7) < 64 && FreeAt(v, b, 2)
    ensures v & ((0x3 as bv64) << (b as bv7)) == 0
  {
    Run1(b);
    RunTest(v, (0x3 as bv64) << (b as bv7), b, 2);
  }

  lemma ClearPair(v: bv64, b: nat)
    requires b + 2 <= 64 && (b as bv7) < 64 && v & ((0x3 as bv64) << (b as bv7)) == 0
    ensures FreeAt(v, b, 2)
  {
    Run1(b);
    RunTest(v, (0x3 as bv64) << (b as bv7), b, 2);
  }

  lemma PairsFound(v: bv64, p: nat)
    requires p == TrailingZeros(Pairs(v)) && p < 64
    ensures p % 2 == 0 && FreeAt(v, p, 2)
  {
    PosBound(p);
    PairFound(v, p as bv7);
    ClearPair(v, p);
  }

  lemma PairsMissed(v: bv64, b: nat)
    requires b < TrailingZeros(Pairs(v)) && b % 2 == 0
    ensures !FreeAt(v, b, 2)
  {
    PosBound(b);
    assert !Bit(Pairs(v), b);
    if FreeAt(v, b, 2) {
      PairClear(v, b);
      PairMissed(v, b as bv7);
    }
  }

  lemma FirstPair(v: bv64)
    ensures TrailingZeros(Pairs(v)) == Lowest(v, 1)
  {
    var p := TrailingZeros(Pairs(v));
    if p < 64 {
      PairsFound(v, p);
    }
    forall b: nat | b < p && b % 2 == 0
      ensures !FreeAt(v, b, 2)
    {
      PairsMissed(v, b);
    }
    SmallPow(1);
    LowestIs(v, 1, p);
  }

  lemma NibbleClear(v: bv64, b: nat)
    requires b + 4 <= 64 && (b as bv7) < 64 && FreeAt(v, b, 4)
    ensures v & ((0xf as bv64) << (b as bv7)) == 0
  {
    Run2(b);
    RunTest(v, (0xf as bv64) << (b as bv7), b, 4);
  }

  lemma ClearNibble(v: bv64, b: nat)
    requires b + 4 <= 64 && (b as bv7) < 64 && v & ((0xf as bv64) << (b as bv7)) == 0
    ensures FreeAt(v, b, 4)
  {
    Run2(b);
    RunTest(v, (0xf as bv64) << (b as bv7), b, 4);
  }

  lemma NibblesFound(v: bv64, p: nat)
    requires p == TrailingZeros(Nibbles(v)) && p < 64
    ensures p % 4 == 0 && FreeAt(v, p, 4)
  {
    PosBound(p);
    LowClear(Nibbles(v), p);
    NibbleAligned(v, p as bv7);
    NibbleFound(v, p as bv7);
    ClearNibble(v, p);
  }

  lemma NibblesMissed(v: bv64, b: nat)
    requires b < TrailingZeros(Nibbles(v)) && b % 4 == 0
    ensures !FreeAt(v, b, 4)
  {
    PosBound(b);
    if FreeAt(v, b, 4) {
      NibbleClear(v, b);
      PosInc(b);
      LowClear(Nibbles(v), b + 1);
      NibbleMissed(v, b as bv7);
    }
  }

  lemma FirstNibble(v: bv64)
    ensures TrailingZeros(Nibbles(v)) == Lowest(v, 2)
  {
    var p := TrailingZeros(Nibbles(v));
    if p < 64 {
      NibblesFound(v, p);
    }
    forall b: nat | b < p && b % 4 == 0
      ensures !FreeAt(v, b, 4)
    {
      NibblesMissed(v, b);
    }
    SmallPow(2);
    LowestIs(v, 2, p);
  }

  lemma ByteClear(v: bv64, b: nat)
    requires b + 8 <= 64 && (b as bv7) < 64 && FreeAt(v, b, 8)
    ensures v & ((0xff as bv64) << (b as bv7)) == 0
  {
    Run3(b);
    RunTest(v, (0xff as bv64) << (b as bv7), b, 8);
  }

  lemma ClearByte(v: bv64, b: nat)
    requires b + 8 <= 64 && (b as bv7) < 64 && v & ((0xff as bv64) << (b as bv7)) == 0
    ensures FreeAt(v, b, 8)
  {
    Run3(b);
    RunTest(v, (0xff as bv64) << (b as bv7), b, 8);
  }

  lemma BytesFound(v: bv64, p: nat)
    requires p == TrailingZeros(Bytes(v)) && p < 64
    ensures p % 8 == 0 && FreeAt(v, p, 8)
  {
    PosBound(p);
    LowClear(Bytes(v), p);
    ByteAligned(v, p as bv7);
    ByteFound(v, p as bv7);
    ClearByte(v, p);
  }

  lemma BytesMissed(v: bv64, b: nat)
    requires b < TrailingZeros(Bytes(v)) && b % 8 == 0
    ensures !FreeAt(v, b, 8)
  {
    PosBound(b);
    if FreeAt(v, b, 8) {
      ByteClear(v, b);
      PosInc(b);
      LowClear(Bytes(v), b + 1);
      ByteMissed(v, b as bv7);
    }
  }

  lemma FirstByte(v: bv64)
    ensures TrailingZeros(Bytes(v)) == Lowest(v, 3)
  {
    var p := TrailingZeros(Bytes(v));
    if p < 64 {
      BytesFound(v, p);
    }
    forall b: nat | b < p && b % 8 == 0
      ensures !FreeAt(v, b, 8)
    {
      BytesMissed(v, b);
    }
    SmallPow(3);
    LowestIs(v, 3, p);
  }

  lemma HalfClear(v: bv64, b: nat)
    requires b + 16 <= 64 && (b as bv7) < 64 && FreeAt(v, b, 16)
    ensures v & ((0xffff as bv64) << (b as bv7)) == 0
  {
    Run4(b);
    RunTest(v, (0xffff as bv64) << (b as bv7), b, 16);
  }

  lemma ClearHalf(v: bv64, b: nat)
    requires b + 16 <= 64 && (b as bv7) < 64 && v & ((0xffff as bv64) << (b as bv7)) == 0
    ensures FreeAt(v, b, 16)
  {
    Run4(b);
    RunTest(v, (0xffff as bv64) << (b as bv7), b, 16);
  }

  lemma HalvesFound(v: bv64, p: nat)
    requires p == TrailingZeros(Halves(v)) && p < 64
    ensures p % 16 == 0 && FreeAt(v, p, 16)
  {
    PosBound(p);
    LowClear(Halves(v), p);
    HalfAligned(v, p as bv7);
    HalfFound(v, p as bv7);
    ClearHalf(v, p);
  }

  lemma HalvesMissed(v: bv64, b: nat)
    requires b < TrailingZeros(Halves(v)) && b % 16 == 0
    ensures !FreeAt(v, b, 16)
  {
    PosBound(b);
    if FreeAt(v, b, 16) {
      HalfClear(v, b);
      PosInc(b);
      LowClear(Halves(v), b + 1);
      HalfMissed(v, b as bv7);
    }
  }

  lemma FirstHalf(v: bv64)
    ensures TrailingZeros(Halves(v)) == Lowest(v, 4)
  {
    var p := TrailingZeros(Halves(v));
    if p < 64 {
      HalvesFound(v, p);
    }
    forall b: nat | b < p && b % 16 == 0
      ensures !FreeAt(v, b, 16)
    {
      HalvesMissed(v, b);
    }
    SmallPow(4);
    LowestIs(v, 4, p);
  }

  lemma FirstBit(v: bv64)
    ensures TrailingZeros(!v) == Lowest(v, 0)
  {
    var x := !v;
    var p := TrailingZeros(x);
    forall i: nat | i < 64
      ensures Bit(x, i) <==> !Bit(v, i)
    {
      BitNot(v, i);
    }
    SmallPow(0);
    forall b: nat | b < p
      ensures !FreeAt(v, b, 1)
    {
      assert !Bit(x, b);
    }
    LowestIs(v, 0, p);
  }

  lemma FirstWord(v: bv64)
    ensures v & 0xffff_ffff == 0 ==> Lowest(v, 5) == 0
    ensures v & 0xffff_ffff != 0 && v >> 32 == 0 ==> Lowest(v, 5) == 32
    ensures v & 0xffff_ffff != 0 && v >> 32 != 0 ==> Lowest(v, 5) == 64
  {
    SmallPow(5);
    UpperHalf(v);
    HalfTest(v, 0xffff_ffff, 0);
    HalfTest(v, (0xffff_ffff as bv64) << 32, 32);
    assert FirstFree(v, 5, 32) == if FreeAt(v, 32, 32) then 32 else 64;
  }

  lemma HalfTest(v: bv64, m: bv64, b: nat)
    requires b + 32 <= 64 && m == (0xffff_ffff as bv64) << (b as bv7)
    ensures v & m == 0 <==> FreeAt(v, b, 32)
  {
    Run5(b);
    RunTest(v, m, b, 32);
  }

  lemma UpperHalf(v: bv64)
    ensures v >> 32 == 0 <==> v & ((0xffff_ffff as bv64) << 32) == 0
    ensures (0xffff_ffff as bv64) << 0 == 0xffff_ffff
  {}

  lemma FirstAll(v: bv64)
    ensures Lowest(v, 6) == if v == 0 then 0 else 64
  {
    SmallPow(6);
    if v == 0 {
      forall i: nat | i < 64
        ensures !Bit(v, i)
      {
        ZeroBit(i);
      }
    } else if FreeAt(v, 0, 64) {
      NoBits(v);
    }
  }

  /** The switch of `first_zeros_aligned`: where the lowest free block of 2^`order` bits starts. */
  method LowestZeros(word: bv64, order: nat) returns (p: nat)
    requires order <= 6
    ensures p == Lowest(word, order)
  {
    p := 64;
    if order == 0 {
      p := TrailingZeros(!word);
      FirstBit(word);
    } else if order == 1 {
      p := TrailingZeros(Pairs(word));
      FirstPair(word);
    } else if order == 2 {
      p := TrailingZeros(Nibbles(word));
      FirstNibble(word);
    } else if order == 3 {
      p := TrailingZeros(Bytes(word));
      FirstByte(word);
    } else if order == 4 {
      p := TrailingZeros(Halves(word));
      FirstHalf(word);
    } else if order == 5 {
      FirstWord(word);
      if word & 0xffff_ffff == 0 {
        p := 0;
      } else if word >> 32 == 0 {
        p := 32;
      }
    } else {
      FirstAll(word);
      if word == 0 {
        p := 0;
      }
    }
  }

  // ---- the callbacks ----

  /** The copy of one row that a callback of `atom_update` works on. */
  class RowCell {
    var word: bv64

    constructor (w: bv64)
      ensures word == w
    {
      word := w;
    }

    /** Takes the lowest free aligned block of 2^`order` bits. */
    method FirstZerosAligned(order: nat) returns (found: bool, pos: nat)
      requires order <= 6
      modifies this
      ensures found <==> Lowest(old(word), order) < 64
      ensures found ==> pos == Lowest(old(word), order) && BitsChanged(old(word), word, pos, Pow2(order), true)
      ensures !found ==> word == old(word)
    {
      var p := LowestZeros(word, order);
      if p < 64 {
        ghost var v := word;
        var mask := RunMask(order, p);
        RunBits(order, p);
        word := word | mask;
        SetBits(v, word, mask, p, Pow2(order));
        return true, p;
      }
      return false, 0;
    }

    /** Flips the bits of `mask`, which are `b`, ..., `b + n - 1`, if all of them have the expected
        value. */
    method Toggle(mask: bv64, expected: bool, ghost b: nat, ghost n: nat) returns (ok: bool)
      requires b + n <= 64 && IsRun(mask, b, n)
      modifies this
      ensures ok <==> AllAt(old(word), b, n, expected)
      ensures ok ==> BitsChanged(old(word), word, b, n, !expected)
      ensures !ok ==> word == old(word)
    {
      hide *;
      ToggleTest(word, mask, b, n, expected);
      if MaskHas(word, mask, expected) {
        ToggleEffect(word, mask, b, n, expected);
        word := MaskFlip(word, mask, expected);
        return true;
      }
      return false;
    }
  }
}
