/** Constants, powers of two, frame blocks, and the index arithmetic of src/utils.h. */
module Base {
  const HUGE_ORDER: nat := 9
  const CHILD_SIZE: nat := 512
  const ATOMIC_SIZE: nat := 64

  /** The tree order is chosen when the allocator is compiled. The free counter of a tree entry has
      28 bits and must hold more than a whole tree, which bounds it. Nothing below fixes its value. */
  type ChildrenOrder = n: nat | n <= 18 witness 3
  const TREE_CHILDREN_ORDER: ChildrenOrder
  const TREE_CHILDREN: nat := Pow2(TREE_CHILDREN_ORDER)
  const TREE_ORDER: nat := HUGE_ORDER + TREE_CHILDREN_ORDER
  const TREE_SIZE: nat := CHILD_SIZE * TREE_CHILDREN
  const MAX_CLASSES: nat := 8

  datatype Option<+T> = None | Some(value: T)

  datatype Error = Memory | Argument | Init

  /** `llfree_result_t`: a frame and its class, or an error code. */
  datatype Result = Ok(frame: nat, cls: nat) | Err(error: Error)

  /** Which index or operands the two rollback loops use: the ones in the source, or the ones that
      undo what was done. */
  datatype Undo = Written | Intended

  // ---- powers of two ----

  function Pow2(n: nat): (r: nat)
    ensures r >= 1
  {
    if n == 0 then 1 else 2 * Pow2(n - 1)
  }

  lemma SmallPow(order: nat)
    requires order <= 9
    ensures Pow2(order) ==
            if order == 0 then 1 else if order == 1 then 2 else if order == 2 then 4
            else if order == 3 then 8 else if order == 4 then 16 else if order == 5 then 32
            else if order == 6 then 64 else if order == 7 then 128
            else if order == 8 then 256 else 512
  {
    assert Pow2(3) == 8 && Pow2(6) == 64 && Pow2(9) == 512;
  }

  lemma {:induction false} PowAdd(a: nat, b: nat)
    ensures Pow2(a + b) == Pow2(a) * Pow2(b)
  {
    if a > 0 {
      PowAdd(a - 1, b);
      assert Pow2(a + b) == 2 * Pow2(a - 1 + b);
    }
  }

  lemma TreeSizeIsPow()
    ensures TREE_SIZE == Pow2(TREE_ORDER)
  {
    SmallPow(9);
    PowAdd(9, TREE_CHILDREN_ORDER);
  }

  // ---- division by a symbolic positive number ----

  lemma MulLe(a: nat, b: nat, d: nat)
    requires a <= b
    ensures a * d <= b * d
  {}

  lemma DivIs(x: nat, d: nat, q: nat)
    requires d > 0 && q * d <= x < (q + 1) * d
    ensures x / d == q && x % d == x - q * d
  {
    if x / d < q {
      MulLe(x / d + 1, q, d);
    } else if x / d > q {
      MulLe(q + 1, x / d, d);
    }
  }

  lemma DivBounds(x: nat, d: nat)
    requires d > 0
    ensures (x / d) * d <= x < (x / d + 1) * d
    ensures x % d == x - (x / d) * d
  {}

  lemma ModWrap(x: nat, d: nat)
    requires d > 0 && x < 2 * d
    ensures x % d == if x < d then x else x - d
  {
    DivIs(x, d, if x < d then 0 else 1);
  }

  lemma MulStep(k: nat, n: nat)
    ensures (k + 1) * n == k * n + n
  {}

  lemma MulAdd(a: nat, b: nat, n: nat)
    ensures (a + b) * n == a * n + b * n
  {}

  lemma MulSwap(q: nat, b: nat, c: nat)
    ensures q * (b * c) == q * c * b
  {}

  lemma MulDiv(q: nat, h: nat)
    requires h > 0
    ensures q * h / h == q
  {
    var x := q * h;
    DivIs(x, h, q);
  }

  lemma AlignDownIs(c: nat, h: nat)
    requires h > 0
    ensures AlignDown(c, h) == c / h * h && AlignDown(c, h) / h == c / h
  {
    QuotientIs(c, h);
    var q := c / h;
    DivBounds(c, h);
    MulDiv(q, h);
  }

  lemma DivDiv(a: nat, b: nat, c: nat)
    requires b > 0 && c > 0
    ensures b * c > 0 && a / b / c == a / (b * c)
  {
    var r := a / b;
    var q := r / c;
    DivBounds(a, b);
    DivBounds(r, c);
    MulLe(q * c, r, b);
    MulLe(r + 1, (q + 1) * c, b);
    MulSwap(q, b, c);
    MulSwap(q + 1, b, c);
    DivIs(a, b * c, q);
  }

  /** Division by a number that is not a literal, as repeated subtraction. */
  function Quotient(a: nat, b: nat): nat
    requires b > 0
  {
    if a < b then 0 else 1 + Quotient(a - b, b)
  }

  lemma {:induction false} QuotientIs(a: nat, b: nat)
    requires b > 0
    ensures Quotient(a, b) == a / b
  {
    if a < b {
      DivIs(a, b, 0);
    } else {
      QuotientIs(a - b, b);
      DivBounds(a - b, b);
      MulStep((a - b) / b, b);
      DivIs(a, b, (a - b) / b + 1);
    }
  }

  /** The tree of a frame. */
  function TreeOf(f: nat): nat
  {
    Quotient(f, TREE_SIZE)
  }

  lemma TreeOfIs(f: nat)
    ensures TreeOf(f) == f / TREE_SIZE
  {
    QuotientIs(f, TREE_SIZE);
  }

  function DivCeil(a: nat, b: nat): nat
    requires b > 0
  {
    Quotient(a + b - 1, b)
  }

  lemma DivCeilIs(a: nat, b: nat)
    requires b > 0
    ensures DivCeil(a, b) == (a + b - 1) / b
  {
    QuotientIs(a + b - 1, b);
  }

  function AlignDown(x: nat, a: nat): nat
    requires a > 0
  {
    Quotient(x, a) * a
  }

  function AlignUp(x: nat, a: nat): nat
    requires a > 0
  {
    AlignDown(x + a - 1, a)
  }

  lemma AlignUpIs(x: nat, a: nat)
    requires a > 0
    ensures AlignUp(x, a) == DivCeil(x, a) * a
    ensures x <= AlignUp(x, a) < x + a
  {
    QuotientIs(x + a - 1, a);
    DivBounds(x + a - 1, a);
  }

  // ---- for_offsetted ----

  /** The value of `current_i` in iteration `i` of `for_offsetted(start, len, current_i)`. */
  function Offsetted(start: nat, len: nat, i: nat): nat
    requires len > 0
  {
    start - start % len + (i + start % len) % len
  }

  /** The iteration in which `for_offsetted` visits `x`. */
  function OffsettedAt(start: nat, len: nat, x: nat): nat
    requires len > 0
  {
    (x % len + len - start % len) % len
  }

  /** The loop visits each value of the aligned window around `start` exactly once. */
  lemma OffsettedVisitsOnce(start: nat, len: nat)
    requires len > 0
    ensures forall i :: 0 <= i < len ==>
              Offsetted(start, len, i) / len == start / len && OffsettedAt(start, len, Offsetted(start, len, i)) == i
    ensures forall x: nat :: x / len == start / len ==>
              OffsettedAt(start, len, x) < len && Offsetted(start, len, OffsettedAt(start, len, x)) == x
  {
    forall i | 0 <= i < len
      ensures Offsetted(start, len, i) / len == start / len && OffsettedAt(start, len, Offsetted(start, len, i)) == i
    {
      OffsettedForth(start, len, i);
    }
    forall x: nat | x / len == start / len
      ensures OffsettedAt(start, len, x) < len && Offsetted(start, len, OffsettedAt(start, len, x)) == x
    {
      OffsettedBack(start, len, x);
    }
  }

  lemma OffsettedForth(start: nat, len: nat, i: nat)
    requires i < len
    ensures Offsetted(start, len, i) / len == start / len
    ensures OffsettedAt(start, len, Offsetted(start, len, i)) == i
  {
    hide Offsetted, OffsettedAt;
    Rotated(start / len, len, start % len, i);
    OffsettedIs(start, len, i);
    OffsettedAtIs(start, len, Offsetted(start, len, i));
  }

  lemma OffsettedIs(start: nat, len: nat, i: nat)
    requires len > 0
    ensures start % len < len && Offsetted(start, len, i) == start / len * len + (i + start % len) % len
  {
    DivBounds(start, len);
  }

  lemma OffsettedAtIs(start: nat, len: nat, x: nat)
    requires len > 0
    ensures start % len < len && OffsettedAt(start, len, x) == (x % len + len - start % len) % len
  {}

  /** Turning the window by `o` and back. */
  lemma Rotated(q: nat, len: nat, o: nat, i: nat)
    requires i < len && o < len
    ensures var r := (i + o) % len;
            (q * len + r) / len == q && (q * len + r) % len == r && (r + len - o) % len == i
  {
    ModWrap(i + o, len);
    var r := (i + o) % len;
    MulStep(q, len);
    DivIs(q * len + r, len, q);
    ModWrap(r + len - o, len);
  }

  lemma OffsettedBack(start: nat, len: nat, x: nat)
    requires len > 0 && x / len == start / len
    ensures OffsettedAt(start, len, x) < len
    ensures Offsetted(start, len, OffsettedAt(start, len, x)) == x
  {
    var o := start % len;
    DivBounds(start, len);
    DivBounds(x, len);
    ModWrap(x % len + len - o, len);
    ModWrap(OffsettedAt(start, len, x) + o, len);
  }

  lemma SmallBack(start: nat, len: nat, x: nat)
    requires start < len && x < len
    ensures OffsettedAt(start, len, x) < len && Offsetted(start, len, OffsettedAt(start, len, x)) == x
  {
    hide Offsetted, OffsettedAt;
    DivIs(start, len, 0);
    DivIs(x, len, 0);
    OffsettedBack(start, len, x);
  }

  /** How many rows a block of order 7 or 8 has. */
  function RowsOf(order: nat): nat
  {
    if order == 7 then 2 else 4
  }

  // ---- blocks of frames ----

  predicate Within(x: nat, f: nat, n: nat)
  {
    f <= x < f + n
  }

  function Block(f: nat, n: nat): (s: set<nat>)
    ensures forall x :: x in s <==> f <= x < f + n
  {
    set x: nat {:trigger Within(x, f, n)} | f <= x < f + n && Within(x, f, n)
  }

  lemma {:induction false} BlockSize(f: nat, n: nat)
    ensures |Block(f, n)| == n
  {
    if n > 0 {
      BlockSize(f, n - 1);
      assert Block(f, n) == Block(f, n - 1) + {f + n - 1};
    } else {
      assert Block(f, n) == {};
    }
  }

  lemma CardSubset<T>(a: set<T>, b: set<T>)
    requires a <= b
    ensures |a| <= |b|
    ensures |b - a| == |b| - |a|
    ensures |a| == |b| ==> a == b
  {
    assert b == a + (b - a);
    assert |b| == |a| + |b - a|;
    if a != b {
      var x :| x in b - a;
      assert |b - a| > 0;
    }
  }

  lemma CountLess(z: set<nat>, b: set<nat>, w: set<nat>)
    requires b <= z
    ensures b <= w ==> |b| <= |z * w| && |(z - b) * w| == |z * w| - |b|
    ensures b !! w ==> (z - b) * w == z * w
  {
    if b <= w {
      CardSubset(b, z * w);
      assert (z - b) * w == z * w - b;
    }
  }

  lemma CountMore(z: set<nat>, b: set<nat>, w: set<nat>)
    requires b !! z
    ensures b <= w ==> |(z + b) * w| == |z * w| + |b|
    ensures b !! w ==> (z + b) * w == z * w
  {
    if b <= w {
      assert (z + b) * w == z * w + b;
    }
  }

  predicate Aligned(f: nat, order: nat)
  {
    f % Pow2(order) == 0
  }

  lemma Regroup(q: nat, n: nat, k: nat, a: nat)
    ensures q * (n * k) + a * n == (q * k + a) * n
  {
    assert q * (n * k) == q * k * n;
  }

  lemma AlignedFits(f: nat, n: nat, k: nat)
    requires n > 0 && k > 0 && f % n == 0
    ensures n * k > 0 && f % (n * k) + n <= n * k && f % (n * k) % n == 0
  {
    MulLe(1, k, n);
    var m := n * k;
    var q := f / m;
    var r := f % m;
    var a := r / n;
    DivBounds(f, m);
    DivBounds(r, n);
    Regroup(q, n, k, a);
    DivIs(f, n, q * k + a);
    MultipleFits(a, n, k, r);
  }

  lemma MultipleFits(a: nat, n: nat, k: nat, r: nat)
    requires r == a * n && r < n * k
    ensures r + n <= n * k
  {
    if a >= k {
      MulLe(k, a, n);
    } else {
      MulLe(a + 1, k, n);
    }
  }

  /** An aligned block lies inside one aligned block of any larger order. */
  lemma BlockInside(f: nat, order: nat, larger: nat)
    requires order <= larger && Aligned(f, order)
    ensures f % Pow2(larger) + Pow2(order) <= Pow2(larger)
    ensures Aligned(f % Pow2(larger), order)
  {
    PowAdd(order, larger - order);
    AlignedFits(f, Pow2(order), Pow2(larger - order));
  }

  lemma BlockInRow(f: nat, order: nat)
    requires order <= 6 && Aligned(f, order)
    ensures f % 64 + Pow2(order) <= 64
  {
    SmallPow(6);
    BlockInside(f, order, 6);
  }

  lemma BlockInChild(f: nat, order: nat)
    requires order <= 9 && Aligned(f, order)
    ensures f % 512 + Pow2(order) <= 512
  {
    SmallPow(9);
    BlockInside(f, order, 9);
  }

  lemma AlignedAdd(a: nat, b: nat, order: nat)
    requires Aligned(a, order) && Aligned(b, order)
    ensures Aligned(a + b, order)
  {
    var n := Pow2(order);
    DivBounds(a, n);
    DivBounds(b, n);
    assert a + b == (a / n + b / n) * n;
    DivIs(a + b, n, a / n + b / n);
  }

  lemma AlignedMul(c: nat, order: nat, larger: nat)
    requires order <= larger
    ensures Aligned(c * Pow2(larger), order)
  {
    hide Pow2;
    var n, k := Pow2(order), Pow2(larger - order);
    PowAdd(order, larger - order);
    Regroup(c, n, k, 0);
    var q := c * k;
    MulStep(q, n);
    DivIs(q * n, n, q);
  }

  lemma AlignedDown(f: nat, order: nat, smaller: nat)
    requires smaller <= order && Aligned(f, order)
    ensures Aligned(f, smaller)
  {
    DivBounds(f, Pow2(order));
    AlignedMul(f / Pow2(order), smaller, order);
  }
}
