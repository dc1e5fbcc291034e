/** Facts about the entries of several children and about searching a tree (src/lower.c). */
module LowerLemmas {
  import opened Base
  import opened Words
  import opened Bitfield
  import opened Children
  import opened LowerSpec

  // ---- several children at once ----

  /** How many entries from `first` on equal `v`, up to `n`. */
  function Leading(s: seq<Child>, first: nat, n: nat, v: Child): (k: nat)
    requires first + n <= |s|
    ensures k <= n && AllAre(s, first, k, v) && (k < n ==> s[first + k] != v)
    decreases n
  {
    if n == 0 || s[first] != v then 0 else 1 + Leading(s, first + 1, n - 1, v)
  }

  /** The entries after `try_update_huge_n`. As written, the undo loop visits the entries 1, ..., k
      instead of 0, ..., k - 1, where k is the one that failed. */
  function HugeAfter(undo: Undo, s: seq<Child>, first: nat, n: nat, expected: Child, desired: Child): seq<Child>
    requires first + n <= |s|
  {
    var k := Leading(s, first, n, expected);
    if k == n then
      SetRange(s, first, n, desired)
    else if undo.Written? && k > 0 then
      s[first := desired][first + k := if s[first + k] == desired then expected else s[first + k]]
    else
      s
  }

  /** Whether an assertion of the undo loop fails. */
  predicate HugeFires(undo: Undo, s: seq<Child>, first: nat, n: nat, expected: Child, desired: Child)
    requires first + n <= |s|
  {
    var k := Leading(s, first, n, expected);
    undo.Written? && 0 < k < n && s[first + k] != desired
  }

  /** The written loop is all-or-nothing exactly when the first entry decides: it already differs,
      or all of them can be changed. */
  ghost predicate HugeClean(undo: Undo, s: seq<Child>, first: nat, n: nat, expected: Child)
  {
    undo.Intended? || (first < |s| && s[first] != expected) || AllAre(s, first, n, expected)
  }

  lemma HugeAllOrNothing(undo: Undo, s: seq<Child>, first: nat, n: nat, expected: Child, desired: Child)
    requires n > 0 && first + n <= |s| && expected != desired
    ensures AllAre(s, first, n, expected) ==>
            HugeAfter(undo, s, first, n, expected, desired) == SetRange(s, first, n, desired)
    ensures !AllAre(s, first, n, expected) ==>
              (HugeAfter(undo, s, first, n, expected, desired) == s && !HugeFires(undo, s, first, n, expected, desired)
               <==> HugeClean(undo, s, first, n, expected))
  {
    var k := Leading(s, first, n, expected);
    if k < n && undo.Written? && k > 0 {
      assert HugeAfter(undo, s, first, n, expected, desired)[first] == desired;
      assert s[first] == expected;
    }
  }

  /** Asking for two children of which the second is held as huge: the written undo loop marks the
      held child as free, and no assertion fails. */
  lemma WrittenUndoFreesHeldChild()
    ensures HugeAfter(Written, [FULL, TAKEN], 0, 2, FULL, TAKEN) == [TAKEN, FULL]
    ensures !HugeFires(Written, [FULL, TAKEN], 0, 2, FULL, TAKEN)
    ensures HugeAfter(Intended, [FULL, TAKEN], 0, 2, FULL, TAKEN) == [FULL, TAKEN]
  {
    assert Leading([FULL, TAKEN], 0, 2, FULL) == 1;
  }

  // ---- when the written undo loops are not needed or not harmful ----

  /** The guard under which an allocation of a given block meets its promise. */
  ghost predicate GetAtClean(undo: Undo, m: Mem, f: nat, order: nat)
  {
    if order < 9 then
      || (f / 512 < |m.children| && ChildDec(m.children[f / 512], order).None?)
      || Block(f, Pow2(order)) <= m.zeros
      || ToggleClean(undo, m.zeros, f, order, false)
    else
      HugeClean(undo, m.children, f / 512, Span(order), FULL)
  }

  /** The guard under which giving back a block meets its promise. */
  ghost predicate PutClean(undo: Undo, m: Mem, f: nat, order: nat)
  {
    if order < 9 then
      || (f / 512 < |m.children| && m.children[f / 512].huge)
      || Block(f, Pow2(order)) !! m.zeros
      || ToggleClean(undo, m.zeros, f, order, true)
    else
      HugeClean(undo, m.children, f / 512, Span(order), TAKEN)
  }

  /** The groups of children tried from iteration `i` on: the first one whose first child is wholly
      free is wholly free. */
  ghost predicate GroupsClean(s: seq<Child>, start: nat, h: nat, groups: nat, i: nat)
    requires groups > 0 && i <= groups
    decreases groups - i
  {
    i == groups ||
    var b := Offsetted(start, groups, i) * h;
    if b < |s| && s[b] == FULL then AllAre(s, b, h, FULL) else GroupsClean(s, start, h, groups, i + 1)
  }

  /** The guard under which an allocation without a given block meets its promise. */
  ghost predicate GetClean(undo: Undo, m: Mem, start: nat, order: nat)
  {
    undo.Intended? || order <= 9 || order > TREE_ORDER ||
    TreeClean(m.children, start, order, 0)
  }

  /** The groups of the tree of `start`, tried from iteration `i` on. */
  ghost predicate TreeClean(s: seq<Child>, start: nat, order: nat, i: nat)
    requires 9 <= order <= TREE_ORDER && i <= Groups(order)
  {
    GroupsClean(s, GroupNumber(start / 512, order), Span(order), Groups(order), i)
  }

  /** How many aligned blocks of that order a tree has. */
  function Groups(order: nat): (g: nat)
    requires 9 <= order <= TREE_ORDER
    ensures g > 0
  {
    Pow2(TREE_ORDER - order)
  }

  lemma HugeNotFired(undo: Undo, s: seq<Child>, first: nat, n: nat, expected: Child, desired: Child)
    requires first + n <= |s| && AllAre(s, first, n, expected)
    ensures !HugeFires(undo, s, first, n, expected, desired) && HugeClean(undo, s, first, n, expected)
  {}

  lemma BlockInChildAt(f: nat, order: nat)
    requires order < 9 && Aligned(f, order)
    ensures Aligned(f % 512, order) && 512 * (f / 512) + f % 512 == f
  {
    SmallPow(9);
    BlockInside(f, order, 9);
  }

  /** A free block's child has enough free frames, and its bits are zero. */
  lemma DecTest(frames: nat, m: Mem, f: nat, order: nat)
    requires Inv(frames, m) && Managed(frames, f, order) && order < 9 && f / 512 < ChildCount(frames) <= |m.children|
    ensures var c := m.children[f / 512];
            && (Block(f, Pow2(order)) <= Free(frames, m) <==>
                ChildDec(c, order).Some? && Block(f, Pow2(order)) <= m.zeros)
            && (ChildDec(c, order).Some? <==> !c.huge && c.free >= Pow2(order))
            && (ChildDec(c, order).Some? ==> ChildDec(c, order).value == Child(c.free - Pow2(order), false)
                                             && ChildInc(ChildDec(c, order).value, order) == Some(c))
  {
    hide Inv, Pow2, Free, ChildCount;
    var c := f / 512;
    FreeInField(frames, m, c);
    ChildTransitions(m.children[c], order);
    SmallBlock(f, order);
    var b := Block(f, Pow2(order));
    if b <= Free(frames, m) {
      assert b <= Free(frames, m) * Field(c);
      CardSubset(b, Free(frames, m) * Field(c));
      assert f in Free(frames, m) * Field(c);
    }
    if !m.children[c].huge && b <= m.zeros {
      assert b <= m.zeros * Field(c);
    }
  }

  lemma WholeChild(c: nat)
    ensures Field(c) == Block(512 * c, Pow2(HUGE_ORDER)) && Aligned(0, HUGE_ORDER) && Pow2(9) == 512
  {
    SmallPow(9);
  }

  lemma GroupStart(f: nat, order: nat)
    requires order >= 9 && Aligned(f, order)
    ensures Span(order) >= 1 && AlignDown(f / 512, Span(order)) == f / 512
  {
    hide Pow2, AlignDown;
    LargeBlock(f, order);
    DivBounds(f, Pow2(order));
    MultipleStart(f, f / Pow2(order), Span(order));
  }

  lemma MultipleStart(f: nat, q: nat, h: nat)
    requires h > 0 && f == q * (512 * h)
    ensures AlignDown(f / 512, h) == f / 512
  {
    hide AlignDown;
    MulSwap(q, h, 512);
    AlignDownIs(q * h, h);
    MulDiv(q, h);
  }

  /** After a split no bit of the child is zero. */
  lemma SplitTaken(m: Mem, f: nat, order: nat)
    requires order < 9 && Aligned(f, order) && f / 512 < |m.children|
    ensures m.children[f / 512].huge ==> Block(f, Pow2(order)) !! Split(m, f / 512).zeros
  {
    hide Pow2;
    SmallBlock(f, order);
  }

  /** The increment after the bits were cleared cannot fail. */
  lemma IncTest(frames: nat, m: Mem, f: nat, order: nat)
    requires Inv(frames, m) && Managed(frames, f, order) && order < 9 && Allocated(m, f, order)
    requires f / 512 < ChildCount(frames) <= |m.children|
    ensures var c := m.children[f / 512];
            var d := if c.huge then Child(0, false) else c;
            ChildInc(d, order) == Some(Child(d.free + Pow2(order), false))
  {
    hide Inv, Free, Pow2, ChildCount;
    DeallocRefines(frames, m, f, order);
    FreeInField(frames, m, f / 512);
    FreeInField(frames, Dealloc(m, f, order), f / 512);
    var c := m.children[f / 512];
    ChildTransitions(if c.huge then Child(0, false) else c, order);
  }

  // ---- searching a tree ----

  /** A child holds no free aligned block of that order. */
  ghost predicate NoneInChild(frames: nat, m: Mem, c: nat, order: nat)
  {
    forall f: nat :: Aligned(f, order) && f / 512 == c ==> !(Block(f, Pow2(order)) <= Free(frames, m))
  }

  lemma TreeOfChild(f: nat)
    ensures TreeOf(f) == f / 512 / TREE_CHILDREN
  {
    TreeOfIs(f);
    DivDiv(f, 512, TREE_CHILDREN);
  }

  lemma SameTreeChild(frames: nat, start: nat, c: nat)
    requires start < frames && c / TREE_CHILDREN == start / 512 / TREE_CHILDREN
    ensures c < Padded(frames)
  {
    hide ChildCount;
    InsideCount(frames, start);
    AlignUpIs(ChildCount(frames), TREE_CHILDREN);
    SameCeiling(c, start / 512, ChildCount(frames), TREE_CHILDREN);
  }

  lemma SameCeiling(c: nat, s: nat, n: nat, d: nat)
    requires d > 0 && c / d == s / d && s < n
    ensures c < DivCeil(n, d) * d
  {
    AlignUpIs(n, d);
    var t, k := c / d, DivCeil(n, d);
    DivBounds(c, d);
    DivBounds(s, d);
    if t >= k {
      MulLe(k, t, d);
    } else {
      MulLe(t + 1, k, d);
    }
  }

  /** A child that can be decremented has a field, and incrementing it again restores it. */
  lemma DecFits(frames: nat, m: Mem, c: nat, order: nat)
    requires Inv(frames, m) && c < |m.children| && order < 9
    ensures ChildDec(m.children[c], order).Some? ==>
              c < ChildCount(frames) && !m.children[c].huge && m.children[c].free >= Pow2(order)
              && ChildDec(m.children[c], order).value == Child(m.children[c].free - Pow2(order), false)
              && ChildInc(ChildDec(m.children[c], order).value, order) == Some(m.children[c])
    ensures ChildDec(m.children[c], order).None? ==> NoneInChild(frames, m, c, order)
  {
    hide Inv, Free, Pow2, ChildCount, Block;
    ChildIsOk(frames, m, c);
    if c < ChildCount(frames) {
      FreeInField(frames, m, c);
    }
    ChildTransitions(m.children[c], order);
    if ChildDec(m.children[c], order).None? {
      forall f: nat | Aligned(f, order) && f / 512 == c
        ensures !(Block(f, Pow2(order)) <= Free(frames, m))
      {
        TooFew(frames, m, f, order);
      }
    }
  }

  lemma TooFew(frames: nat, m: Mem, f: nat, order: nat)
    requires Inv(frames, m) && order < 9 && Aligned(f, order) && f / 512 < |m.children|
    requires m.children[f / 512].huge || m.children[f / 512].free < Pow2(order)
    ensures !(Block(f, Pow2(order)) <= Free(frames, m))
  {
    hide Inv, Pow2, ChildCount, Block;
    var c, b := f / 512, Block(f, Pow2(order));
    ChildIsOk(frames, m, c);
    SmallBlock(f, order);
    if b <= Free(frames, m) {
      FreeInField(frames, m, c);
      CardSubset(b, Free(frames, m) * Field(c));
    }
  }

  /** The result of searching the field of one child, in terms of the free frames. */
  lemma FoundInChild(frames: nat, m: Mem, after: set<nat>, c: nat, order: nat, pos: Option<nat>)
    requires Inv(frames, m) && c < ChildCount(frames) <= |m.children| && !m.children[c].huge && order < 9
    requires Found(m.zeros, after, c, order, pos)
    ensures pos.Some? ==> var f := c * 512 + pos.value;
              f / 512 == c && pos.value < 512 && Managed(frames, f, order) && Block(f, Pow2(order)) <= Free(frames, m)
              && after == m.zeros - Block(f, Pow2(order))
    ensures pos.None? ==> NoneInChild(frames, m, c, order) && after == m.zeros
  {
    hide Inv, Pow2, ChildCount, Padded;
    FreeInField(frames, m, c);
    var n := Pow2(order);
    if pos.Some? {
      var f := c * 512 + pos.value;
      SmallPow(9);
      AlignedMul(c, order, 9);
      AlignedAdd(c * 512, pos.value, order);
      SmallBlock(f, order);
      assert Block(f, n) <= m.zeros * Field(c);
      LastFrame(frames, m, f, n);
    } else {
      forall f: nat | Aligned(f, order) && f / 512 == c
        ensures !(Block(f, n) <= Free(frames, m))
      {
        BlockInChildAt(f, order);
        assert !(Block(512 * c + f % 512, n) <= m.zeros);
      }
    }
  }

  lemma LastFrame(frames: nat, m: Mem, f: nat, n: nat)
    requires n > 0 && Block(f, n) <= Free(frames, m)
    ensures f + n <= frames
  {
    assert f + n - 1 in Block(f, n);
  }

  lemma NoneInTree(frames: nat, m: Mem, start: nat, order: nat)
    requires order < 9
    requires forall k :: 0 <= k < TREE_CHILDREN ==>
               NoneInChild(frames, m, Offsetted(start / 512, TREE_CHILDREN, k), order)
    ensures NoBlock(frames, m, TreeOf(start), order)
  {
    hide Pow2, Block, Free, Offsetted, OffsettedAt;
    forall f: nat | Managed(frames, f, order) && TreeOf(f) == TreeOf(start)
      ensures !(Block(f, Pow2(order)) <= Free(frames, m))
    {
      TreeOfChild(f);
      TreeOfChild(start);
      OffsettedVisitsOnce(start / 512, TREE_CHILDREN);
      var k := OffsettedAt(start / 512, TREE_CHILDREN, f / 512);
      assert NoneInChild(frames, m, Offsetted(start / 512, TREE_CHILDREN, k), order);
    }
  }

  // ---- searching a tree for whole children ----

  /** The group of a child, among all groups of that order. */
  function GroupNumber(c: nat, order: nat): nat
    requires order >= HUGE_ORDER
  {
    Quotient(c, Span(order))
  }

  /** The first child of the group tried in iteration `k`. */
  function GroupAt(start: nat, order: nat, k: nat): nat
    requires 9 <= order <= TREE_ORDER
  {
    Offsetted(GroupNumber(start / 512, order), Groups(order), k) * Span(order)
  }

  /** The iteration in which the group of child `c` is tried. */
  function GroupIndex(start: nat, order: nat, c: nat): nat
    requires 9 <= order <= TREE_ORDER
  {
    OffsettedAt(GroupNumber(start / 512, order), Groups(order), GroupNumber(c, order))
  }

  lemma GroupCount(start: nat, order: nat)
    requires 9 <= order <= TREE_ORDER
    ensures TREE_CHILDREN == Span(order) * Groups(order)
    ensures TREE_CHILDREN / Span(order) == Groups(order)
    ensures AlignDown(start / 512, Span(order)) / Span(order) == start / 512 / Span(order)
  {
    hide Pow2, AlignDown;
    PowAdd(order - 9, TREE_ORDER - order);
    assert order - 9 + (TREE_ORDER - order) == TREE_CHILDREN_ORDER;
    GroupsAre(TREE_CHILDREN, Span(order), Groups(order));
    AlignDownIs(start / 512, Span(order));
  }

  lemma GroupsAre(n: nat, h: nat, g: nat)
    requires h > 0 && n == h * g
    ensures n / h == g
  {
    MulDiv(g, h);
  }

  lemma SpanFrames(order: nat)
    requires order >= 9
    ensures Pow2(order) == 512 * Span(order)
  {
    SmallPow(9);
    PowAdd(9, order - 9);
  }

  /** Every group tried lies in the tree of `start` and inside the entries. */
  lemma GroupInTree(frames: nat, start: nat, order: nat, k: nat)
    requires 9 <= order <= TREE_ORDER && start < frames && k < Groups(order)
    ensures var b, h := GroupAt(start, order, k), Span(order);
            && b + h <= Padded(frames)
            && TreeOf(b * 512) == TreeOf(start)
            && b * 512 / 512 == b
            && Aligned(b * 512, order)
  {
    hide Pow2, Offsetted, OffsettedAt, Padded, Aligned;
    QuotientIs(start / 512, Span(order));
    var h, g := Span(order), Groups(order);
    var q := Offsetted(start / 512 / h, g, k);
    OffsettedForth(start / 512 / h, g, k);
    GroupCount(start, order);
    GroupTree(start / 512, h, g, q);
    SameTreeChild(frames, start, q * h + h - 1);
    TreeOfChild(start);
    TreeOfChild(q * h * 512);
    SpanFrames(order);
    AlignedMul(q, order, order);
    MulSwap(q, 512, h);
  }

  lemma GroupTree(c: nat, h: nat, g: nat, q: nat)
    requires h > 0 && g > 0 && q / g == c / h / g
    ensures h * g > 0 && q * h / (h * g) == c / (h * g) && (q * h + h - 1) / (h * g) == c / (h * g)
  {
    DivDiv(c, h, g);
    MulStep(q, h);
    DivIs(q * h, h, q);
    DivIs(q * h + h - 1, h, q);
    DivDiv(q * h, h, g);
    DivDiv(q * h + h - 1, h, g);
  }

  /** The children of the group tried in iteration `i` are the ones with that index. */
  lemma GroupMembers(start: nat, order: nat, i: nat)
    requires 9 <= order <= TREE_ORDER && i < Groups(order)
    ensures forall x: nat :: GroupAt(start, order, i) <= x < GroupAt(start, order, i) + Span(order) ==>
              GroupIndex(start, order, x) == i
  {
    hide Pow2, Offsetted, OffsettedAt, Quotient;
    QuotientIs(start / 512, Span(order));
    var h, g := Span(order), Groups(order);
    OffsettedForth(start / 512 / h, g, i);
    var q := Offsetted(start / 512 / h, g, i);
    MulStep(q, h);
    GroupAtIs(start, order, i, h, start / 512 / h);
    forall x: nat | GroupAt(start, order, i) <= x < GroupAt(start, order, i) + h
      ensures GroupIndex(start, order, x) == i
    {
      DivIs(x, h, q);
      QuotientIs(x, h);
    }
  }

  lemma GroupAtIs(start: nat, order: nat, i: nat, h: nat, q: nat)
    requires 9 <= order <= TREE_ORDER && h == Span(order) && h > 0 && q == start / 512 / h
    ensures GroupAt(start, order, i) == Offsetted(q, Groups(order), i) * h
  {
    hide Quotient, Offsetted, Pow2;
    QuotientIs(start / 512, h);
  }

  lemma GroupsStep(s: seq<Child>, start: nat, order: nat, i: nat)
    requires 9 <= order <= TREE_ORDER && i < Groups(order)
    requires GroupAt(start, order, i) < |s|
    ensures var h, b := Span(order), GroupAt(start, order, i);
            TreeClean(s, start, order, i) <==>
                if s[b] == FULL then AllAre(s, b, h, FULL) else TreeClean(s, start, order, i + 1)
  {}

  lemma GroupsEnd(s: seq<Child>, start: nat, order: nat)
    requires 9 <= order <= TREE_ORDER
    ensures TreeClean(s, start, order, Groups(order))
  {}

  /** `try_update_huge_n` only changes entries of its group, and a harmful undo leaves the first one
      changed. */
  lemma HugeLocal(undo: Undo, s: seq<Child>, first: nat, n: nat, expected: Child, desired: Child)
    requires n > 0 && first + n <= |s| && expected != desired && !AllAre(s, first, n, expected)
    ensures |HugeAfter(undo, s, first, n, expected, desired)| == |s|
    ensures forall i :: 0 <= i < |s| && !(first <= i < first + n) ==>
            HugeAfter(undo, s, first, n, expected, desired)[i] == s[i]
    ensures !HugeClean(undo, s, first, n, expected) ==>
              n > 1 && undo.Written? && s[first] == expected &&
                  HugeAfter(undo, s, first, n, expected, desired)[first] == desired
  {
    assert n == 1 ==> s[first] != expected;
  }

  /** What is known after `i` groups were tried without success. `stuck` is the first child of a
      group that the undo loop left changed. */
  ghost predicate Searched(undo: Undo, before: seq<Child>, now: seq<Child>, start: nat, order: nat, i: nat,
                           stuck: Option<nat>, fired: bool)
    requires 9 <= order <= TREE_ORDER
  {
    && i <= Groups(order) && |now| == |before|
    && (forall x: nat :: x < |before| && GroupIndex(start, order, x) >= i ==> now[x] == before[x])
    && (forall k :: 0 <= k < i ==> !AllAre(before, GroupAt(start, order, k), Span(order), FULL))
    && match stuck
       case None =>
         && now == before && !fired
         && (undo.Written? ==> (TreeClean(before, start, order, 0) <==> TreeClean(before, start, order, i)))
       case Some(x) =>
         && undo.Written? && order > 9 && !TreeClean(before, start, order, 0)
         && x < |before| && before[x] == FULL && now[x] == TAKEN && GroupIndex(start, order, x) < i
  }

  lemma SearchStarts(undo: Undo, s: seq<Child>, start: nat, order: nat)
    requires 9 <= order <= TREE_ORDER
    ensures Searched(undo, s, s, start, order, 0, None, false)
  {}

  lemma SearchStep(undo: Undo, before: seq<Child>, now: seq<Child>, start: nat, order: nat, i: nat,
                   stuck: Option<nat>, fired: bool)
    requires 9 <= order <= TREE_ORDER && i < Groups(order)
    requires Searched(undo, before, now, start, order, i, stuck, fired)
    requires GroupAt(start, order, i) + Span(order) <= |now|
    ensures var b, h := GroupAt(start, order, i), Span(order);
            var after, fires := HugeAfter(undo, now, b, h, FULL, TAKEN), HugeFires(undo, now, b, h, FULL, TAKEN);
            if AllAre(now, b, h, FULL) then
              SearchHit(undo, before, now, after, start, order, b, stuck, fired || fires)
            else
              Searched(undo, before, after, start, order, i + 1,
                       if stuck.None? && !HugeClean(undo, now, b, h, FULL) then Some(b) else stuck, fired || fires)
  {
    hide Pow2, Offsetted, OffsettedAt, TreeClean, HugeAfter, HugeFires, HugeClean, GroupAt, GroupIndex;
    SmallPow(0);
    var b, h := GroupAt(start, order, i), Span(order);
    GroupMembers(start, order, i);
    GroupsStep(before, start, order, i);
    HugeAllOrNothing(undo, now, b, h, FULL, TAKEN);
    if AllAre(now, b, h, FULL) {
      HugeNotFired(undo, now, b, h, FULL, TAKEN);
    } else {
      HugeLocal(undo, now, b, h, FULL, TAKEN);
      HugeCleanIs(undo, now, b, h, FULL);
    }
  }

  /** The group at `b` was wholly free and is taken now. */
  ghost predicate SearchHit(undo: Undo, before: seq<Child>, now: seq<Child>, after: seq<Child>, start: nat,
                            order: nat, b: nat,
                            stuck: Option<nat>, fired: bool)
    requires 9 <= order <= TREE_ORDER && b + Span(order) <= |now|
  {
    var h := Span(order);
    && AllAre(before, b, h, FULL) && after == SetRange(now, b, h, TAKEN)
    && match stuck
       case None => now == before && !fired && (undo.Written? ==> TreeClean(before, start, order, 0))
       case Some(x) =>
         && undo.Written? && order > 9 && !TreeClean(before, start, order, 0)
         && x < |before| == |after| && before[x] == FULL && after[x] == TAKEN && !(b <= x < b + h)
  }

  lemma SearchEnds(undo: Undo, before: seq<Child>, now: seq<Child>, start: nat, order: nat, stuck: Option<nat>,
                   fired: bool)
    requires 9 <= order <= TREE_ORDER
    requires Searched(undo, before, now, start, order, Groups(order), stuck, fired)
    ensures && (stuck.None? ==> now == before && !fired && (undo.Written? ==> TreeClean(before, start, order, 0)))
            && (stuck.Some? ==> undo.Written? && order > 9 && !TreeClean(before, start, order, 0) && now != before)
    ensures forall k :: 0 <= k < Groups(order) ==> !AllAre(before, GroupAt(start, order, k), Span(order), FULL)
  {
    GroupsEnd(before, start, order);
  }

  /** A child left changed outside the allocated group. */
  lemma NotAlloc(m: Mem, b: nat, order: nat, now: seq<Child>, x: nat)
    requires order >= 9 && b + Span(order) <= |m.children| == |now| && x < |now|
    requires m.children[x] == FULL && now[x] == TAKEN && !(b <= x < b + Span(order))
    ensures b * 512 / 512 == b && Alloc(m, b * 512, order).children != now
  {
    assert b * 512 / 512 == b;
    assert Alloc(m, b * 512, order).children[x] == FULL;
  }

  lemma HugeCleanIs(undo: Undo, s: seq<Child>, first: nat, n: nat, v: Child)
    requires n > 0 && first < |s| && !AllAre(s, first, n, v)
    ensures HugeClean(undo, s, first, n, v) <==> undo.Intended? || s[first] != v
  {}

  lemma FullIsManaged(frames: nat, m: Mem, f: nat, order: nat)
    requires order <= TREE_ORDER && Aligned(f, order) && Block(f, Pow2(order)) <= Free(frames, m)
    ensures Managed(frames, f, order)
  {
    LastFrame(frames, m, f, Pow2(order));
  }

  lemma TookGroupOfTree(frames: nat, m: Mem, start: nat, order: nat, b: nat)
    requires Inv(frames, m) && 9 <= order <= TREE_ORDER && b + Span(order) <= |m.children|
    requires Aligned(b * 512, order) && AllAre(m.children, b, Span(order), FULL)
    ensures Took(frames, m, Alloc(m, b * 512, order), b * 512, order)
    ensures Inv(frames, Alloc(m, b * 512, order))
    ensures Alloc(m, b * 512, order) == Mem(SetRange(m.children, b, Span(order), TAKEN), m.zeros)
  {
    hide Inv, Pow2, Block, Free, Aligned, AllAre;
    assert b * 512 / 512 == b;
    FullRange(frames, m, b * 512, order);
    FullIsManaged(frames, m, b * 512, order);
    AllocRefines(frames, m, b * 512, order);
  }

  lemma NoneInGroupsOfTree(frames: nat, m: Mem, start: nat, order: nat)
    requires Inv(frames, m) && 9 <= order <= TREE_ORDER && start < frames
    requires forall k :: 0 <= k < Groups(order) ==>
               !AllAre(m.children, GroupAt(start, order, k), Span(order), FULL)
    ensures NoBlock(frames, m, TreeOf(start), order)
  {
    hide Pow2, Block, Free, Offsetted, OffsettedAt, Inv, AllAre, Padded, Aligned;
    forall f: nat | Managed(frames, f, order) && TreeOf(f) == TreeOf(start)
      ensures !(Block(f, Pow2(order)) <= Free(frames, m))
    {
      GroupOf(frames, start, order, f);
      var k := GroupIndex(start, order, f / 512);
      InsideCountSpan(frames, f, order);
      InsideCount(frames, f);
      SizeOk(frames, m);
      FullRange(frames, m, f, order);
      assert !AllAre(m.children, GroupAt(start, order, k), Span(order), FULL);
    }
  }

  /** The group whose first child starts the block. */
  lemma GroupOf(frames: nat, start: nat, order: nat, f: nat)
    requires 9 <= order <= TREE_ORDER && Managed(frames, f, order) && TreeOf(f) == TreeOf(start)
    ensures GroupIndex(start, order, f / 512) < Groups(order)
    ensures GroupAt(start, order, GroupIndex(start, order, f / 512)) == f / 512
  {
    hide Pow2, Offsetted, OffsettedAt, Aligned;
    QuotientIs(start / 512, Span(order));
    QuotientIs(f / 512, Span(order));
    var h, g := Span(order), Groups(order);
    TreeOfChild(f);
    TreeOfChild(start);
    GroupCount(start, order);
    GroupStart(f, order);
    AlignDownIs(f / 512, h);
    DivDiv(f / 512, h, g);
    DivDiv(start / 512, h, g);
    OffsettedBack(start / 512 / h, g, f / 512 / h);
  }

  lemma SizeOk(frames: nat, m: Mem)
    requires Inv(frames, m)
    ensures |m.children| == Padded(frames)
  {}

  /** The block at `f` is the first one that the search meets: the children, or groups of children, that it visits
      before have none, and in its own child it is the first one in the order of the rows. */
  ghost predicate FirstFound(frames: nat, m: Mem, rows: seq<bv64>, start: nat, order: nat, f: nat)
  {
    if order < 9 then
      && (forall k: nat :: k < OffsettedAt(start / 512, TREE_CHILDREN, f / 512) ==>
            NoneInChild(frames, m, Offsetted(start / 512, TREE_CHILDREN, k), order))
      && 8 * (f / 512) + 8 <= |rows| && FirstPlace(rows, f / 512, start / 64 % 8, order, f % 512)
    else
      && order <= TREE_ORDER
      && forall k: nat :: k < GroupIndex(start, order, f / 512) ==>
           !AllAre(m.children, GroupAt(start, order, k), Span(order), FULL)
  }

  lemma FirstChildFound(frames: nat, m: Mem, rows: seq<bv64>, start: nat, order: nat, i: nat, p: nat)
    requires order < 9 && i < TREE_CHILDREN && p < 512
    requires forall k :: 0 <= k < i ==> NoneInChild(frames, m, Offsetted(start / 512, TREE_CHILDREN, k), order)
    requires var c := Offsetted(start / 512, TREE_CHILDREN, i);
             8 * c + 8 <= |rows| && FirstPlace(rows, c, start / 64 % 8, order, p)
    ensures FirstFound(frames, m, rows, start, order, Offsetted(start / 512, TREE_CHILDREN, i) * 512 + p)
  {
    hide Offsetted, OffsettedAt, FirstPlace, NoneInChild;
    OffsettedForth(start / 512, TREE_CHILDREN, i);
    var c := Offsetted(start / 512, TREE_CHILDREN, i);
    assert (c * 512 + p) / 512 == c && (c * 512 + p) % 512 == p;
  }

  lemma FirstGroupFound(frames: nat, m: Mem, rows: seq<bv64>, start: nat, order: nat, i: nat, undo: Undo,
                        now: seq<Child>, stuck: Option<nat>, fired: bool)
    requires 9 <= order <= TREE_ORDER && i < Groups(order)
    requires Searched(undo, m.children, now, start, order, i, stuck, fired)
    ensures FirstFound(frames, m, rows, start, order, GroupAt(start, order, i) * 512)
  {
    hide Pow2, Offsetted, OffsettedAt, GroupAt, GroupIndex, AllAre;
    SmallPow(0);
    GroupMembers(start, order, i);
    assert GroupAt(start, order, i) * 512 / 512 == GroupAt(start, order, i);
  }

  // ---- orders for which the undo loops do not matter ----

  /** The orders for which a call without other threads never runs an undo loop that the source and
      the intended code treat differently. */
  predicate UndoUnused(undo: Undo, order: nat, given: bool)
  {
    undo.Intended? || order <= 6 || order == HUGE_ORDER || (order < HUGE_ORDER && !given)
  }

  lemma GetIsClean(undo: Undo, m: Mem, start: nat, order: nat)
    requires UndoUnused(undo, order, false)
    ensures GetClean(undo, m, start, order)
  {}

  lemma GetAtIsClean(undo: Undo, m: Mem, f: nat, order: nat)
    requires UndoUnused(undo, order, true) && f / 512 < |m.children|
    ensures GetAtClean(undo, m, f, order)
  {
    SmallPow(0);
  }

  lemma PutIsClean(undo: Undo, m: Mem, f: nat, order: nat)
    requires UndoUnused(undo, order, true) && f / 512 < |m.children|
    ensures PutClean(undo, m, f, order)
  {
    SmallPow(0);
  }
}
