/** What a get that runs alone has ruled out: it goes through the children, rows and groups of its tree and gives up
    only when none of them has a free block. `free` are the managed frames that nobody holds. */
module ConcSearch {
  import opened Base
  import opened Children
  import opened LowerSpec
  import opened LowerLemmas
  import opened ConcLower
  import opened ConcEffects
  import opened ConcTheorems
  import CP = ConcProof

  // ---- what was ruled out ----

  /** No aligned block of that order of child `c` is free. */
  ghost predicate ChildNone(free: set<nat>, c: nat, order: nat)
  {
    forall f: nat :: Aligned(f, order) && f / 512 == c ==> !(Block(f, Pow2(order)) <= free)
  }

  /** No aligned block that lies in the row of round `j` is free. */
  ghost predicate RowNone(free: set<nat>, goal: Goal, order: nat, j: nat)
  {
    forall f: nat :: Aligned(f, order) && RowOf(goal, j) <= f && f + Pow2(order) <= RowOf(goal, j) + 64 ==>
                       !(Block(f, Pow2(order)) <= free)
  }

  /** The group of rows `g` is not free. */
  ghost predicate RowsNone(free: set<nat>, goal: Goal, order: nat, g: nat)
  {
    !(Block(BaseOf(goal, order, g), Pow2(order)) <= free)
  }

  /** The group of children of round `i` is not free. */
  ghost predicate GroupNone(free: set<nat>, start: nat, order: nat, i: nat)
    requires 9 <= order <= TREE_ORDER
  {
    !(Block(512 * GroupAt(start, order, i), Pow2(order)) <= free)
  }

  /** The children, or groups of children, of the rounds before have no free block. */
  ghost predicate Earlier(free: set<nat>, goal: Goal, order: nat)
  {
    goal.Near? ==>
      forall k: nat :: k < goal.i ==>
        if order < 9 then ChildNone(free, Offsetted(goal.start / 512, TREE_CHILDREN, k), order)
        else order <= TREE_ORDER ==> GroupNone(free, goal.start, order, k)
  }

  /** What the thread has ruled out when it is at `p`. */
  ghost predicate Progress(free: set<nat>, p: Pc)
  {
    match p
    case Dec(goal, order) => Earlier(free, goal, order)
    case Find(goal, order, j) => Earlier(free, goal, order) && forall k: nat :: k < j ==> RowNone(free, goal, order, k)
    case Fill(goal, order, g, _) =>
      Earlier(free, goal, order) && forall h: nat :: h < g ==> RowsNone(free, goal, order, h)
    case Clear(goal, order, g, _, _) =>
      Earlier(free, goal, order) && forall h: nat :: h <= g ==> RowsNone(free, goal, order, h)
    case Inc(goal, order) => Earlier(free, goal, order) && NoneHere(free, goal, order)
    case Whole(goal, order, _) => Earlier(free, goal, order)
    case Unwhole(goal, order, _, _) => Earlier(free, goal, order) && NoneHere(free, goal, order)
    case _ => true
  }

  /** The child or group of this round has no free block, or the given block is not free. */
  ghost predicate NoneHere(free: set<nat>, goal: Goal, order: nat)
  {
    match goal
    case Near(start, i) =>
      if order < 9 then ChildNone(free, ChildOf(goal), order)
      else order <= TREE_ORDER ==> GroupNone(free, start, order, i)
    case Given(frame) => !(Block(frame, Pow2(order)) <= free)
  }

  /** There is no block for the get: none in the tree of the start, or not the given one. */
  ghost predicate Missed(free: set<nat>, goal: Goal, order: nat)
  {
    match goal
    case Near(start, _) =>
      forall f: nat :: Aligned(f, order) && TreeOf(f) == TreeOf(start) ==> !(Block(f, Pow2(order)) <= free)
    case Given(frame) => !(Block(frame, Pow2(order)) <= free)
  }

  // ---- a thread that runs alone ----

  /** Thread `t` is in a get, and all others rest. */
  ghost predicate Lone(frames: nat, s: State, t: nat)
  {
    && Good(frames, s) && t < |s.threads| && Getting(s.threads[t])
    && forall i :: 0 <= i < |s.threads| && i != t ==> s.threads[i].Idle?
  }

  /** The managed frames that nobody holds. */
  function Unheld(frames: nat, s: State): set<nat>
  {
    Block(0, frames) - s.held
  }

  lemma {:induction false} LoneCharge(threads: seq<Pc>, t: nat, c: nat)
    requires t < |threads| && forall i :: 0 <= i < |threads| && i != t ==> threads[i].Idle?
    ensures ChargeSum(threads, c) == Charge(threads[t], c)
  {
    var n := |threads| - 1;
    hide Charge;
    CP.IdleOwes(c);
    if t < n {
      LoneCharge(threads[..n], t, c);
    } else {
      IdleCharges(threads[..n], c);
    }
  }

  /** The zero bits of a child that is not huge are the unheld frames that the thread does not own. */
  lemma LoneZero(frames: nat, s: State, t: nat, c: nat, f: nat)
    requires Lone(frames, s, t) && c < ChildCount(frames) && NotHuge(s.m, c) && f in Field(c)
    ensures f in s.m.zeros <==> f in Unheld(frames, s) && f !in Own(s.threads[t])
  {
    hide ChildCount, Padded, Balanced, ThreadOk, Apart;
    assert ChildInv(frames, s, c);
    assert FrameOk(frames, s, false, f);
    hide Own;
    assert Owned(s.threads, f) <==> f in Own(s.threads[t]) by { LoneOwns(s, t, f); }
  }

  lemma LoneOwns(s: State, t: nat, f: nat)
    requires t < |s.threads| && Getting(s.threads[t])
    requires forall i :: 0 <= i < |s.threads| && i != t ==> s.threads[i].Idle?
    ensures Owned(s.threads, f) <==> f in Own(s.threads[t])
    ensures !Filled(s.threads, f)
  {}

  /** The counter of a child from which the thread has taken nothing is the number of its unheld frames. */
  lemma LoneCounter(frames: nat, s: State, t: nat, c: nat)
    requires Lone(frames, s, t) && c < ChildCount(frames) <= |s.m.children| && Charge(s.threads[t], c) == 0
    ensures s.m.children[c].free == |Unheld(frames, s) * Field(c)|
    ensures s.m.children[c].huge ==> s.m.children[c].free == 0
  {
    hide ChildCount, Padded, ThreadOk, Charge, FrameOk, Field, Own;
    assert ChildInv(frames, s, c);
    LoneCharge(s.threads, t, c);
    RestOfChild(frames, s.held, c);
  }

  /** A child whose counter cannot be decremented has no free block of that order. */
  lemma DecMissed(frames: nat, s: State, t: nat, c: nat, order: nat)
    requires Lone(frames, s, t) && c < |s.m.children| && order < 9 && Charge(s.threads[t], c) == 0
    requires ChildDec(s.m.children[c], order).None?
    ensures ChildNone(Unheld(frames, s), c, order)
  {
    hide Good, Charge, ChildDec, Pow2, ChildCount, Getting, Field;
    CP.Sized(frames, s);
    forall f: nat | Aligned(f, order) && f / 512 == c && Block(f, Pow2(order)) <= Unheld(frames, s)
      ensures ChildDec(s.m.children[c], order).Some?
    {
      FirstIn(f, Pow2(order));
      assert f in Unheld(frames, s);
      InsideCount(frames, f);
      LoneCounter(frames, s, t, c);
      SmallBlock(f, order);
      CardSubset(Block(f, Pow2(order)), Unheld(frames, s) * Field(c));
      BlockSize(f, Pow2(order));
      CounterFits(frames, s, c);
      ChildTransitions(s.m.children[c], order);
    }
  }

  lemma CounterFits(frames: nat, s: State, c: nat)
    requires Good(frames, s) && c < ChildCount(frames) <= |s.m.children|
    ensures s.m.children[c].free <= 512
  {
    hide ChildCount, Padded, ThreadOk, Apart, FrameOk, Field, ChargeSum;
    assert ChildInv(frames, s, c);
  }

  lemma FirstIn(f: nat, n: nat)
    requires n > 0
    ensures f in Block(f, n)
  {}

  // ---- the next round ----

  lemma NextProgress(frames: nat, free: set<nat>, goal: Goal, order: nat)
    requires GoalOk(frames, goal, order) && free <= Block(0, frames) && Earlier(free, goal, order) &&
             NoneHere(free, goal, order)
    ensures var q := Next(goal, order);
            (q.Idle? ==> Missed(free, goal, order)) && (!q.Idle? ==> Progress(free, q))
  {
    hide Pow2, Block, Aligned, Offsetted, GroupAt, Groups, TreeOf;
    match goal
    case Given(_) =>
    case Near(start, i) =>
      if i + 1 == Rounds(goal, order) {
        if order < 9 {
          ChildrenMissed(free, start, order);
        } else {
          GroupsMissed(frames, free, start, order);
        }
      }
  }

  lemma ChildrenMissed(free: set<nat>, start: nat, order: nat)
    requires forall k: nat :: k < TREE_CHILDREN ==> ChildNone(free, Offsetted(start / 512, TREE_CHILDREN, k), order)
    ensures forall f: nat :: Aligned(f, order) && TreeOf(f) == TreeOf(start) ==> !(Block(f, Pow2(order)) <= free)
  {
    hide Pow2, Block, Aligned, Offsetted, OffsettedAt, TreeOf;
    forall f: nat | Aligned(f, order) && TreeOf(f) == TreeOf(start)
      ensures !(Block(f, Pow2(order)) <= free)
    {
      TreeOfChild(f);
      TreeOfChild(start);
      OffsettedBack(start / 512, TREE_CHILDREN, f / 512);
      assert ChildNone(free, Offsetted(start / 512, TREE_CHILDREN, OffsettedAt(start / 512, TREE_CHILDREN, f / 512)),
                       order);
    }
  }

  lemma GroupsMissed(frames: nat, free: set<nat>, start: nat, order: nat)
    requires 9 <= order <= TREE_ORDER && free <= Block(0, frames)
    requires forall k: nat :: k < Groups(order) ==> GroupNone(free, start, order, k)
    ensures forall f: nat :: Aligned(f, order) && TreeOf(f) == TreeOf(start) ==> !(Block(f, Pow2(order)) <= free)
  {
    hide Pow2, Aligned, GroupAt, GroupIndex, Groups, TreeOf;
    forall f: nat | Aligned(f, order) && TreeOf(f) == TreeOf(start) && Block(f, Pow2(order)) <= free
      ensures exists k: nat :: k < Groups(order) && !GroupNone(free, start, order, k)
    {
      assert f + Pow2(order) - 1 in Block(f, Pow2(order));
      assert Managed(frames, f, order);
      GroupOf(frames, start, order, f);
      LargeBlock(f, order);
      assert !GroupNone(free, start, order, GroupIndex(start, order, f / 512));
    }
  }

  // ---- one step ----

  lemma DecProgress(frames: nat, s: State, t: nat)
    requires Lone(frames, s, t) && s.threads[t].Dec? && Progress(Unheld(frames, s), s.threads[t])
    ensures var p, q := s.threads[t], Step(s, t).threads[t];
            (q.Idle? ==> Missed(Unheld(frames, s), p.goal, p.order)) && (Getting(q) ==> Progress(Unheld(frames, s), q))
  {
    hide Good, Pow2, Block, Aligned, ChildOf, Offsetted, ChildCount, Padded, ChildDec, Next, Missed, Field;
    CP.Facts(frames, s, t);
    var Dec(goal, order) := s.threads[t];
    var c := ChildOf(goal);
    CP.Childs(frames, s, goal, order);
    if ChildDec(s.m.children[c], order).None? {
      DecMissed(frames, s, t, c, order);
      ChildIsHere(Unheld(frames, s), goal, order);
      NextProgress(frames, Unheld(frames, s), goal, order);
    }
  }

  /** The child of this round has no free block. */
  lemma ChildIsHere(free: set<nat>, goal: Goal, order: nat)
    requires order < 9 && ChildNone(free, ChildOf(goal), order) && (goal.Given? ==> Aligned(goal.frame, order))
    ensures NoneHere(free, goal, order)
  {}

  lemma FindProgress(frames: nat, s: State, t: nat)
    requires Lone(frames, s, t) && s.threads[t].Find? && Progress(Unheld(frames, s), s.threads[t])
    ensures var q := Step(s, t).threads[t]; Getting(q) ==> Progress(Unheld(frames, s), q)
    ensures !Step(s, t).threads[t].Idle?
  {
    hide Good, Pow2, Block, Aligned, ChildOf, RowOf, Offsetted, ChildCount, Padded, Field, LowestFree, RowNone,
      ChildNone;
    CP.Facts(frames, s, t);
    var Find(goal, order, j) := s.threads[t];
    var free := Unheld(frames, s);
    if goal.Near? {
      if LowestFree(s.m.zeros, RowOf(goal, j), RowOf(goal, j) + 64, Pow2(order)).None? {
        RowMissed(frames, s, t);
        if j == 7 {
          RowsMissed(free, goal, order);
        }
      }
    } else if !(Block(goal.frame, Pow2(order)) <= s.m.zeros) {
      CP.GivenChild(goal);
      GivenMissed(frames, s, t, goal.frame, order);
    }
  }

  /** Where the thread owns nothing, a block of its child is free exactly if its bits are zero. */
  lemma GivenMissed(frames: nat, s: State, t: nat, f: nat, order: nat)
    requires Lone(frames, s, t) && Own(s.threads[t]) == {} && order < 9 && Aligned(f, order)
    requires f / 512 < ChildCount(frames) && NotHuge(s.m, f / 512)
    ensures Block(f, Pow2(order)) <= Unheld(frames, s) <==> Block(f, Pow2(order)) <= s.m.zeros
  {
    hide Good, Pow2, ChildCount, Own, Getting;
    SmallBlock(f, order);
    forall x | x in Block(f, Pow2(order))
      ensures x in Unheld(frames, s) <==> x in s.m.zeros
    {
      LoneZero(frames, s, t, f / 512, x);
    }
  }

  lemma RowMissed(frames: nat, s: State, t: nat)
    requires Lone(frames, s, t) && s.threads[t].Find? && s.threads[t].goal.Near? && ThreadOk(frames, s.m, s.threads[t])
    requires var p := s.threads[t];
             LowestFree(s.m.zeros, RowOf(p.goal, p.j), RowOf(p.goal, p.j) + 64, Pow2(p.order)).None?
    ensures RowNone(Unheld(frames, s), s.threads[t].goal, s.threads[t].order, s.threads[t].j)
  {
    hide Good, Pow2, Block, Aligned, ChildOf, RowOf, ChildCount, LowestFree;
    var Find(goal, order, j) := s.threads[t];
    var row := RowOf(goal, j);
    CP.RowInside(goal, j, order);
    CP.SelfAligned(order);
    forall f: nat | Aligned(f, order) && row <= f && f + Pow2(order) <= row + 64
      ensures !(Block(f, Pow2(order)) <= Unheld(frames, s))
    {
      CP.PartOf(row, f, Pow2(order));
      CP.GroupChild(f, ChildOf(goal), Pow2(order));
      GivenMissed(frames, s, t, f, order);
      LowestComplete(s.m.zeros, row, row + 64, order, f);
    }
  }

  /** The search inside a row misses no aligned block. */
  lemma {:induction false} LowestComplete(zeros: set<nat>, f: nat, end: nat, order: nat, b: nat)
    requires Aligned(f, order) && Aligned(b, order) && f <= b && b + Pow2(order) <= end
    requires LowestFree(zeros, f, end, Pow2(order)).None?
    ensures !(Block(b, Pow2(order)) <= zeros)
    decreases end - f
  {
    hide Pow2, Block, Aligned;
    if b != f {
      NextAlignedAfter(f, b, order);
      CP.SelfAligned(order);
      AlignedAdd(f, Pow2(order), order);
      LowestComplete(zeros, f + Pow2(order), end, order, b);
    }
  }

  lemma NextAlignedAfter(f: nat, b: nat, order: nat)
    requires Aligned(f, order) && Aligned(b, order) && f < b
    ensures f + Pow2(order) <= b
  {
    hide Pow2;
    var n := Pow2(order);
    DivBounds(f, n);
    DivBounds(b, n);
    if b / n <= f / n {
      MulLe(b / n, f / n, n);
    } else {
      MulLe(f / n + 1, b / n, n);
      MulStep(f / n, n);
    }
  }

  /** When no row has a block, the child has none. */
  lemma RowsMissed(free: set<nat>, goal: Goal, order: nat)
    requires goal.Near? && order <= 6 && forall j: nat :: j < 8 ==> RowNone(free, goal, order, j)
    ensures NoneHere(free, goal, order)
  {
    hide Pow2, Block, Offsetted, OffsettedAt, Aligned, ChildOf, RowOf, RowNone;
    forall f: nat | Aligned(f, order) && f / 512 == ChildOf(goal)
      ensures !(Block(f, Pow2(order)) <= free)
    {
      var j := RowWith(goal, order, f);
      RowNoneAt(free, goal, order, j, f);
    }
  }

  /** The round in which the row of a block is searched. */
  lemma RowWith(goal: Goal, order: nat, f: nat) returns (j: nat)
    requires goal.Near? && order <= 6 && Aligned(f, order) && f / 512 == ChildOf(goal)
    ensures j < 8 && RowOf(goal, j) <= f && f + Pow2(order) <= RowOf(goal, j) + 64
  {
    hide Pow2, Offsetted, OffsettedAt, Aligned, ChildOf;
    var start, r := goal.start / 64 % 8, f / 64 % 8;
    j := OffsettedAt(start, 8, r);
    SmallBack(start, 8, r);
    BlockInRow(f, order);
    RowParts(f);
  }

  /** A frame lies in a child, and in a row of that child. */
  lemma RowParts(f: nat)
    ensures f == 512 * (f / 512) + 64 * (f / 64 % 8) + f % 64
  {
    var q := f / 64;
    assert f == 64 * q + f % 64 && f / 512 == q / 8 && q == 8 * (q / 8) + q % 8;
  }

  lemma RowNoneAt(free: set<nat>, goal: Goal, order: nat, j: nat, f: nat)
    requires RowNone(free, goal, order, j) && Aligned(f, order)
    requires RowOf(goal, j) <= f && f + Pow2(order) <= RowOf(goal, j) + 64
    ensures !(Block(f, Pow2(order)) <= free)
  {
    hide Pow2, Block, Aligned, RowOf;
  }

  lemma FillProgress(frames: nat, s: State, t: nat)
    requires Lone(frames, s, t) && s.threads[t].Fill? && Progress(Unheld(frames, s), s.threads[t])
    ensures var q := Step(s, t).threads[t]; Getting(q) ==> Progress(Unheld(frames, s), q)
    ensures !Step(s, t).threads[t].Idle?
  {
    hide Good, Pow2, Block, Aligned, ChildOf, BaseOf, ChildCount, Padded, Field, RowsNone, ChildNone, NextRows;
    CP.Facts(frames, s, t);
    var Fill(goal, order, g, k) := s.threads[t];
    var free := Unheld(frames, s);
    if !(Block(BaseOf(goal, order, g) + 64 * k, 64) <= s.m.zeros) {
      GroupOfRowsMissed(frames, s, t);
      NextRowsProgress(frames, free, goal, order, g);
    }
  }

  /** A row that is not zero, and that the thread does not own, is not free. */
  lemma GroupOfRowsMissed(frames: nat, s: State, t: nat)
    requires Lone(frames, s, t) && s.threads[t].Fill? && ThreadOk(frames, s.m, s.threads[t])
    requires var p := s.threads[t]; !(Block(BaseOf(p.goal, p.order, p.g) + 64 * p.k, 64) <= s.m.zeros)
    ensures var p := s.threads[t]; RowsNone(Unheld(frames, s), p.goal, p.order, p.g)
  {
    hide Good, Pow2, Aligned, ChildOf, BaseOf, ChildCount, Field, Rounds;
    var Fill(goal, order, g, k) := s.threads[t];
    var f, c := BaseOf(goal, order, g), ChildOf(goal);
    BaseInside(frames, goal, order, g);
    CP.GroupPart(f, RowsOf(order), k);
    var x :| x in Block(f + 64 * k, 64) && x !in s.m.zeros;
    LoneZero(frames, s, t, c, x);
    assert x !in Own(s.threads[t]);
  }

  lemma NextRowsProgress(frames: nat, free: set<nat>, goal: Goal, order: nat, g: nat)
    requires GoalOk(frames, goal, order) && GroupOk(goal, order, g) && Earlier(free, goal, order)
    requires forall h: nat :: h <= g ==> RowsNone(free, goal, order, h)
    ensures Progress(free, NextRows(goal, order, g)) && Getting(NextRows(goal, order, g))
  {
    hide Pow2, Block, Aligned, ChildOf, BaseOf, Earlier;
    if goal.Given? {
      assert RowsNone(free, goal, order, 0) && BaseOf(goal, order, 0) == goal.frame by { GivenBase(goal, order); }
    } else if g + 1 == 8 / RowsOf(order) {
      AllRowsMissed(frames, free, goal, order);
    }
  }

  lemma GivenBase(goal: Goal, order: nat)
    requires goal.Given?
    ensures BaseOf(goal, order, 0) == goal.frame
  {}

  /** When no group of rows is free, the child has no free block of that order. */
  lemma AllRowsMissed(frames: nat, free: set<nat>, goal: Goal, order: nat)
    requires GoalOk(frames, goal, order) && goal.Near? && 7 <= order <= 8
    requires forall h: nat :: h < 8 / RowsOf(order) ==> RowsNone(free, goal, order, h)
    ensures NoneHere(free, goal, order)
  {
    hide Pow2, Block, Offsetted, OffsettedAt, Aligned;
    SmallPow(order);
    var e := RowsOf(order);
    var start := goal.start / 64 % 8 / e;
    forall f: nat | Aligned(f, order) && f / 512 == ChildOf(goal)
      ensures !(Block(f, Pow2(order)) <= free)
    {
      var g := f / 64 % 8 / e;
      RowsStart(f, order);
      OffsettedBack(start, 8 / e, g);
      var h := OffsettedAt(start, 8 / e, g);
      assert RowsNone(free, goal, order, h) && Offsetted(start, 8 / e, h) == g;
      assert BaseOf(goal, order, h) == f;
    }
  }

  lemma RowsStart(f: nat, order: nat)
    requires 7 <= order <= 8 && Aligned(f, order)
    ensures var e := RowsOf(order); f == 512 * (f / 512) + 64 * (e * (f / 64 % 8 / e)) && f / 64 % 8 / e < 8 / e
  {
    hide Pow2;
    SmallPow(order);
    if order == 7 {
      var q := f / 128;
      assert f == 128 * q && f / 64 == 2 * q && f / 512 == q / 4;
    } else {
      var q := f / 256;
      assert f == 256 * q && f / 64 == 4 * q && f / 512 == q / 2;
    }
  }

  lemma ClearProgress(frames: nat, s: State, t: nat)
    requires Lone(frames, s, t) && s.threads[t].Clear? && Progress(Unheld(frames, s), s.threads[t])
    ensures var q := Step(s, t).threads[t]; Getting(q) ==> Progress(Unheld(frames, s), q)
    ensures !Step(s, t).threads[t].Idle?
  {
    hide Good, Pow2, Block, Aligned, ChildOf, BaseOf, ChildCount, Padded, Field, RowsNone, ChildNone, NextRows;
    CP.Facts(frames, s, t);
    var Clear(goal, order, g, k, u) := s.threads[t];
    NextRowsProgress(frames, Unheld(frames, s), goal, order, g);
  }

  lemma IncProgress(frames: nat, s: State, t: nat)
    requires Lone(frames, s, t) && s.threads[t].Inc? && Progress(Unheld(frames, s), s.threads[t])
    ensures var p, q := s.threads[t], Step(s, t).threads[t];
            (q.Idle? ==> Missed(Unheld(frames, s), p.goal, p.order)) && (Getting(q) ==> Progress(Unheld(frames, s), q))
  {
    hide Good, Pow2, Block, Aligned, ChildOf, ChildCount, Padded, ChildInc, Next, Missed, NoneHere, Earlier;
    CP.Facts(frames, s, t);
    NextProgress(frames, Unheld(frames, s), s.threads[t].goal, s.threads[t].order);
  }

  lemma WholeProgress(frames: nat, s: State, t: nat)
    requires Lone(frames, s, t) && s.threads[t].Whole? && Progress(Unheld(frames, s), s.threads[t])
    ensures var p, q := s.threads[t], Step(s, t).threads[t];
            (q.Idle? ==> Missed(Unheld(frames, s), p.goal, p.order)) && (Getting(q) ==> Progress(Unheld(frames, s), q))
  {
    hide Good, Pow2, Block, Aligned, FirstOf, ChildCount, Padded, Next, Missed, NoneHere, Earlier, Span, Rounds,
      AllAre;
    CP.Facts(frames, s, t);
    CP.Sized(frames, s);
    var Whole(goal, order, j) := s.threads[t];
    CP.GroupOfGoal(frames, goal, order);
    if s.m.children[FirstOf(goal, order) + j] != FULL {
      WholeMissed(frames, s, t);
      NextProgress(frames, Unheld(frames, s), goal, order);
    }
  }

  /** A child of the group that is not wholly free. */
  lemma WholeMissed(frames: nat, s: State, t: nat)
    requires Lone(frames, s, t) && s.threads[t].Whole? && ThreadOk(frames, s.m, s.threads[t])
    requires var p := s.threads[t]; var c := FirstOf(p.goal, p.order) + p.j;
             c < |s.m.children| && s.m.children[c] != FULL
    ensures NoneHere(Unheld(frames, s), s.threads[t].goal, s.threads[t].order)
  {
    hide Good, Pow2, ChildCount, Padded, FirstOf, Span, Rounds, AllAre, Aligned;
    var Whole(goal, order, j) := s.threads[t];
    var free, first := Unheld(frames, s), FirstOf(goal, order);
    var c := first + j;
    CP.SpanIs(order);
    CP.Sized(frames, s);
    FirstIsHere(goal, order);
    if Block(512 * first, Pow2(order)) <= free {
      assert Field(c) <= free;
      FirstIn(512 * c, 512);
      assert 512 * c in free;
      InsideCount(frames, 512 * c);
      LoneCounter(frames, s, t, c);
      assert free * Field(c) == Field(c);
      BlockSize(512 * c, 512);
    }
  }

  lemma FirstIsHere(goal: Goal, order: nat)
    requires 9 <= order <= TREE_ORDER && (goal.Given? ==> Aligned(goal.frame, order))
    ensures forall free: set<nat> ::
              NoneHere(free, goal, order) <==> !(Block(512 * FirstOf(goal, order), Pow2(order)) <= free)
  {
    hide Pow2, Block, GroupAt, Aligned;
    if goal.Given? {
      LargeBlock(goal.frame, order);
    }
  }

  lemma UnwholeProgress(frames: nat, s: State, t: nat)
    requires Lone(frames, s, t) && s.threads[t].Unwhole? && Progress(Unheld(frames, s), s.threads[t])
    ensures var p, q := s.threads[t], Step(s, t).threads[t];
            (q.Idle? ==> Missed(Unheld(frames, s), p.goal, p.order)) && (Getting(q) ==> Progress(Unheld(frames, s), q))
  {
    hide Good, Pow2, Block, Aligned, FirstOf, ChildCount, Padded, Next, Missed, NoneHere, Earlier, Span, Rounds,
      AllAre;
    CP.Facts(frames, s, t);
    NextProgress(frames, Unheld(frames, s), s.threads[t].goal, s.threads[t].order);
  }

  /** A get that runs alone ends with nothing only when there is no block for it. */
  lemma ProgressStep(frames: nat, s: State, t: nat)
    requires Lone(frames, s, t) && Progress(Unheld(frames, s), s.threads[t])
    ensures var p, q := s.threads[t], Step(s, t).threads[t];
            (q.Idle? ==> Missed(Unheld(frames, s), p.goal, p.order)) && (Getting(q) ==> Progress(Unheld(frames, s), q))
  {
    hide Good, StepBy, Progress, Missed, Unheld;
    match s.threads[t]
    case Dec(_, _) => DecProgress(frames, s, t);
    case Find(_, _, _) => FindProgress(frames, s, t);
    case Fill(_, _, _, _) => FillProgress(frames, s, t);
    case Clear(_, _, _, _, _) => ClearProgress(frames, s, t);
    case Inc(_, _) => IncProgress(frames, s, t);
    case Whole(_, _, _) => WholeProgress(frames, s, t);
    case Unwhole(_, _, _, _) => UnwholeProgress(frames, s, t);
    case _ =>
  }
}
