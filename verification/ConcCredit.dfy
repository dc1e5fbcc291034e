/** Sums over the calls in progress, and what a step below changes in them. */
module ConcCredit {
  import opened Base
  import opened Children
  import opened LowerSpec
  import opened LowerLemmas
  import opened LowerWhole
  import opened Policies
  import opened TreeEntries
  import opened Locals
  import opened Accounts
  import opened UpperSpec
  import opened ConcUpper
  import CL = ConcLower
  import CE = ConcEffects
  import CP = ConcProof

  // ---- sums over calls ----

  lemma {:induction false} CreditChange(calls: seq<Call>, threads: seq<CL.Pc>, i: nat, c: Call, p: CL.Pc, x: nat)
    requires i < |calls| == |threads|
    ensures CreditSum(calls[i := c], threads[i := p], x) ==
            CreditSum(calls, threads, x) - Credit(calls[i], threads[i], x) + Credit(c, p, x)
  {
    hide Credit;
    var n := |calls| - 1;
    if i < n {
      CreditChange(calls[..n], threads[..n], i, c, p, x);
      assert calls[i := c][..n] == calls[..n][i := c];
      assert threads[i := p][..n] == threads[..n][i := p];
    } else {
      assert calls[i := c][..n] == calls[..n];
      assert threads[i := p][..n] == threads[..n];
    }
  }

  lemma {:induction false} TokenChange(calls: seq<Call>, i: nat, c: Call, x: nat)
    requires i < |calls|
    ensures TokenSum(calls[i := c], x) + Tokens(calls[i], x) == TokenSum(calls, x) + Tokens(c, x)
  {
    hide Tokens;
    var n := |calls| - 1;
    if i < n {
      TokenChange(calls[..n], i, c, x);
      assert calls[i := c][..n] == calls[..n][i := c];
    } else {
      assert calls[i := c][..n] == calls[..n];
    }
  }

  lemma {:induction false} CreditAtMost(calls: seq<Call>, threads: seq<CL.Pc>, i: nat, x: nat)
    requires i < |calls| == |threads| && forall k :: 0 <= k < |calls| ==> Credit(calls[k], threads[k], x) >= 0
    ensures Credit(calls[i], threads[i], x) <= CreditSum(calls, threads, x)
  {
    hide Credit;
    var n := |calls| - 1;
    if i < n {
      CreditAtMost(calls[..n], threads[..n], i, x);
    } else {
      CreditPositive(calls[..n], threads[..n], x);
    }
  }

  lemma {:induction false} CreditPositive(calls: seq<Call>, threads: seq<CL.Pc>, x: nat)
    requires |calls| == |threads| && forall k :: 0 <= k < |calls| ==> Credit(calls[k], threads[k], x) >= 0
    ensures CreditSum(calls, threads, x) >= 0
  {
    hide Credit;
    if calls != [] {
      var n := |calls| - 1;
      CreditPositive(calls[..n], threads[..n], x);
    }
  }

  lemma {:induction false} TokenAtMost(calls: seq<Call>, i: nat, x: nat)
    requires i < |calls|
    ensures Tokens(calls[i], x) <= TokenSum(calls, x)
  {
    hide Tokens;
    var n := |calls| - 1;
    if i < n {
      TokenAtMost(calls[..n], i, x);
    }
  }

  // ---- charges of one tree ----

  lemma {:induction false} OneCharged(p: CL.Pc, c: nat, v: nat, a: nat, n: nat)
    requires forall d: nat :: CL.Charge(p, d) == if d == c then v else 0
    ensures ChargeRange(p, a, n) == if a <= c < a + n then v else 0
  {
    hide CL.Charge;
    if n > 0 {
      OneCharged(p, c, v, a, n - 1);
    }
  }

  function Overlap(b: nat, k: nat, a: nat, n: nat): nat
  {
    var lo, hi := if a > b then a else b, if a + n < b + k then a + n else b + k;
    if hi > lo then hi - lo else 0
  }

  lemma {:induction false} ManyCharged(p: CL.Pc, b: nat, k: nat, a: nat, n: nat)
    requires forall d: nat :: CL.Charge(p, d) == if b <= d < b + k then 512 else 0
    ensures ChargeRange(p, a, n) == 512 * Overlap(b, k, a, n)
  {
    hide CL.Charge;
    if n > 0 {
      ManyCharged(p, b, k, a, n - 1);
    }
  }

  lemma {:induction false} NoneCharged(p: CL.Pc, a: nat, n: nat)
    requires forall d: nat :: CL.Charge(p, d) == 0
    ensures ChargeRange(p, a, n) == 0
  {
    hide CL.Charge;
    if n > 0 {
      NoneCharged(p, a, n - 1);
    }
  }

  /** The children of a tree. */
  lemma ChildOfTree(c: nat, x: nat)
    ensures x * TREE_CHILDREN <= c < x * TREE_CHILDREN + TREE_CHILDREN <==> c / TREE_CHILDREN == x
  {
    InRange(c, x, TREE_CHILDREN);
  }

  lemma InRange(c: nat, x: nat, d: nat)
    requires d > 0
    ensures x * d <= c < x * d + d <==> c / d == x
  {
    DivBounds(c, d);
    MulStep(x, d);
    MulStep(c / d, d);
    if x * d <= c < x * d + d {
      DivIs(c, d, x);
    }
  }

  lemma TreeOfFrame(f: nat)
    ensures TreeOf(f) == f / 512 / TREE_CHILDREN
  {
    TreeOfChild(f);
  }

  /** A group of children that lies in one tree. */
  lemma GroupInsideTree(b: nat, k: nat, x: nat)
    requires k > 0 && b / TREE_CHILDREN == (b + k - 1) / TREE_CHILDREN
    ensures Overlap(b, k, x * TREE_CHILDREN, TREE_CHILDREN) == if x == b / TREE_CHILDREN then k else 0
  {
    OverlapIs(b, k, x, TREE_CHILDREN);
  }

  lemma OverlapIs(b: nat, k: nat, x: nat, d: nat)
    requires k > 0 && d > 0 && b / d == (b + k - 1) / d
    ensures Overlap(b, k, x * d, d) == if x == b / d then k else 0
  {
    var y := b / d;
    InRange(b, y, d);
    InRange(b + k - 1, y, d);
    if x > y {
      MulLe(y + 1, x, d);
      MulStep(y, d);
    } else if x < y {
      MulLe(x + 1, y, d);
      MulStep(x, d);
    }
  }

  /** Part of a group lies in the same tree. */
  lemma SubgroupInsideTree(b: nat, k: nat, first: nat, h: nat, x: nat)
    requires first <= b && b + k <= first + h && h > 0 && first / TREE_CHILDREN == (first + h - 1) / TREE_CHILDREN
    ensures Overlap(b, k, x * TREE_CHILDREN, TREE_CHILDREN) <= if x == first / TREE_CHILDREN then k else 0
  {
    GroupInsideTree(first, h, x);
  }

  /** A block of whole children lies in one tree. */
  lemma LargeInTree(frames: nat, f: nat, order: nat)
    requires Managed(frames, f, order) && order >= 9
    ensures f / 512 / TREE_CHILDREN == (f / 512 + Span(order) - 1) / TREE_CHILDREN == TreeOf(f)
    ensures Span(order) > 0 && Pow2(order) == 512 * Span(order)
  {
    hide Pow2, TreeCount, TreeFrames, Aligned;
    CP.SpanIs(order);
    LargeBlock(f, order);
    BlockInTree(frames, f, order);
    var last := f + Pow2(order) - 1;
    assert last in Block(f, Pow2(order));
    TreeOfChildren(TreeOf(f));
    TreeOfFrame(f);
    TreeOfFrame(last);
    assert last / 512 == f / 512 + Span(order) - 1;
  }

  /** What a thread below charges lies in its tree, and is never more than its block. */
  lemma ChargeInTree(frames: nat, m: Mem, p: CL.Pc, x: nat)
    requires CL.ThreadOk(frames, m, p)
    ensures !p.Idle? ==> TreeCharge(p, x) <= if x == PcTree(p) then Pow2(PcOrder(p)) else 0
    ensures p.Idle? || p.Dec? ==> TreeCharge(p, x) == 0
    ensures p.Hand? ==> TreeCharge(p, x) == if x == PcTree(p) then Pow2(p.order) else 0
  {
    if p.Idle? || p.Dec? {
      NoneCharged(p, x * TREE_CHILDREN, TREE_CHILDREN);
    } else if p.Find? || p.Fill? || p.Clear? || p.Inc? {
      SmallGetCharge(frames, m, p, x);
    } else if p.Whole? || p.Unwhole? {
      LargeGetCharge(frames, m, p, x);
    } else if p.FreeWhole? {
      FreeWholeCharge(frames, m, p, x);
    } else {
      BlockTreeCharge(frames, m, p, x);
    }
  }

  lemma SmallGetCharge(frames: nat, m: Mem, p: CL.Pc, x: nat)
    requires CL.ThreadOk(frames, m, p) && (p.Find? || p.Fill? || p.Clear? || p.Inc?)
    ensures TreeCharge(p, x) <= if x == PcTree(p) then Pow2(PcOrder(p)) else 0
  {
    hide Pow2, Offsetted, ChildCount;
    var c := CL.ChildOf(p.goal);
    OneCharged(p, c, Pow2(p.order), x * TREE_CHILDREN, TREE_CHILDREN);
    ChildOfTree(c, x);
    GoalChild(frames, p.goal, p.order);
  }

  lemma GoalChild(frames: nat, goal: CL.Goal, order: nat)
    requires CL.GoalOk(frames, goal, order) && order < 9
    ensures CL.ChildOf(goal) / TREE_CHILDREN == GoalTree(goal)
  {
    hide Pow2, Offsetted;
    match goal
    case Near(start, i) =>
      OffsettedForth(start / 512, TREE_CHILDREN, i);
      TreeOfFrame(start);
    case Given(frame) => TreeOfFrame(frame);
  }

  lemma LargeGetCharge(frames: nat, m: Mem, p: CL.Pc, x: nat)
    requires CL.ThreadOk(frames, m, p) && (p.Whole? || p.Unwhole?)
    ensures TreeCharge(p, x) <= if x == PcTree(p) then Pow2(PcOrder(p)) else 0
  {
    hide Pow2, CL.FirstOf, CL.Rounds, AllAre, Span;
    var first, h := CL.FirstOf(p.goal, p.order), Span(p.order);
    var k := if p.Whole? then p.j else p.j - p.u;
    GoalGroup(frames, p.goal, p.order);
    ManyCharged(p, first, k, x * TREE_CHILDREN, TREE_CHILDREN);
    SubgroupInsideTree(first, k, first, h, x);
  }

  lemma GoalGroup(frames: nat, goal: CL.Goal, order: nat)
    requires CL.GoalOk(frames, goal, order) && order >= 9
    ensures var first, h := CL.FirstOf(goal, order), Span(order);
            h > 0 && first / TREE_CHILDREN == (first + h - 1) / TREE_CHILDREN == GoalTree(goal) &&
                Pow2(order) == 512 * h
            && TreeOf(512 * first) == GoalTree(goal)
  {
    hide Pow2, GroupAt, Span, Aligned, Padded, TreeOf;
    CP.SpanIs(order);
    match goal
    case Near(start, i) =>
      GroupInTree(frames, start, order, i);
      var b := GroupAt(start, order, i);
      assert 512 * b == b * 512;
      LargeInTree(512 * b + Pow2(order), 512 * b, order);
      assert 512 * b / 512 == b;
    case Given(frame) =>
      LargeInTree(frames, frame, order);
      LargeBlock(frame, order);
  }

  lemma FreeWholeCharge(frames: nat, m: Mem, p: CL.Pc, x: nat)
    requires CL.ThreadOk(frames, m, p) && p.FreeWhole?
    ensures TreeCharge(p, x) <= if x == PcTree(p) then Pow2(PcOrder(p)) else 0
    ensures p.j == 0 ==> TreeCharge(p, x) == if x == PcTree(p) then Pow2(p.order) else 0
  {
    hide Pow2, Span, AllAre, Aligned;
    var first, h := p.frame / 512, Span(p.order);
    LargeInTree(frames, p.frame, p.order);
    ManyCharged(p, first + p.j, h - p.j, x * TREE_CHILDREN, TREE_CHILDREN);
    SubgroupInsideTree(first + p.j, h - p.j, first, h, x);
    GroupInsideTree(first, h, x);
  }

  lemma BlockTreeCharge(frames: nat, m: Mem, p: CL.Pc, x: nat)
    requires CL.ThreadOk(frames, m, p)
    requires p.Hand? || p.Load? || p.Split? || p.Unsplit? || p.Commit? || p.Wait? || p.Release? || p.Count?
    ensures TreeCharge(p, x) == if x == PcTree(p) then Pow2(p.order) else 0
  {
    hide Pow2, Span, Aligned, ChildCount;
    if p.order < 9 {
      OneCharged(p, p.frame / 512, Pow2(p.order), x * TREE_CHILDREN, TREE_CHILDREN);
      ChildOfTree(p.frame / 512, x);
      TreeOfFrame(p.frame);
    } else {
      LargeInTree(frames, p.frame, p.order);
      ManyCharged(p, p.frame / 512, Span(p.order), x * TREE_CHILDREN, TREE_CHILDREN);
      GroupInsideTree(p.frame / 512, Span(p.order), x);
    }
  }

  // ---- steps below ----

  /** A step below moves frames between the counter of a child and the thread, and nothing else. */
  lemma StepConserves(frames: nat, s: CL.State, t: nat, c: nat)
    requires CL.Good(frames, s) && t < |s.threads| && !s.threads[t].Hand? && c < |s.m.children|
    ensures var s' := CL.Step(s, t);
            |s'.m.children| == |s.m.children|
            && s'.m.children[c].free + CL.Charge(s'.threads[t], c) == s.m.children[c].free + CL.Charge(s.threads[t], c)
  {
    hide CL.Apart, CL.FrameOk, CL.ThreadOk, CL.Own, CL.Fills, CL.Charge, CL.ChargeSum, Field, ChildCount, Padded,
      CL.GetStep, CL.PutStep;
    CP.StepKeeps(frames, s, t);
    var s' := CL.Step(s, t);
    if c < ChildCount(frames) {
      assert CL.ChildInv(frames, s, c) && CL.ChildInv(frames, s', c);
      CE.ChargeChange(s.threads, t, s'.threads[t], c);
    } else {
      BeyondUncharged(frames, s, t, c);
      BeyondUncharged(frames, s', t, c);
    }
  }

  /** No thread charges an entry past the last child. */
  lemma BeyondUncharged(frames: nat, s: CL.State, t: nat, c: nat)
    requires CL.Good(frames, s) && t < |s.threads| && c >= ChildCount(frames)
    ensures CL.Charge(s.threads[t], c) == 0
  {
    hide CL.Good, CL.ChildInv, CL.Apart, CL.Own, ChildCount, Padded, Pow2, CL.FirstOf, Field, Span;
    CP.Facts(frames, s, t);
    var p := s.threads[t];
    if p.Whole? || p.Unwhole? || p.FreeWhole? {
      if CL.Charge(p, c) > 0 {
        OwnsWhole(frames, s.m, p, c);
        CP.OwnedInside(frames, s, t, c);
      }
    } else if !p.Idle? && !p.Dec? && !p.Find? && !p.Fill? && !p.Clear? && !p.Inc? {
      BlockBelow(frames, p.frame, p.order, c);
    }
  }

  lemma OwnsWhole(frames: nat, m: Mem, p: CL.Pc, c: nat)
    requires CL.ThreadOk(frames, m, p) && (p.Whole? || p.Unwhole? || p.FreeWhole?) && CL.Charge(p, c) > 0
    ensures Field(c) <= CL.Own(p)
  {
    hide Pow2, CL.FirstOf, Span, AllAre;
  }

  lemma BlockBelow(frames: nat, frame: nat, order: nat, c: nat)
    requires Managed(frames, frame, order) && c >= ChildCount(frames)
    ensures CL.BlockCharge(frame, order, c) == 0
  {
    hide Pow2, ChildCount;
    if order < 9 {
      InsideCount(frames, frame);
    } else {
      InsideCountSpan(frames, frame, order);
    }
  }

  /** The sums over a tree change by what the thread's charge changes. */
  lemma {:induction false} SumConserves(frames: nat, s: CL.State, t: nat, first: nat, n: nat)
    requires CL.Good(frames, s) && t < |s.threads| && !s.threads[t].Hand? && first + n <= |s.m.children|
    ensures var s' := CL.Step(s, t);
            |s'.m.children| == |s.m.children|
            && SumFree(s'.m.children, first, n) + ChargeRange(s'.threads[t], first, n) ==
               SumFree(s.m.children, first, n) + ChargeRange(s.threads[t], first, n)
  {
    hide CL.Good, CL.Step, CL.Charge;
    SameLength(frames, s, t);
    if n > 0 {
      SumConserves(frames, s, t, first, n - 1);
      StepConserves(frames, s, t, first + n - 1);
    }
  }

  lemma SameLength(frames: nat, s: CL.State, t: nat)
    requires CL.Good(frames, s) && t < |s.threads|
    ensures |CL.Step(s, t).m.children| == |s.m.children|
  {
    hide CL.Step, CL.ChildInv, CL.Apart, CL.ThreadOk, Padded, ChildCount;
    CP.StepKeeps(frames, s, t);
  }

  // ---- which tree a thread below works on ----

  /** A call below stays in its tree and with its order until it ends. */
  lemma StepStays(frames: nat, s: CL.State, t: nat)
    requires CL.Good(frames, s) && t < |s.threads| && (CL.Getting(s.threads[t]) || Putting(s.threads[t]))
    ensures var p, q := s.threads[t], CL.Step(s, t).threads[t];
            q.Idle? || (PcTree(q) == PcTree(p) && PcOrder(q) == PcOrder(p)
                        && (CL.Getting(p) ==> CL.Getting(q) || q.Hand?) && (Putting(p) ==> Putting(q) || q.Hand?))
  {
    hide CL.Good, CL.GetStep, CL.PutStep, CL.ThreadOk;
    CP.Facts(frames, s, t);
    CP.StepKeeps(frames, s, t);
    CP.Facts(frames, CL.Step(s, t), t);
    if CL.Getting(s.threads[t]) {
      GetStays(frames, s, t);
    } else {
      PutStays(frames, s, t);
    }
  }

  lemma PutStays(frames: nat, s: CL.State, t: nat)
    requires t < |s.threads| && Putting(s.threads[t])
    requires CL.ThreadOk(frames, CL.Step(s, t).m, CL.Step(s, t).threads[t])
    ensures var p, q := s.threads[t], CL.Step(s, t).threads[t];
            q.Idle? || (PcTree(q) == PcTree(p) && PcOrder(q) == PcOrder(p) && (Putting(q) || q.Hand?))
  {
    hide Pow2, Block, Managed, ChildCount, Span, ChildInc, AllAre, RowsOf, TreeOf, Field, CL.NotHuge;
    NotFired(frames, CL.Step(s, t).m, CL.Step(s, t).threads[t]);
  }

  lemma GetStays(frames: nat, s: CL.State, t: nat)
    requires t < |s.threads| && CL.Getting(s.threads[t]) && CL.ThreadOk(frames, s.m, s.threads[t])
    requires CL.ThreadOk(frames, CL.Step(s, t).m, CL.Step(s, t).threads[t])
    ensures var p, q := s.threads[t], CL.Step(s, t).threads[t];
            q.Idle? || (PcTree(q) == PcTree(p) && PcOrder(q) == PcOrder(p) && (CL.Getting(q) || q.Hand?))
  {
    hide Pow2, Block, Managed, ChildCount, Span, ChildInc, ChildDec, CL.BaseOf, CL.FirstOf, CL.ChildOf, CL.Rounds,
      CL.LowestFree, CL.RowOf, RowsOf, TreeOf, CL.ThreadOk;
    var p := s.threads[t];
    HandsOver(frames, s, t);
    GoalsAgree(p);
    NotFired(frames, CL.Step(s, t).m, CL.Step(s, t).threads[t]);
  }

  lemma NotFired(frames: nat, m: Mem, p: CL.Pc)
    requires CL.ThreadOk(frames, m, p)
    ensures !p.Fired?
  {}

  /** The goals of one search name the same tree. */
  lemma GoalsAgree(p: CL.Pc)
    requires CL.Getting(p) && p.order <= TREE_ORDER
    ensures var q := CL.Next(p.goal, p.order);
            q.Idle? || (PcTree(q) == GoalTree(p.goal) && PcOrder(q) == p.order && CL.Getting(q))
  {}

  /** The block that a get found lies in the tree of its goal. */
  lemma HandsOver(frames: nat, s: CL.State, t: nat)
    requires t < |s.threads| && CL.Getting(s.threads[t]) && CL.ThreadOk(frames, s.m, s.threads[t])
    requires CL.ThreadOk(frames, CL.Step(s, t).m, CL.Step(s, t).threads[t])
    ensures s.threads[t].order <= TREE_ORDER
    ensures var p, q := s.threads[t], CL.Step(s, t).threads[t];
            q.Hand? ==> q.order == p.order && TreeOf(q.frame) == GoalTree(p.goal)
  {
    var p := s.threads[t];
    if p.Find? {
      FindHands(frames, s, t);
    } else if p.Fill? {
      FillHands(frames, s, t);
    } else if p.Whole? {
      WholeHands(frames, s, t);
    } else {
      hide CL.BaseOf, CL.FirstOf, CL.ChildOf, CL.LowestFree, CL.RowOf, RowsOf, TreeOf, Block, Pow2, ChildInc,
        ChildDec;
    }
  }

  lemma FindHands(frames: nat, s: CL.State, t: nat)
    requires t < |s.threads| && s.threads[t].Find? && CL.ThreadOk(frames, s.m, s.threads[t])
    ensures var p, q := s.threads[t], CL.Step(s, t).threads[t];
            q.Hand? ==> q.order == p.order && TreeOf(q.frame) == GoalTree(p.goal)
  {
    hide CL.BaseOf, CL.ChildOf, CL.LowestFree, CL.RowOf, TreeOf, Block, Pow2, Aligned, Field, ChildCount, CL.Rounds;
    var p := s.threads[t];
    var c := CL.ChildOf(p.goal);
    if p.goal.Near? {
      GoalChild(frames, p.goal, p.order);
      CP.RowInside(p.goal, p.j, p.order);
      var row := CL.RowOf(p.goal, p.j);
      CP.LowestIsFree(s.m.zeros, row, row + 64, p.order);
      CP.SelfAligned(p.order);
      var r := CL.LowestFree(s.m.zeros, row, row + 64, Pow2(p.order));
      if r.Some? {
        CP.PartOf(row, r.value, Pow2(p.order));
        CP.GroupChild(r.value, c, Pow2(p.order));
        TreeOfFrame(r.value);
      }
    }
  }

  lemma FillHands(frames: nat, s: CL.State, t: nat)
    requires t < |s.threads| && s.threads[t].Fill? && CL.ThreadOk(frames, s.m, s.threads[t])
    ensures var p, q := s.threads[t], CL.Step(s, t).threads[t];
            q.Hand? ==> q.order == p.order && TreeOf(q.frame) == GoalTree(p.goal)
  {
    hide CL.BaseOf, CL.ChildOf, TreeOf, Block, Pow2, Aligned, Field, ChildCount, CL.Rounds;
    var p := s.threads[t];
    CP.SelfAligned(p.order);
    CE.BaseInside(frames, p.goal, p.order, p.g);
    CP.GroupChild(CL.BaseOf(p.goal, p.order, p.g), CL.ChildOf(p.goal), Pow2(p.order));
    GoalChild(frames, p.goal, p.order);
    TreeOfFrame(CL.BaseOf(p.goal, p.order, p.g));
  }

  lemma WholeHands(frames: nat, s: CL.State, t: nat)
    requires t < |s.threads| && s.threads[t].Whole? && CL.ThreadOk(frames, s.m, s.threads[t])
    ensures var p, q := s.threads[t], CL.Step(s, t).threads[t];
            q.Hand? ==> q.order == p.order && TreeOf(q.frame) == GoalTree(p.goal)
  {
    hide CL.FirstOf, TreeOf, Block, Pow2, Aligned, Field, ChildCount, CL.Rounds, Span, AllAre;
    GoalGroup(frames, s.threads[t].goal, s.threads[t].order);
  }
}
