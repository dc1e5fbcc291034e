/** Every step of every thread keeps the invariant, and no assertion fails. */
module ConcProof {
  import opened Base
  import opened Children
  import opened LowerSpec
  import opened LowerLemmas
  import opened LowerWhole
  import opened ConcLower
  import opened ConcEffects

  // ---- facts about the program counters ----

  lemma EmptyBlock(f: nat)
    ensures Block(f, 0) == {}
  {}

  lemma Extend(f: nat, n: nat, k: nat)
    ensures Block(f, n + k) == Block(f, n) + Block(f + n, k)
    ensures Block(f, n) !! Block(f + n, k)
  {}

  /** A thread between two rounds of a search owns and charges nothing. */
  lemma NextIsFree(frames: nat, m: Mem, goal: Goal, order: nat)
    requires GoalOk(frames, goal, order) && |m.children| == Padded(frames)
    ensures var q := Next(goal, order);
            ThreadOk(frames, m, q) && Own(q) == {} && Fills(q) == {} && forall c: nat :: Charge(q, c) == 0
  {
    hide Pow2, Offsetted, Groups, FirstOf, Padded;
    var q := Next(goal, order);
    if q.Whole? {
      EmptyBlock(512 * FirstOf(q.goal, order));
      SpanIs(order);
      GroupOfGoal(frames, q.goal, order);
    }
  }

  lemma SpanIs(order: nat)
    requires order >= 9
    ensures Span(order) >= 1 && Pow2(order) == 512 * Span(order)
  {
    SpanFrames(order);
  }

  lemma Childs(frames: nat, s: State, goal: Goal, order: nat)
    requires Good(frames, s) && GoalOk(frames, goal, order) && order < 9
    ensures ChildOf(goal) < |s.m.children|
    ensures ChildOf(goal) < ChildCount(frames) <= |s.m.children| || s.m.children[ChildOf(goal)] == TAKEN
  {
    hide ChildInv, Apart, ThreadOk, Pow2, Offsetted, ChildCount, Padded;
    match goal
    case Near(start, i) =>
      OffsettedForth(start / 512, TREE_CHILDREN, i);
      SameTreeChild(frames, start, ChildOf(goal));
    case Given(frame) => InsideCount(frames, frame);
  }

  lemma Facts(frames: nat, s: State, t: nat)
    requires Good(frames, s) && t < |s.threads|
    ensures ThreadOk(frames, s.m, s.threads[t]) && ChildCount(frames) <= |s.m.children|
    ensures forall f :: f in Own(s.threads[t]) ==> f < frames
  {
    hide ChildInv, ThreadOk, ChildCount, Padded, Own, Fills;
  }

  lemma ChildFacts(frames: nat, s: State, t: nat, c: nat)
    requires Good(frames, s) && t < |s.threads| && c < ChildCount(frames)
    ensures c < |s.m.children| && ChildInv(frames, s, c)
    ensures s.m.children[c].free + Charge(s.threads[t], c) <= 512
  {
    hide ThreadOk, ChildCount, Padded, Charge, Apart, FrameOk, Field;
    ChargeAtMost(s.threads, t, c);
    assert ChildInv(frames, s, c);
  }

  lemma ZeroIsManaged(frames: nat, s: State, c: nat, f: nat)
    requires Good(frames, s) && c < ChildCount(frames) <= |s.m.children| && !s.m.children[c].huge && f in s.m.zeros &&
             f in Field(c)
    ensures f < frames
  {
    hide ThreadOk, ChildCount, Padded, Apart, Balanced, Owned, Filled;
    assert ChildInv(frames, s, c);
    assert FrameOk(frames, s, false, f);
  }

  // ---- steps of gets ----

  lemma DecKeeps(frames: nat, s: State, t: nat)
    requires Good(frames, s) && t < |s.threads| && s.threads[t].Dec?
    ensures Good(frames, Step(s, t))
  {
    hide Good, ChildInv, Apart, Pow2, ChildOf, Offsetted, ChildCount, Padded, Next, BaseOf, Rounds, ChildDec;
    Facts(frames, s, t);
    Sized(frames, s);
    var Dec(goal, order) := s.threads[t];
    var c := ChildOf(goal);
    Childs(frames, s, goal, order);
    if ChildDec(s.m.children[c], order).Some? {
      DecIs(s.m.children[c], order);
      ChildFacts(frames, s, t, c);
      ChildTransitions(s.m.children[c], order);
      var q := if order <= 6 then Find(goal, order, 0) else Fill(goal, order, 0, 0);
      EmptyBlock(BaseOf(goal, order, 0));
      CounterStep(frames, s, t, q, c, s.m.children[c].free - Pow2(order));
    } else {
      NextIsFree(frames, s.m, goal, order);
      Quiet(frames, s, t, Next(goal, order));
    }
  }

  lemma DecIs(child: Child, order: nat)
    requires ChildDec(child, order).Some?
    ensures !child.huge
  {}

  /** The search inside a row returns an aligned free block of the row. */
  lemma {:induction false} LowestIsFree(zeros: set<nat>, f: nat, end: nat, order: nat)
    requires Aligned(f, order)
    ensures var r := LowestFree(zeros, f, end, Pow2(order));
            r.Some? ==> f <= r.value && r.value + Pow2(order) <= end && Aligned(r.value, order)
                        && Block(r.value, Pow2(order)) <= zeros
    decreases end - f
  {
    hide Pow2, Block, Aligned;
    var n := Pow2(order);
    if f + n <= end && !(Block(f, n) <= zeros) {
      SelfAligned(order);
      AlignedAdd(f, n, order);
      LowestIsFree(zeros, f + n, end, order);
    }
  }

  lemma SelfAligned(order: nat)
    ensures Aligned(Pow2(order), order) && Pow2(order) >= 1
  {
    DivIs(Pow2(order), Pow2(order), 1);
  }

  lemma RowInside(goal: Goal, j: nat, order: nat)
    requires goal.Near? && j < 8 && order <= 6
    ensures Aligned(RowOf(goal, j), order)
    ensures Block(RowOf(goal, j), 64) <= Field(ChildOf(goal))
  {
    hide ChildOf, Pow2, Offsetted;
    SmallPow(6);
    var k := Offsetted(goal.start / 64 % 8, 8, j);
    OffsettedForth(goal.start / 64 % 8, 8, j);
    assert goal.start / 64 % 8 / 8 == 0;
    AlignedMul(8 * ChildOf(goal) + k, order, 6);
  }

  /** A free block of a child that is not huge is taken. */
  lemma TakeKeeps(frames: nat, s: State, t: nat, f: nat, c: nat)
    requires Good(frames, s) && t < |s.threads| && s.threads[t].Find? && ThreadOk(frames, s.m, s.threads[t])
    requires c == ChildOf(s.threads[t].goal) && Aligned(f, s.threads[t].order)
    requires Block(f, Pow2(s.threads[t].order)) <= s.m.zeros && Block(f, Pow2(s.threads[t].order)) <= Field(c)
    ensures var b := Block(f, Pow2(s.threads[t].order));
            Good(frames, State(s.m.(zeros := s.m.zeros - b), s.threads[t := Hand(f, s.threads[t].order)], s.held))
  {
    hide Good, ChildInv, Apart, Pow2, ChildOf, ChildCount, Padded, Rounds;
    Facts(frames, s, t);
    var order := s.threads[t].order;
    var n := Pow2(order);
    SelfAligned(order);
    assert f + n - 1 in Block(f, n) && f in Block(f, n);
    InField(f, c);
    ZeroIsManaged(frames, s, c, f + n - 1);
    TakeStep(frames, s, t, Hand(f, order), c, Block(f, n));
  }

  lemma FindKeeps(frames: nat, s: State, t: nat)
    requires Good(frames, s) && t < |s.threads| && s.threads[t].Find?
    ensures Good(frames, Step(s, t))
  {
    hide Good, ChildInv, Apart, Pow2, ChildOf, Offsetted, ChildCount, Padded, Rounds, LowestFree, RowOf, Block,
      Field, Aligned;
    Facts(frames, s, t);
    var Find(goal, order, j) := s.threads[t];
    var c := ChildOf(goal);
    if goal.Near? {
      RowInside(goal, j, order);
      var row := RowOf(goal, j);
      LowestIsFree(s.m.zeros, row, row + 64, order);
      var r := LowestFree(s.m.zeros, row, row + 64, Pow2(order));
      if r.Some? {
        PartOf(row, r.value, Pow2(order));
        TakeKeeps(frames, s, t, r.value, c);
      } else {
        Quiet(frames, s, t, if j + 1 < 8 then Find(goal, order, j + 1) else Inc(goal, order));
      }
    } else {
      SmallBlock(goal.frame, order);
      GivenChild(goal);
      if Block(goal.frame, Pow2(order)) <= s.m.zeros {
        TakeKeeps(frames, s, t, goal.frame, c);
      } else {
        Quiet(frames, s, t, Inc(goal, order));
      }
    }
  }

  lemma GivenChild(goal: Goal)
    requires goal.Given?
    ensures ChildOf(goal) == goal.frame / 512
  {}

  lemma PartOf(row: nat, f: nat, n: nat)
    requires row <= f && f + n <= row + 64
    ensures Block(f, n) <= Block(row, 64)
  {}

  lemma NextRowsIsFree(frames: nat, m: Mem, goal: Goal, order: nat, g: nat)
    requires Inside(frames, m, goal, order) && GroupOk(goal, order, g)
    ensures var q := NextRows(goal, order, g);
            && ThreadOk(frames, m, q) && Own(q) == {} && Fills(q) == {}
            && forall c: nat :: Charge(q, c) == if c == ChildOf(goal) then Pow2(order) else 0
  {
    hide Pow2, ChildOf, BaseOf, Rounds, ChildCount;
    EmptyBlock(BaseOf(goal, order, g + 1));
  }

  lemma FillKeeps(frames: nat, s: State, t: nat)
    requires Good(frames, s) && t < |s.threads| && s.threads[t].Fill?
    ensures Good(frames, Step(s, t))
  {
    hide Good, ChildInv, Apart, Pow2, ChildOf, BaseOf, ChildCount, Padded, Rounds, Block, Field, NextRows, Aligned;
    Facts(frames, s, t);
    var Fill(goal, order, g, k) := s.threads[t];
    var c, f := ChildOf(goal), BaseOf(goal, order, g);
    var row := Block(f + 64 * k, 64);
    BaseInside(frames, goal, order, g);
    Extend(f, 64 * k, 64);
    GroupPart(f, RowsOf(order), k);
    if row <= s.m.zeros {
      if k + 1 == RowsOf(order) {
        LastRow(frames, s, t, c, f, k);
        GroupChild(f, c, Pow2(order));
        TakeStep(frames, s, t, Hand(f, order), c, row);
      } else {
        TakeStep(frames, s, t, Fill(goal, order, g, k + 1), c, row);
      }
    } else if k > 0 {
      Quiet(frames, s, t, Clear(goal, order, g, k, 0));
    } else {
      NextRowsIsFree(frames, s.m, goal, order, g);
      EmptyBlock(f);
      Quiet(frames, s, t, NextRows(goal, order, g));
    }
  }

  lemma GroupPart(f: nat, n: nat, k: nat)
    requires k < n
    ensures Block(f + 64 * k, 64) <= Block(f, 64 * n)
  {}

  lemma GroupChild(f: nat, c: nat, n: nat)
    requires n > 0 && Block(f, n) <= Field(c)
    ensures f / 512 == c
  {
    assert f in Block(f, n);
    InField(f, c);
  }

  lemma LastRow(frames: nat, s: State, t: nat, c: nat, f: nat, k: nat)
    requires Good(frames, s) && c < ChildCount(frames) <= |s.m.children| && !s.m.children[c].huge
    requires Block(f + 64 * k, 64) <= s.m.zeros && Block(f + 64 * k, 64) <= Field(c)
    ensures f + 64 * (k + 1) <= frames
  {
    hide Good, ChildCount;
    assert f + 64 * k + 63 in Block(f + 64 * k, 64);
    ZeroIsManaged(frames, s, c, f + 64 * k + 63);
  }

  lemma ClearKeeps(frames: nat, s: State, t: nat)
    requires Good(frames, s) && t < |s.threads| && s.threads[t].Clear?
    ensures Good(frames, Step(s, t))
  {
    hide Good, ChildInv, Apart, Pow2, ChildOf, BaseOf, ChildCount, Padded, Rounds, Field, NextRows, Aligned;
    Facts(frames, s, t);
    var Clear(goal, order, g, k, u) := s.threads[t];
    var c, f := ChildOf(goal), BaseOf(goal, order, g);
    var row := Block(f + 64 * (if goal.Near? then u else k - u - 1), 64);
    BaseInside(frames, goal, order, g);
    GroupPart(f, RowsOf(order), if goal.Near? then u else k - u - 1);
    NextRowsIsFree(frames, s.m, goal, order, g);
    GiveStep(frames, s, t, if u + 1 == k then NextRows(goal, order, g) else Clear(goal, order, g, k, u + 1), c, row);
  }

  lemma IncKeeps(frames: nat, s: State, t: nat)
    requires Good(frames, s) && t < |s.threads| && s.threads[t].Inc?
    ensures Good(frames, Step(s, t))
  {
    hide Good, ChildInv, Apart, Pow2, ChildOf, ChildCount, Padded, Rounds, Next, ChildInc;
    Facts(frames, s, t);
    Sized(frames, s);
    var Inc(goal, order) := s.threads[t];
    var c := ChildOf(goal);
    ChildFacts(frames, s, t, c);
    ChildTransitions(s.m.children[c], order);
    NextIsFree(frames, SetChild(s.m, c, Child(s.m.children[c].free + Pow2(order), false)), goal, order);
    CounterStep(frames, s, t, Next(goal, order), c, s.m.children[c].free + Pow2(order));
  }

  /** The children of a group lie in the tree, and the group starts an aligned block. */
  lemma GroupOfGoal(frames: nat, goal: Goal, order: nat)
    requires GoalOk(frames, goal, order) && order >= 9
    ensures FirstOf(goal, order) + Span(order) <= Padded(frames)
    ensures Aligned(512 * FirstOf(goal, order), order)
  {
    hide Pow2, Padded, GroupAt, Span, Aligned, ChildCount;
    match goal
    case Near(start, i) =>
      GroupInTree(frames, start, order, i);
      assert 512 * GroupAt(start, order, i) == GroupAt(start, order, i) * 512;
    case Given(frame) =>
      LargeBlock(frame, order);
      InsideCountSpan(frames, frame, order);
      InsideCount(frames, frame);
  }

  lemma FieldIs(c: nat)
    ensures Field(c) == Block(512 * c, 512)
  {}

  lemma Sized(frames: nat, s: State)
    requires Good(frames, s)
    ensures |s.m.children| == Padded(frames) && ChildCount(frames) <= |s.m.children|
    ensures forall c :: ChildCount(frames) <= c < |s.m.children| ==> s.m.children[c] == TAKEN
  {}

  lemma WholeKeeps(frames: nat, s: State, t: nat)
    requires Good(frames, s) && t < |s.threads| && s.threads[t].Whole?
    ensures Good(frames, Step(s, t))
  {
    hide Good, ChildInv, Apart, Pow2, FirstOf, ChildCount, Padded, Rounds, Block, Field, Next, Aligned, Span;
    Facts(frames, s, t);
    Sized(frames, s);
    var Whole(goal, order, j) := s.threads[t];
    var first := FirstOf(goal, order);
    var c := first + j;
    GroupOfGoal(frames, goal, order);
    SpanIs(order);
    FieldIs(c);
    Extend(512 * first, 512 * j, 512);
    if s.m.children[c] == FULL {
      var m' := SetChild(s.m, c, TAKEN);
      if j + 1 == Span(order) {
        WholeManaged(frames, s, t, c);
        WholeTakeStep(frames, s, t, Hand(512 * first, order), c);
      } else {
        WholeTakeStep(frames, s, t, Whole(goal, order, j + 1), c);
      }
    } else if j > 0 {
      Quiet(frames, s, t, Unwhole(goal, order, j, 0));
    } else {
      EmptyBlock(512 * first);
      NextIsFree(frames, s.m, goal, order);
      Quiet(frames, s, t, Next(goal, order));
    }
  }

  lemma WholeManaged(frames: nat, s: State, t: nat, c: nat)
    requires Good(frames, s) && t < |s.threads| && c < ChildCount(frames) <= |s.m.children|
    requires s.m.children[c] == FULL && Charge(s.threads[t], c) == 0
    ensures 512 * c + 512 <= frames
  {
    hide Good, ChildCount, Charge;
    Alone(frames, s, t, c);
    assert 512 * c + 511 in Field(c);
  }

  lemma UnwholeKeeps(frames: nat, s: State, t: nat)
    requires Good(frames, s) && t < |s.threads| && s.threads[t].Unwhole?
    ensures Good(frames, Step(s, t))
  {
    hide Good, ChildInv, Apart, Pow2, FirstOf, ChildCount, Padded, Rounds, Block, Field, Next, Span;
    Facts(frames, s, t);
    Sized(frames, s);
    var Unwhole(goal, order, j, u) := s.threads[t];
    var first := FirstOf(goal, order);
    var c := first + (j - u - 1);
    FieldIs(c);
    Extend(512 * first, 512 * (j - u - 1), 512);
    EmptyBlock(512 * first);
    OwnedInside(frames, s, t, c);
    var m' := SetChild(s.m, c, FULL);
    NextIsFree(frames, m', goal, order);
    WholeGiveStep(frames, s, t, if u + 1 == j then Next(goal, order) else Unwhole(goal, order, j, u + 1), c);
  }

  /** A child whose frames a thread owns has managed frames. */
  lemma OwnedInside(frames: nat, s: State, t: nat, c: nat)
    requires Good(frames, s) && t < |s.threads| && Field(c) <= Own(s.threads[t])
    ensures c < ChildCount(frames)
  {
    hide Good, ChildCount, Own;
    Facts(frames, s, t);
    assert 512 * c in Field(c);
    InsideCount(frames, 512 * c);
    assert 512 * c / 512 == c;
  }

  // ---- steps of puts ----

  lemma HandKeeps(frames: nat, s: State, t: nat)
    requires Good(frames, s) && t < |s.threads| && s.threads[t].Hand?
    ensures Good(frames, Step(s, t))
  {
    hide Good, ChildInv, Apart, Pow2, ChildCount, Padded, Block, Field, BlockCharge;
    Facts(frames, s, t);
    var Hand(frame, order) := s.threads[t];
    forall c: nat
      ensures Charge(s.threads[t], c) == |Own(s.threads[t]) * Field(c)| && Charge(Idle, c) == |Own(Idle) * Field(c)|
    {
      BlockCounts(frames, frame, order, c);
      assert Own(Idle) * Field(c) == {};
    }
    Transfer(frames, s, t, Idle, s.held + Own(s.threads[t]));
  }

  lemma PutChild(frames: nat, s: State, frame: nat, order: nat)
    requires Good(frames, s) && Managed(frames, frame, order)
    ensures frame / 512 < ChildCount(frames) <= |s.m.children|
  {
    hide ChildCount, Padded;
    InsideCount(frames, frame);
    Sized(frames, s);
  }

  lemma LoadKeeps(frames: nat, s: State, t: nat)
    requires Good(frames, s) && t < |s.threads| && s.threads[t].Load?
    ensures Good(frames, Step(s, t))
  {
    hide Good, ChildInv, Apart, Pow2, ChildCount, Padded, Block, Field, BlockCharge;
    Facts(frames, s, t);
    var Load(frame, order) := s.threads[t];
    PutChild(frames, s, frame, order);
    EmptyBlock(512 * (frame / 512));
    Quiet(frames, s, t, if s.m.children[frame / 512].huge then Split(frame, order, 0) else Release(frame, order, 0));
  }

  lemma SplitKeeps(frames: nat, s: State, t: nat)
    requires Good(frames, s) && t < |s.threads| && s.threads[t].Split?
    ensures Good(frames, Step(s, t))
  {
    hide Good, ChildInv, Apart, Pow2, ChildCount, Padded, Block, Field, BlockCharge;
    Facts(frames, s, t);
    var Split(frame, order, k) := s.threads[t];
    var c := frame / 512;
    var row := Block(512 * c + 64 * k, 64);
    PutChild(frames, s, frame, order);
    FieldIs(c);
    Extend(512 * c, 64 * k, 64);
    GroupPart(512 * c, 8, k);
    if row <= s.m.zeros {
      FillStep(frames, s, t, if k + 1 == 8 then Commit(frame, order) else Split(frame, order, k + 1), c, row);
    } else if k > 0 {
      Quiet(frames, s, t, Unsplit(frame, order, k, 0));
    } else {
      EmptyBlock(512 * c);
      Quiet(frames, s, t, Wait(frame, order, 0));
    }
  }

  lemma UnsplitKeeps(frames: nat, s: State, t: nat)
    requires Good(frames, s) && t < |s.threads| && s.threads[t].Unsplit?
    ensures Good(frames, Step(s, t))
  {
    hide Good, ChildInv, Apart, Pow2, ChildCount, Padded, Block, Field, BlockCharge;
    Facts(frames, s, t);
    var Unsplit(frame, order, k, u) := s.threads[t];
    var c := frame / 512;
    var row := Block(512 * c + 64 * (k - u - 1), 64);
    PutChild(frames, s, frame, order);
    FieldIs(c);
    Extend(512 * c, 64 * (k - u - 1), 64);
    GroupPart(512 * c, 8, k - u - 1);
    EmptyBlock(512 * c);
    UnfillStep(frames, s, t, if u + 1 == k then Wait(frame, order, 0) else Unsplit(frame, order, k, u + 1), c, row);
  }

  lemma CommitKeeps(frames: nat, s: State, t: nat)
    requires Good(frames, s) && t < |s.threads| && s.threads[t].Commit?
    ensures Good(frames, Step(s, t))
  {
    hide Good, ChildInv, Apart, Pow2, ChildCount, Padded, Block, Field;
    Facts(frames, s, t);
    var Commit(frame, order) := s.threads[t];
    PutChild(frames, s, frame, order);
    SmallBlock(frame, order);
    CommitStep(frames, s, t, Release(frame, order, 0), frame / 512);
  }

  lemma WaitKeeps(frames: nat, s: State, t: nat)
    requires Good(frames, s) && t < |s.threads| && s.threads[t].Wait?
    ensures Good(frames, Step(s, t))
  {
    hide Good, ChildInv, Apart, Pow2, ChildCount, Padded, Block, Field, BlockCharge;
    Facts(frames, s, t);
    var Wait(frame, order, r) := s.threads[t];
    PutChild(frames, s, frame, order);
    Quiet(frames, s, t, if !s.m.children[frame / 512].huge then Release(frame, order, 0)
                        else if r + 1 < RETRIES then Wait(frame, order, r + 1) else Hand(frame, order));
  }

  lemma ReleaseKeeps(frames: nat, s: State, t: nat)
    requires Good(frames, s) && t < |s.threads| && s.threads[t].Release?
    ensures Good(frames, Step(s, t))
  {
    hide Good, ChildInv, Apart, Pow2, ChildCount, Padded, Block, Field, Managed, Own, Fills, Charge, NotHuge;
    Facts(frames, s, t);
    if s.threads[t].order <= 6 {
      ReleaseInRow(frames, s, t);
    } else {
      ReleaseRow(frames, s, t);
    }
  }

  lemma ReleaseInRow(frames: nat, s: State, t: nat)
    requires Good(frames, s) && t < |s.threads| && s.threads[t].Release? && s.threads[t].order <= 6
    requires ThreadOk(frames, s.m, s.threads[t])
    ensures Good(frames, Step(s, t))
  {
    hide Good, ChildInv, Apart, Pow2, ChildCount, Padded, Block, Field, BlockCharge, Aligned;
    var Release(frame, order, k) := s.threads[t];
    PutChild(frames, s, frame, order);
    SmallBlock(frame, order);
    GiveStep(frames, s, t, Count(frame, order), frame / 512, Block(frame, Pow2(order)));
  }

  lemma ReleaseRow(frames: nat, s: State, t: nat)
    requires Good(frames, s) && t < |s.threads| && s.threads[t].Release? && s.threads[t].order > 6
    requires ThreadOk(frames, s.m, s.threads[t])
    ensures Good(frames, Step(s, t))
  {
    hide Good, ChildInv, Apart, Pow2, ChildCount, Padded, Block, Field, BlockCharge, Aligned;
    var Release(frame, order, k) := s.threads[t];
    PutChild(frames, s, frame, order);
    SmallBlock(frame, order);
    SmallPow(order);
    GroupPart(frame, RowsOf(order), k);
    Extend(frame + 64 * k, 64, Pow2(order) - 64 * k - 64);
    EmptyBlock(frame + 64 * k + 64);
    GiveStep(frames, s, t, if k + 1 == RowsOf(order) then Count(frame, order)
             else Release(frame, order, k + 1), frame / 512,
             Block(frame + 64 * k, 64));
  }

  lemma CountKeeps(frames: nat, s: State, t: nat)
    requires Good(frames, s) && t < |s.threads| && s.threads[t].Count?
    ensures Good(frames, Step(s, t))
  {
    hide Good, ChildInv, Apart, Pow2, ChildCount, Padded, ChildInc;
    Facts(frames, s, t);
    var Count(frame, order) := s.threads[t];
    var c := frame / 512;
    PutChild(frames, s, frame, order);
    ChildFacts(frames, s, t, c);
    ChildTransitions(s.m.children[c], order);
    CounterStep(frames, s, t, Idle, c, s.m.children[c].free + Pow2(order));
  }

  lemma FreeWholeKeeps(frames: nat, s: State, t: nat)
    requires Good(frames, s) && t < |s.threads| && s.threads[t].FreeWhole?
    ensures Good(frames, Step(s, t))
  {
    hide Good, ChildInv, Apart, Pow2, ChildCount, Padded, Block, Field, Span;
    Facts(frames, s, t);
    Sized(frames, s);
    var FreeWhole(frame, order, j) := s.threads[t];
    var c := frame / 512 + j;
    FieldIs(c);
    SpanIs(order);
    Extend(512 * c, 512, 512 * (Span(order) - j) - 512);
    EmptyBlock(512 * c + 512);
    OwnedInside(frames, s, t, c);
    WholeGiveStep(frames, s, t, if j + 1 == Span(order) then Idle else FreeWhole(frame, order, j + 1), c);
  }

  // ---- all steps ----

  lemma StepKeeps(frames: nat, s: State, t: nat)
    requires Good(frames, s) && t < |s.threads|
    ensures Good(frames, Step(s, t))
  {
    hide Good, Step;
    Facts(frames, s, t);
    match s.threads[t]
    case Idle => IdleStays(s, t);
    case Dec(_, _) => DecKeeps(frames, s, t);
    case Find(_, _, _) => FindKeeps(frames, s, t);
    case Fill(_, _, _, _) => FillKeeps(frames, s, t);
    case Clear(_, _, _, _, _) => ClearKeeps(frames, s, t);
    case Inc(_, _) => IncKeeps(frames, s, t);
    case Whole(_, _, _) => WholeKeeps(frames, s, t);
    case Unwhole(_, _, _, _) => UnwholeKeeps(frames, s, t);
    case Hand(_, _) => HandKeeps(frames, s, t);
    case Load(_, _) => LoadKeeps(frames, s, t);
    case Split(_, _, _) => SplitKeeps(frames, s, t);
    case Unsplit(_, _, _, _) => UnsplitKeeps(frames, s, t);
    case Commit(_, _) => CommitKeeps(frames, s, t);
    case Wait(_, _, _) => WaitKeeps(frames, s, t);
    case Release(_, _, _) => ReleaseKeeps(frames, s, t);
    case Count(_, _) => CountKeeps(frames, s, t);
    case FreeWhole(_, _, _) => FreeWholeKeeps(frames, s, t);
    case Fired => IdleStays(s, t);
  }

  lemma IdleStays(s: State, t: nat)
    requires t < |s.threads| && (s.threads[t].Idle? || s.threads[t].Fired?)
    ensures Step(s, t) == s
  {
    assert s.threads[t := s.threads[t]] == s.threads;
  }

  lemma BeginKeeps(frames: nat, s: State, t: nat, call: Call)
    requires Good(frames, s) && MayBegin(frames, s, t, call)
    ensures Good(frames, Begin(s, t, call))
  {
    hide Good, ChildInv, Apart, Pow2, ChildCount, Padded, Block, Field, Span, FirstOf, BlockCharge;
    match call
    case GetNear(start, order) =>
      NearStarts(start, order);
      BeginGet(frames, s, t, Near(start, 0), order);
    case GetGiven(frame, order) => BeginGet(frames, s, t, Given(frame), order);
    case PutBlock(frame, order) => BeginPut(frames, s, t, frame, order);
  }

  lemma BeginPut(frames: nat, s: State, t: nat, frame: nat, order: nat)
    requires Good(frames, s) && MayBegin(frames, s, t, PutBlock(frame, order))
    ensures Good(frames, Begin(s, t, PutBlock(frame, order)))
  {
    hide Good, Pow2, ChildCount, Padded, Block, Field, Span, Charge, Aligned, ChildInv, Apart;
    var q := if order < 9 then Load(frame, order) else FreeWhole(frame, order, 0);
    PutOwns(frames, frame, order);
    forall c: nat
      ensures Charge(q, c) == |Own(q) * Field(c)| && Charge(Idle, c) == |Own(Idle) * Field(c)|
    {
      BlockCounts(frames, frame, order, c);
      IdleOwes(c);
      assert Own(Idle) * Field(c) == {};
    }
    Transfer(frames, s, t, q, s.held - Block(frame, Pow2(order)));
  }

  lemma IdleOwes(c: nat)
    ensures Charge(Idle, c) == 0
  {}

  lemma NearStarts(start: nat, order: nat)
    requires order <= TREE_ORDER
    ensures Rounds(Near(start, 0), order) > 0
  {}

  lemma BeginGet(frames: nat, s: State, t: nat, goal: Goal, order: nat)
    requires Good(frames, s) && t < |s.threads| && s.threads[t].Idle? && GoalOk(frames, goal, order)
    ensures Good(frames, s.(threads := s.threads[t := if order < 9 then Dec(goal, order) else Whole(goal, order, 0)]))
  {
    hide Good, ChildInv, Apart, Pow2, ChildCount, Padded, Block, Field, Span, FirstOf, Rounds;
    Sized(frames, s);
    if order >= 9 {
      EmptyBlock(512 * FirstOf(goal, order));
      SpanIs(order);
      GroupOfGoal(frames, goal, order);
    }
    Quiet(frames, s, t, if order < 9 then Dec(goal, order) else Whole(goal, order, 0));
  }

  lemma PutOwns(frames: nat, frame: nat, order: nat)
    requires Managed(frames, frame, order)
    ensures var q := if order < 9 then Load(frame, order) else FreeWhole(frame, order, 0);
            Own(q) == Block(frame, Pow2(order)) && Fills(q) == {} && forall c: nat ::
                Charge(q, c) == BlockCharge(frame, order, c)
    ensures order >= 9 ==> Span(order) > 0
  {
    hide Pow2, Block;
    if order >= 9 {
      LargeBlock(frame, order);
      SpanIs(order);
    }
  }

  /** Whatever happens next keeps the invariant. */
  lemma ActKeeps(frames: nat, s: State, act: Act)
    requires Good(frames, s) && Legal(frames, s, act)
    ensures Good(frames, Do(Intended, s, act))
  {
    hide Good, StepBy, Begin, MayBegin;
    match act
    case Go(t) => StepKeeps(frames, s, t);
    case Enter(t, call) => BeginKeeps(frames, s, t, call);
  }
}
