/** The undo loops as the source has them (src/lower.c:148-152, src/bitfield.c:188-193): exactly which
    steps break the invariant, and which clients never see them. */
module ConcWritten {
  import opened Base
  import opened Children
  import opened LowerSpec
  import opened LowerLemmas
  import opened LowerWhole
  import opened ConcLower
  import opened ConcEffects
  import opened ConcProof
  import opened ConcTheorems

  // ---- single steps ----

  /** The thread is inside an undo loop that the source gets wrong. */
  predicate Undoing(p: Pc)
  {
    p.Unsplit? || p.Unwhole? || (p.Clear? && p.goal.Given?)
  }

  lemma SameStep(s: State, t: nat)
    requires t < |s.threads| && !Undoing(s.threads[t])
    ensures StepBy(Written, s, t) == Step(s, t)
  {}

  /** A step of the code as written keeps the invariant, which no failed assertion meets, exactly if
      it is not one of such an undo loop. */
  lemma WrittenStep(frames: nat, s: State, t: nat)
    requires Good(frames, s) && t < |s.threads|
    ensures Good(frames, StepBy(Written, s, t)) <==> !Undoing(s.threads[t])
  {
    hide Good, StepBy;
    if !Undoing(s.threads[t]) {
      SameStep(s, t);
      StepKeeps(frames, s, t);
    } else if s.threads[t].Unwhole? {
      WrittenEntry(frames, s, t);
    } else {
      WrittenRow(frames, s, t);
      NoneFiredIn(frames, StepBy(Written, s, t), t);
    }
  }

  lemma NoneFiredIn(frames: nat, s: State, t: nat)
    requires t < |s.threads| && s.threads[t].Fired?
    ensures !Good(frames, s)
  {
    hide ChildInv, Apart;
    assert !ThreadOk(frames, s.m, s.threads[t]);
  }

  /** The row still holds what the loop wrote, so the first compare-and-swap fails. */
  lemma WrittenRow(frames: nat, s: State, t: nat)
    requires Good(frames, s) && t < |s.threads| && Undoing(s.threads[t]) && !s.threads[t].Unwhole?
    ensures StepBy(Written, s, t) == State(s.m, s.threads[t := Fired], s.held)
  {
    hide Good, ChildOf, BaseOf, Pow2, ChildCount, Padded, Field, Aligned, Rounds, NextRows;
    Facts(frames, s, t);
    match s.threads[t]
    case Clear(goal, order, g, k, u) =>
      var f := BaseOf(goal, order, g) + 64 * (k - u - 1);
      BaseInside(frames, goal, order, g);
      GroupPart(BaseOf(goal, order, g), RowsOf(order), k - u - 1);
      assert f in Block(f, 64) && f in Own(s.threads[t]);
      OwnedIsSet(frames, s, t, ChildOf(goal), f);
    case Unsplit(frame, order, k, u) =>
      var f := 512 * (frame / 512) + 64 * (k - u - 1);
      assert f in Block(f, 64) && f in Fills(s.threads[t]);
      FilledIsSet(frames, s, t);
  }

  lemma OwnedIsSet(frames: nat, s: State, t: nat, c: nat, f: nat)
    requires Good(frames, s) && t < |s.threads| && f in Own(s.threads[t]) && f in Field(c)
    requires c < ChildCount(frames) && NotHuge(s.m, c)
    ensures f !in s.m.zeros
  {
    hide ChildCount, Padded, ThreadOk, Own, Fills, Balanced;
    assert ChildInv(frames, s, c);
    assert FrameOk(frames, s, false, f);
  }

  lemma FilledIsSet(frames: nat, s: State, t: nat)
    requires Good(frames, s) && t < |s.threads|
    ensures Fills(s.threads[t]) !! s.m.zeros
  {
    hide ChildCount, Padded, ThreadOk, Own, Fills, ChildInv;
  }

  /** The entry after the one that was changed last is not the caller's: if it is held as a whole, it
      becomes free, although neither the counters nor the callers gave up its frames. Else the
      assertion fails. */
  lemma WrittenEntry(frames: nat, s: State, t: nat)
    requires Good(frames, s) && t < |s.threads| && s.threads[t].Unwhole?
    ensures var p, s' := s.threads[t], StepBy(Written, s, t);
            && 9 <= p.order <= TREE_ORDER && p.u <= p.j && !Good(frames, s')
            && var c := FirstOf(p.goal, p.order) + (p.j - p.u);
               c < |s.m.children| && Charge(p, c) == 0
               && (if s.m.children[c] == TAKEN then s'.m == SetChild(s.m, c, FULL) else s'.threads[t].Fired?)
  {
    hide Good, FirstOf, Pow2, ChildCount, Padded, Rounds, Span, Next;
    Facts(frames, s, t);
    Sized(frames, s);
    var p, s' := s.threads[t], StepBy(Written, s, t);
    GroupOfGoal(frames, p.goal, p.order);
    var c := FirstOf(p.goal, p.order) + (p.j - p.u);
    if s.m.children[c] == TAKEN {
      NextIsFree(frames, s.m, p.goal, p.order);
      CountsOf(frames, s, c);
      CountsOf(frames, s', c);
      ChargeChange(s.threads, t, s'.threads[t], c);
    } else {
      NoneFiredIn(frames, s', t);
    }
  }

  lemma CountsOf(frames: nat, s: State, c: nat)
    requires c < |s.m.children|
    ensures Good(frames, s) ==> if c < ChildCount(frames) then Balanced(frames, s, c) else s.m.children[c] == TAKEN
  {
    hide ChildCount, Padded, ThreadOk, Own, Fills, Balanced, FrameOk, Apart;
    if Good(frames, s) && c < ChildCount(frames) {
      assert ChildInv(frames, s, c);
    }
  }

  // ---- runs ----

  /** A run of the code as written keeps the invariant exactly as long as no thread takes a step in
      such an undo loop; up to there it is a run of the code with the restoring loops. */
  lemma {:induction false} WrittenRun(frames: nat, run: seq<State>, acts: seq<Act>, n: nat)
    requires Run(frames, Written, run, acts) && n < |run| && Good(frames, run[0])
    ensures (forall k :: 0 <= k <= n ==> Good(frames, run[k])) <==>
            (forall k :: 0 <= k < n ==> !UndoAct(run[k], acts[k]))
    ensures (forall k :: 0 <= k <= n ==> Good(frames, run[k])) ==> Run(frames, Intended, run[..n + 1], acts[..n])
  {
    hide Good, Legal, Do, UndoAct;
    if n > 0 {
      WrittenRun(frames, run, acts, n - 1);
      LegalThread(frames, run[n - 1], acts[n - 1]);
      assert run[n - 1 + 1] == Do(Written, run[n - 1], acts[n - 1]);
      if Good(frames, run[n - 1]) {
        WrittenAct(frames, run[n - 1], acts[n - 1]);
      }
    }
  }

  predicate UndoAct(s: State, act: Act)
  {
    act.Go? && act.t < |s.threads| && Undoing(s.threads[act.t])
  }

  lemma WrittenAct(frames: nat, s: State, act: Act)
    requires Good(frames, s) && Legal(frames, s, act)
    ensures act.t < |s.threads|
    ensures Good(frames, Do(Written, s, act)) <==> !UndoAct(s, act)
    ensures !UndoAct(s, act) ==> Do(Written, s, act) == Do(Intended, s, act)
  {
    hide Good, StepBy, Begin;
    match act
    case Go(t) =>
      WrittenStep(frames, s, t);
      if !Undoing(s.threads[t]) {
        SameStep(s, t);
      }
    case Enter(t, call) => BeginKeeps(frames, s, t, call);
  }

  // ---- clients for which the code as written is right ----

  /** A put of an order below 9. */
  predicate SmallPut(p: Pc)
  {
    p.Load? || p.Split? || p.Unsplit? || p.Commit? || p.Wait? || p.Release? || p.Count?
  }

  /** What the client sees to before it begins a call: no given block of order 7 or 8, no get of order
      10 or more, and no put into a child that is still huge while another put into it is in
      progress. */
  ghost predicate Careful(s: State, call: Call)
  {
    match call
    case GetNear(_, order) => UndoUnused(Written, order, false)
    case GetGiven(_, order) => UndoUnused(Written, order, true)
    case PutBlock(frame, order) =>
      order >= 9 || NotHuge(s.m, frame / 512) ||
      forall i :: 0 <= i < |s.threads| ==> !(SmallPut(s.threads[i]) && s.threads[i].frame / 512 == frame / 512)
  }

  /** The thread is in no undo loop and will not get into one. */
  ghost predicate Mild(m: Mem, p: Pc)
  {
    && !Undoing(p) && !p.Wait? && (Getting(p) ==> UndoUnused(Written, p.order, p.goal.Given?))
    && (p.Split? || p.Commit? ==> p.frame / 512 < |m.children| && m.children[p.frame / 512].huge)
  }

  /** Two puts work on one child. */
  predicate Together(p: Pc, q: Pc)
  {
    SmallPut(p) && SmallPut(q) && p.frame / 512 == q.frame / 512
  }

  ghost predicate Calm(s: State)
  {
    && (forall i :: 0 <= i < |s.threads| ==> Mild(s.m, s.threads[i]))
    && forall i, j :: 0 <= i < |s.threads| && 0 <= j < |s.threads| && i != j && Together(s.threads[i], s.threads[j]) ==>
                        NotHuge(s.m, s.threads[i].frame / 512)
  }

  lemma QuietIsCalm(s: State)
    requires AllIdle(s.threads)
    ensures Calm(s)
  {}

  /** Where a step changes whether a child is huge. */
  lemma HugeChange(frames: nat, s: State, t: nat, c: nat)
    requires Good(frames, s) && t < |s.threads| && !s.threads[t].Unwhole? && c < |s.m.children|
    ensures var p, s' := s.threads[t], Step(s, t);
            && c < |s'.m.children|
            && (!s.m.children[c].huge && s'.m.children[c].huge ==> p.Whole? && s.m.children[c] == FULL)
            && (s.m.children[c].huge && !s'.m.children[c].huge ==>
                  (p.Commit? && p.frame / 512 == c) || (p.FreeWhole? && p.frame / 512 + p.j == c))
  {
    hide Good, Pow2, Block, ChildOf, FirstOf, BaseOf, RowOf, LowestFree, Next, NextRows, Rounds;
  }

  /** A child that a put works on does not become huge. */
  lemma StaysSplit(frames: nat, s: State, t: nat, i: nat)
    requires Good(frames, s) && Calm(s) && t < |s.threads| && i < |s.threads| && SmallPut(s.threads[i])
    requires NotHuge(s.m, s.threads[i].frame / 512)
    ensures NotHuge(Step(s, t).m, s.threads[i].frame / 512)
  {
    hide Good, StepBy, Pow2, ChildCount, Padded, Block;
    Facts(frames, s, i);
    var c := s.threads[i].frame / 512;
    HugeChange(frames, s, t, c);
    PutChild(frames, s, s.threads[i].frame, s.threads[i].order);
    ChildFacts(frames, s, i, c);
  }

  /** A child that a thread splits stays huge until that thread is done. */
  lemma StaysHuge(frames: nat, s: State, t: nat, i: nat)
    requires Good(frames, s) && Calm(s) && t < |s.threads| && i < |s.threads| && i != t
    requires s.threads[i].Split? || s.threads[i].Commit?
    ensures Mild(Step(s, t).m, s.threads[i])
  {
    hide Good, StepBy, Pow2, ChildCount, Padded, Block;
    var c := s.threads[i].frame / 512;
    HugeChange(frames, s, t, c);
    if s.threads[t].FreeWhole? && s.threads[t].frame / 512 + s.threads[t].j == c {
      OwnersApart(frames, s, t, i, c);
    } else {
      assert s.threads[t].Commit? ==> !Together(s.threads[t], s.threads[i]);
    }
  }

  /** No thread frees a child as a whole while another one gives back a part of it. */
  lemma OwnersApart(frames: nat, s: State, t: nat, i: nat, c: nat)
    requires Good(frames, s) && t < |s.threads| && i < |s.threads| && i != t
    requires (s.threads[i].Split? || s.threads[i].Commit?) && s.threads[i].frame / 512 == c
    requires s.threads[t].FreeWhole?
    ensures s.threads[t].frame / 512 + s.threads[t].j != c
  {
    hide Good, Pow2, ChildCount, Padded, Span, Aligned, AllAre;
    Facts(frames, s, t);
    Facts(frames, s, i);
    OwnApart(frames, s, t, i);
    var f := s.threads[i].frame;
    assert f in Own(s.threads[i]);
    assert f !in Own(s.threads[t]);
  }

  lemma OwnApart(frames: nat, s: State, t: nat, i: nat)
    requires Good(frames, s) && t < |s.threads| && i < |s.threads| && i != t
    ensures Own(s.threads[t]) !! Own(s.threads[i])
  {
    hide ChildInv, ThreadOk, Own, Fills, ChildCount, Padded;
    assert Own(s.threads[if i < t then i else t]) !! Own(s.threads[if i < t then t else i]);
  }

  /** A splitter without a rival finds every row free. */
  lemma SplitSucceeds(frames: nat, s: State, t: nat)
    requires Good(frames, s) && Calm(s) && t < |s.threads| && s.threads[t].Split?
    ensures var p := s.threads[t]; Block(512 * (p.frame / 512) + 64 * p.k, 64) <= s.m.zeros
  {
    hide Good, Pow2, ChildCount, Padded, Aligned;
    Facts(frames, s, t);
    var p := s.threads[t];
    var c := p.frame / 512;
    PutChild(frames, s, p.frame, p.order);
    forall f | f in Block(512 * c + 64 * p.k, 64)
      ensures f in s.m.zeros
    {
      InField(f, c);
      SplitFrame(frames, s, t, c, f);
    }
  }

  lemma SplitFrame(frames: nat, s: State, t: nat, c: nat, f: nat)
    requires Good(frames, s) && Calm(s) && t < |s.threads| && s.threads[t].Split? && s.threads[t].frame / 512 == c
    requires c < ChildCount(frames) <= |s.m.children| && f in Field(c) && f !in Fills(s.threads[t])
    ensures f in s.m.zeros
  {
    hide ChildCount, Padded, Own, Balanced, ThreadOk, Apart;
    assert ChildInv(frames, s, c);
    assert Mild(s.m, s.threads[t]);
    assert FrameOk(frames, s, true, f);
    InField(f, c);
    forall i | 0 <= i < |s.threads|
      ensures f !in Fills(s.threads[i])
    {
      FillsInto(frames, s, i, c);
      assert i != t ==> !Together(s.threads[t], s.threads[i]);
    }
  }

  lemma FillsInto(frames: nat, s: State, i: nat, c: nat)
    requires Good(frames, s) && i < |s.threads|
    ensures forall f :: f in Fills(s.threads[i]) && f in Field(c) ==>
            SmallPut(s.threads[i]) && s.threads[i].frame / 512 == c
  {
    hide Good, Own, Managed, ChildCount;
    Facts(frames, s, i);
    forall f | f in Fills(s.threads[i]) && f in Field(c)
      ensures SmallPut(s.threads[i]) && s.threads[i].frame / 512 == c
    {
      InField(f, c);
    }
  }

  /** The thread's own place after its step. */
  lemma StaysMild(frames: nat, s: State, t: nat)
    requires Good(frames, s) && Calm(s) && t < |s.threads|
    ensures var p, s' := s.threads[t], Step(s, t);
            && Mild(s'.m, s'.threads[t]) && s'.threads == s.threads[t := s'.threads[t]]
            && (SmallPut(s'.threads[t]) ==> SmallPut(p) && s'.threads[t].frame == p.frame)
  {
    hide Good, Calm, GetStep, PutStep, ThreadOk, Mild, Pow2, Block;
    MildOf(s, t);
    Facts(frames, s, t);
    if Getting(s.threads[t]) {
      GetsMild(frames, s.m, s.threads[t]);
    } else if !s.threads[t].Hand? {
      if s.threads[t].Split? {
        SplitSucceeds(frames, s, t);
      }
      PutsMild(frames, s.m, s.threads[t]);
    }
    IdleIsMild(Step(s, t).m);
  }

  lemma MildOf(s: State, t: nat)
    requires Calm(s) && t < |s.threads|
    ensures Mild(s.m, s.threads[t])
  {}

  lemma IdleIsMild(m: Mem)
    ensures Mild(m, Idle)
  {}

  lemma GetsMild(frames: nat, m: Mem, p: Pc)
    requires Mild(m, p) && ThreadOk(frames, m, p) && Getting(p)
    ensures var (m', q) := GetStep(Intended, m, p); Mild(m', q) && !SmallPut(q)
  {
    hide Pow2, Block, ChildOf, BaseOf, RowOf, LowestFree, FirstOf, AllAre, ChildCount, Managed, ChildDec, ChildInc,
      Rounds;
    SmallPow(0);
  }

  lemma PutsMild(frames: nat, m: Mem, p: Pc)
    requires Mild(m, p) && ThreadOk(frames, m, p) && !Getting(p) && !p.Hand?
    requires p.Split? ==> Block(512 * (p.frame / 512) + 64 * p.k, 64) <= m.zeros
    ensures var (m', q) := PutStep(Intended, m, p); Mild(m', q) && (SmallPut(q) ==> SmallPut(p) && q.frame == p.frame)
  {
    hide Pow2, Block, Managed, ChildCount, Padded, AllAre, ChildInc;
  }

  lemma CalmStep(frames: nat, s: State, t: nat)
    requires Good(frames, s) && Calm(s) && t < |s.threads|
    ensures StepBy(Written, s, t) == Step(s, t) && Calm(Step(s, t))
  {
    hide Good, StepBy;
    SameStep(s, t);
    StaysMild(frames, s, t);
    var s' := Step(s, t);
    forall i | 0 <= i < |s.threads|
      ensures Mild(s'.m, s'.threads[i])
    {
      if i != t && (s.threads[i].Split? || s.threads[i].Commit?) {
        StaysHuge(frames, s, t, i);
      } else {
        assert Mild(s.m, s.threads[i]);
      }
    }
    forall i, j | 0 <= i < |s.threads| && 0 <= j < |s.threads| && i != j && Together(s'.threads[i], s'.threads[j])
      ensures NotHuge(s'.m, s'.threads[i].frame / 512)
    {
      assert Together(s.threads[i], s.threads[j]);
      StaysSplit(frames, s, t, i);
    }
  }

  lemma CalmEnter(frames: nat, s: State, t: nat, call: Call)
    requires Good(frames, s) && Calm(s) && MayBegin(frames, s, t, call) && Careful(s, call)
    ensures Calm(Begin(s, t, call))
  {
    hide Good, Pow2, Block, AllAre, ChildCount;
    var s' := Begin(s, t, call);
    forall i | 0 <= i < |s.threads|
      ensures Mild(s'.m, s'.threads[i])
    {
      assert Mild(s.m, s.threads[i]);
    }
    forall i, j | 0 <= i < |s.threads| && 0 <= j < |s.threads| && i != j && Together(s'.threads[i], s'.threads[j])
      ensures NotHuge(s'.m, s'.threads[i].frame / 512)
    {
      assert i != t && j != t ==> Together(s.threads[i], s.threads[j]);
    }
  }

  /** With careful clients every run of the code as written keeps the invariant. */
  lemma {:induction false} CarefulRun(frames: nat, run: seq<State>, acts: seq<Act>, n: nat)
    requires Run(frames, Written, run, acts) && n < |run| && Good(frames, run[0]) && Calm(run[0])
    requires forall k :: 0 <= k < n && acts[k].Enter? ==> Careful(run[k], acts[k].call)
    ensures Good(frames, run[n]) && Calm(run[n])
  {
    hide Good, Legal, StepBy, Begin, Calm, Careful;
    if n > 0 {
      CarefulRun(frames, run, acts, n - 1);
      var s, act := run[n - 1], acts[n - 1];
      LegalThread(frames, s, act);
      assert run[n - 1 + 1] == Do(Written, s, act);
      CarefulAct(frames, s, act);
    }
  }

  lemma CarefulAct(frames: nat, s: State, act: Act)
    requires Good(frames, s) && Calm(s) && Legal(frames, s, act) && (act.Enter? ==> Careful(s, act.call))
    ensures Good(frames, Do(Written, s, act)) && Calm(Do(Written, s, act))
  {
    hide Good, StepBy, Begin, Calm, Careful;
    match act
    case Go(t) =>
      CalmStep(frames, s, t);
      StepKeeps(frames, s, t);
    case Enter(t, call) =>
      CalmEnter(frames, s, t, call);
      BeginKeeps(frames, s, t, call);
  }
}
