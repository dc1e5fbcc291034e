/** A call that runs alone ends, and has then done what the sequential call does. */
module ConcEnds {
  import opened Base
  import opened Children
  import opened LowerSpec
  import opened ConcLower
  import opened ConcTheorems
  import opened ConcWritten
  import opened ConcLone
  import CU = ConcUpper
  import CP = ConcProof

  // ---- how far a call is from its end ----

  /** How many rounds of its search a get has before it. */
  function RoundsLeft(p: Pc): nat
  {
    if !Getting(p) || p.order > TREE_ORDER then 0
    else
      match p.goal
      case Near(_, i) => if i < Rounds(p.goal, p.order) then Rounds(p.goal, p.order) - i else 0
      case Given(_) => 1
  }

  /** A bound on the steps before the next round, or before the end of the call. */
  function StepsLeft(p: Pc): int
  {
    match p
    case Dec(_, _) => 100
    case Find(_, _, j) => 80 - j
    case Fill(_, _, g, k) => 90 - 20 * g - k
    case Clear(_, _, g, _, u) => 85 - 20 * g - u
    case Inc(_, _) => 1
    case Whole(_, order, j) => 2 * SpanOr(order) - j
    case Unwhole(_, order, _, u) => SpanOr(order) - u
    case Hand(_, _) => 1
    case Load(_, _) => 60
    case Split(_, _, k) => 50 - k
    case Commit(_, _) => 30
    case Release(_, _, k) => 20 - k
    case Count(_, _) => 1
    case FreeWhole(_, order, j) => SpanOr(order) - j
    case Unsplit(_, _, _, _) => 0
    case Wait(_, _, _) => 0
    case Idle => 0
    case Fired => 0
  }

  function SpanOr(order: nat): nat
  {
    if order < 9 then 1 else Span(order)
  }

  /** Thread `q` is nearer to its end than `p`. */
  predicate Nearer(q: Pc, p: Pc)
  {
    && 0 <= StepsLeft(q)
    && (RoundsLeft(q) < RoundsLeft(p) || (RoundsLeft(q) == RoundsLeft(p) && StepsLeft(q) < StepsLeft(p)))
  }

  lemma NextNearer(frames: nat, p: Pc)
    requires Getting(p) && GoalOk(frames, p.goal, p.order)
    ensures RoundsLeft(Next(p.goal, p.order)) < RoundsLeft(p) && 0 <= StepsLeft(Next(p.goal, p.order))
  {
    hide Managed, Span;
  }

  lemma SmallNearer(frames: nat, m: Mem, p: Pc)
    requires (p.Dec? || p.Find? || p.Inc?) && ThreadOk(frames, m, p) && !GetStep(Intended, m, p).1.Fired?
    ensures Nearer(GetStep(Intended, m, p).1, p)
  {
    hide Pow2, Block, Managed, ChildCount, AllAre, ChildDec, ChildInc, ChildOf, FirstOf, BaseOf, RowOf, LowestFree,
      Next, Rounds, Span, NotHuge;
    NextNearer(frames, p);
  }

  lemma RowsNearer(frames: nat, m: Mem, p: Pc)
    requires (p.Fill? || p.Clear?) && ThreadOk(frames, m, p) && !GetStep(Intended, m, p).1.Fired?
    ensures Nearer(GetStep(Intended, m, p).1, p)
  {
    hide Pow2, Block, Managed, ChildCount, AllAre, ChildDec, ChildInc, ChildOf, FirstOf, BaseOf, RowOf, LowestFree,
      Next, Rounds, Span, NotHuge;
    NextNearer(frames, p);
  }

  lemma LargeNearer(frames: nat, m: Mem, p: Pc)
    requires (p.Whole? || p.Unwhole?) && ThreadOk(frames, m, p) && !GetStep(Intended, m, p).1.Fired?
    ensures Nearer(GetStep(Intended, m, p).1, p)
  {
    hide Pow2, Block, Managed, ChildCount, AllAre, ChildDec, ChildInc, ChildOf, FirstOf, BaseOf, RowOf, LowestFree,
      Next, Rounds, Span, NotHuge;
    NextNearer(frames, p);
  }

  /** Every step of a get brings it nearer to its end. */
  lemma GetNearer(frames: nat, s: State, t: nat)
    requires Good(frames, s) && t < |s.threads| && (Getting(s.threads[t]) || s.threads[t].Hand?)
    ensures t < |Step(s, t).threads| && Nearer(Step(s, t).threads[t], s.threads[t])
  {
    hide Good, Pow2, Block, ThreadOk, GetStep, PutStep;
    CP.StepKeeps(frames, s, t);
    CP.Facts(frames, s, t);
    NoneFired(frames, Step(s, t));
    var p, q := s.threads[t], Step(s, t).threads[t];
    assert !q.Fired?;
    if p.Dec? || p.Find? || p.Inc? {
      SmallNearer(frames, s.m, p);
    } else if p.Fill? || p.Clear? {
      RowsNearer(frames, s.m, p);
    } else if !p.Hand? {
      LargeNearer(frames, s.m, p);
    }
  }

  /** Every step of a put that no other put is in the way of brings it nearer to its end. */
  lemma PutNearer(frames: nat, s: State, t: nat)
    requires Good(frames, s) && Calm(s) && t < |s.threads| && CU.Putting(s.threads[t])
    ensures t < |Step(s, t).threads| && Nearer(Step(s, t).threads[t], s.threads[t])
  {
    hide Good, Pow2, Block, Managed, ChildCount, Padded, AllAre, ChildInc, Span, NotHuge;
    CP.StepKeeps(frames, s, t);
    CP.Facts(frames, s, t);
    NoneFired(frames, Step(s, t));
    CalmStep(frames, s, t);
    assert Mild(s.m, s.threads[t]) && Mild(Step(s, t).m, Step(s, t).threads[t]);
  }

  // ---- calls end ----

  /** The first of `n + 1` steps. */
  lemma {:induction false} AdvanceFirst(s: State, t: nat, n: nat)
    requires t < |s.threads|
    ensures Advance(Step(s, t), t, n) == Advance(s, t, n + 1)
  {
    hide StepBy;
    if n > 0 {
      AdvanceFirst(s, t, n - 1);
    }
  }

  lemma {:induction false} SearchEnds(frames: nat, s0: State, s: State, t: nat, w: Wish) returns (n: nat)
    requires t < |s0.threads| && AllIdle(s0.threads) && t < |s.threads|
    requires Searching(frames, s0, s, t, w) || Ended(frames, s0, s, w)
    ensures AllIdle(Advance(s, t, n).threads)
    decreases RoundsLeft(s.threads[t]), StepsLeft(s.threads[t])
  {
    hide Good, StepBy, Suits, NothingFor, RoundsLeft, StepsLeft;
    n := 0;
    if !AllIdle(s.threads) {
      GetNearer(frames, s, t);
      LoneStep(frames, s0, s, t, w);
      var k := SearchEnds(frames, s0, Step(s, t), t, w);
      AdvanceFirst(s, t, k);
      n := k + 1;
    }
  }

  /** While all other threads rest, a get ends: with a block that was wholly free, or with nothing if there is none. */
  lemma LoneGetEnds(frames: nat, s0: State, t: nat, call: Call) returns (n: nat)
    requires Good(frames, s0) && AllIdle(s0.threads) && MayBegin(frames, s0, t, call) && !call.PutBlock?
    ensures var s := Advance(Begin(s0, t, call), t, n);
            AllIdle(s.threads) && LowerSpec.Inv(frames, s.m) && Got(frames, s0.m, s.m, WishOf(call))
  {
    hide Good, LowerSpec.Inv, Got, Searching, Ended, Managed;
    var b := Begin(s0, t, call);
    LoneGet(frames, s0, t, call, 0);
    n := SearchEnds(frames, s0, b, t, WishOf(call));
    LoneGetRefines(frames, s0, t, call, n);
  }

  lemma {:induction false} GivingEnds(frames: nat, s0: State, s: State, t: nat, held: set<nat>) returns (n: nat)
    requires AllIdle(s0.threads) && t < |s.threads| && Giving(frames, s0, s, t, held)
    ensures AllIdle(Advance(s, t, n).threads)
    decreases StepsLeft(s.threads[t])
  {
    hide Good, Calm, StepBy, StepsLeft;
    n := 0;
    if !s.threads[t].Idle? {
      PutNearer(frames, s, t);
      GivingStep(frames, s0, s, t, held);
      var k := GivingEnds(frames, s0, Step(s, t), t, held);
      AdvanceFirst(s, t, k);
      n := k + 1;
    }
  }

  /** While all other threads rest, a put ends, and has then freed its block and nothing else. */
  lemma LonePutEnds(frames: nat, s0: State, t: nat, frame: nat, order: nat) returns (n: nat)
    requires Good(frames, s0) && AllIdle(s0.threads) && MayBegin(frames, s0, t, PutBlock(frame, order))
    ensures var s := Advance(Begin(s0, t, PutBlock(frame, order)), t, n);
            && AllIdle(s.threads) && LowerSpec.Inv(frames, s.m)
            && LowerSpec.Free(frames, s.m) == LowerSpec.Free(frames, s0.m) + Block(frame, Pow2(order))
  {
    hide Good, LowerSpec.Inv, LowerSpec.Free, Pow2, Giving, Managed, AllAre;
    LonePut(frames, s0, t, frame, order, 0);
    n := GivingEnds(frames, s0, Begin(s0, t, PutBlock(frame, order)), t, s0.held - Block(frame, Pow2(order)));
    LonePutRefines(frames, s0, t, frame, order, n);
  }
}
