/** The model with threads against the sequential one: the search inside a row, and calls of one thread
    while the others rest. */
module ConcLone {
  import opened Base
  import opened Words
  import opened Bitfield
  import opened Children
  import opened LowerSpec
  import opened ConcLower
  import opened ConcTheorems
  import opened ConcWritten
  import opened ConcSearch
  import CU = ConcUpper
  import opened ConcCredit
  import CP = ConcProof

  // ---- the search inside a row ----

  /** The block that a step takes in a row is the one that `first_zeros_aligned` finds. */
  lemma {:induction false} LowestAgrees(rows: seq<bv64>, r: nat, order: nat, q: nat)
    requires r < |rows| && order <= 6 && q <= 64 && Aligned(q, order)
    ensures var p := FirstFree(rows[r], order, q);
            LowestFree(Zeros(rows), 64 * r + q, 64 * r + 64, Pow2(order)) == if p < 64 then Some(64 * r + p) else None
    decreases 64 - q
  {
    hide Zeros, Aligned, Pow2;
    if q < 64 {
      NextAligned(q, order);
      FreeAgrees(rows, r, q, Pow2(order));
      if !FreeAt(rows[r], q, Pow2(order)) {
        LowestAgrees(rows, r, order, q + Pow2(order));
      }
    }
  }

  lemma FreeAgrees(rows: seq<bv64>, r: nat, q: nat, n: nat)
    requires r < |rows| && q + n <= 64
    ensures FreeAt(rows[r], q, n) <==> Block(64 * r + q, n) <= Zeros(rows)
  {
    hide Zeros, Bit;
    if FreeAt(rows[r], q, n) {
      forall f | f in Block(64 * r + q, n)
        ensures f in Zeros(rows)
      {
        ZeroAt(rows, r, f - 64 * r);
      }
    }
    if Block(64 * r + q, n) <= Zeros(rows) {
      forall i: nat | q <= i < q + n
        ensures !Bit(rows[r], i)
      {
        ZeroAt(rows, r, i);
        assert 64 * r + i in Block(64 * r + q, n);
      }
    }
  }

  // ---- calls of one thread ----

  /** `n` steps of thread `t`. */
  function Advance(s: State, t: nat, n: nat): State
  {
    if n == 0 then s
    else
      var r := Advance(s, t, n - 1);
      if t < |r.threads| then Step(r, t) else r
  }

  /** What a call asks for. */
  datatype Wish = Wish(tree: nat, order: nat, given: Option<nat>)

  function WishOf(call: Call): Wish
  {
    match call
    case GetNear(start, order) => Wish(TreeOf(start), order, None)
    case GetGiven(frame, order) => Wish(TreeOf(frame), order, Some(frame))
    case PutBlock(frame, order) => Wish(TreeOf(frame), order, Some(frame))
  }

  ghost predicate Suits(frames: nat, w: Wish, f: nat)
  {
    Managed(frames, f, w.order) && TreeOf(f) == w.tree && (w.given.Some? ==> f == w.given.value)
  }

  /** The get is in progress. */
  ghost predicate Searching(frames: nat, s0: State, s: State, t: nat, w: Wish)
  {
    && Good(frames, s) && s.held == s0.held && t < |s.threads| && |s0.threads| == |s.threads| &&
       s.threads == s0.threads[t := s.threads[t]]
    && var p := s.threads[t];
       && (Getting(p) || p.Hand?) && CU.PcTree(p) == w.tree && CU.PcOrder(p) == w.order
       && (w.given.Some? ==> if p.Hand? then p.frame == w.given.value else p.goal == Given(w.given.value))
       && (Getting(p) ==> Progress(Unheld(frames, s), p) && (w.given.None? ==> p.goal.Near?))
  }

  /** There is no block for the call: none in the tree, or not the given one. */
  ghost predicate NothingFor(free: set<nat>, w: Wish)
  {
    match w.given
    case None =>
      forall f: nat :: Aligned(f, w.order) && TreeOf(f) == w.tree ==> !(Block(f, Pow2(w.order)) <= free)
    case Some(f) => !(Block(f, Pow2(w.order)) <= free)
  }

  /** The get has ended: there was no block for it and nothing changed for the client, or the client holds one more
      block, which it did not hold. */
  ghost predicate Ended(frames: nat, s0: State, s: State, w: Wish)
  {
    && Good(frames, s) && s.threads == s0.threads
    && ((s.held == s0.held && NothingFor(Unheld(frames, s0), w))
        || exists f ::
             Suits(frames, w, f) && Block(f, Pow2(w.order)) !! s0.held && s.held == s0.held + Block(f, Pow2(w.order)))
  }

  /** A get for a given block does not turn to another one. */
  lemma GivenStays(frames: nat, s: State, t: nat)
    requires Good(frames, s) && t < |s.threads| && Getting(s.threads[t]) && s.threads[t].goal.Given?
    ensures var p, q := s.threads[t], Step(s, t).threads[t];
            (Getting(q) ==> q.goal == p.goal) && (q.Hand? ==> q.frame == p.goal.frame)
  {
    hide Good, Pow2, Block, Aligned, ChildCount, Padded, AllAre, ChildDec, ChildInc;
    CP.Facts(frames, s, t);
    var p := s.threads[t];
    if p.Whole? {
      LargeBlock(p.goal.frame, p.order);
    }
  }

  lemma NearStays(frames: nat, s: State, t: nat)
    requires t < |s.threads| && Getting(s.threads[t]) && s.threads[t].goal.Near?
    ensures var q := Step(s, t).threads[t]; Getting(q) ==> q.goal.Near?
  {
    hide Pow2, Block, LowestFree, ChildOf, BaseOf, RowOf, FirstOf, ChildDec, ChildInc, Rounds, Span;
  }

  lemma LoneStep(frames: nat, s0: State, s: State, t: nat, w: Wish)
    requires t < |s0.threads| && AllIdle(s0.threads) && Searching(frames, s0, s, t, w)
    ensures Searching(frames, s0, Step(s, t), t, w) || Ended(frames, s0, Step(s, t), w)
  {
    hide Good, Pow2, Block, Managed, CU.PcTree, CU.PcOrder, GetStep, TreeOf, Progress, Missed, NothingFor;
    CP.StepKeeps(frames, s, t);
    var p, q := s.threads[t], Step(s, t).threads[t];
    if p.Hand? {
      HandsOutOnce(frames, s, t);
      HandSuits(frames, s, t, w);
      assert Suits(frames, w, p.frame);
    } else {
      StepStays(frames, s, t);
      ProgressStep(frames, s, t);
      MissedFor(Unheld(frames, s), p, w);
      if p.goal.Given? {
        GivenStays(frames, s, t);
      } else {
        NearStays(frames, s, t);
      }
    }
  }

  lemma MissedFor(free: set<nat>, p: Pc, w: Wish)
    requires Getting(p) && CU.PcTree(p) == w.tree && CU.PcOrder(p) == w.order
    requires if w.given.Some? then p.goal == Given(w.given.value) else p.goal.Near?
    ensures Missed(free, p.goal, p.order) ==> NothingFor(free, w)
  {
    hide Pow2, Block, Aligned, TreeOf;
  }

  lemma HandSuits(frames: nat, s: State, t: nat, w: Wish)
    requires Good(frames, s) && t < |s.threads| && s.threads[t].Hand?
    requires CU.PcTree(s.threads[t]) == w.tree && CU.PcOrder(s.threads[t]) == w.order
    ensures Managed(frames, s.threads[t].frame, w.order) && TreeOf(s.threads[t].frame) == w.tree &&
            s.threads[t].order == w.order
  {
    hide Good, Pow2, Aligned;
    CP.Facts(frames, s, t);
  }

  /** After any number of steps a get that runs alone is in progress or has ended. */
  lemma {:induction false} LoneGet(frames: nat, s0: State, t: nat, call: Call, n: nat)
    requires Good(frames, s0) && AllIdle(s0.threads) && MayBegin(frames, s0, t, call) && !call.PutBlock?
    ensures var s := Advance(Begin(s0, t, call), t, n);
            Searching(frames, s0, s, t, WishOf(call)) || Ended(frames, s0, s, WishOf(call))
  {
    hide Good, Pow2, Block, Managed, TreeOf, StepBy, Searching, Ended;
    var b := Begin(s0, t, call);
    CP.BeginKeeps(frames, s0, t, call);
    if n == 0 {
      BeginsSearch(frames, s0, t, call);
    } else {
      LoneGet(frames, s0, t, call, n - 1);
      var s := Advance(b, t, n - 1);
      if Searching(frames, s0, s, t, WishOf(call)) {
        ThreadIn(frames, s0, s, t, WishOf(call));
        LoneStep(frames, s0, s, t, WishOf(call));
      } else {
        EndStays(frames, s0, s, t, WishOf(call));
      }
    }
  }

  lemma BeginsSearch(frames: nat, s0: State, t: nat, call: Call)
    requires Good(frames, s0) && MayBegin(frames, s0, t, call) && !call.PutBlock? && Good(frames, Begin(s0, t, call))
    ensures Searching(frames, s0, Begin(s0, t, call), t, WishOf(call))
  {
    hide Good, Pow2, Block, Managed, TreeOf;
  }

  lemma ThreadIn(frames: nat, s0: State, s: State, t: nat, w: Wish)
    requires Searching(frames, s0, s, t, w)
    ensures t < |s.threads|
  {
    hide Good;
  }

  lemma EndStays(frames: nat, s0: State, s: State, t: nat, w: Wish)
    requires t < |s0.threads| && s0.threads[t].Idle? && Ended(frames, s0, s, w)
    ensures t < |s.threads| && Step(s, t) == s
  {
    hide Good, Pow2, Block;
    CP.IdleStays(s, t);
  }

  /** What a get that ran alone did: it met no free block and left the free set as it was, or it took one. */
  ghost predicate Got(frames: nat, m: Mem, m': Mem, w: Wish)
  {
    || (LowerSpec.Free(frames, m') == LowerSpec.Free(frames, m) && NothingFor(LowerSpec.Free(frames, m), w))
    || exists f ::
         Suits(frames, w, f) && Block(f, Pow2(w.order)) <= LowerSpec.Free(frames, m) &&
         LowerSpec.Free(frames, m') == LowerSpec.Free(frames, m) - Block(f, Pow2(w.order))
  }

  /** While all other threads rest, a get takes one aligned block that was wholly free, of the tree of its start or
      the given one; or there was no such block, and the free set is as it was. */
  lemma LoneGetRefines(frames: nat, s0: State, t: nat, call: Call, n: nat)
    requires Good(frames, s0) && AllIdle(s0.threads) && MayBegin(frames, s0, t, call) && !call.PutBlock?
    ensures var s := Advance(Begin(s0, t, call), t, n);
            AllIdle(s.threads) ==> LowerSpec.Inv(frames, s.m) && Got(frames, s0.m, s.m, WishOf(call))
  {
    hide Good, LowerSpec.Inv, LowerSpec.Free, Pow2, Block, StepBy, Suits, WishOf, NothingFor;
    LoneGet(frames, s0, t, call, n);
    var s, w := Advance(Begin(s0, t, call), t, n), WishOf(call);
    QuietIsSequential(frames, s0);
    if AllIdle(s.threads) {
      NotSearching(frames, s0, s, t, w);
      QuietIsSequential(frames, s);
      HeldManaged(frames, s);
      FreeManaged(frames, s.m);
      FreeManaged(frames, s0.m);
      HeldManaged(frames, s0);
      assert LowerSpec.Free(frames, s0.m) == Unheld(frames, s0) && LowerSpec.Free(frames, s.m) == Unheld(frames, s);
      if !(s.held == s0.held && NothingFor(Unheld(frames, s0), w)) {
        var f :| Suits(frames, w, f) && Block(f, Pow2(w.order)) !! s0.held &&
            s.held == s0.held + Block(f, Pow2(w.order));
        SuitsInside(frames, w, f);
        assert Block(f, Pow2(w.order)) <= LowerSpec.Free(frames, s0.m);
        assert LowerSpec.Free(frames, s.m) == LowerSpec.Free(frames, s0.m) - Block(f, Pow2(w.order));
      }
    }
  }

  lemma SuitsInside(frames: nat, w: Wish, f: nat)
    requires Suits(frames, w, f)
    ensures Block(f, Pow2(w.order)) <= Block(0, frames)
  {
    hide Pow2, Aligned, TreeOf;
  }

  lemma NotSearching(frames: nat, s0: State, s: State, t: nat, w: Wish)
    requires Searching(frames, s0, s, t, w) || Ended(frames, s0, s, w)
    ensures AllIdle(s.threads) ==> Ended(frames, s0, s, w)
  {
    hide Good, Ended;
  }

  /** The put is in progress, and no other put is in its way. */
  ghost predicate Giving(frames: nat, s0: State, s: State, t: nat, held: set<nat>)
  {
    && Good(frames, s) && Calm(s) && s.held == held && t < |s.threads| && |s0.threads| == |s.threads|
    && s.threads == s0.threads[t := s.threads[t]] && (CU.Putting(s.threads[t]) || s.threads[t].Idle?)
  }

  lemma GivingStep(frames: nat, s0: State, s: State, t: nat, held: set<nat>)
    requires Giving(frames, s0, s, t, held)
    ensures t < |s.threads| && Giving(frames, s0, Step(s, t), t, held)
  {
    hide Good, Pow2, Block, Calm, PutStep;
    CP.StepKeeps(frames, s, t);
    CalmStep(frames, s, t);
    if s.threads[t].Idle? {
      CP.IdleStays(s, t);
    } else {
      NoWait(frames, s, t);
    }
  }

  lemma NoWait(frames: nat, s: State, t: nat)
    requires Good(frames, s) && Calm(s) && t < |s.threads| && CU.Putting(s.threads[t])
    requires Good(frames, Step(s, t))
    ensures var q := Step(s, t).threads[t]; CU.Putting(q) || q.Idle?
  {
    hide Good, Pow2, Block, AllAre, ChildInc, ChildCount, Padded;
    assert Mild(s.m, s.threads[t]);
    NoneFired(frames, Step(s, t));
  }

  lemma {:induction false} LonePut(frames: nat, s0: State, t: nat, frame: nat, order: nat, n: nat)
    requires Good(frames, s0) && AllIdle(s0.threads) && MayBegin(frames, s0, t, PutBlock(frame, order))
    ensures var b := Begin(s0, t, PutBlock(frame, order));
            Giving(frames, s0, Advance(b, t, n), t, s0.held - Block(frame, Pow2(order)))
  {
    hide Good, Pow2, Block, StepBy, Giving;
    var b := Begin(s0, t, PutBlock(frame, order));
    if n == 0 {
      GivingBegins(frames, s0, t, frame, order);
    } else {
      LonePut(frames, s0, t, frame, order, n - 1);
      GivingStep(frames, s0, Advance(b, t, n - 1), t, s0.held - Block(frame, Pow2(order)));
    }
  }

  lemma GivingBegins(frames: nat, s0: State, t: nat, frame: nat, order: nat)
    requires Good(frames, s0) && AllIdle(s0.threads) && MayBegin(frames, s0, t, PutBlock(frame, order))
    ensures var b := Begin(s0, t, PutBlock(frame, order)); Giving(frames, s0, b, t, s0.held - Block(frame, Pow2(order)))
  {
    hide Good, Pow2, Block, Calm, Managed, AllAre;
    CP.BeginKeeps(frames, s0, t, PutBlock(frame, order));
    QuietIsCalm(s0);
    CalmEnter(frames, s0, t, PutBlock(frame, order));
  }

  /** While all other threads rest, a put frees its block and nothing else, and it never gives up. */
  lemma LonePutRefines(frames: nat, s0: State, t: nat, frame: nat, order: nat, n: nat)
    requires Good(frames, s0) && AllIdle(s0.threads) && MayBegin(frames, s0, t, PutBlock(frame, order))
    ensures var s := Advance(Begin(s0, t, PutBlock(frame, order)), t, n);
            AllIdle(s.threads) ==>
              LowerSpec.Inv(frames, s.m) && LowerSpec.Free(frames, s.m) ==
                  LowerSpec.Free(frames, s0.m) + Block(frame, Pow2(order))
  {
    hide Good, LowerSpec.Inv, LowerSpec.Free, Pow2, StepBy, Managed, AllAre, Calm;
    LonePut(frames, s0, t, frame, order, n);
    var s := Advance(Begin(s0, t, PutBlock(frame, order)), t, n);
    if AllIdle(s.threads) {
      QuietIsSequential(frames, s0);
      QuietIsSequential(frames, s);
      FreeManaged(frames, s.m);
      FreeManaged(frames, s0.m);
      GaveBack(Block(0, frames), LowerSpec.Free(frames, s0.m), LowerSpec.Free(frames, s.m), s0.held,
               Block(frame, Pow2(order)));
    }
  }

  lemma GaveBack(u: set<nat>, f0: set<nat>, f1: set<nat>, held: set<nat>, b: set<nat>)
    requires f0 <= u && f1 <= u && held == u - f0 && u - f1 == held - b && b <= held
    ensures f1 == f0 + b
  {
    assert f0 == u - held && f1 == u - (u - f1);
  }
}
