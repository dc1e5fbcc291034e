/** What a step may do to the shared memory and to the thread that takes it, and why the invariant
    of all threads survives each of these effects. */
module ConcEffects {
  import opened Base
  import opened Children
  import opened LowerSpec
  import opened LowerLemmas
  import opened LowerWhole
  import opened ConcLower

  // ---- sums over threads ----

  lemma {:induction false} ChargeChange(threads: seq<Pc>, t: nat, q: Pc, c: nat)
    requires t < |threads|
    ensures ChargeSum(threads[t := q], c) + Charge(threads[t], c) == ChargeSum(threads, c) + Charge(q, c)
  {
    var n := |threads| - 1;
    var after := threads[t := q];
    hide Charge;
    if t < n {
      ChargeChange(threads[..n], t, q, c);
      assert after[..n] == threads[..n][t := q];
    } else {
      assert after[..n] == threads[..n];
    }
  }

  lemma {:induction false} ChargeAtMost(threads: seq<Pc>, t: nat, c: nat)
    requires t < |threads|
    ensures Charge(threads[t], c) <= ChargeSum(threads, c)
  {
    hide Charge;
    if t < |threads| - 1 {
      ChargeAtMost(threads[..|threads| - 1], t, c);
    }
  }

  lemma {:induction false} ChargeOfTwo(threads: seq<Pc>, i: nat, j: nat, c: nat)
    requires i < |threads| && j < |threads| && i != j
    ensures Charge(threads[i], c) + Charge(threads[j], c) <= ChargeSum(threads, c)
  {
    hide Charge;
    var n := |threads| - 1;
    if i < n && j < n {
      ChargeOfTwo(threads[..n], i, j, c);
    } else if i < n {
      ChargeAtMost(threads[..n], i, c);
    } else {
      ChargeAtMost(threads[..n], j, c);
    }
  }

  // ---- frames ----

  /** Frame `f` has the same owner, filler, bit and holder as before. */
  ghost predicate SameAt(s: State, t: nat, q: Pc, m': Mem, held': set<nat>, f: nat)
    requires t < |s.threads|
  {
    && (f in m'.zeros <==> f in s.m.zeros) && (f in held' <==> f in s.held)
    && (f in Own(q) <==> f in Own(s.threads[t])) && (f in Fills(q) <==> f in Fills(s.threads[t]))
  }

  lemma OwnedAfter(threads: seq<Pc>, t: nat, q: Pc, f: nat)
    requires t < |threads|
    ensures Owned(threads[t := q], f) <==> f in Own(q) || OwnedByOther(threads, t, f)
    ensures Owned(threads, f) <==> f in Own(threads[t]) || OwnedByOther(threads, t, f)
  {
    hide Own;
    var after := threads[t := q];
    if Owned(after, f) {
      var i :| 0 <= i < |after| && f in Own(after[i]);
      assert i != t ==> f in Own(threads[i]);
    }
    if f in Own(q) {
      assert f in Own(after[t]);
    }
    if OwnedByOther(threads, t, f) {
      var i :| 0 <= i < |threads| && i != t && f in Own(threads[i]);
      assert f in Own(after[i]);
    }
  }

  lemma FilledAfter(threads: seq<Pc>, t: nat, q: Pc, f: nat)
    requires t < |threads|
    ensures Filled(threads[t := q], f) <==> f in Fills(q) || FilledByOther(threads, t, f)
    ensures Filled(threads, f) <==> f in Fills(threads[t]) || FilledByOther(threads, t, f)
  {
    hide Fills;
    var after := threads[t := q];
    if Filled(after, f) {
      var i :| 0 <= i < |after| && f in Fills(after[i]);
      assert i != t ==> f in Fills(threads[i]);
    }
    if f in Fills(q) {
      assert f in Fills(after[t]);
    }
    if FilledByOther(threads, t, f) {
      var i :| 0 <= i < |threads| && i != t && f in Fills(threads[i]);
      assert f in Fills(after[i]);
    }
  }

  ghost predicate OwnedByOther(threads: seq<Pc>, t: nat, f: nat)
  {
    exists i :: 0 <= i < |threads| && i != t && f in Own(threads[i])
  }

  ghost predicate FilledByOther(threads: seq<Pc>, t: nat, f: nat)
  {
    exists i :: 0 <= i < |threads| && i != t && f in Fills(threads[i])
  }

  lemma SameFrame(frames: nat, s: State, t: nat, q: Pc, m': Mem, held': set<nat>, huge: bool, f: nat)
    requires t < |s.threads| && SameAt(s, t, q, m', held', f) && FrameOk(frames, s, huge, f)
    ensures FrameOk(frames, State(m', s.threads[t := q], held'), huge, f)
  {
    hide Own, Fills, Owned, Filled;
    OwnedAfter(s.threads, t, q, f);
    FilledAfter(s.threads, t, q, f);
  }

  /** A child that the step does not concern keeps its part of the invariant. */
  lemma UntouchedChild(frames: nat, s: State, t: nat, q: Pc, m': Mem, held': set<nat>, c: nat)
    requires t < |s.threads| && c < |s.m.children| == |m'.children| && ChildInv(frames, s, c)
    requires m'.children[c] == s.m.children[c] && Charge(q, c) == Charge(s.threads[t], c)
    requires forall f: nat :: f in Field(c) ==> SameAt(s, t, q, m', held', f)
    ensures ChildInv(frames, State(m', s.threads[t := q], held'), c)
  {
    hide Own, Fills, Owned, Filled, Charge, FrameOk, Field, SameAt;
    ChargeChange(s.threads, t, q, c);
    SameHeld(s, t, q, m', held', c);
    var s' := State(m', s.threads[t := q], held');
    forall f: nat | f in Field(c)
      ensures FrameOk(frames, s', s.m.children[c].huge, f)
    {
      SameFrame(frames, s, t, q, m', held', s.m.children[c].huge, f);
    }
  }

  lemma SameHeld(s: State, t: nat, q: Pc, m': Mem, held': set<nat>, c: nat)
    requires t < |s.threads| && forall f: nat :: f in Field(c) ==> SameAt(s, t, q, m', held', f)
    ensures held' * Field(c) == s.held * Field(c)
  {
    hide Own, Fills, Field;
    forall f: nat
      ensures f in held' * Field(c) <==> f in s.held * Field(c)
    {
      if f in Field(c) {
        assert SameAt(s, t, q, m', held', f);
      }
    }
  }

  // ---- other threads ----

  /** A thread keeps what it knows about the entries when only entries change that it does not charge,
      or that stay not huge. */
  lemma ThreadKept(frames: nat, m: Mem, m': Mem, p: Pc)
    requires ThreadOk(frames, m, p) && |m'.children| == |m.children|
    requires forall c :: 0 <= c < |m.children| && Charge(p, c) > 0 ==>
               m'.children[c] == m.children[c] || (!m.children[c].huge && !m'.children[c].huge)
    ensures ThreadOk(frames, m', p)
  {
    hide Managed, ChildOf, FirstOf, GroupOk, Pow2, Rounds;
  }

  /** The other threads still know what they knew. */
  ghost predicate OthersOk(frames: nat, s: State, t: nat, m': Mem)
  {
    forall i :: 0 <= i < |s.threads| && i != t ==> ThreadOk(frames, m', s.threads[i])
  }

  lemma OthersKept(frames: nat, s: State, t: nat, m': Mem, c: nat)
    requires Good(frames, s) && c < |s.m.children| == |m'.children|
    requires forall d :: 0 <= d < |m'.children| && d != c ==> m'.children[d] == s.m.children[d]
    requires m'.children[c] == s.m.children[c] || (!m'.children[c].huge && !s.m.children[c].huge)
             || forall i :: 0 <= i < |s.threads| && i != t ==> Charge(s.threads[i], c) == 0
    ensures OthersOk(frames, s, t, m')
  {
    hide Own, Fills, Charge, Apart, ThreadOk, ChildInv, ChildCount, Padded;
    forall i | 0 <= i < |s.threads| && i != t
      ensures ThreadOk(frames, m', s.threads[i])
    {
      ThreadKept(frames, s.m, m', s.threads[i]);
    }
  }

  /** The invariant after a step of thread `t` that concerns child `c` only. */
  lemma OneChild(frames: nat, s: State, t: nat, q: Pc, m': Mem, held': set<nat>, c: nat)
    requires Good(frames, s) && t < |s.threads| && c < ChildCount(frames) && |m'.children| == |s.m.children|
    requires forall d :: 0 <= d < |m'.children| && d != c ==>
               m'.children[d] == s.m.children[d] && Charge(q, d) == Charge(s.threads[t], d)
    requires forall f: nat :: f / 512 != c ==> SameAt(s, t, q, m', held', f)
    requires Apart(frames, State(m', s.threads[t := q], held'))
    requires ChildInv(frames, State(m', s.threads[t := q], held'), c)
    requires ThreadOk(frames, m', q)
    requires OthersOk(frames, s, t, m')
    ensures Good(frames, State(m', s.threads[t := q], held'))
  {
    hide Own, Fills, Charge, Apart, ThreadOk, ChildInv, SameAt, ChildCount, Padded;
    var s' := State(m', s.threads[t := q], held');
    forall d | 0 <= d < ChildCount(frames) && d != c
      ensures ChildInv(frames, s', d)
    {
      forall f: nat | f in Field(d)
        ensures SameAt(s, t, q, m', held', f)
      {
        InField(f, d);
      }
      UntouchedChild(frames, s, t, q, m', held', d);
    }
    forall i | 0 <= i < |s'.threads|
      ensures ThreadOk(frames, m', s'.threads[i])
    {
      assert i != t ==> s'.threads[i] == s.threads[i];
    }
    ZerosInside(frames, s, t, q, m', held', c);
  }

  lemma ZerosInside(frames: nat, s: State, t: nat, q: Pc, m': Mem, held': set<nat>, c: nat)
    requires Good(frames, s) && t < |s.threads| && c < ChildCount(frames)
    requires forall f: nat :: f / 512 != c ==> SameAt(s, t, q, m', held', f)
    ensures forall f :: f in m'.zeros ==> f < 512 * ChildCount(frames)
  {
    hide Own, Fills, Apart, ThreadOk, ChildInv, ChildCount, Padded;
    forall f | f in m'.zeros
      ensures f < 512 * ChildCount(frames)
    {
      if f / 512 != c {
        assert SameAt(s, t, q, m', held', f);
      }
    }
  }

  // ---- the effects ----

  /** The thread moves on; nothing else changes. */
  lemma Quiet(frames: nat, s: State, t: nat, q: Pc)
    requires Good(frames, s) && t < |s.threads| && ThreadOk(frames, s.m, q)
    requires Own(q) == Own(s.threads[t]) && Fills(q) == Fills(s.threads[t])
    requires forall c :: 0 <= c < |s.m.children| ==> Charge(q, c) == Charge(s.threads[t], c)
    ensures Good(frames, State(s.m, s.threads[t := q], s.held))
  {
    hide Own, Fills, Charge, ThreadOk, ChildInv, ChildCount, Padded;
    var s' := State(s.m, s.threads[t := q], s.held);
    forall c | 0 <= c < ChildCount(frames)
      ensures ChildInv(frames, s', c)
    {
      UntouchedChild(frames, s, t, q, s.m, s.held, c);
    }
  }

  /** The counter of a child that is not huge changes, and the thread's charge with it. */
  lemma CounterStep(frames: nat, s: State, t: nat, q: Pc, c: nat, free: nat)
    requires Good(frames, s) && t < |s.threads| && c < ChildCount(frames) <= |s.m.children|
    requires !s.m.children[c].huge && free + Charge(q, c) == s.m.children[c].free + Charge(s.threads[t], c)
    requires Own(q) == Own(s.threads[t]) && Fills(q) == Fills(s.threads[t])
    requires forall d :: 0 <= d < |s.m.children| && d != c ==> Charge(q, d) == Charge(s.threads[t], d)
    requires ThreadOk(frames, SetChild(s.m, c, Child(free, false)), q)
    ensures Good(frames, State(SetChild(s.m, c, Child(free, false)), s.threads[t := q], s.held))
  {
    hide Own, Fills, Charge, ThreadOk, ChildCount, Padded, FrameOk;
    var m' := SetChild(s.m, c, Child(free, false));
    var s' := State(m', s.threads[t := q], s.held);
    SameApart(frames, s, t, q, m');
    ChargeChange(s.threads, t, q, c);
    assert ChildInv(frames, s, c);
    forall f: nat | f in Field(c)
      ensures FrameOk(frames, s', false, f)
    {
      SameFrame(frames, s, t, q, m', s.held, false, f);
    }
    OthersKept(frames, s, t, m', c);
    OneChild(frames, s, t, q, m', s.held, c);
  }

  lemma SameApart(frames: nat, s: State, t: nat, q: Pc, m': Mem)
    requires Apart(frames, s) && t < |s.threads| && m'.zeros == s.m.zeros
    requires Own(q) == Own(s.threads[t]) && Fills(q) == Fills(s.threads[t])
    ensures Apart(frames, State(m', s.threads[t := q], s.held))
  {
    hide Own, Fills;
  }

  /** Free bits of a child that is not huge are set by the thread, which owns the frames now. */
  lemma TakeStep(frames: nat, s: State, t: nat, q: Pc, c: nat, b: set<nat>)
    requires Good(frames, s) && t < |s.threads| && c < ChildCount(frames) <= |s.m.children| && !s.m.children[c].huge
    requires b <= s.m.zeros && b <= Field(c) && Own(q) == Own(s.threads[t]) + b && Fills(q) == Fills(s.threads[t])
    requires forall d :: 0 <= d < |s.m.children| ==> Charge(q, d) == Charge(s.threads[t], d)
    requires ThreadOk(frames, s.m, q)
    ensures Good(frames, State(s.m.(zeros := s.m.zeros - b), s.threads[t := q], s.held))
  {
    hide Own, Fills, Charge, ThreadOk, ChildCount, Padded, FrameOk, Field, Apart;
    var m' := s.m.(zeros := s.m.zeros - b);
    var s' := State(m', s.threads[t := q], s.held);
    assert ChildInv(frames, s, c);
    ThreadKept(frames, s.m, m', q);
    TakeApart(frames, s, t, q, c, b);
    ChargeChange(s.threads, t, q, c);
    forall f: nat | f in Field(c)
      ensures FrameOk(frames, s', false, f)
    {
      TakeFrame(frames, s, t, q, b, f);
    }
    forall f: nat | f / 512 != c
      ensures SameAt(s, t, q, m', s.held, f)
    {
      InField(f, c);
    }
    OthersKept(frames, s, t, m', c);
    OneChild(frames, s, t, q, m', s.held, c);
  }

  lemma TakeFrame(frames: nat, s: State, t: nat, q: Pc, b: set<nat>, f: nat)
    requires t < |s.threads| && b <= s.m.zeros && FrameOk(frames, s, false, f)
    requires Own(q) == Own(s.threads[t]) + b && Fills(q) == Fills(s.threads[t])
    requires Fills(s.threads[t]) !! s.m.zeros && forall i :: 0 <= i < |s.threads| ==> Fills(s.threads[i]) !! s.m.zeros
    ensures FrameOk(frames, State(s.m.(zeros := s.m.zeros - b), s.threads[t := q], s.held), false, f)
  {
    hide Own, Fills, Owned;
    OwnedAfter(s.threads, t, q, f);
    FilledAfter(s.threads, t, q, f);
  }

  lemma TakeApart(frames: nat, s: State, t: nat, q: Pc, c: nat, b: set<nat>)
    requires Apart(frames, s) && t < |s.threads| && c < |s.m.children| && ChildInv(frames, s, c) &&
             !s.m.children[c].huge
    requires b <= s.m.zeros && b <= Field(c) && Own(q) == Own(s.threads[t]) + b && Fills(q) == Fills(s.threads[t])
    ensures Apart(frames, State(s.m.(zeros := s.m.zeros - b), s.threads[t := q], s.held))
    ensures forall i :: 0 <= i < |s.threads| ==> Fills(s.threads[i]) !! s.m.zeros
  {
    hide Own, Fills, Field, Balanced;
    forall f | f in b
      ensures f < frames && f !in s.held && !Owned(s.threads, f)
    {
      assert FrameOk(frames, s, false, f);
    }
    forall i | 0 <= i < |s.threads|
      ensures Own(s.threads[i]) !! b
    {
      forall x | x in Own(s.threads[i])
        ensures x !in b
      {
        assert Owned(s.threads, x);
      }
    }
  }

  /** The thread clears bits of a child that is not huge, whose frames it owned. */
  lemma GiveStep(frames: nat, s: State, t: nat, q: Pc, c: nat, b: set<nat>)
    requires Good(frames, s) && t < |s.threads| && c < ChildCount(frames) <= |s.m.children| && !s.m.children[c].huge
    requires b <= Own(s.threads[t]) && b <= Field(c) && Own(q) == Own(s.threads[t]) - b &&
             Fills(q) == Fills(s.threads[t])
    requires forall d :: 0 <= d < |s.m.children| ==> Charge(q, d) == Charge(s.threads[t], d)
    requires ThreadOk(frames, s.m, q)
    ensures b !! s.m.zeros
    ensures Good(frames, State(s.m.(zeros := s.m.zeros + b), s.threads[t := q], s.held))
  {
    hide Own, Fills, Charge, ThreadOk, ChildCount, Padded, FrameOk, Field, Apart;
    var m' := s.m.(zeros := s.m.zeros + b);
    var s' := State(m', s.threads[t := q], s.held);
    assert ChildInv(frames, s, c);
    ThreadKept(frames, s.m, m', q);
    OwnBits(frames, s, t, c, b);
    GiveApart(frames, s, t, q, b);
    ChargeChange(s.threads, t, q, c);
    forall f: nat | f in Field(c)
      ensures FrameOk(frames, s', false, f)
    {
      GiveFrame(frames, s, t, q, b, f);
    }
    forall f: nat | f / 512 != c
      ensures SameAt(s, t, q, m', s.held, f)
    {
      InField(f, c);
    }
    OthersKept(frames, s, t, m', c);
    OneChild(frames, s, t, q, m', s.held, c);
  }

  /** The bits of owned frames of a child that is not huge are set, and no splitter filled them. */
  lemma OwnBits(frames: nat, s: State, t: nat, c: nat, b: set<nat>)
    requires t < |s.threads| && c < |s.m.children| && ChildInv(frames, s, c) && !s.m.children[c].huge
    requires b <= Own(s.threads[t]) && b <= Field(c)
    ensures b !! s.m.zeros && forall i :: 0 <= i < |s.threads| ==> Fills(s.threads[i]) !! b
  {
    hide Own, Fills, Field, Balanced;
    forall f | f in b
      ensures f !in s.m.zeros && !Filled(s.threads, f)
    {
      assert FrameOk(frames, s, false, f);
      assert Owned(s.threads, f);
    }
    forall i | 0 <= i < |s.threads|
      ensures Fills(s.threads[i]) !! b
    {
      forall x | x in Fills(s.threads[i])
        ensures x !in b
      {
        assert Filled(s.threads, x);
      }
    }
  }

  lemma GiveFrame(frames: nat, s: State, t: nat, q: Pc, b: set<nat>, f: nat)
    requires t < |s.threads| && Apart(frames, s) && b <= Own(s.threads[t]) && FrameOk(frames, s, false, f)
    requires Own(q) == Own(s.threads[t]) - b && Fills(q) == Fills(s.threads[t])
    requires forall i :: 0 <= i < |s.threads| ==> Fills(s.threads[i]) !! b
    ensures FrameOk(frames, State(s.m.(zeros := s.m.zeros + b), s.threads[t := q], s.held), false, f)
  {
    hide Own, Fills, Owned, Filled;
    OwnedAfter(s.threads, t, q, f);
    FilledAfter(s.threads, t, q, f);
  }

  lemma GiveApart(frames: nat, s: State, t: nat, q: Pc, b: set<nat>)
    requires Apart(frames, s) && t < |s.threads| && Own(q) == Own(s.threads[t]) - b && Fills(q) == Fills(s.threads[t])
    requires forall i :: 0 <= i < |s.threads| ==> Fills(s.threads[i]) !! b
    ensures Apart(frames, State(s.m.(zeros := s.m.zeros + b), s.threads[t := q], s.held))
  {
    hide Own, Fills;
  }

  /** A splitter fills free bits of its child. */
  lemma FillStep(frames: nat, s: State, t: nat, q: Pc, c: nat, b: set<nat>)
    requires Good(frames, s) && t < |s.threads| && c < ChildCount(frames) <= |s.m.children|
    requires b <= s.m.zeros && b <= Field(c) && Own(q) == Own(s.threads[t]) && Fills(q) == Fills(s.threads[t]) + b
    requires forall d :: 0 <= d < |s.m.children| ==> Charge(q, d) == Charge(s.threads[t], d)
    requires ThreadOk(frames, s.m, q)
    ensures Good(frames, State(s.m.(zeros := s.m.zeros - b), s.threads[t := q], s.held))
  {
    hide Own, Fills, Charge, ThreadOk, ChildCount, Padded, FrameOk, Field, Apart;
    var m' := s.m.(zeros := s.m.zeros - b);
    var s' := State(m', s.threads[t := q], s.held);
    assert ChildInv(frames, s, c);
    ThreadKept(frames, s.m, m', q);
    FillApart(frames, s, t, q, b);
    ChargeChange(s.threads, t, q, c);
    forall f: nat | f in Field(c)
      ensures FrameOk(frames, s', s.m.children[c].huge, f)
    {
      FillFrame(frames, s, t, q, b, s.m.children[c].huge, f);
    }
    forall f: nat | f / 512 != c
      ensures SameAt(s, t, q, m', s.held, f)
    {
      InField(f, c);
    }
    OthersKept(frames, s, t, m', c);
    OneChild(frames, s, t, q, m', s.held, c);
  }

  lemma FillFrame(frames: nat, s: State, t: nat, q: Pc, b: set<nat>, huge: bool, f: nat)
    requires t < |s.threads| && b <= s.m.zeros && FrameOk(frames, s, huge, f)
    requires Own(q) == Own(s.threads[t]) && Fills(q) == Fills(s.threads[t]) + b
    ensures FrameOk(frames, State(s.m.(zeros := s.m.zeros - b), s.threads[t := q], s.held), huge, f)
  {
    hide Own, Fills, Owned, Filled;
    OwnedAfter(s.threads, t, q, f);
    FilledAfter(s.threads, t, q, f);
  }

  lemma FillApart(frames: nat, s: State, t: nat, q: Pc, b: set<nat>)
    requires Apart(frames, s) && t < |s.threads| && Own(q) == Own(s.threads[t]) && Fills(q) == Fills(s.threads[t]) + b
    requires b <= s.m.zeros
    ensures Apart(frames, State(s.m.(zeros := s.m.zeros - b), s.threads[t := q], s.held))
  {
    hide Own, Fills;
  }

  /** A splitter clears bits that it filled. */
  lemma UnfillStep(frames: nat, s: State, t: nat, q: Pc, c: nat, b: set<nat>)
    requires Good(frames, s) && t < |s.threads| && c < ChildCount(frames) <= |s.m.children|
    requires b <= Fills(s.threads[t]) && b <= Field(c) && Own(q) == Own(s.threads[t]) &&
             Fills(q) == Fills(s.threads[t]) - b
    requires forall d :: 0 <= d < |s.m.children| ==> Charge(q, d) == Charge(s.threads[t], d)
    requires ThreadOk(frames, s.m, q)
    ensures b !! s.m.zeros
    ensures Good(frames, State(s.m.(zeros := s.m.zeros + b), s.threads[t := q], s.held))
  {
    hide Own, Fills, Charge, ThreadOk, ChildCount, Padded, FrameOk, Field, Apart;
    var m' := s.m.(zeros := s.m.zeros + b);
    var s' := State(m', s.threads[t := q], s.held);
    assert ChildInv(frames, s, c);
    ThreadKept(frames, s.m, m', q);
    UnfillApart(frames, s, t, q, b);
    ChargeChange(s.threads, t, q, c);
    forall f: nat | f in Field(c)
      ensures FrameOk(frames, s', s.m.children[c].huge, f)
    {
      UnfillFrame(frames, s, t, q, b, s.m.children[c].huge, f);
    }
    forall f: nat | f / 512 != c
      ensures SameAt(s, t, q, m', s.held, f)
    {
      InField(f, c);
    }
    OthersKept(frames, s, t, m', c);
    OneChild(frames, s, t, q, m', s.held, c);
  }

  lemma UnfillFrame(frames: nat, s: State, t: nat, q: Pc, b: set<nat>, huge: bool, f: nat)
    requires t < |s.threads| && b <= Fills(s.threads[t]) && FrameOk(frames, s, huge, f)
    requires Own(q) == Own(s.threads[t]) && Fills(q) == Fills(s.threads[t]) - b
    ensures FrameOk(frames, State(s.m.(zeros := s.m.zeros + b), s.threads[t := q], s.held), huge, f)
  {
    hide Own, Fills, Owned, Filled;
    OwnedAfter(s.threads, t, q, f);
    FilledAfter(s.threads, t, q, f);
  }

  lemma UnfillApart(frames: nat, s: State, t: nat, q: Pc, b: set<nat>)
    requires Apart(frames, s) && t < |s.threads| && Own(q) == Own(s.threads[t]) && Fills(q) == Fills(s.threads[t]) - b
    requires b <= Fills(s.threads[t])
    ensures b !! s.m.zeros && Apart(frames, State(s.m.(zeros := s.m.zeros + b), s.threads[t := q], s.held))
  {
    hide Own, Fills;
  }

  // ---- whole children ----

  /** The rows of a group lie in the child of the get. */
  lemma BaseInside(frames: nat, goal: Goal, order: nat, g: nat)
    requires GoalOk(frames, goal, order) && GroupOk(goal, order, g)
    ensures Block(BaseOf(goal, order, g), Pow2(order)) <= Field(ChildOf(goal))
    ensures Pow2(order) == 64 * RowsOf(order) && Aligned(BaseOf(goal, order, g), order)
  {
    hide Offsetted, Rounds, Groups, Pow2, Block;
    SmallPow(order);
    match goal
    case Given(frame) =>
      SmallBlock(frame, order);
    case Near(start, i) =>
      GroupRow(start / 64 % 8, RowsOf(order), g);
      GroupBlock(ChildOf(goal), Offsetted(start / 64 % 8 / RowsOf(order), 8 / RowsOf(order), g), order);
  }

  lemma GroupRow(row: nat, e: nat, g: nat)
    requires row < 8 && (e == 2 || e == 4) && g < 8 / e
    ensures e * Offsetted(row / e, 8 / e, g) + e <= 8
  {
    hide Offsetted, OffsettedAt;
    if e == 2 {
      OffsettedForth(row / 2, 4, g);
    } else {
      OffsettedForth(row / 4, 2, g);
    }
  }

  lemma GroupBlock(c: nat, k: nat, order: nat)
    requires 7 <= order <= 8 && RowsOf(order) * k + RowsOf(order) <= 8
    ensures var f := 512 * c + 64 * (RowsOf(order) * k);
            Block(f, Pow2(order)) <= Field(c) && Aligned(f, order)
  {
    var n := 64 * RowsOf(order);
    SmallPow(order);
    SmallPow(9);
    AlignedMul(c, order, 9);
    AlignedMul(k, order, order);
    AlignedAdd(512 * c, k * n, order);
    MulSwap(k, 64, RowsOf(order));
    assert 64 * (RowsOf(order) * k) == k * n;
  }

  /** A thread charges the children whose frames it owns or fills. */
  lemma OwnIsCharged(frames: nat, m: Mem, p: Pc, f: nat)
    requires ThreadOk(frames, m, p) && (f in Own(p) || f in Fills(p))
    ensures Charge(p, f / 512) > 0
  {
    if p.Fill? || p.Clear? {
      RowsAreCharged(frames, m, p, f);
    } else if p.Whole? || p.Unwhole? || p.FreeWhole? {
      WholeIsCharged(frames, m, p, f);
    } else if p.Split? || p.Unsplit? || p.Commit? {
      SplitIsCharged(frames, m, p, f);
    } else {
      hide *;
      OthersAreCharged(frames, m, p, f);
    }
  }

  lemma RowsAreCharged(frames: nat, m: Mem, p: Pc, f: nat)
    requires ThreadOk(frames, m, p) && (f in Own(p) || f in Fills(p)) && (p.Fill? || p.Clear?)
    ensures Charge(p, f / 512) > 0
  {
    hide Pow2, BaseOf, RowsOf, ChildOf, Rounds, Field;
    BaseInside(frames, p.goal, p.order, p.g);
    InField(f, ChildOf(p.goal));
  }

  lemma WholeIsCharged(frames: nat, m: Mem, p: Pc, f: nat)
    requires ThreadOk(frames, m, p) && (f in Own(p) || f in Fills(p)) && (p.Whole? || p.Unwhole? || p.FreeWhole?)
    ensures Charge(p, f / 512) > 0
  {
    hide Pow2, Span, FirstOf, Rounds, AllAre;
  }

  lemma SplitIsCharged(frames: nat, m: Mem, p: Pc, f: nat)
    requires ThreadOk(frames, m, p) && (f in Own(p) || f in Fills(p)) && (p.Split? || p.Unsplit? || p.Commit?)
    ensures Charge(p, f / 512) > 0
  {
    hide Pow2;
    SmallBlock(p.frame, p.order);
    InField(f, p.frame / 512);
  }

  lemma OthersAreCharged(frames: nat, m: Mem, p: Pc, f: nat)
    requires ThreadOk(frames, m, p) && (f in Own(p) || f in Fills(p))
    requires !(p.Fill? || p.Clear? || p.Whole? || p.Unwhole? || p.FreeWhole? || p.Split? || p.Unsplit? || p.Commit?)
    ensures Charge(p, f / 512) > 0
  {
    hide Pow2, BlockCharge;
    BlockIsCharged(p.frame, p.order, f);
  }

  lemma BlockIsCharged(frame: nat, order: nat, f: nat)
    requires Aligned(frame, order) && f in Block(frame, Pow2(order))
    ensures BlockCharge(frame, order, f / 512) > 0
  {
    hide Pow2;
    if order < 9 {
      SmallBlock(frame, order);
      InField(f, frame / 512);
    } else {
      LargeBlock(frame, order);
    }
  }

  /** When all of a child is accounted for by its counter or by one thread, no other thread and no
      client has anything to do with it. */
  lemma Alone(frames: nat, s: State, t: nat, c: nat)
    requires Good(frames, s) && t < |s.threads| && c < ChildCount(frames) <= |s.m.children|
    requires s.m.children[c].free + Charge(s.threads[t], c) == 512
    ensures s.held * Field(c) == {} && Beyond(frames, c) == 0
    ensures forall i :: 0 <= i < |s.threads| && i != t ==> Charge(s.threads[i], c) == 0
    ensures forall i, f :: 0 <= i < |s.threads| && i != t && f in Field(c) ==>
            f !in Own(s.threads[i]) && f !in Fills(s.threads[i])
    ensures forall f: nat :: f in Field(c) ==> f < frames && f !in s.held
  {
    hide Own, Fills, Charge, Apart, ThreadOk, ChildCount, Padded, FrameOk;
    assert ChildInv(frames, s, c);
    ChargeAtMost(s.threads, t, c);
    forall f: nat | f in Field(c)
      ensures f < frames && f !in s.held
    {
      assert f !in s.held * Field(c);
    }
    forall i | 0 <= i < |s.threads| && i != t
      ensures Charge(s.threads[i], c) == 0
    {
      ChargeOfTwo(s.threads, i, t, c);
    }
    forall i, f | 0 <= i < |s.threads| && i != t && f in Field(c)
      ensures f !in Own(s.threads[i]) && f !in Fills(s.threads[i])
    {
      InField(f, c);
      assert ThreadOk(frames, s.m, s.threads[i]);
      if f in Own(s.threads[i]) || f in Fills(s.threads[i]) {
        OwnIsCharged(frames, s.m, s.threads[i], f);
      }
    }
  }

  /** A whole child is taken as huge. */
  lemma WholeTakeStep(frames: nat, s: State, t: nat, q: Pc, c: nat)
    requires Good(frames, s) && t < |s.threads| && c < ChildCount(frames) <= |s.m.children| && s.m.children[c] == FULL
    requires Own(q) == Own(s.threads[t]) + Field(c) && Fills(q) == Fills(s.threads[t]) == {}
    requires Charge(q, c) == 512 && Charge(s.threads[t], c) == 0 && Own(s.threads[t]) !! Field(c)
    requires forall d :: 0 <= d < |s.m.children| && d != c ==> Charge(q, d) == Charge(s.threads[t], d)
    requires ThreadOk(frames, SetChild(s.m, c, TAKEN), q)
    ensures Good(frames, State(SetChild(s.m, c, TAKEN), s.threads[t := q], s.held))
  {
    hide Own, Fills, Charge, ThreadOk, ChildCount, Padded, FrameOk, Field, Apart;
    var m' := SetChild(s.m, c, TAKEN);
    var s' := State(m', s.threads[t := q], s.held);
    Alone(frames, s, t, c);
    assert ChildInv(frames, s, c);
    ChargeChange(s.threads, t, q, c);
    WholeTakeApart(frames, s, t, q, c);
    forall f: nat | f in Field(c)
      ensures FrameOk(frames, s', true, f)
    {
      WholeTakeFrame(frames, s, t, q, c, f);
    }
    forall f: nat | f / 512 != c
      ensures SameAt(s, t, q, m', s.held, f)
    {
      InField(f, c);
    }
    OthersKept(frames, s, t, m', c);
    OneChild(frames, s, t, q, m', s.held, c);
  }

  lemma WholeTakeFrame(frames: nat, s: State, t: nat, q: Pc, c: nat, f: nat)
    requires t < |s.threads| && f in Field(c) && c < |s.m.children| && FrameOk(frames, s, false, f) && f < frames &&
             f !in s.held
    requires f !in Own(s.threads[t]) && f in Own(q) && Fills(q) == Fills(s.threads[t]) == {}
    requires forall i :: 0 <= i < |s.threads| && i != t ==> f !in Own(s.threads[i]) && f !in Fills(s.threads[i])
    ensures FrameOk(frames, State(SetChild(s.m, c, TAKEN), s.threads[t := q], s.held), true, f)
  {
    hide Own, Fills, Owned, Filled;
    OwnedAfter(s.threads, t, q, f);
    FilledAfter(s.threads, t, q, f);
  }

  lemma WholeTakeApart(frames: nat, s: State, t: nat, q: Pc, c: nat)
    requires Apart(frames, s) && t < |s.threads| && c < |s.m.children|
    requires Own(q) == Own(s.threads[t]) + Field(c) && Fills(q) == Fills(s.threads[t])
    requires forall f: nat :: f in Field(c) ==> f < frames && f !in s.held
    requires forall i, f :: 0 <= i < |s.threads| && i != t && f in Field(c) ==> f !in Own(s.threads[i])
    ensures Apart(frames, State(SetChild(s.m, c, TAKEN), s.threads[t := q], s.held))
  {
    hide Own, Fills, Field;
    forall i | 0 <= i < |s.threads| && i != t
      ensures Own(s.threads[i]) !! Own(q)
    {
      assert Own(s.threads[i]) !! Field(c);
      assert Own(s.threads[if i < t then i else t]) !! Own(s.threads[if i < t then t else i]);
    }
    forall f | f in Own(q)
      ensures f < frames && f !in s.held
    {}
  }

  /** A whole child that the thread owns as huge becomes free. */
  lemma WholeGiveStep(frames: nat, s: State, t: nat, q: Pc, c: nat)
    requires Good(frames, s) && t < |s.threads| && c < ChildCount(frames) <= |s.m.children| && s.m.children[c] == TAKEN
    requires Own(q) == Own(s.threads[t]) - Field(c) && Field(c) <= Own(s.threads[t]) &&
             Fills(q) == Fills(s.threads[t]) == {}
    requires Charge(q, c) == 0 && Charge(s.threads[t], c) == 512
    requires forall d :: 0 <= d < |s.m.children| && d != c ==> Charge(q, d) == Charge(s.threads[t], d)
    requires ThreadOk(frames, SetChild(s.m, c, FULL), q)
    ensures Good(frames, State(SetChild(s.m, c, FULL), s.threads[t := q], s.held))
  {
    hide Own, Fills, Charge, ThreadOk, ChildCount, Padded, FrameOk, Field, Apart;
    var m' := SetChild(s.m, c, FULL);
    var s' := State(m', s.threads[t := q], s.held);
    Alone(frames, s, t, c);
    assert ChildInv(frames, s, c);
    ChargeChange(s.threads, t, q, c);
    WholeGiveApart(frames, s, t, q, c);
    forall f: nat | f in Field(c)
      ensures FrameOk(frames, s', false, f)
    {
      WholeGiveFrame(frames, s, t, q, c, f);
    }
    forall f: nat | f / 512 != c
      ensures SameAt(s, t, q, m', s.held, f)
    {
      InField(f, c);
    }
    OthersKept(frames, s, t, m', c);
    OneChild(frames, s, t, q, m', s.held, c);
  }

  lemma WholeGiveFrame(frames: nat, s: State, t: nat, q: Pc, c: nat, f: nat)
    requires t < |s.threads| && f in Field(c) && c < |s.m.children| && FrameOk(frames, s, true, f) && f < frames &&
             f !in s.held
    requires f !in Own(q) && Fills(q) == Fills(s.threads[t]) == {}
    requires forall i :: 0 <= i < |s.threads| && i != t ==> f !in Own(s.threads[i]) && f !in Fills(s.threads[i])
    ensures FrameOk(frames, State(SetChild(s.m, c, FULL), s.threads[t := q], s.held), false, f)
  {
    hide Own, Fills, Owned, Filled;
    OwnedAfter(s.threads, t, q, f);
    FilledAfter(s.threads, t, q, f);
  }

  lemma WholeGiveApart(frames: nat, s: State, t: nat, q: Pc, c: nat)
    requires Apart(frames, s) && t < |s.threads| && c < |s.m.children|
    requires Own(q) == Own(s.threads[t]) - Field(c) && Fills(q) == Fills(s.threads[t])
    ensures Apart(frames, State(SetChild(s.m, c, FULL), s.threads[t := q], s.held))
  {
    hide Own, Fills, Field;
  }

  // ---- splitting ----

  /** A splitter that filled all rows finds its child still huge, and makes it an ordinary child
      without free frames. */
  lemma CommitStep(frames: nat, s: State, t: nat, q: Pc, c: nat)
    requires Good(frames, s) && t < |s.threads| && c < ChildCount(frames) <= |s.m.children|
    requires Fills(s.threads[t]) == Field(c) && Own(s.threads[t]) <= Field(c) && Own(s.threads[t]) != {}
    requires Charge(s.threads[t], c) > 0 && Own(q) == Own(s.threads[t]) && Fills(q) == {}
    requires forall d :: 0 <= d < |s.m.children| ==> Charge(q, d) == Charge(s.threads[t], d)
    requires ThreadOk(frames, SetChild(s.m, c, Child(0, false)), q)
    ensures s.m.children[c] == TAKEN
    ensures Good(frames, State(SetChild(s.m, c, Child(0, false)), s.threads[t := q], s.held))
  {
    hide Own, Fills, Charge, ThreadOk, ChildCount, Padded, FrameOk, Field, Apart;
    var m' := SetChild(s.m, c, Child(0, false));
    var s' := State(m', s.threads[t := q], s.held);
    assert ChildInv(frames, s, c);
    StillHuge(frames, s, t, c);
    ChargeChange(s.threads, t, q, c);
    CommitApart(frames, s, t, q, c);
    forall f: nat | f in Field(c)
      ensures FrameOk(frames, s', false, f)
    {
      CommitFrame(frames, s, t, q, c, f);
    }
    forall f: nat | f / 512 != c
      ensures SameAt(s, t, q, m', s.held, f)
    {
      InField(f, c);
    }
    CommitOthers(frames, s, t, c);
    OneChild(frames, s, t, q, m', s.held, c);
  }

  lemma StillHuge(frames: nat, s: State, t: nat, c: nat)
    requires t < |s.threads| && c < |s.m.children| && ChildInv(frames, s, c)
    requires Fills(s.threads[t]) == Field(c) && Own(s.threads[t]) <= Field(c) && Own(s.threads[t]) != {}
    ensures s.m.children[c] == TAKEN
  {
    hide Own, Fills, Field, Balanced;
    var f :| f in Own(s.threads[t]);
    assert Owned(s.threads, f) && Filled(s.threads, f);
    assert FrameOk(frames, s, s.m.children[c].huge, f);
  }

  lemma CommitFrame(frames: nat, s: State, t: nat, q: Pc, c: nat, f: nat)
    requires t < |s.threads| && f in Field(c) && c < |s.m.children| && FrameOk(frames, s, true, f) && Apart(frames, s)
    requires Fills(s.threads[t]) == Field(c) && Own(q) == Own(s.threads[t]) && Fills(q) == {}
    ensures FrameOk(frames, State(SetChild(s.m, c, Child(0, false)), s.threads[t := q], s.held), false, f)
  {
    hide Own, Fills, Owned, Filled, Field;
    OwnedAfter(s.threads, t, q, f);
    FilledAfter(s.threads, t, q, f);
    FilledOnce(frames, s, t, f);
  }

  lemma FilledOnce(frames: nat, s: State, t: nat, f: nat)
    requires t < |s.threads| && Apart(frames, s) && f in Fills(s.threads[t])
    ensures !FilledByOther(s.threads, t, f) && f !in s.m.zeros
  {
    hide Own, Fills;
    forall i | 0 <= i < |s.threads| && i != t
      ensures f !in Fills(s.threads[i])
    {
      assert Fills(s.threads[if i < t then i else t]) !! Fills(s.threads[if i < t then t else i]);
    }
  }

  lemma CommitApart(frames: nat, s: State, t: nat, q: Pc, c: nat)
    requires Apart(frames, s) && t < |s.threads| && c < |s.m.children| && Own(q) == Own(s.threads[t]) && Fills(q) == {}
    ensures Apart(frames, State(SetChild(s.m, c, Child(0, false)), s.threads[t := q], s.held))
  {
    hide Own, Fills;
  }

  lemma CommitOthers(frames: nat, s: State, t: nat, c: nat)
    requires Good(frames, s) && t < |s.threads| && c < ChildCount(frames) <= |s.m.children| &&
             Charge(s.threads[t], c) > 0
    ensures OthersOk(frames, s, t, SetChild(s.m, c, Child(0, false)))
  {
    hide Own, Fills, Charge, Apart, ThreadOk, ChildCount, Padded, FrameOk, Field;
    forall i | 0 <= i < |s.threads| && i != t
      ensures ThreadOk(frames, SetChild(s.m, c, Child(0, false)), s.threads[i])
    {
      ChargeOfTwo(s.threads, i, t, c);
      assert ChildInv(frames, s, c);
      OpenedKept(frames, s.m, s.threads[i], c);
    }
  }

  /** A thread that does not own all of a child does not rely on the child being huge. */
  lemma OpenedKept(frames: nat, m: Mem, p: Pc, c: nat)
    requires ThreadOk(frames, m, p) && c < |m.children| && Charge(p, c) < 512
    ensures ThreadOk(frames, SetChild(m, c, Child(0, false)), p)
  {
    hide Managed, ChildOf, FirstOf, GroupOk, Pow2, Rounds;
  }

  // ---- the client ----

  lemma BlockCounts(frames: nat, frame: nat, order: nat, c: nat)
    requires Managed(frames, frame, order)
    ensures |Block(frame, Pow2(order)) * Field(c)| == BlockCharge(frame, order, c)
  {
    hide Pow2;
    var b := Block(frame, Pow2(order));
    if order < 9 {
      SmallBlock(frame, order);
      if c == frame / 512 {
        assert b * Field(c) == b;
      } else {
        assert b * Field(c) == {};
      }
    } else {
      LargeBlock(frame, order);
      WholeCounts(frame, order, c);
    }
  }

  lemma WholeCounts(frame: nat, order: nat, c: nat)
    requires order >= 9 && Aligned(frame, order)
    ensures |Block(frame, Pow2(order)) * Field(c)| == if frame / 512 <= c < frame / 512 + Span(order) then 512 else 0
  {
    hide Pow2;
    LargeBlock(frame, order);
    BlockSize(512 * c, 512);
    var b := Block(frame, Pow2(order));
    if frame / 512 <= c < frame / 512 + Span(order) {
      assert b * Field(c) == Field(c);
    } else {
      assert b * Field(c) == {};
    }
  }

  /** Frames change hands between thread `t` and the client; the memory stays. */
  lemma Transfer(frames: nat, s: State, t: nat, q: Pc, held': set<nat>)
    requires Good(frames, s) && t < |s.threads| && ThreadOk(frames, s.m, q)
    requires Fills(q) == Fills(s.threads[t])
    requires (Own(q) == {} && held' == s.held + Own(s.threads[t])) ||
             (Own(s.threads[t]) == {} && Own(q) <= s.held && held' == s.held - Own(q))
    requires forall c :: 0 <= c < |s.m.children| ==>
               Charge(s.threads[t], c) == |Own(s.threads[t]) * Field(c)| && Charge(q, c) == |Own(q) * Field(c)|
    ensures Good(frames, State(s.m, s.threads[t := q], held'))
  {
    hide Own, Fills, Charge, ThreadOk, ChildCount, Padded, FrameOk, Field, Apart;
    var s' := State(s.m, s.threads[t := q], held');
    TransferApart(frames, s, t, q, held');
    forall c | 0 <= c < ChildCount(frames)
      ensures ChildInv(frames, s', c)
    {
      assert ChildInv(frames, s, c);
      ChargeChange(s.threads, t, q, c);
      TransferCounts(frames, s, t, q, held', c);
      forall f: nat | f in Field(c)
        ensures FrameOk(frames, s', s.m.children[c].huge, f)
      {
        TransferFrame(frames, s, t, q, held', s.m.children[c].huge, f);
      }
    }
  }

  lemma TransferCounts(frames: nat, s: State, t: nat, q: Pc, held': set<nat>, c: nat)
    requires t < |s.threads| && Apart(frames, s)
    requires (Own(q) == {} && held' == s.held + Own(s.threads[t])) ||
             (Own(s.threads[t]) == {} && Own(q) <= s.held && held' == s.held - Own(q))
    ensures |held' * Field(c)| + |Own(q) * Field(c)| == |s.held * Field(c)| + |Own(s.threads[t]) * Field(c)|
  {
    hide Own, Fills, Field;
    var w := Field(c);
    var a := if Own(q) == {} && held' == s.held + Own(s.threads[t]) then Own(s.threads[t]) else Own(q);
    if Own(q) == {} && held' == s.held + Own(s.threads[t]) {
      assert held' * w == s.held * w + a * w;
      assert Own(q) * w == {};
    } else {
      assert s.held * w == held' * w + a * w;
      assert Own(s.threads[t]) * w == {};
    }
  }

  lemma TransferFrame(frames: nat, s: State, t: nat, q: Pc, held': set<nat>, huge: bool, f: nat)
    requires t < |s.threads| && Apart(frames, s) && Fills(q) == Fills(s.threads[t]) && FrameOk(frames, s, huge, f)
    requires (Own(q) == {} && held' == s.held + Own(s.threads[t])) ||
             (Own(s.threads[t]) == {} && Own(q) <= s.held && held' == s.held - Own(q))
    ensures FrameOk(frames, State(s.m, s.threads[t := q], held'), huge, f)
  {
    hide Own, Fills, Owned, Filled;
    OwnedAfter(s.threads, t, q, f);
    FilledAfter(s.threads, t, q, f);
  }

  lemma TransferApart(frames: nat, s: State, t: nat, q: Pc, held': set<nat>)
    requires t < |s.threads| && Apart(frames, s) && Fills(q) == Fills(s.threads[t])
    requires (Own(q) == {} && held' == s.held + Own(s.threads[t])) ||
             (Own(s.threads[t]) == {} && Own(q) <= s.held && held' == s.held - Own(q))
    ensures Apart(frames, State(s.m, s.threads[t := q], held'))
  {
    hide Own, Fills;
  }
}
