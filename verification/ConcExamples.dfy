/** Schedules under which the undo loops of the source break the invariant. Each starts without calls
    in progress, and the clients do only what the interface allows. */
module ConcExamples {
  import opened Base
  import opened Children
  import opened LowerSpec
  import opened LowerLemmas
  import opened LowerWhole
  import opened ConcLower
  import opened ConcProof
  import opened ConcTheorems
  import opened ConcWritten

  /** The state after the threads in `ts` took their steps, in that order. */
  function After(s: State, ts: seq<nat>): State
  {
    if ts == [] then s
    else
      var r, t := After(s, ts[..|ts| - 1]), ts[|ts| - 1];
      if t < |r.threads| then StepBy(Written, r, t) else r
  }

  lemma {:induction false} OneStep(s: State, ts: seq<nat>, t: nat)
    requires t < |After(s, ts).threads|
    ensures After(s, ts + [t]) == StepBy(Written, After(s, ts), t)
  {
    hide StepBy;
    assert (ts + [t])[..|ts|] == ts;
  }

  // ---- three steps that break the invariant ----

  /** A given block of order 7 or 8 whose first row is free and whose second one is not. */
  lemma {:induction false} GivenBreaks(s: State, ts: seq<nat>, t: nat, f: nat, order: nat)
    requires var r := After(s, ts);
             && t < |r.threads| && r.threads[t] == Fill(Given(f), order, 0, 0) && 7 <= order <= 8
             && Block(f, 64) <= r.m.zeros && !(Block(f + 64, 64) <= r.m.zeros)
    ensures var r := After(s, ts + [t] + [t] + [t]); t < |r.threads| && r.threads[t].Fired?
  {
    hide After;
    var r := After(s, ts);
    OneStep(s, ts, t);
    var m := r.m.(zeros := r.m.zeros - Block(f, 64));
    assert After(s, ts + [t]) == State(m, r.threads[t := Fill(Given(f), order, 0, 1)], r.held);
    OneStep(s, ts + [t], t);
    assert !(Block(f + 64, 64) <= m.zeros);
    assert After(s, ts + [t] + [t]) == State(m, r.threads[t := Clear(Given(f), order, 0, 1, 0)], r.held);
    OneStep(s, ts + [t] + [t], t);
    assert f in Block(f, 64) && f !in m.zeros;
  }

  /** A block of order 10 or more whose first child is free and whose second one is held as huge: the
      held child becomes free, and the first one stays allocated. */
  lemma {:induction false} LargeBreaks(s: State, ts: seq<nat>, t: nat, goal: Goal, order: nat)
    requires 10 <= order <= TREE_ORDER
    requires var r, c := After(s, ts), FirstOf(goal, order);
             && t < |r.threads| && r.threads[t] == Whole(goal, order, 0) && c + 1 < |r.m.children|
             && r.m.children[c] == FULL && r.m.children[c + 1] == TAKEN
    ensures var r, r', c := After(s, ts), After(s, ts + [t] + [t] + [t]), FirstOf(goal, order);
            r'.m.children == r.m.children[c := TAKEN][c + 1 := FULL] && r'.held == r.held
  {
    hide After, FirstOf, Next, Span;
    SpanMany(order);
    var r, c := After(s, ts), FirstOf(goal, order);
    OneStep(s, ts, t);
    var m := SetChild(r.m, c, TAKEN);
    assert After(s, ts + [t]) == State(m, r.threads[t := Whole(goal, order, 1)], r.held);
    OneStep(s, ts + [t], t);
    assert After(s, ts + [t] + [t]) == State(m, r.threads[t := Unwhole(goal, order, 1, 0)], r.held);
    OneStep(s, ts + [t] + [t], t);
  }

  lemma SpanMany(order: nat)
    requires order >= 10
    ensures Span(order) >= 2
  {
    PowAdd(1, order - 10);
    assert Pow2(1) == 2;
  }

  /** A splitter that finds the first row free and the second one not. */
  lemma {:induction false} SplitBreaks(s: State, ts: seq<nat>, t: nat, f: nat, order: nat)
    requires var r, b := After(s, ts), 512 * (f / 512);
             && t < |r.threads| && r.threads[t] == Split(f, order, 0)
             && Block(b, 64) <= r.m.zeros && !(Block(b + 64, 64) <= r.m.zeros)
    ensures var r := After(s, ts + [t] + [t] + [t]); t < |r.threads| && r.threads[t].Fired?
  {
    hide After;
    var r, b := After(s, ts), 512 * (f / 512);
    OneStep(s, ts, t);
    var m := r.m.(zeros := r.m.zeros - Block(b, 64));
    assert After(s, ts + [t]) == State(m, r.threads[t := Split(f, order, 1)], r.held);
    OneStep(s, ts + [t], t);
    assert !(Block(b + 64, 64) <= m.zeros);
    assert After(s, ts + [t] + [t]) == State(m, r.threads[t := Unsplit(f, order, 1, 0)], r.held);
    OneStep(s, ts + [t] + [t], t);
    assert b in Block(b, 64) && b !in m.zeros;
  }

  // ---- how clients get there ----

  /** A state without calls in progress. */
  function Quiescent(frames: nat, m: Mem, threads: seq<Pc>): State
  {
    State(m, threads, Block(0, frames) - set f | f in Block(0, frames) && f in m.zeros && f / 512 < |m.children| &&
          !m.children[f / 512].huge)
  }

  lemma QuiescentIs(frames: nat, m: Mem, threads: seq<Pc>)
    requires LowerSpec.Inv(frames, m) && AllIdle(threads)
    ensures Good(frames, Quiescent(frames, m, threads))
    ensures Quiescent(frames, m, threads).held == Block(0, frames) - LowerSpec.Free(frames, m)
  {
    hide Good, LowerSpec.Inv;
    var s := Quiescent(frames, m, threads);
    assert s.held == Block(0, frames) - LowerSpec.Free(frames, m);
    QuietIsSequential(frames, s);
  }

  /** All of 512 frames are free but the one at 64, and a thread gets the block of order 7 or 8 at 0. */
  lemma {:induction false} GivenGetFires(order: nat) returns (s: State, ts: seq<nat>)
    requires 7 <= order <= 8
    ensures Good(512, s) && AllIdle(s.threads) && MayBegin(512, s, 0, GetGiven(0, order))
    ensures var r := After(Begin(s, 0, GetGiven(0, order)), ts); |r.threads| > 0 && r.threads[0].Fired?
  {
    hide Good, After, LowerSpec.Inv, LowerSpec.Free;
    var m := HeldFrame();
    s := Quiescent(512, m, [Idle]);
    QuiescentIs(512, m, [Idle]);
    SmallPow(order);
    var b := Begin(s, 0, GetGiven(0, order));
    NoSteps(b);
    OneStep(b, [], 0);
    ChildTransitions(m.children[0], order);
    GivenBreaks(b, [] + [0], 0, 0, order);
    ts := [] + [0] + [0] + [0] + [0];
  }

  lemma NoSteps(s: State)
    ensures After(s, []) == s
  {}

  lemma HeldFrame() returns (m: Mem)
    ensures LowerSpec.Inv(512, m) && |m.children| > 0 && m.children[0] == Child(511, false)
    ensures Block(0, 64) <= m.zeros && !(Block(64, 64) <= m.zeros)
  {
    var all := Cleared(512, true);
    ClearedRefines(512, true);
    ChildCountIs(512);
    SmallPow(0);
    assert Block(64, 1) <= Block(0, 512);
    AllocRefines(512, all, 64, 0);
    m := Alloc(all, 64, 0);
    assert 64 in Block(64, 64) && 64 !in m.zeros;
  }

  /** Of 1024 frames the upper half is held as huge, and a thread gets the block of order 10 at 0. */
  lemma {:induction false} LargeGetFrees() returns (s: State, ts: seq<nat>)
    requires TREE_ORDER >= 10
    ensures Good(1024, s) && AllIdle(s.threads) && MayBegin(1024, s, 0, GetGiven(0, 10)) && Block(512, 512) <= s.held
    ensures var r := After(Begin(s, 0, GetGiven(0, 10)), ts);
            |r.m.children| > 1 && r.m.children[1] == FULL && Block(512, 512) <= r.held
  {
    hide Good, After, LowerSpec.Inv, LowerSpec.Free;
    var m := HeldChild();
    s := Quiescent(1024, m, [Idle]);
    QuiescentIs(1024, m, [Idle]);
    SmallPow(0);
    assert Pow2(10) == 1024 by { SmallPow(9); }
    var b := Begin(s, 0, GetGiven(0, 10));
    NoSteps(b);
    LargeBreaks(b, [], 0, Given(0), 10);
    ts := [] + [0] + [0] + [0];
  }

  lemma HeldChild() returns (m: Mem)
    requires TREE_ORDER >= 10
    ensures LowerSpec.Inv(1024, m) && |m.children| > 1 && m.children[0] == FULL && m.children[1] == TAKEN
    ensures LowerSpec.Free(1024, m) == Block(0, 512)
  {
    var all := Cleared(1024, true);
    ClearedRefines(1024, true);
    ChildCountIs(1024);
    SmallPow(9);
    SmallPow(0);
    assert Block(512, 512) <= Block(0, 1024);
    AllocRefines(1024, all, 512, 9);
    m := Alloc(all, 512, 9);
  }

  /** A child is held as huge, and two clients give back its first 64 frames and the next 64: the
      second one loads the entry before the first one splits the child. */
  lemma {:induction false} OverlappingPutsFire() returns (s: State, ts: seq<nat>)
    ensures Good(512, s) && AllIdle(s.threads) && MayBegin(512, s, 0, PutBlock(0, 6))
    ensures var b := Begin(s, 0, PutBlock(0, 6)); MayBegin(512, b, 1, PutBlock(64, 6))
    ensures var b := Begin(Begin(s, 0, PutBlock(0, 6)), 1, PutBlock(64, 6));
            var r := After(b, ts); |r.threads| > 1 && r.threads[1].Fired?
  {
    hide Good, After, MayBegin;
    s := BothBegin();
    var b := Begin(Begin(s, 0, PutBlock(0, 6)), 1, PutBlock(64, 6));
    ts := OneSplits(b);
    assert 64 in Block(64, 64);
    SplitBreaks(b, ts, 1, 64, 6);
    ts := ts + [1] + [1] + [1];
  }

  lemma BothBegin() returns (s: State)
    ensures |s.threads| == 2 && Good(512, s) && AllIdle(s.threads) && MayBegin(512, s, 0, PutBlock(0, 6))
    ensures var b := Begin(s, 0, PutBlock(0, 6)); MayBegin(512, b, 1, PutBlock(64, 6))
    ensures var b := Begin(Begin(s, 0, PutBlock(0, 6)), 1, PutBlock(64, 6));
            b.threads == [Load(0, 6), Load(64, 6)] && b.m.zeros == Block(0, 512) && |b.m.children| > 0 &&
                b.m.children[0] == TAKEN
  {
    hide Good, LowerSpec.Inv, LowerSpec.Free;
    var m := Cleared(512, false);
    ClearedRefines(512, false);
    ChildCountIs(512);
    s := Quiescent(512, m, [Idle, Idle]);
    QuiescentIs(512, m, [Idle, Idle]);
    SmallPow(6);
    assert Block(0, 64) <= s.held && Block(64, 64) <= s.held - Block(0, 64);
  }

  /** Both load the entry, and the first one splits the child and clears its row. */
  lemma {:induction false} OneSplits(b: State) returns (ts: seq<nat>)
    requires b.threads == [Load(0, 6), Load(64, 6)] && b.m.zeros == Block(0, 512)
    requires |b.m.children| > 0 && b.m.children[0] == TAKEN
    ensures After(b, ts).threads == [Count(0, 6), Split(64, 6, 0)] && After(b, ts).m.zeros == Block(0, 64)
  {
    hide After, StepBy;
    ts := BothLoad(b);
    ts := SplitsAll(b, ts, 0);
    ts := Releases(b, ts);
  }

  lemma {:induction false} BothLoad(b: State) returns (ts: seq<nat>)
    requires b.threads == [Load(0, 6), Load(64, 6)] && |b.m.children| > 0 && b.m.children[0] == TAKEN
    ensures After(b, ts) == State(b.m, [Split(0, 6, 0), Split(64, 6, 0)], b.held)
  {
    hide After;
    NoSteps(b);
    OneStep(b, [], 1);
    OneStep(b, [] + [1], 0);
    ts := [] + [1] + [0];
  }

  lemma {:induction false} Releases(b: State, before: seq<nat>) returns (ts: seq<nat>)
    requires var r := After(b, before);
             r.threads == [Commit(0, 6), Split(64, 6, 0)] && r.m.zeros == {} && |r.m.children| > 0 &&
                 r.m.children[0] == TAKEN
    ensures After(b, ts).threads == [Count(0, 6), Split(64, 6, 0)] && After(b, ts).m.zeros == Block(0, 64)
  {
    hide After, Pow2;
    SmallPow(6);
    var r := After(b, before);
    OneStep(b, before, 0);
    var m := SetChild(r.m, 0, Child(0, false));
    assert After(b, before + [0]) == State(m, [Release(0, 6, 0), Split(64, 6, 0)], r.held);
    OneStep(b, before + [0], 0);
    ts := before + [0] + [0];
    assert {} + Block(0, 64) == Block(0, 64);
  }

  /** The first thread fills the rows from `k` on. */
  lemma {:induction false} SplitsAll(b: State, before: seq<nat>, k: nat) returns (ts: seq<nat>)
    requires k < 8
    requires var r := After(b, before);
             && r.threads == [Split(0, 6, k), Split(64, 6, 0)] && r.m.zeros == Block(64 * k, 512 - 64 * k)
             && |r.m.children| > 0 && r.m.children[0] == TAKEN
    ensures var r := After(b, ts);
            r.threads == [Commit(0, 6), Split(64, 6, 0)] && r.m.zeros == {} && |r.m.children| > 0 &&
                r.m.children[0] == TAKEN
    decreases 8 - k
  {
    hide After;
    var r := After(b, before);
    OneStep(b, before, 0);
    ts := before + [0];
    assert Block(64 * k, 64) <= r.m.zeros;
    assert r.m.zeros - Block(64 * k, 64) == Block(64 * (k + 1), 512 - 64 * (k + 1));
    if k < 7 {
      ts := SplitsAll(b, ts, k + 1);
    } else {
      assert Block(512, 0) == {};
    }
  }
}
