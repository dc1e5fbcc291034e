/** What the invariant means: for whole runs, for single children, for quiet states, and for a crash
    at any point followed by recovery. */
module ConcTheorems {
  import opened Base
  import opened Children
  import opened LowerSpec
  import opened LowerLemmas
  import opened LowerWhole
  import opened ConcLower
  import opened ConcEffects
  import opened ConcProof

  // ---- runs ----

  /** In every state of every run the invariant holds, and no assertion has failed. */
  lemma {:induction false} RunKeeps(frames: nat, run: seq<State>, acts: seq<Act>, n: nat)
    requires Run(frames, Intended, run, acts) && n < |run| && Good(frames, run[0])
    ensures Good(frames, run[n]) && forall t :: 0 <= t < |run[n].threads| ==> !run[n].threads[t].Fired?
  {
    hide Legal, Do, Good;
    if n > 0 {
      RunKeeps(frames, run, acts, n - 1);
      LegalThread(frames, run[n - 1], acts[n - 1]);
      assert run[n - 1 + 1] == Do(Intended, run[n - 1], acts[n - 1]);
      ActKeeps(frames, run[n - 1], acts[n - 1]);
    }
    NoneFired(frames, run[n]);
  }

  lemma LegalThread(frames: nat, s: State, act: Act)
    requires Legal(frames, s, act)
    ensures act.t < |s.threads|
  {
    hide Pow2, Block;
  }

  lemma NoneFired(frames: nat, s: State)
    requires Good(frames, s)
    ensures forall t :: 0 <= t < |s.threads| ==> !s.threads[t].Fired?
  {
    hide ChildInv, Apart;
    forall t | 0 <= t < |s.threads|
      ensures !s.threads[t].Fired?
    {
      assert ThreadOk(frames, s.m, s.threads[t]);
    }
  }

  /** A completed get hands out frames that no completed get holds, and that no other thread owns. */
  lemma HandsOutOnce(frames: nat, s: State, t: nat)
    requires Good(frames, s) && t < |s.threads| && s.threads[t].Hand?
    ensures var b := Block(s.threads[t].frame, Pow2(s.threads[t].order));
            && b !! s.held && Step(s, t).held == s.held + b
            && forall i :: 0 <= i < |s.threads| && i != t ==> Own(s.threads[i]) !! b
  {
    hide ChildInv, Pow2, Block, ChildCount, Padded, ThreadOk;
    forall i | 0 <= i < |s.threads| && i != t
      ensures Own(s.threads[i]) !! Own(s.threads[t])
    {
      assert Own(s.threads[if i < t then i else t]) !! Own(s.threads[if i < t then t else i]);
    }
  }

  // ---- states without calls in progress ----

  ghost predicate AllIdle(threads: seq<Pc>)
  {
    forall i :: 0 <= i < |threads| ==> threads[i].Idle?
  }

  lemma {:induction false} IdleCharges(threads: seq<Pc>, c: nat)
    requires AllIdle(threads)
    ensures ChargeSum(threads, c) == 0
  {
    if threads != [] {
      IdleCharges(threads[..|threads| - 1], c);
    }
  }

  lemma IdleOwns(threads: seq<Pc>, f: nat)
    requires AllIdle(threads)
    ensures !Owned(threads, f) && !Filled(threads, f)
  {}

  /** The number of managed frames of a child that are not held. */
  lemma RestOfChild(frames: nat, held: set<nat>, c: nat)
    requires forall f :: f in held ==> f < frames
    ensures |(Block(0, frames) - held) * Field(c)| + |held * Field(c)| + Beyond(frames, c) == 512
  {
    var a, b := (Block(0, frames) - held) * Field(c), held * Field(c);
    var w := Block(512 * c, FramesIn(frames, c));
    BlockSize(512 * c, FramesIn(frames, c));
    assert a + b == w && a !! b;
  }

  /** Without calls in progress the concurrent invariant is the sequential one, with the client holding
      exactly the managed frames that are not free. */
  lemma QuietIsSequential(frames: nat, s: State)
    requires AllIdle(s.threads)
    ensures Good(frames, s) <==>
            LowerSpec.Inv(frames, s.m) && s.held == Block(0, frames) - LowerSpec.Free(frames, s.m)
  {
    hide Good, LowerSpec.Inv, LowerSpec.Free;
    if Good(frames, s) {
      QuietToSequential(frames, s);
    }
    if LowerSpec.Inv(frames, s.m) && s.held == Block(0, frames) - LowerSpec.Free(frames, s.m) {
      SequentialToQuiet(frames, s);
    }
  }

  lemma QuietToSequential(frames: nat, s: State)
    requires AllIdle(s.threads) && Good(frames, s)
    ensures LowerSpec.Inv(frames, s.m) && s.held == Block(0, frames) - LowerSpec.Free(frames, s.m)
  {
    hide ChildCount, Padded, ThreadOk, ChildInv, Own, Fills;
    forall c | 0 <= c < |s.m.children|
      ensures ChildOk(frames, s.m, c)
    {
      if c < ChildCount(frames) {
        QuietChild(frames, s, c);
      }
    }
    assert s.held <= Block(0, frames);
    forall f: nat
      ensures f in LowerSpec.Free(frames, s.m) <==> f in Block(0, frames) - s.held
    {
      if f < frames {
        InsideCount(frames, f);
        InField(f, f / 512);
        QuietFrame(frames, s, f / 512, f);
      }
    }
  }

  lemma QuietFrame(frames: nat, s: State, c: nat, f: nat)
    requires AllIdle(s.threads) && c < |s.m.children| && ChildInv(frames, s, c) && f in Field(c)
    ensures s.m.children[c].huge ==> f in s.m.zeros && (f < frames ==> f in s.held)
    ensures !s.m.children[c].huge ==> (f in s.m.zeros <==> f < frames && f !in s.held)
    ensures !s.m.children[c].huge && f in s.m.zeros ==> f < frames
  {
    hide Balanced, Field, Owned, Filled;
    IdleOwns(s.threads, f);
    assert FrameOk(frames, s, s.m.children[c].huge, f);
  }

  lemma QuietChild(frames: nat, s: State, c: nat)
    requires AllIdle(s.threads) && s.held <= Block(0, frames) && c < ChildCount(frames) <= |s.m.children| &&
             ChildInv(frames, s, c)
    ensures ChildOk(frames, s.m, c)
  {
    hide ChildCount, Field, FrameOk;
    IdleCharges(s.threads, c);
    RestOfChild(frames, s.held, c);
    forall f: nat | f in Field(c)
      ensures s.m.children[c].huge ==> f in s.m.zeros
      ensures !s.m.children[c].huge ==> (f in s.m.zeros <==> f in Block(0, frames) - s.held)
    {
      QuietFrame(frames, s, c, f);
    }
    if !s.m.children[c].huge {
      assert s.m.zeros * Field(c) == (Block(0, frames) - s.held) * Field(c);
    }
  }

  lemma SequentialToQuiet(frames: nat, s: State)
    requires AllIdle(s.threads) && LowerSpec.Inv(frames, s.m)
    requires s.held == Block(0, frames) - LowerSpec.Free(frames, s.m)
    ensures Good(frames, s)
  {
    hide ChildCount, Padded, ChildOk;
    ChildCountIs(frames);
    forall c | 0 <= c < ChildCount(frames)
      ensures ChildInv(frames, s, c)
    {
      SequentialChild(frames, s, c);
    }
    InvIsRecoverable(frames, s.m);
  }

  lemma SequentialChild(frames: nat, s: State, c: nat)
    requires AllIdle(s.threads) && LowerSpec.Inv(frames, s.m) && c < ChildCount(frames) <= |s.m.children|
    requires s.held == Block(0, frames) - LowerSpec.Free(frames, s.m)
    ensures ChildInv(frames, s, c)
  {
    hide ChildCount, Padded, LowerSpec.Inv, LowerSpec.Free, FrameOk, ChildOk;
    IdleCharges(s.threads, c);
    RestOfChild(frames, s.held, c);
    FreeInField(frames, s.m, c);
    ChildIsOk(frames, s.m, c);
    FreeManaged(frames, s.m);
    assert Block(0, frames) - s.held == LowerSpec.Free(frames, s.m);
    HugeIsEmpty(frames, s.m, c);
    forall f: nat | f in Field(c)
      ensures FrameOk(frames, s, s.m.children[c].huge, f)
    {
      SequentialFrame(frames, s, c, f);
    }
  }

  lemma FreeManaged(frames: nat, m: Mem)
    ensures LowerSpec.Free(frames, m) <= Block(0, frames)
  {}

  lemma HugeIsEmpty(frames: nat, m: Mem, c: nat)
    requires c < ChildCount(frames) && c < |m.children| && ChildOk(frames, m, c)
    ensures m.children[c].huge ==> m.children[c].free == 0
  {}

  lemma SequentialFrame(frames: nat, s: State, c: nat, f: nat)
    requires AllIdle(s.threads) && c < ChildCount(frames) && c < |s.m.children| && ChildOk(frames, s.m, c) &&
             f in Field(c)
    requires s.held == Block(0, frames) - LowerSpec.Free(frames, s.m)
    ensures FrameOk(frames, s, s.m.children[c].huge, f)
  {
    hide ChildCount, Owned, Filled;
    IdleOwns(s.threads, f);
    InField(f, c);
  }

  // ---- the bits of one child ----

  /** The frames that the threads own, and the ones that splitters filled. */
  function AllOwned(threads: seq<Pc>): set<nat>
  {
    if threads == [] then {} else AllOwned(threads[..|threads| - 1]) + Own(threads[|threads| - 1])
  }

  function AllFilled(threads: seq<Pc>): set<nat>
  {
    if threads == [] then {} else AllFilled(threads[..|threads| - 1]) + Fills(threads[|threads| - 1])
  }

  lemma {:induction false} AllAreSome(threads: seq<Pc>, f: nat)
    ensures f in AllOwned(threads) <==> Owned(threads, f)
    ensures f in AllFilled(threads) <==> Filled(threads, f)
  {
    hide Own, Fills;
    if threads != [] {
      var n := |threads| - 1;
      var rest := threads[..n];
      AllAreSome(rest, f);
      assert forall i :: 0 <= i < n ==> rest[i] == threads[i];
      if Owned(rest, f) {
        var i :| 0 <= i < n && f in Own(rest[i]);
        assert f in Own(threads[i]);
      }
      if Filled(rest, f) {
        var i :| 0 <= i < n && f in Fills(rest[i]);
        assert f in Fills(threads[i]);
      }
    }
  }

  /** How many frames of a child calls in progress took from the counter without having set their
      bits, or cleared without having counted them. */
  function InFlight(threads: seq<Pc>, c: nat): int
  {
    if threads == [] then 0
    else
      var p := threads[|threads| - 1];
      InFlight(threads[..|threads| - 1], c) + Charge(p, c) - |Own(p) * Field(c)|
  }

  lemma {:induction false} InFlightIs(frames: nat, s: State, n: nat, c: nat)
    requires Apart(frames, s) && n <= |s.threads|
    ensures InFlight(s.threads[..n], c) == ChargeSum(s.threads[..n], c) - |AllOwned(s.threads[..n]) * Field(c)|
  {
    hide Own, Fills, Charge, Field;
    var threads := s.threads[..n];
    if n == 0 {
      assert AllOwned(threads) * Field(c) == {};
    } else {
      InFlightIs(frames, s, n - 1, c);
      assert threads[..n - 1] == s.threads[..n - 1];
      LastIsApart(frames, s, n - 1);
      var a, b := AllOwned(threads[..n - 1]) * Field(c), Own(threads[n - 1]) * Field(c);
      assert AllOwned(threads) * Field(c) == a + b && a !! b;
    }
  }

  lemma {:induction false} LastIsApart(frames: nat, s: State, n: nat)
    requires Apart(frames, s) && n < |s.threads|
    ensures AllOwned(s.threads[..n]) !! Own(s.threads[n])
  {
    hide Own, Fills, AllOwned;
    forall f | f in AllOwned(s.threads[..n])
      ensures f !in Own(s.threads[n])
    {
      AllAreSome(s.threads[..n], f);
      var i :| 0 <= i < n && f in Own(s.threads[..n][i]);
      assert Own(s.threads[i]) !! Own(s.threads[n]);
    }
  }

  /** In every reachable state, for each child that is not huge, the zero bits and the rows that a
      stale splitter filled for a moment are as many as the counter says and calls have in flight. */
  lemma BitsAreCounted(frames: nat, s: State, c: nat)
    requires Good(frames, s) && c < ChildCount(frames) <= |s.m.children| && !s.m.children[c].huge
    ensures |s.m.zeros * Field(c)| + |AllFilled(s.threads) * Field(c)| == s.m.children[c].free + InFlight(s.threads, c)
  {
    hide ChildCount, Padded, ThreadOk, Own, Fills, FrameOk, AllOwned, AllFilled, InFlight, ChargeSum, Owned, Filled,
      Field;
    assert ChildInv(frames, s, c);
    assert s.threads[..|s.threads|] == s.threads;
    InFlightIs(frames, s, |s.threads|, c);
    var w := Block(512 * c, FramesIn(frames, c));
    BlockSize(512 * c, FramesIn(frames, c));
    forall f: nat
      ensures f in w <==> f in Field(c) && f < frames
    {
      InField(f, c);
    }
    forall f: nat | f in Field(c)
      ensures f < frames <==> f in s.m.zeros || f in AllFilled(s.threads) || f in s.held || f in AllOwned(s.threads)
      ensures f in s.m.zeros || f in AllFilled(s.threads) ==> f !in s.held && f !in AllOwned(s.threads)
      ensures !(f in s.m.zeros && f in AllFilled(s.threads)) && !(f in s.held && f in AllOwned(s.threads))
    {
      OneRole(frames, s, c, f);
    }
    FourParts(Field(c), w, s.m.zeros, AllFilled(s.threads), s.held, AllOwned(s.threads));
  }

  lemma FourParts(u: set<nat>, w: set<nat>, z: set<nat>, i: set<nat>, h: set<nat>, o: set<nat>)
    requires w <= u && forall f :: f in u ==> (f in w <==> f in z || f in i || f in h || f in o)
    requires forall f :: f in u ==>
             (f in z || f in i ==> f !in h && f !in o) && !(f in z && f in i) && !(f in h && f in o)
    ensures |w| == |z * u| + |i * u| + |h * u| + |o * u|
  {
    assert w == (z * u + i * u) + (h * u + o * u);
    assert (z * u) !! (i * u) && (h * u) !! (o * u);
    assert (z * u + i * u) !! (h * u + o * u);
  }

  /** A frame of a child that is not huge has exactly one role. */
  lemma OneRole(frames: nat, s: State, c: nat, f: nat)
    requires Good(frames, s) && c < ChildCount(frames) && c < |s.m.children| && !s.m.children[c].huge && f in Field(c)
    ensures f < frames <==> f in s.m.zeros || f in AllFilled(s.threads) || f in s.held || f in AllOwned(s.threads)
    ensures f in s.m.zeros || f in AllFilled(s.threads) ==> f !in s.held && f !in AllOwned(s.threads)
    ensures !(f in s.m.zeros && f in AllFilled(s.threads)) && !(f in s.held && f in AllOwned(s.threads))
  {
    hide ChildCount, Padded, ThreadOk, Own, Fills, Balanced;
    assert ChildInv(frames, s, c);
    assert FrameOk(frames, s, false, f);
    AllAreSome(s.threads, f);
  }

  /** A huge child has no free frame: all its managed frames are held or owned, its counter is zero,
      and every bit is zero that its one splitter did not fill. */
  lemma HugeIsTaken(frames: nat, s: State, c: nat)
    requires Good(frames, s) && c < ChildCount(frames) <= |s.m.children| && s.m.children[c].huge
    ensures s.m.children[c] == TAKEN
    ensures forall f: nat :: f in Field(c) ==>
            (f in s.m.zeros <==> !Filled(s.threads, f)) && (f < frames ==> f in s.held || Owned(s.threads, f))
    ensures forall i, j :: 0 <= i < j < |s.threads| ==>
            Fills(s.threads[i]) * Field(c) == {} || Fills(s.threads[j]) * Field(c) == {}
  {
    hide ChildCount, Padded, Own, Fills, Balanced, Owned, Filled, ThreadOk;
    assert ChildInv(frames, s, c);
    forall f: nat | f in Field(c)
      ensures (f in s.m.zeros <==> !Filled(s.threads, f)) && (f < frames ==> f in s.held || Owned(s.threads, f))
    {
      assert FrameOk(frames, s, true, f);
      NotBoth(frames, s, f);
    }
    forall i, j | 0 <= i < j < |s.threads|
      ensures Fills(s.threads[i]) * Field(c) == {} || Fills(s.threads[j]) * Field(c) == {}
    {
      assert ThreadOk(frames, s.m, s.threads[i]) && ThreadOk(frames, s.m, s.threads[j]);
      FillsStart(frames, s.m, s.threads[i], c);
      FillsStart(frames, s.m, s.threads[j], c);
    }
  }

  lemma NotBoth(frames: nat, s: State, f: nat)
    requires Apart(frames, s)
    ensures f in s.m.zeros ==> !Filled(s.threads, f)
  {
    hide Own, Fills;
  }

  /** A splitter fills the first row first. */
  lemma FillsStart(frames: nat, m: Mem, p: Pc, c: nat)
    requires ThreadOk(frames, m, p)
    ensures Fills(p) * Field(c) == {} || 512 * c in Fills(p)
  {
    hide Managed, Own;
    if f :| f in Fills(p) * Field(c) {
      InField(f, c);
      assert c == p.frame / 512;
    }
  }

  // ---- a crash, and recovery ----

  /** Recovery can start from any reachable state. */
  lemma CrashIsRecoverable(frames: nat, s: State)
    requires Good(frames, s)
    ensures Recoverable(frames, s.m)
  {
    hide ChildCount, Padded, ThreadOk, Apart, Balanced, Owned, Filled;
    ChildCountIs(frames);
    forall f | f in s.m.zeros
      ensures f < frames || (f / 512 < |s.m.children| && s.m.children[f / 512].huge)
    {
      var c := f / 512;
      InField(f, c);
      assert ChildInv(frames, s, c);
      assert FrameOk(frames, s, s.m.children[c].huge, f);
    }
  }

  /** Stopping after any step and recovering gives a memory that meets the sequential invariant. What
      clients hold is still allocated, and every managed frame that no client holds and no call in
      progress owns or filled is free. */
  lemma CrashRecovers(frames: nat, s: State)
    requires Good(frames, s)
    ensures ChildCount(frames) <= |s.m.children|
    ensures var r := Recovered(s.m, ChildCount(frames));
            && LowerSpec.Inv(frames, r)
            && s.held !! LowerSpec.Free(frames, r)
            && (forall f: nat :: f < frames && f !in s.held && !Owned(s.threads, f) && !Filled(s.threads, f) ==>
                              f in LowerSpec.Free(frames, r))
            && Recovered(r, ChildCount(frames)) == r
  {
    hide ChildCount, Padded, ThreadOk, Balanced, Owned, Filled, LowerSpec.Inv, Recovered, Own, Fills;
    CrashIsRecoverable(frames, s);
    RecoverRefines(frames, s.m);
    RecoverAgain(s.m, ChildCount(frames), ChildCount(frames));
    forall f: nat | f < frames
      ensures f in s.held ==> f !in LowerSpec.Free(frames, s.m)
      ensures f !in s.held && !Owned(s.threads, f) && !Filled(s.threads, f) ==> f in LowerSpec.Free(frames, s.m)
    {
      InsideCount(frames, f);
      InField(f, f / 512);
      assert ChildInv(frames, s, f / 512);
      assert FrameOk(frames, s, s.m.children[f / 512].huge, f);
    }
    assert forall f :: f in s.held ==> f < frames;
  }

  /** A second crash while recovery runs changes nothing: with the first `k` children recovered, the next
      entry stored or not, and some bits of a huge child already cleared, recovery ends in the same memory. */
  lemma CrashInRecovery(m: Mem, k: nat, n: nat, entry: Child, cleared: set<nat>)
    requires k < n <= |m.children| && (entry == m.children[k] || entry == RecoveredChild(m, k))
    requires cleared <= Field(k) && (cleared != {} ==> m.children[k].huge)
    ensures var r := Recovered(m, k);
            k < |r.children| && Recovered(Mem(r.children[k := entry], r.zeros + cleared), n) == Recovered(m, n)
  {
    hide Field;
    var r := Recovered(m, k);
    forall f: nat | f in cleared
      ensures f in HugeFrames(m, n)
    {
      InField(f, k);
    }
    RecoverIgnores(m, Mem(r.children[k := entry], r.zeros + cleared), n);
  }

  /** Clients may go on after a crash: the recovered memory with no calls in progress is a good state,
      in which clients hold at least what they held before. */
  lemma CrashGoesOn(frames: nat, s: State, threads: seq<Pc>)
    requires Good(frames, s) && AllIdle(threads)
    ensures ChildCount(frames) <= |s.m.children|
    ensures var r := Recovered(s.m, ChildCount(frames));
            var held := Block(0, frames) - LowerSpec.Free(frames, r);
            Good(frames, State(r, threads, held)) && s.held <= held
  {
    hide Good, Recovered, LowerSpec.Free, LowerSpec.Inv, ChildCount, Owned, Filled;
    CrashRecovers(frames, s);
    var r := Recovered(s.m, ChildCount(frames));
    QuietIsSequential(frames, State(r, threads, Block(0, frames) - LowerSpec.Free(frames, r)));
    HeldManaged(frames, s);
  }

  lemma HeldManaged(frames: nat, s: State)
    requires Good(frames, s)
    ensures s.held <= Block(0, frames)
  {
    hide ChildInv, ThreadOk, Own, Fills;
  }
}
