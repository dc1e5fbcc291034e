/** What the invariant of the whole allocator means for runs, trees, quiet states and classes. */
module ConcUpperTheorems {
  import opened Base
  import opened Children
  import opened LowerSpec
  import opened LowerWhole
  import opened Policies
  import opened TreeEntries
  import opened Locals
  import opened Accounts
  import opened UpperSpec
  import opened UpperLemmas
  import opened ConcUpper
  import opened ConcCredit
  import opened ConcUpperProof
  import opened ConcUpperSteps
  import opened ConcUpperRuns
  import CL = ConcLower
  import CT = ConcTheorems
  import CW = ConcWritten

  // ---- runs ----

  ghost predicate SystemRun(config: Config, run: seq<System>)
  {
    forall i :: 0 <= i < |run| - 1 ==> Steps(config, run[i], run[i + 1])
  }

  /** In every state of every run the accounts hold, and no assertion has failed on either level. */
  lemma {:induction false} AccountsKept(config: Config, classes: set<nat>, run: seq<System>, carry: Carry, n: nat)
      returns (carry': Carry)
    requires SystemRun(config, run) && n < |run| && Good(config, classes, run[0], carry)
    ensures Good(config, classes, run[n], carry')
    ensures forall i :: 0 <= i < |run[n].calls| ==> !run[n].calls[i].Broken?
    ensures forall i :: 0 <= i < |run[n].low.threads| ==> !run[n].low.threads[i].Fired?
  {
    hide Good, Steps;
    if n == 0 {
      carry' := carry;
    } else {
      var before := AccountsKept(config, classes, run, carry, n - 1);
      assert Steps(config, run[n - 1], run[n - 1 + 1]);
      carry' := SystemKeeps(config, classes, run[n - 1], before, run[n]);
    }
    NothingBroken(config, classes, run[n], carry');
  }

  lemma NothingBroken(config: Config, classes: set<nat>, s: System, carry: Carry)
    requires Good(config, classes, s, carry)
    ensures forall i :: 0 <= i < |s.calls| ==> !s.calls[i].Broken?
    ensures forall i :: 0 <= i < |s.low.threads| ==> !s.low.threads[i].Fired?
  {
    hide Good, CL.Good;
    Parts(config, classes, s, carry);
    CT.NoneFired(config.frames, s.low);
    forall i | 0 <= i < |s.calls|
      ensures !s.calls[i].Broken?
    {
      CallParts(config, classes, s, carry, i);
    }
  }

  /** For every tree: slots that hold it and calls that carry its reservation are one if it is
      reserved, and none otherwise; its counter, the slots and the calls have exactly the frames
      that the counters below have. */
  lemma TreeBalance(config: Config, classes: set<nat>, s: System, carry: Carry, x: nat)
    requires Good(config, classes, s, carry) && x < TreeCount(config.frames)
    ensures |s.trees| == TreeCount(config.frames) && |s.calls| == |s.low.threads|
    ensures SlotCount(s.slots, x) + TokenSum(s.calls, x) == if s.trees[x].reserved then 1 else 0
    ensures s.trees[x].free + SlotFrames(s.slots, x) + CreditSum(s.calls, s.low.threads, x) == SumOf(s.low.m, x)
    ensures SumOf(s.low.m, x) <= TREE_SIZE
  {
    hide TreeCount, SlotFrames, SlotCount, CL.Good, CallOk, LowOk, SumOf, ConfigOk, RowsOk, BelowSum;
    var below := BelowSum(config, s.low.m);
    BelowAt(config, s.low.m, x);
    assert TreeAccount(below[x], s.trees[x], s.slots, x, carry.frames[x], carry.tokens[x], x !in {}, classes);
  }

  // ---- states without calls in progress ----

  ghost predicate AtRest(s: System)
  {
    |s.calls| == |s.low.threads| && CT.AllIdle(s.low.threads) && forall i :: 0 <= i < |s.calls| ==> s.calls[i].Rest?
  }

  lemma {:induction false} QuietCarries(calls: seq<Call>, threads: seq<CL.Pc>, x: nat)
    requires |calls| == |threads| && CT.AllIdle(threads) && forall i :: 0 <= i < |calls| ==> calls[i].Rest?
    ensures CreditSum(calls, threads, x) == 0 && TokenSum(calls, x) == 0
  {
    hide TreeCharge;
    if calls != [] {
      var n := |calls| - 1;
      QuietCarries(calls[..n], threads[..n], x);
      BeginOwesNothing(threads[n], x);
    }
  }

  lemma QuietCarry(config: Config, s: System, carry: Carry)
    requires AtRest(s)
    ensures CarryIs(s, carry, TreeCount(config.frames)) <==> carry == NoCarry(TreeCount(config.frames))
  {
    hide TreeCount, CreditSum, TokenSum, CT.AllIdle;
    var n := TreeCount(config.frames);
    forall x: nat
      ensures CreditSum(s.calls, s.low.threads, x) == 0 && TokenSum(s.calls, x) == 0
    {
      QuietCarries(s.calls, s.low.threads, x);
    }
    if CarryIs(s, carry, n) {
      assert carry.frames == NoCarry(n).frames && carry.tokens == NoCarry(n).tokens;
    }
  }

  /** Without calls in progress the invariant is the sequential one: the lower state is well formed,
      the client holds what is not free, and slots and trees count exactly the free frames. */
  lemma QuietIsSequential(config: Config, classes: set<nat>, s: System)
    requires AtRest(s)
    ensures var n := TreeCount(config.frames);
            Good(config, classes, s, NoCarry(n)) <==>
            && ConfigOk(config, classes, |s.slots|) && RowsOk(config, s.slots)
            && LowerSpec.Inv(config.frames, s.low.m) &&
               s.low.held == Block(0, config.frames) - LowerSpec.Free(config.frames, s.low.m)
            && Account(BelowOf(config.frames, s.low.m), Upper(s.trees, s.slots), NoCarry(n), {}, classes)
  {
    hide TreeCount, TreeAccount, CL.Good, Account, LowerSpec.Inv, LowerSpec.Free, Block, RowsOk, ConfigOk, BelowSum,
      CarryIs, NoCarry;
    var n := TreeCount(config.frames);
    QuietCarry(config, s, NoCarry(n));
    CT.QuietIsSequential(config.frames, s.low);
    CW.QuietIsCalm(s.low);
    if LowerSpec.Inv(config.frames, s.low.m) {
      SumsAreFree(config, s.low.m);
    }
    RestIsOk(config, classes, s);
  }

  lemma RestIsOk(config: Config, classes: set<nat>, s: System)
    requires AtRest(s)
    ensures forall i :: 0 <= i < |s.calls| ==>
            CallOk(config, classes, s.calls[i]) && LowOk(config, s.calls[i], s.low.threads[i])
  {}

  lemma SumsAreFree(config: Config, m: Mem)
    requires LowerSpec.Inv(config.frames, m)
    ensures BelowSum(config, m) == BelowOf(config.frames, m)
  {
    hide TreeCount, LowerSpec.Inv, FreeOfTree;
    forall x: nat | x < TreeCount(config.frames)
      ensures BelowSum(config, m)[x] == BelowOf(config.frames, m)[x]
    {
      BelowAt(config, m, x);
      BelowIs(config.frames, m, x);
      TreeSum(config.frames, m, x);
    }
  }

  // ---- classes ----

  /** In no step of any thread does the class of a tree rise, except when its counter reaches the tree
      size. */
  lemma TreeClassesFall(config: Config, classes: set<nat>, s: System, carry: Carry, s': System, x: nat)
    requires Good(config, classes, s, carry) && Steps(config, s, s') && Ordered(config.policy) && x < |s.trees|
    ensures x < |s'.trees| && (s'.trees[x].cls <= s.trees[x].cls || s'.trees[x].free == TREE_SIZE)
  {
    hide Good, Step, Pick, Begin, MayBegin;
    Parts(config, classes, s, carry);
    if i :| 0 <= i < |s.calls| && s' == Step(config, s, i) {
      CallParts(config, classes, s, carry, i);
      StepFalls(config, classes, s, i, x);
    } else if i, choice :| 0 <= i < |s.calls| && s.calls[i].Choose? && s' == Pick(config, s, i, choice) {
      CallParts(config, classes, s, carry, i);
      PickFalls(config, classes, s, i, choice, x);
    } else {
      var i, client :| 0 <= i < |s.calls| && MayBegin(config, s, i, client) && s' == Begin(config, s, i, client);
      BeginFalls(config, s, i, client, x);
    }
  }

  lemma StepFalls(config: Config, classes: set<nat>, s: System, i: nat, x: nat)
    requires i < |s.calls| == |s.low.threads| && Ordered(config.policy) && x < |s.trees| &&
             ConfigOk(config, classes, |s.slots|)
    requires CallOk(config, classes, s.calls[i])
    ensures var s' := Step(config, s, i);
            x < |s'.trees| && (s'.trees[x].cls <= s.trees[x].cls || s'.trees[x].free == TREE_SIZE)
  {
    hide CL.Step, CL.Begin, RequestOk, FromOk, TreePut, TreeUnreserve, CallOk, SlotAt, SlotsOf, Pow2, TreeOf,
      TreeOfRow, NewReserved, GiveUp, ConfigOk, Ordered;
    var c := s.calls[i];
    if c.PutBack? && c.t < |s.trees| {
      ClassesFall(s.trees[c.t], c.n, 0, config.policy, config.defaultClass);
    } else if c.Unreserve? && c.t < |s.trees| {
      CallClass(config, classes, |s.slots|, c);
      ClassesFall(s.trees[c.t], c.n, c.cls, config.policy, config.defaultClass);
    }
  }

  lemma CallClass(config: Config, classes: set<nat>, slots: nat, c: Call)
    requires ConfigOk(config, classes, slots) && CallOk(config, classes, c)
    ensures c.Unreserve? ==> c.cls < MAX_CLASSES
    ensures c.Choose? ==> c.req.cls < MAX_CLASSES
  {}

  lemma PickFalls(config: Config, classes: set<nat>, s: System, i: nat, choice: Choice, x: nat)
    requires i < |s.calls| && s.calls[i].Choose? && Ordered(config.policy) && x < |s.trees|
    requires ConfigOk(config, classes, |s.slots|) && CallOk(config, classes, s.calls[i])
    ensures var s' := Pick(config, s, i, choice);
            x < |s'.trees| && (s'.trees[x].cls <= s.trees[x].cls || s'.trees[x].free == TREE_SIZE)
  {
    hide RequestOk, TreeSteal, TreeReserveOrSteal, CallOk, SlotAt, SlotsOf, Pow2, TreeOf, TreeOfRow, ConfigOk,
      Ordered, ReservedDec;
    var Choose(req, given, stage) := s.calls[i];
    CallClass(config, classes, |s.slots|, s.calls[i]);
    ClassesFall(s.trees[x], Frames(req), req.cls, config.policy, config.defaultClass);
  }

  lemma BeginFalls(config: Config, s: System, i: nat, client: Client, x: nat)
    requires i < |s.calls| == |s.low.threads| && x < |s.trees|
    ensures Begin(config, s, i, client).trees == s.trees
  {}

  /** The class that a get will report is not above the requested one. */
  ghost predicate Falls(c: Call)
    decreases c
  {
    match c
    case Start(req, _, _, _, from) => ClassOf(req, from) <= req.cls
    case Run(req, _, _, _, from) => ClassOf(req, from) <= req.cls
    case Swap(req, _, _, target) => target <= req.cls
    case Return(req, _, _, cls) => cls <= req.cls
    case PutBack(_, _, next) => Falls(next)
    case Unreserve(_, _, _, next) => Falls(next)
    case _ => true
  }

  ghost predicate AllFall(s: System)
  {
    forall i :: 0 <= i < |s.calls| ==> Falls(s.calls[i])
  }

  /** Every get of every run reports a class that is not above the requested one. */
  lemma {:induction false} RunFalls(config: Config, classes: set<nat>, run: seq<System>, carry: Carry, n: nat)
    requires SystemRun(config, run) && n < |run| && Good(config, classes, run[0], carry) && Ordered(config.policy) &&
             AllFall(run[0])
    ensures AllFall(run[n])
  {
    hide Good, Steps, AllFall, Ordered;
    if n > 0 {
      RunFalls(config, classes, run, carry, n - 1);
      var before := AccountsKept(config, classes, run, carry, n - 1);
      assert Steps(config, run[n - 1], run[n - 1 + 1]);
      SystemFalls(config, classes, run[n - 1], before, run[n]);
    }
  }

  lemma SystemFalls(config: Config, classes: set<nat>, s: System, carry: Carry, s': System)
    requires Good(config, classes, s, carry) && Steps(config, s, s') && Ordered(config.policy) && AllFall(s)
    ensures AllFall(s')
  {
    hide Good, Step, Pick, Begin, MayBegin, Falls, Ordered;
    Parts(config, classes, s, carry);
    if i :| 0 <= i < |s.calls| && s' == Step(config, s, i) {
      CallFalls(config, s, i);
    } else if i, choice :| 0 <= i < |s.calls| && s.calls[i].Choose? && s' == Pick(config, s, i, choice) {
      CallParts(config, classes, s, carry, i);
      ChoiceFalls(config, classes, s, i, choice);
    } else {
      var i, client :| 0 <= i < |s.calls| && MayBegin(config, s, i, client) && s' == Begin(config, s, i, client);
      ClientFalls(config, s, i, client);
    }
  }

  lemma CallFalls(config: Config, s: System, i: nat)
    requires i < |s.calls| == |s.low.threads| && Falls(s.calls[i])
    ensures var s' := Step(config, s, i); s'.calls == s.calls[i := s'.calls[i]] && Falls(s'.calls[i])
  {
    hide CL.Step, CL.Begin, TreePut, TreeUnreserve, SlotAt, SlotsOf, Pow2, TreeOf, TreeOfRow, NewReserved,
      RowFromTree, MovedStep, SwapStep, StartStep, ReservedDec, ReservedInc, TreeSyncSteal, ReservedSetStart,
      FilterOf;
    assert s.calls[i := s.calls[i]] == s.calls;
    var c := s.calls[i];
    if c.Moved? {
      MovedFalls(config, s, i, c.req, c.given, c.t, c.taken);
    } else if c.Swap? {
      SwapFalls(config, s, i, c.req, c.t, c.n, c.target);
    } else if c.Start? {
      StartFalls(config, s, i, c.req, c.given, c.t, c.n, c.from);
    }
  }

  lemma MovedFalls(config: Config, s: System, i: nat, req: Request, given: Option<nat>, t: nat, taken: Reserved)
    requires i < |s.calls|
    ensures var s' := MovedStep(config, s, i, req, given, t, taken);
            s'.calls == s.calls[i := s'.calls[i]] && Falls(s'.calls[i])
  {
    hide SlotAt, SlotsOf, Pow2, TreeOfRow;
    assert Falls(Start(req, given, t, Frames(req), ByDemote(taken.startRow)));
  }

  lemma SwapFalls(config: Config, s: System, i: nat, req: Request, t: nat, n: nat, target: nat)
    requires i < |s.calls| && target <= req.cls
    ensures var s' := SwapStep(config, s, i, req, t, n, target);
            s'.calls == s.calls[i := s'.calls[i]] && Falls(s'.calls[i])
  {
    hide SlotAt, SlotsOf, Pow2, TreeOfRow, NewReserved, RowFromTree;
    assert Falls(Return(req, t, Frames(req), target));
  }

  lemma StartFalls(config: Config, s: System, i: nat, req: Request, given: Option<nat>, t: nat, n: nat, from: From)
    requires i < |s.calls| == |s.low.threads| && ClassOf(req, from) <= req.cls
    ensures var s' := StartStep(config, s, i, req, given, t, n, from);
            s'.calls == s.calls[i := s'.calls[i]] && Falls(s'.calls[i])
  {
    hide CL.Begin, SlotAt, SlotsOf, Pow2, TreeOf;
    assert Falls(Rest) && Falls(AfterLocal(req, given));
  }

  lemma ChoiceFalls(config: Config, classes: set<nat>, s: System, i: nat, choice: Choice)
    requires i < |s.calls| && s.calls[i].Choose? && Ordered(config.policy)
    requires ConfigOk(config, classes, |s.slots|) && CallOk(config, classes, s.calls[i])
    ensures var s' := Pick(config, s, i, choice); s'.calls == s.calls[i := s'.calls[i]] && Falls(s'.calls[i])
  {
    hide RequestOk, TreeSteal, TreeReserveOrSteal, CallOk, SlotAt, SlotsOf, Pow2, TreeOf, TreeOfRow, ConfigOk,
      Ordered, ReservedDec;
    assert s.calls[i := s.calls[i]] == s.calls;
    var Choose(req, given, stage) := s.calls[i];
    CallClass(config, classes, |s.slots|, s.calls[i]);
    var idx := if stage.AtGiven? && given.Some? then TreeOf(given.value) else if choice.TryTree? then choice.idx else 0;
    if idx < |s.trees| {
      ClassesFall(s.trees[idx], Frames(req), req.cls, config.policy, config.defaultClass);
    }
    if choice.TrySlot? {
      KindIs(config.policy, req.cls, choice.cls, Frames(req));
    }
  }

  lemma KindIs(policy: PolicyFn, requested: nat, target: nat, free: nat)
    requires Ordered(policy)
    ensures var k := policy(requested, target, free).kind; k == Match || k == PolicyType.Steal ==> target <= requested
  {}

  lemma ClientFalls(config: Config, s: System, i: nat, client: Client)
    requires i < |s.calls| == |s.low.threads|
    ensures var s' := Begin(config, s, i, client); s'.calls == s.calls[i := s'.calls[i]] && Falls(s'.calls[i])
  {
    hide CL.Begin;
  }
}
