/** The steps that reach the lower level or choose a tree or slot, and whole runs. */
module ConcUpperRuns {
  import opened Base
  import opened Children
  import opened LowerSpec
  import opened LowerWhole
  import opened Policies
  import opened TreeEntries
  import opened Locals
  import opened Accounts
  import opened UpperSpec
  import opened UpperLemmas
  import opened ConcUpper
  import opened ConcCredit
  import opened ConcUpperProof
  import opened ConcUpperSteps
  import CL = ConcLower
  import CP = ConcProof
  import CW = ConcWritten

  // ---- allocations below ----

  /** Giving back frames, or frames and a reservation, before a call goes on that carries nothing. */
  lemma BackTo(config: Config, classes: set<nat>, t: nat, n: nat, cls: nat, next: Call, p: CL.Pc)
    requires (next.Choose? || next.Rest?) && CallOk(config, classes, next) && t < TreeCount(config.frames) && p.Idle?
    ensures var c := PutBack(t, n, next);
            && CallOk(config, classes, c) && LowOk(config, c, p)
            && forall x: nat :: Carries(c, x) == (if x == t then n else 0) && Tokens(c, x) == 0
    ensures var c := Unreserve(t, n, cls, next);
            && (cls in classes ==> CallOk(config, classes, c)) && LowOk(config, c, p)
            && forall x: nat :: Carries(c, x) == (if x == t then n else 0) && Tokens(c, x) == if x == t then 1 else 0
  {
    hide TreeCount, RequestOk;
    assert CallOk(config, classes, next) && LowOk(config, next, p);
    forall x: nat
      ensures Carries(PutBack(t, n, next), x) == (if x == t then n else 0) && Tokens(PutBack(t, n, next), x) == 0
      ensures Carries(Unreserve(t, n, cls, next), x) == (if x == t then n else 0)
      ensures Tokens(Unreserve(t, n, cls, next), x) == if x == t then 1 else 0
    {
      assert Carries(next, x) == 0 && Tokens(next, x) == 0;
    }
  }

  /** What an access to a tree took is given back, and the get goes on. */
  lemma GiveUpKeeps(config: Config, classes: set<nat>, s: System, carry: Carry, i: nat)
    requires Good(config, classes, s, carry) && i < |s.calls| == |s.low.threads| && s.low.threads[i].Idle?
    requires s.calls[i].Start? || s.calls[i].Run?
    ensures var c := s.calls[i]; Good(config, classes, SetCall(s, i, GiveUp(c.req, c.given, c.t, c.n, c.from)), carry)
  {
    hide Good, TreeCount, RequestOk, CL.ThreadOk, PcTree, PcOrder, Putting, CL.Getting, TreeOf, StartFrame, Pow2;
    CallParts(config, classes, s, carry, i);
    var c := s.calls[i];
    match c.from {
      case OwnSlot(_) => BackTo(config, classes, c.t, c.n, 0, AfterLocal(c.req, c.given), s.low.threads[i]);
      case ByReserve(target) => BackTo(config, classes, c.t, c.n, target, Choose(c.req, c.given, Searching),
                                       s.low.threads[i]);
      case BySteal(_, _) => BackTo(config, classes, c.t, c.n, 0, Choose(c.req, c.given, Searching), s.low.threads[i]);
      case OtherSlot(_, _) => BackTo(config, classes, c.t, c.n, 0, Choose(c.req, c.given, Demoting), s.low.threads[i]);
      case AtTree(_) => BackTo(config, classes, c.t, c.n, 0, Rest, s.low.threads[i]);
      case ByDemote(_) => BackTo(config, classes, c.t, c.n, 0, Rest, s.low.threads[i]);
    }
    GoesOn(config, classes, s, carry, i, GiveUp(c.req, c.given, c.t, c.n, c.from));
  }

  lemma StartKeeps(config: Config, classes: set<nat>, s: System, carry: Carry, i: nat) returns (carry': Carry)
    requires Good(config, classes, s, carry) && i < |s.calls| == |s.low.threads| && s.calls[i].Start?
    ensures Good(config, classes, Step(config, s, i), carry')
  {
    hide Good, TreeCount, RequestOk, CL.ThreadOk, PcTree, PcOrder, Putting, CL.Getting, TreeOf, StartFrame, Pow2,
      CL.Good, CL.Begin, CL.MayBegin, GiveUp, TreeCharge, SumOf;
    Parts(config, classes, s, carry);
    CallParts(config, classes, s, carry, i);
    var Start(req, given, t, n, from) := s.calls[i];
    if (from.ByReserve? || (from.BySteal? && from.checked)) && SlotsOf(config, from.target) == 0 {
      carry' := carry;
      GiveUpKeeps(config, classes, s, carry, i);
    } else {
      var call := if given.Some? then CL.GetGiven(given.value, req.order)
          else CL.GetNear(StartFrame(t, from), req.order);
      StartsBelow(config, classes, s.low, i, req, given, t, n, from);
      var low := CL.Begin(s.low, i, call);
      carry' := FinishLow(config, classes, s, carry, i, low, Run(req, given, t, n, from), low.threads[i]);
    }
  }

  /** The allocation below begins in the tree of the call, and owes nothing yet. */
  lemma StartsBelow(config: Config, classes: set<nat>, low: CL.State, i: nat, req: Request, given: Option<nat>,
                    t: nat, n: nat, from: From)
    requires CL.Good(config.frames, low) && i < |low.threads| && low.threads[i].Idle?
    requires FromOk(config, classes, req, given, t, n, from) && CalmOk(config, low)
    ensures var call := if given.Some? then CL.GetGiven(given.value, req.order)
            else CL.GetNear(StartFrame(t, from), req.order);
            var low' := CL.Begin(low, i, call);
            && CL.Good(config.frames, low') && CalmOk(config, low') && low'.m == low.m &&
               low'.threads == low.threads[i := low'.threads[i]]
            && CL.Getting(low'.threads[i]) && PcTree(low'.threads[i]) == t && PcOrder(low'.threads[i]) == req.order
            && forall x: nat :: TreeCharge(low'.threads[i], x) == 0 && TreeCharge(low.threads[i], x) == 0
  {
    hide CL.Good, TreeCount, StartFrame, Pow2, TreeOf, TreeCharge;
    var call := if given.Some? then CL.GetGiven(given.value, req.order) else CL.GetNear(StartFrame(t, from), req.order);
    RequestIs(config, classes, req, given);
    CP.BeginKeeps(config.frames, low, i, call);
    if config.undo.Written? {
      CW.CalmEnter(config.frames, low, i, call);
    }
    var low' := CL.Begin(low, i, call);
    forall x: nat
      ensures TreeCharge(low'.threads[i], x) == 0 && TreeCharge(low.threads[i], x) == 0
    {
      BeginOwesNothing(low.threads[i], x);
      BeginOwesNothing(low'.threads[i], x);
    }
  }

  lemma RequestIs(config: Config, classes: set<nat>, req: Request, given: Option<nat>)
    requires RequestOk(config, classes, req, given)
    ensures req.order <= TREE_ORDER && (given.Some? ==>
                                        Managed(config.frames, given.value, req.order) && given.value < config.frames)
    ensures req.cls in classes && req.cls < |config.slices| && config.slices[req.cls].len.Some?
  {}

  lemma BeginOwesNothing(p: CL.Pc, x: nat)
    requires p.Idle? || p.Dec? || (p.Whole? && p.j == 0)
    ensures TreeCharge(p, x) == 0
  {
    hide CL.FirstOf;
    NoneCharged(p, x * TREE_CHILDREN, TREE_CHILDREN);
  }

  /** Where the undo loops do not matter, a step is the same with both of them. */
  lemma SameStepBelow(config: Config, low: CL.State, i: nat)
    requires CL.Good(config.frames, low) && CalmOk(config, low) && i < |low.threads|
    ensures CL.StepBy(config.undo, low, i) == CL.Step(low, i) && CalmOk(config, CL.Step(low, i))
  {
    hide CL.Good, CW.Calm;
    if config.undo.Written? {
      CW.CalmStep(config.frames, low, i);
    }
  }

  /** A step below moves frames between the counters of one tree and the call. */
  lemma LowStep(config: Config, classes: set<nat>, s: System, carry: Carry, i: nat) returns (carry': Carry)
    requires Good(config, classes, s, carry) && i < |s.calls| == |s.low.threads|
    requires s.calls[i].Run? || s.calls[i].PutRun?
    requires CL.Getting(s.low.threads[i]) || Putting(s.low.threads[i])
    ensures Good(config, classes, s.(low := CL.StepBy(config.undo, s.low, i)), carry')
  {
    hide Good, TreeCount, RequestOk, FromOk, CL.ThreadOk, PcTree, PcOrder, TreeOf, Pow2, CL.Good, CL.GetStep,
      CL.PutStep, TreeCharge, SumOf;
    Parts(config, classes, s, carry);
    CallParts(config, classes, s, carry, i);
    SameStepBelow(config, s.low, i);
    CP.StepKeeps(config.frames, s.low, i);
    var low := CL.Step(s.low, i);
    var c := s.calls[i];
    StepStays(config.frames, s.low, i);
    forall x: nat | x < TreeCount(config.frames)
      ensures SumOf(low.m, x) + TreeCharge(low.threads[i], x) == SumOf(s.low.m, x) + TreeCharge(s.low.threads[i], x)
    {
      TreeConserves(config.frames, s.low, i, x);
    }
    assert s.calls[i := c] == s.calls;
    carry' := FinishLow(config, classes, s, carry, i, low, c, low.threads[i]);
  }

  lemma TreeConserves(frames: nat, low: CL.State, i: nat, x: nat)
    requires CL.Good(frames, low) && i < |low.threads| && !low.threads[i].Hand? && x < TreeCount(frames)
    ensures var low' := CL.Step(low, i);
            SumOf(low'.m, x) + TreeCharge(low'.threads[i], x) == SumOf(low.m, x) + TreeCharge(low.threads[i], x)
  {
    hide CL.Good, CL.Step, CL.Charge, ChargeRange, TreeCount, SumFree;
    TreeFits(frames, low, x);
    SumConserves(frames, low, i, x * TREE_CHILDREN, TREE_CHILDREN);
  }

  lemma TreeFits(frames: nat, low: CL.State, x: nat)
    requires CL.Good(frames, low) && x < TreeCount(frames)
    ensures x * TREE_CHILDREN + TREE_CHILDREN <= |low.m.children|
  {
    hide CL.Apart, CL.ChildInv, CL.ThreadOk, ChildCount;
    PaddedIs(frames);
    MulLe(x + 1, TreeCount(frames), TREE_CHILDREN);
    MulStep(x, TREE_CHILDREN);
  }

  lemma AllocationKeeps(config: Config, classes: set<nat>, s: System, carry: Carry, i: nat) returns (carry': Carry)
    requires Good(config, classes, s, carry) && i < |s.calls| == |s.low.threads| && s.calls[i].Run?
    ensures Good(config, classes, Step(config, s, i), carry')
  {
    hide Good, TreeCount, CL.ThreadOk, TreeOf, StartFrame, Pow2, CL.Good, CL.Step, GiveUp, PcTree, TreeCharge,
      Accepts;
    Parts(config, classes, s, carry);
    CallParts(config, classes, s, carry, i);
    var Run(req, given, t, n, from) := s.calls[i];
    var p := s.low.threads[i];
    carry' := carry;
    if p.Idle? {
      GiveUpKeeps(config, classes, s, carry, i);
    } else if p.Hand? {
      InClasses(config, classes, req, given);
      GoesOn(config, classes, s, carry, i,
             if from.ByReserve? then Swap(req, t, n, from.target)
             else if from.OwnSlot? && from.row != p.frame / 64 then SetStart(req, t, p.frame)
             else Return(req, t, n, ClassOf(req, from)));
    } else {
      carry' := LowStep(config, classes, s, carry, i);
    }
  }

  lemma PutRunKeeps(config: Config, classes: set<nat>, s: System, carry: Carry, i: nat) returns (carry': Carry)
    requires Good(config, classes, s, carry) && i < |s.calls| == |s.low.threads| && s.calls[i].PutRun?
    ensures Good(config, classes, Step(config, s, i), carry')
  {
    hide Good, TreeCount, CL.ThreadOk, TreeOf, Pow2, CL.Good, CL.Step, PcTree, TreeCharge, RequestOk;
    Parts(config, classes, s, carry);
    CallParts(config, classes, s, carry, i);
    var PutRun(req, frame) := s.calls[i];
    var p := s.low.threads[i];
    RequestIs(config, classes, req, Some(frame));
    TreeBelow(config.frames, frame);
    InClasses(config, classes, req, Some(frame));
    carry' := carry;
    if p.Idle? {
      BackTo(config, classes, TreeOf(frame), Frames(req), 0, Rest, p);
      GoesOn(config, classes, s, carry, i,
             if req.local.Some? then PutSlot(req, TreeOf(frame), Frames(req))
                 else PutBack(TreeOf(frame), Frames(req), Rest));
    } else if p.Hand? {
      GoesOn(config, classes, s, carry, i, Return(req, TreeOf(frame), Frames(req), req.cls));
    } else {
      carry' := LowStep(config, classes, s, carry, i);
    }
  }

  /** The block is handed over: the call carries nothing any more. */
  lemma ReturnKeeps(config: Config, classes: set<nat>, s: System, carry: Carry, i: nat) returns (carry': Carry)
    requires Good(config, classes, s, carry) && i < |s.calls| == |s.low.threads| && s.calls[i].Return?
    ensures Good(config, classes, Step(config, s, i), carry')
  {
    hide Good, TreeCount, CL.ThreadOk, TreeOf, Pow2, CL.Good, PcTree, TreeCharge, SumOf;
    Parts(config, classes, s, carry);
    CallParts(config, classes, s, carry, i);
    SameStepBelow(config, s.low, i);
    CP.StepKeeps(config.frames, s.low, i);
    var low := CL.Step(s.low, i);
    forall x: nat | x < TreeCount(config.frames)
      ensures Credit(Rest, low.threads[i], x) == 0 && Credit(s.calls[i], s.low.threads[i], x) == 0
    {
      HandOwes(config, s, i, x);
      BeginOwesNothing(low.threads[i], x);
    }
    carry' := FinishLow(config, classes, s, carry, i, low, Rest, low.threads[i]);
  }

  // ---- choices ----

  lemma PickGivenKeeps(config: Config, classes: set<nat>, s: System, carry: Carry, i: nat) returns (carry': Carry)
    requires Good(config, classes, s, carry) && i < |s.calls| == |s.low.threads|
    requires s.calls[i].Choose? && s.calls[i].stage.AtGiven?
    ensures var c := s.calls[i];
            c.given.Some? && Good(config, classes, PickGiven(config, s, i, c.req, c.given.value), carry')
  {
    hide Good, TreeCount, TreeAccount, Account, RowsOk, TreeOf, ConfigOk, CL.ThreadOk, Pow2, RequestOk, FromOk,
      TreeSteal;
    Parts(config, classes, s, carry);
    CallParts(config, classes, s, carry, i);
    var Choose(req, given, stage) := s.calls[i];
    RequestClass(config, classes, |s.slots|, req, given);
    RequestIs(config, classes, req, given);
    TreeBelow(config.frames, given.value);
    var t := TreeOf(given.value);
    match TreeSteal(s.trees[t], Frames(req), req.cls, config.policy)
    case Some(stolen) =>
      StealFromTree(BelowSum(config, s.low.m), Upper(s.trees, s.slots), carry, {}, classes, t, Frames(req), req.cls,
                    config.policy);
      StolenClass(config, classes, s, carry, t, Frames(req), req.cls);
      carry' := carry.Add(t, Frames(req));
      Starts(config, classes, |s.slots|, req, given, t, Frames(req), AtTree(stolen.cls));
      Finish(config, classes, s, carry, i, PickGiven(config, s, i, req, given.value),
             Start(req, given, t, Frames(req), AtTree(stolen.cls)), carry');
    case None =>
      carry' := carry;
      GoesOn(config, classes, s, carry, i, Choose(req, given, Slots));
  }

  /** Accesses are reported with the class of the request or of the tree. */
  lemma StolenClass(config: Config, classes: set<nat>, s: System, carry: Carry, t: nat, n: nat, cls: nat)
    requires Good(config, classes, s, carry) && t < |s.trees| && cls in classes
    ensures var a := TreeSteal(s.trees[t], n, cls, config.policy); a.Some? ==> a.value.cls in classes
    ensures var a := TreeReserveOrSteal(s.trees[t], n, config.policy, cls);
            a.Some? ==> a.value.cls in classes && n <= s.trees[t].free
  {
    hide Good, Account, TreeSteal, TreeReserveOrSteal, TreeCount;
    Parts(config, classes, s, carry);
    DefaultOk(config, classes, |s.slots|);
    ClassKnown(BelowSum(config, s.low.m), Upper(s.trees, s.slots), carry, {}, classes, t);
    AccessOrdered(s.trees[t], n, cls, config.policy);
  }

  lemma PickTreeKeeps(config: Config, classes: set<nat>, s: System, carry: Carry, i: nat, idx: nat)
      returns (carry': Carry)
    requires Good(config, classes, s, carry) && i < |s.calls| == |s.low.threads|
    requires s.calls[i].Choose? && s.calls[i].stage.Searching?
    ensures var c := s.calls[i]; Good(config, classes, PickTree(config, s, i, c.req, c.given, idx), carry')
  {
    hide Good, TreeCount, TreeAccount, Account, RowsOk, TreeOf, ConfigOk, CL.ThreadOk, Pow2, RequestOk, FromOk,
      TreeSteal, TreeReserveOrSteal;
    Parts(config, classes, s, carry);
    CallParts(config, classes, s, carry, i);
    var Choose(req, given, stage) := s.calls[i];
    var n, below, u := Frames(req), BelowSum(config, s.low.m), Upper(s.trees, s.slots);
    RequestClass(config, classes, |s.slots|, req, given);
    InClasses(config, classes, req, given);
    carry' := carry;
    if idx < |s.trees| {
      StolenClass(config, classes, s, carry, idx, n, req.cls);
      if UsesSlot(config, req, |s.trees|) {
        match TreeReserveOrSteal(s.trees[idx], n, config.policy, req.cls)
        case Some(a) =>
          AccessTree(below, u, carry, {}, classes, idx, n, config.policy, req.cls);
          var taken := if a.reserved then s.trees[idx].free else n;
          var from := if a.reserved then ByReserve(a.cls) else BySteal(a.cls, true);
          Starts(config, classes, |s.slots|, req, given, idx, taken, from);
          carry' := if a.reserved then carry.Add(idx, taken).Grab(idx) else carry.Add(idx, taken);
          Finish(config, classes, s, carry, i, PickTree(config, s, i, req, given, idx),
                 Start(req, given, idx, taken, from), carry');
        case None =>
      } else {
        match TreeSteal(s.trees[idx], n, req.cls, config.policy)
        case Some(stolen) =>
          StealFromTree(below, u, carry, {}, classes, idx, n, req.cls, config.policy);
          var from := BySteal(stolen.cls, false);
          Starts(config, classes, |s.slots|, req, given, idx, n, from);
          carry' := carry.Add(idx, n);
          Finish(config, classes, s, carry, i, PickTree(config, s, i, req, given, idx),
                 Start(req, given, idx, n, from), carry');
        case None =>
      }
    }
  }

  lemma PickSlotKeeps(config: Config, classes: set<nat>, s: System, carry: Carry, i: nat, cls: nat, index: nat)
      returns (carry': Carry)
    requires Good(config, classes, s, carry) && i < |s.calls| == |s.low.threads|
    requires s.calls[i].Choose? && s.calls[i].stage.Slots?
    ensures var c := s.calls[i]; Good(config, classes, PickSlot(config, s, i, c.req, c.given, cls, index), carry')
  {
    hide Good, TreeCount, TreeAccount, Account, RowsOk, TreeOf, TreeOfRow, ConfigOk, CL.ThreadOk, Pow2, RequestOk,
      FromOk;
    Parts(config, classes, s, carry);
    CallParts(config, classes, s, carry, i);
    var Choose(req, given, stage) := s.calls[i];
    var n, at := Frames(req), SlotAt(config, cls, index);
    carry' := carry;
    if cls < |config.slices| && index < SlotsOf(config, cls) && at < |s.slots| {
      SlotInside(config, classes, |s.slots|, cls, index);
      var kind := config.policy(req.cls, cls, n).kind;
      match ReservedDec(s.slots[at], FilterOf(given), n)
      case Some(r) =>
        if kind == Match || kind == PolicyType.Steal {
          TakeFromSlot(BelowSum(config, s.low.m), Upper(s.trees, s.slots), carry, {}, classes, at, FilterOf(given), n);
          FromSlot(config, classes, s, carry, at);
          SameRows(config, s.slots, at, r);
          var t := TreeOfRow(r.startRow);
          Starts(config, classes, |s.slots|, req, given, t, n, OtherSlot(cls, r.startRow));
          carry' := carry.Add(t, n);
          Finish(config, classes, s, carry, i, PickSlot(config, s, i, req, given, cls, index),
                 Start(req, given, t, n, OtherSlot(cls, r.startRow)), carry');
        }
      case None =>
    }
  }

  lemma PickDemoteKeeps(config: Config, classes: set<nat>, s: System, carry: Carry, i: nat, cls: nat, index: nat)
      returns (carry': Carry)
    requires Good(config, classes, s, carry) && i < |s.calls| == |s.low.threads|
    requires s.calls[i].Choose? && s.calls[i].stage.Demoting?
    ensures var c := s.calls[i]; Good(config, classes, PickDemote(config, s, i, c.req, c.given, cls, index), carry')
  {
    hide Good, TreeCount, TreeAccount, Account, RowsOk, TreeOf, TreeOfRow, ConfigOk, CL.ThreadOk, Pow2, RequestOk,
      FromOk;
    Parts(config, classes, s, carry);
    CallParts(config, classes, s, carry, i);
    var Choose(req, given, stage) := s.calls[i];
    var n, at := Frames(req), SlotAt(config, cls, index);
    carry' := carry;
    if cls < |config.slices| && cls != req.cls && index < SlotsOf(config, cls) && at < |s.slots| {
      match ReservedDec(s.slots[at], FilterOf(given), n)
      case Some(r) =>
        if config.policy(req.cls, cls, n).kind == Demote {
          EmptySlot(BelowSum(config, s.low.m), Upper(s.trees, s.slots), carry, {}, classes, at);
          FromSlot(config, classes, s, carry, at);
          SameRows(config, s.slots, at, EMPTY);
          var t := TreeOfRow(r.startRow);
          carry' := Released(carry, s.slots[at]);
          Finish(config, classes, s, carry, i, PickDemote(config, s, i, req, given, cls, index),
                 Moved(req, given, t, r), carry');
        }
      case None =>
    }
  }

  lemma PickKeeps(config: Config, classes: set<nat>, s: System, carry: Carry, i: nat, choice: Choice)
      returns (carry': Carry)
    requires Good(config, classes, s, carry) && i < |s.calls| == |s.low.threads| && s.calls[i].Choose?
    ensures Good(config, classes, Pick(config, s, i, choice), carry')
  {
    hide Good, TreeCount, RequestOk, PickGiven, PickTree, PickSlot, PickDemote, CL.ThreadOk;
    CallParts(config, classes, s, carry, i);
    var Choose(req, given, stage) := s.calls[i];
    carry' := carry;
    match stage {
      case AtGiven => carry' := PickGivenKeeps(config, classes, s, carry, i);
      case Searching =>
        match choice {
          case TryTree(idx) => carry' := PickTreeKeeps(config, classes, s, carry, i, idx);
          case TrySlot(_, _) =>
          case Onward => GoesOn(config, classes, s, carry, i, Choose(req, given, Slots));
        }
      case Slots =>
        match choice {
          case TrySlot(cls, index) => carry' := PickSlotKeeps(config, classes, s, carry, i, cls, index);
          case TryTree(_) =>
          case Onward => GoesOn(config, classes, s, carry, i, Choose(req, given, Demoting));
        }
      case Demoting =>
        match choice {
          case TrySlot(cls, index) => carry' := PickDemoteKeeps(config, classes, s, carry, i, cls, index);
          case TryTree(_) =>
          case Onward => GoesOn(config, classes, s, carry, i, Rest);
        }
    }
  }

  // ---- beginning a call ----

  lemma BeginKeeps(config: Config, classes: set<nat>, s: System, carry: Carry, i: nat, client: Client)
      returns (carry': Carry)
    requires Good(config, classes, s, carry) && |s.calls| == |s.low.threads| && MayBegin(config, s, i, client)
    ensures Good(config, classes, Begin(config, s, i, client), carry')
  {
    hide Good, TreeCount, RequestOk, CL.ThreadOk, ConfigOk, Accepts, CL.MayBegin, CL.Begin, TreeOf, Pow2;
    CallParts(config, classes, s, carry, i);
    Parts(config, classes, s, carry);
    match client
    case Get(req, given) =>
      AcceptedOk(config, classes, |s.slots|, req, given);
      carry' := carry;
      GoesOn(config, classes, s, carry, i,
             if given.Some? && req.local.Some? then FromLocal(req, given, true)
             else if given.None? && UsesSlot(config, req, |s.trees|) then FromLocal(req, given, true)
             else AfterLocal(req, given));
    case Put(req, frame) =>
      AcceptedOk(config, classes, |s.slots|, req, Some(frame));
      carry' := BeginPut(config, classes, s, carry, i, req, frame);
    case DrainSlot(cls, index) => carry' := BeginDrain(config, classes, s, carry, i, cls, index);
  }

  lemma AcceptedOk(config: Config, classes: set<nat>, slots: nat, req: Request, given: Option<nat>)
    requires ConfigOk(config, classes, slots) && Accepts(config, req, given)
    ensures RequestOk(config, classes, req, given)
  {}

  lemma BeginPut(config: Config, classes: set<nat>, s: System, carry: Carry, i: nat, req: Request, frame: nat)
      returns (carry': Carry)
    requires Good(config, classes, s, carry) && i < |s.calls| == |s.low.threads| && s.calls[i].Rest?
    requires RequestOk(config, classes, req, Some(frame)) &&
             CL.MayBegin(config.frames, s.low, i, CL.PutBlock(frame, req.order))
    requires config.undo.Written? ==> CW.Careful(s.low, CL.PutBlock(frame, req.order))
    ensures Good(config, classes,
                 SetCall(s.(low := CL.Begin(s.low, i, CL.PutBlock(frame, req.order))), i, PutRun(req, frame)), carry')
  {
    hide Good, TreeCount, RequestOk, CL.ThreadOk, TreeOf, Pow2, CL.Good, TreeCharge, SumOf, AllAre, Block;
    Parts(config, classes, s, carry);
    var low := CL.Begin(s.low, i, CL.PutBlock(frame, req.order));
    CP.BeginKeeps(config.frames, s.low, i, CL.PutBlock(frame, req.order));
    if config.undo.Written? {
      CW.CalmEnter(config.frames, s.low, i, CL.PutBlock(frame, req.order));
    }
    CP.Facts(config.frames, low, i);
    var q := low.threads[i];
    forall x: nat
      ensures TreeCharge(s.low.threads[i], x) == 0
      ensures TreeCharge(q, x) == if x == TreeOf(frame) then Frames(req) else 0
    {
      BeginOwesNothing(s.low.threads[i], x);
      if q.Load? {
        BlockTreeCharge(config.frames, low.m, q, x);
      } else {
        FreeWholeCharge(config.frames, low.m, q, x);
      }
    }
    carry' := FinishLow(config, classes, s, carry, i, low, PutRun(req, frame), q);
  }

  lemma BeginDrain(config: Config, classes: set<nat>, s: System, carry: Carry, i: nat, cls: nat, index: nat)
      returns (carry': Carry)
    requires Good(config, classes, s, carry) && i < |s.calls| == |s.low.threads| && s.calls[i].Rest? &&
             index < SlotsOf(config, cls)
    ensures Good(config, classes, Begin(config, s, i, DrainSlot(cls, index)), carry')
  {
    hide Good, TreeCount, TreeAccount, Account, RowsOk, TreeOfRow, ConfigOk, CL.ThreadOk, SlotsOf, SlotAt;
    Parts(config, classes, s, carry);
    CallParts(config, classes, s, carry, i);
    SlotInside(config, classes, |s.slots|, cls, index);
    var at := SlotAt(config, cls, index);
    var prev := s.slots[at];
    EmptySlot(BelowSum(config, s.low.m), Upper(s.trees, s.slots), carry, {}, classes, at);
    SameRows(config, s.slots, at, EMPTY);
    carry' := Released(carry, prev);
    Finish(config, classes, s, carry, i, Begin(config, s, i, DrainSlot(cls, index)),
           if prev.present then Unreserve(TreeOfRow(prev.startRow), prev.free, cls, Rest) else Rest, carry');
  }

  // ---- all steps and whole runs ----

  lemma StepKeeps(config: Config, classes: set<nat>, s: System, carry: Carry, i: nat) returns (carry': Carry)
    requires Good(config, classes, s, carry) && i < |s.calls| == |s.low.threads|
    ensures Good(config, classes, Step(config, s, i), carry')
  {
    hide Good, CL.Step, LocalStep, SyncStep, SyncPutStep, StartStep, RunStep, SwapStep, SetStartStep, PutBackStep,
      UnreserveStep, MovedStep, PutRunStep, PutSlotStep;
    match s.calls[i]
    case Rest => carry' := carry;
    case FromLocal(_, _, _) => carry' := LocalKeeps(config, classes, s, carry, i);
    case Sync(_, _, _, _) => carry' := SyncKeeps(config, classes, s, carry, i);
    case SyncPut(_, _, _, _) => carry' := SyncPutKeeps(config, classes, s, carry, i);
    case Choose(_, _, _) => carry' := carry;
    case Start(_, _, _, _, _) => carry' := StartKeeps(config, classes, s, carry, i);
    case Run(_, _, _, _, _) => carry' := AllocationKeeps(config, classes, s, carry, i);
    case Swap(_, _, _, _) => carry' := SwapKeeps(config, classes, s, carry, i);
    case SetStart(_, _, _) => carry' := SetStartKeeps(config, classes, s, carry, i);
    case Return(_, _, _, _) => carry' := ReturnKeeps(config, classes, s, carry, i);
    case PutBack(_, _, _) => carry' := PutBackKeeps(config, classes, s, carry, i);
    case Unreserve(_, _, _, _) => carry' := UnreserveKeeps(config, classes, s, carry, i);
    case Moved(_, _, _, _) => carry' := MovedKeeps(config, classes, s, carry, i);
    case PutRun(_, _) => carry' := PutRunKeeps(config, classes, s, carry, i);
    case PutSlot(_, _, _) => carry' := PutSlotKeeps(config, classes, s, carry, i);
    case Broken => carry' := carry;
  }

  lemma SystemKeeps(config: Config, classes: set<nat>, s: System, carry: Carry, s': System) returns (carry': Carry)
    requires Good(config, classes, s, carry) && Steps(config, s, s')
    ensures Good(config, classes, s', carry')
  {
    hide Good, Step, Pick, Begin, MayBegin;
    if i :| 0 <= i < |s.calls| && s' == Step(config, s, i) {
      carry' := StepKeeps(config, classes, s, carry, i);
    } else if i, choice :| 0 <= i < |s.calls| && s.calls[i].Choose? && s' == Pick(config, s, i, choice) {
      carry' := PickKeeps(config, classes, s, carry, i, choice);
    } else {
      var i, client :| 0 <= i < |s.calls| && MayBegin(config, s, i, client) && s' == Begin(config, s, i, client);
      carry' := BeginKeeps(config, classes, s, carry, i, client);
    }
  }
}
