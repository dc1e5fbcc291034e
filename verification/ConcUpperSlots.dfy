/** The other parts of a get of the whole allocator that runs while all other calls rest: a given block, frames stolen
    from the slot of another class, and a slot that is demoted. */
module ConcUpperSlots {
  import opened Base
  import opened LowerSpec
  import opened LowerWhole
  import opened Policies
  import opened TreeEntries
  import opened Locals
  import opened Accounts
  import opened UpperSpec
  import opened UpperLemmas
  import opened ConcUpper
  import opened ConcUpperProof
  import opened ConcUpperRuns
  import opened ConcUpperTheorems
  import opened ConcLone
  import opened ConcSearch
  import opened ConcUpperLone
  import opened ConcUpperServes

  // ---- slots of other classes ----

  /** The slot `index` of class `cls` has the frames, and the policy allows what `stage` does. */
  predicate Allowed(config: Config, s: System, req: Request, given: Option<nat>, stage: Stage, cls: nat, index: nat)
  {
    var at := SlotAt(config, cls, index);
    && cls < |config.slices| && index < SlotsOf(config, cls) && at < |s.slots|
    && ReservedDec(s.slots[at], FilterOf(given), Frames(req)).Some?
    && var kind := config.policy(req.cls, cls, Frames(req)).kind;
       match stage
       case Slots => kind == Match || kind == PolicyType.Steal
       case Demoting => cls != req.cls && kind == Demote
       case _ => false
  }

  /** An attempt on tree `t` whose frames were taken from a slot, which left `u`: it took a block, or the entry of the
      tree gets the frames and the call goes on as `next`. */
  ghost predicate TriedFrames(config: Config, u: Upper, s: System, s': System, i: nat, t: nat, req: Request,
                              given: Option<nat>, next: Call)
    requires i < |s.calls|
  {
    || (exists f: nat {:trigger Suits(config.frames, Asked(req, given, t), f)} ::
          TookAt(config, s, s', i, Asked(req, given, t), f, u))
    || (t < |u.trees| && Kept(config, s, s', i, Asked(req, given, t), next,
                              Upper(u.trees[t := TreePut(u.trees[t], Frames(req), config.policy, config.defaultClass)],
                                    u.slots)))
  }

  /** What an attempt says about the state `s` before the frames were taken. */
  lemma AttemptFrom(config: Config, s: System, s1: System, s': System, i: nat)
    requires i < |s.calls| == |s1.calls| && s1.calls[i].Start? && s1.low == s.low
    requires s1.calls == s.calls[i := s1.calls[i]] && !s1.calls[i].from.OwnSlot? && !s1.calls[i].from.ByReserve?
    requires !s1.calls[i].from.BySteal?
    requires Unserved(config, s1, s', i) || exists f :: Served(config, s1, s', i, f)
    ensures var Start(req, given, t, n, from) := s1.calls[i];
            n == Frames(req) ==>
              TriedFrames(config, Upper(s1.trees, s1.slots), s, s', i, t, req, given,
                          GiveUp(req, given, t, n, from).next)
  {
    hide Pow2, Suits, NothingFor, Unheld, Block, TreePut, AfterLocal;
    var Start(req, given, t, n, from) := s1.calls[i];
    var next := GiveUp(req, given, t, n, from).next;
    assert s1.calls[i := Rest] == s.calls[i := Rest] && s1.calls[i := next] == s.calls[i := next];
    var u, w := Upper(s1.trees, s1.slots), Asked(req, given, t);
    if f: nat :| Served(config, s1, s', i, f) {
      assert Suits(config.frames, w, f) && TookAt(config, s, s', i, w, f, u);
    } else if n == Frames(req) {
      assert Kept(config, s, s', i, w, next,
                  Upper(u.trees[t := TreePut(u.trees[t], Frames(req), config.policy, config.defaultClass)], u.slots));
    }
  }

  /** Frames are stolen from a slot of another class, and the slot keeps its tree. */
  lemma StealEnds(config: Config, classes: set<nat>, s: System, carry: Carry, i: nat, req: Request,
                  given: Option<nat>, cls: nat, index: nat) returns (n: nat, carry': Carry)
    requires Only(config, classes, s, carry, i) && s.calls[i] == Choose(req, given, Slots)
    requires Allowed(config, s, req, given, Slots, cls, index)
    ensures var at := SlotAt(config, cls, index);
            var r := ReservedDec(s.slots[at], FilterOf(given), Frames(req)).value;
            var s' := Alone(config, Pick(config, s, i, TrySlot(cls, index)), i, n);
            && Only(config, classes, s', carry', i)
            && TriedFrames(config, Upper(s.trees, s.slots[at := r]), s, s', i, TreeOfRow(r.startRow), req, given,
                           Choose(req, given, Demoting))
  {
    hide Good, Pow2, SlotAt, SlotsOf, TreeOfRow, TriedFrames, Unserved, Served, ReservedDec;
    carry' := PickKeeps(config, classes, s, carry, i, TrySlot(cls, index));
    var s1 := Pick(config, s, i, TrySlot(cls, index));
    n, carry' := AttemptEnds(config, classes, s1, carry', i);
    AttemptFrom(config, s, s1, Alone(config, s1, i, n), i);
  }

  /** Entries and slots after the tree of slot `at` was demoted, with `r` what is left of it: it moved into the slot of
      the request, whose tree was given up, or was given up itself. */
  ghost predicate Demoted(config: Config, u: Upper, after: Upper, req: Request, at: nat, r: Reserved)
    requires at < |u.slots|
  {
    var slots := u.slots[at := EMPTY];
    if req.local.Some? then
      var own := OwnAt(config, req, req.cls);
      && own < |slots| && after.slots == slots[own := r]
      && LetGo(config, u.trees, after.trees, slots[own], req.cls)
    else after.slots == slots && LetGo(config, u.trees, after.trees, r, req.cls)
  }

  /** Moves a demoted tree. */
  lemma MovedEnds(config: Config, classes: set<nat>, s: System, carry: Carry, i: nat) returns (n: nat, carry': Carry)
    requires Only(config, classes, s, carry, i) && s.calls[i].Moved?
    ensures var Moved(req, given, t, taken) := s.calls[i];
            var s', own := Alone(config, s, i, n), OwnAt(config, req, req.cls);
            && Only(config, classes, s', carry', i) && s'.low == s.low
            && s'.calls == s.calls[i := Start(req, given, t, Frames(req), ByDemote(taken.startRow))]
            && (if req.local.Some? then
                  own < |s.slots| && s'.slots == s.slots[own := taken] &&
                  LetGo(config, s.trees, s'.trees, s.slots[own], req.cls)
                else s'.slots == s.slots && LetGo(config, s.trees, s'.trees, taken, req.cls))
  {
    hide Good, Pow2, SlotAt, TreeOfRow, TreeUnreserve;
    CallParts(config, classes, s, carry, i);
    carry' := OnlyStep(config, classes, s, carry, i);
    AloneNext(config, s, i, 0);
    n := 1;
    var s1 := Step(config, s, i);
    if s1.calls[i].Unreserve? {
      carry' := GivesUp(config, classes, s1, carry', i);
      AloneNext(config, s1, i, 0);
      AloneNext(config, s, i, 1);
      n := 2;
    }
  }

  /** A slot of a class that is demoted gives its tree to the request. */
  lemma DemoteEnds(config: Config, classes: set<nat>, s: System, carry: Carry, i: nat, req: Request,
                   given: Option<nat>, cls: nat, index: nat) returns (n: nat, mid: Upper, carry': Carry)
    requires Only(config, classes, s, carry, i) && s.calls[i] == Choose(req, given, Demoting)
    requires Allowed(config, s, req, given, Demoting, cls, index)
    ensures var at := SlotAt(config, cls, index);
            var r := ReservedDec(s.slots[at], FilterOf(given), Frames(req)).value;
            var s' := Alone(config, Pick(config, s, i, TrySlot(cls, index)), i, n);
            && Only(config, classes, s', carry', i)
            && Demoted(config, Upper(s.trees, s.slots), mid, req, at, r)
            && TriedFrames(config, mid, s, s', i, TreeOfRow(r.startRow), req, given, Rest)
  {
    hide Good, Pow2, SlotAt, SlotsOf, TreeOfRow, TriedFrames, Unserved, Served, ReservedDec, LetGo, Step;
    carry' := PickKeeps(config, classes, s, carry, i, TrySlot(cls, index));
    var s1 := Pick(config, s, i, TrySlot(cls, index));
    n, carry' := MovedEnds(config, classes, s1, carry', i);
    var s2 := Alone(config, s1, i, n);
    mid := Upper(s2.trees, s2.slots);
    var m;
    m, carry' := AttemptEnds(config, classes, s2, carry', i);
    AttemptFrom(config, s, s2, Alone(config, s2, i, m), i);
    AloneMore(config, s1, i, n, m);
    n := n + m;
  }

  // ---- a given block ----

  /** The access to the entry of a given block's tree. */
  lemma GivenPick(config: Config, s: System, i: nat, req: Request, frame: nat, choice: Choice)
    requires i < |s.calls| && s.calls[i] == Choose(req, Some(frame), AtGiven) && TreeOf(frame) < |s.trees|
    ensures var t := TreeOf(frame);
            var stolen := TreeSteal(s.trees[t], Frames(req), req.cls, config.policy);
            Pick(config, s, i, choice) ==
            if stolen.None? then s.(calls := s.calls[i := Choose(req, Some(frame), Slots)])
            else s.(trees := s.trees[t := stolen.value.tree],
                    calls := s.calls[i := Start(req, Some(frame), t, Frames(req), AtTree(stolen.value.cls))])
  {
    hide Pow2, TreeSteal, TreeOf;
  }

  lemma GivenBegins(config: Config, classes: set<nat>, s: System, carry: Carry, i: nat, req: Request, frame: nat)
    returns (n: nat, carry': Carry)
    requires AtRest(s) && Good(config, classes, s, carry) && NoSlots(s)
    requires MayBegin(config, s, i, Get(req, Some(frame)))
    ensures i < |s.calls| == |s.low.threads|
    ensures var s' := Alone(config, Begin(config, s, i, Get(req, Some(frame))), i, n);
            Only(config, classes, s', carry', i) && s' == s.(calls := s.calls[i := Choose(req, Some(frame), AtGiven)])
  {
    hide Good, Pow2, Accepts, UsesSlot, SlotAt, TreePut, Unheld, NothingFor, Suits;
    carry' := ConcUpperRuns.BeginKeeps(config, classes, s, carry, i, Get(req, Some(frame)));
    var b := Begin(config, s, i, Get(req, Some(frame)));
    n := 0;
    assert Alone(config, b, i, 0) == b;
    if b.calls[i].FromLocal? {
      n, carry' := LocalEnds(config, classes, b, carry', i);
      assert b.calls[i := AfterLocal(req, Some(frame))] == s.calls[i := AfterLocal(req, Some(frame))];
    }
  }

  /** While all other calls rest and no slot is in use, a given block is taken exactly if it is free. */
  lemma LoneGivenServes(config: Config, classes: set<nat>, s: System, i: nat, req: Request, frame: nat, choice: Choice)
    returns (n: nat, m: nat, carry': Carry)
    requires AtRest(s) && Good(config, classes, s, NoCarry(TreeCount(config.frames))) && NoSlots(s)
    requires MayBegin(config, s, i, Get(req, Some(frame))) && Ordered(config.policy)
    ensures i < |s.calls| == |s.low.threads|
    ensures var s1 := Alone(config, Begin(config, s, i, Get(req, Some(frame))), i, n);
            && i < |s1.calls| && s1.calls[i] == Choose(req, Some(frame), AtGiven)
            && var s' := Alone(config, Pick(config, s1, i, choice), i, m);
               && Only(config, classes, s', carry', i)
               && if Block(frame, Frames(req)) <= LowerSpec.Free(config.frames, s.low.m)
                  then AtRest(s') && LowerSpec.Inv(config.frames, s'.low.m) &&
                       LowerSpec.Free(config.frames, s'.low.m) ==
                         LowerSpec.Free(config.frames, s.low.m) - Block(frame, Frames(req))
                  else s'.low.held == s.low.held &&
                       (s'.calls[i].Rest? || s'.calls[i] == Choose(req, Some(frame), Slots))
  {
    hide Good, Pow2, Block, Ordered, LowerSpec.Inv, LowerSpec.Free, TreeCount, NoSlots, AtRest, TriedFrames,
      Unserved, Served, TreeSteal, MayBegin, Begin, Pick;
    n, carry' := GivenBegins(config, classes, s, NoCarry(TreeCount(config.frames)), i, req, frame);
    var s1 := Alone(config, Begin(config, s, i, Get(req, Some(frame))), i, n);
    GivenFits(config, classes, s, i, req, frame);
    GivenPick(config, s1, i, req, frame, choice);
    carry' := PickKeeps(config, classes, s1, carry', i, choice);
    var s2 := Pick(config, s1, i, choice);
    m := 0;
    assert Alone(config, s2, i, 0) == s2;
    if s2.calls[i].Start? {
      m, carry' := AttemptEnds(config, classes, s2, carry', i);
      AttemptFrom(config, s, s2, Alone(config, s2, i, m), i);
      GivenTried(config, classes, s, Upper(s2.trees, s2.slots), Alone(config, s2, i, m), carry', i, req, frame);
    }
  }

  /** The tree of a given block that is free has enough frames. */
  lemma GivenFits(config: Config, classes: set<nat>, s: System, i: nat, req: Request, frame: nat)
    requires AtRest(s) && Good(config, classes, s, NoCarry(TreeCount(config.frames))) && NoSlots(s)
    requires MayBegin(config, s, i, Get(req, Some(frame))) && Ordered(config.policy)
    ensures TreeOf(frame) < |s.trees| && Managed(config.frames, frame, req.order)
    ensures Block(frame, Frames(req)) <= LowerSpec.Free(config.frames, s.low.m) ==>
              TreeSteal(s.trees[TreeOf(frame)], Frames(req), req.cls, config.policy).Some?
  {
    hide Good, Pow2, Block, Ordered, LowerSpec.Free, TreeCount, NoSlots, TreeOf, FreeOfTree, TreeSteal, AtRest;
    BlockInTree(config.frames, frame, req.order);
    EntriesExact(config, classes, s, TreeOf(frame));
    TooFewFrames(config.frames, s.low.m, TreeOf(frame), req.order);
    OrderedNeverRefuses(s.trees[TreeOf(frame)], Frames(req), req.cls, config.policy);
  }

  lemma GivenTried(config: Config, classes: set<nat>, s: System, u: Upper, s': System, carry: Carry, i: nat,
                   req: Request,
                   frame: nat)
    requires AtRest(s) && Good(config, classes, s, NoCarry(TreeCount(config.frames))) && i < |s.calls|
    requires Good(config, classes, s', carry) && Managed(config.frames, frame, req.order)
    requires TriedFrames(config, u, s, s', i, TreeOf(frame), req, Some(frame), Rest)
    ensures if Block(frame, Frames(req)) <= LowerSpec.Free(config.frames, s.low.m)
            then AtRest(s') && LowerSpec.Inv(config.frames, s'.low.m) &&
                 LowerSpec.Free(config.frames, s'.low.m) ==
                   LowerSpec.Free(config.frames, s.low.m) - Block(frame, Frames(req))
            else s'.low.held == s.low.held && i < |s'.calls| && s'.calls[i].Rest?
  {
    hide Good, Pow2, Block, LowerSpec.Inv, LowerSpec.Free, TreeCount, TreeOf, Managed, TreePut;
    QuietFree(config, classes, s, NoCarry(TreeCount(config.frames)));
    var b := Block(frame, Frames(req));
    BlockManaged(config.frames, frame, req.order);
    assert s.calls[i := Rest] == s.calls;
    var w := Asked(req, Some(frame), TreeOf(frame));
    if f: nat :| Suits(config.frames, w, f) && TookAt(config, s, s', i, w, f, u) {
      assert f == frame;
      QuietFree(config, classes, s', carry);
      TakenFrom(Block(0, config.frames), s.low.held, b, LowerSpec.Free(config.frames, s.low.m),
                LowerSpec.Free(config.frames, s'.low.m));
    } else {
      QuietFree(config, classes, s', carry);
    }
  }
}
