/** Calls of the whole allocator that run while all others rest: every attempt to allocate ends, and what it leaves in
    entries and slots is what the sequential allocator leaves there. */
module ConcUpperLone {
  import opened Base
  import opened LowerSpec
  import opened Policies
  import opened TreeEntries
  import opened Locals
  import opened Accounts
  import opened ConcUpper
  import opened ConcUpperProof
  import opened ConcUpperRuns
  import opened ConcUpperTheorems
  import opened ConcLone
  import opened ConcSearch
  import opened ConcEnds
  import CL = ConcLower
  import CT = ConcTheorems
  import CW = ConcWritten
  import CP = ConcProof
  import Lone = ConcLone

  // ---- steps of one call ----

  /** `n` steps of call `i` where it has no choice. */
  function Alone(config: Config, s: System, i: nat, n: nat): System
    decreases n
  {
    if n == 0 || !(i < |s.calls| == |s.low.threads|) then s else Alone(config, Step(config, s, i), i, n - 1)
  }

  lemma {:induction false} AloneMore(config: Config, s: System, i: nat, a: nat, b: nat)
    ensures Alone(config, Alone(config, s, i, a), i, b) == Alone(config, s, i, a + b)
    decreases a
  {
    hide Step;
    if a > 0 && i < |s.calls| == |s.low.threads| {
      AloneMore(config, Step(config, s, i), i, a - 1, b);
    }
  }

  /** The invariant, where all calls but call `i` rest. */
  ghost predicate Only(config: Config, classes: set<nat>, s: System, carry: Carry, i: nat)
  {
    && Good(config, classes, s, carry) && i < |s.calls| == |s.low.threads|
    && forall k :: 0 <= k < |s.calls| && k != i ==> s.calls[k].Rest? && s.low.threads[k].Idle?
  }

  /** A step changes only its own call and thread. */
  lemma OwnStep(config: Config, s: System, i: nat)
    requires i < |s.calls| == |s.low.threads|
    ensures var s' := Step(config, s, i);
            && |s'.calls| == |s.calls| == |s'.low.threads| && |s'.slots| == |s.slots| && |s'.trees| == |s.trees|
            && s'.calls == s.calls[i := s'.calls[i]] && s'.low.threads == s.low.threads[i := s'.low.threads[i]]
  {
    hide TreePut, TreeUnreserve, SlotAt, SlotsOf, Pow2, TreeOf, TreeOfRow, NewReserved, RowFromTree, ReservedDec,
      ReservedInc, TreeSyncSteal, ReservedSetStart, FilterOf, CL.GetStep, CL.PutStep, Block;
    assert s.calls[i := s.calls[i]] == s.calls && s.low.threads[i := s.low.threads[i]] == s.low.threads;
  }

  lemma OnlyStep(config: Config, classes: set<nat>, s: System, carry: Carry, i: nat) returns (carry': Carry)
    requires Only(config, classes, s, carry, i)
    ensures var s' := Step(config, s, i);
            Only(config, classes, s', carry', i) && !s'.calls[i].Broken? && s'.calls == s.calls[i := s'.calls[i]] &&
            s'.low.threads == s.low.threads[i := s'.low.threads[i]] && |s'.slots| == |s.slots| &&
            |s'.trees| == |s.trees|
  {
    hide Good, Step;
    OwnStep(config, s, i);
    carry' := StepKeeps(config, classes, s, carry, i);
    NothingBroken(config, classes, Step(config, s, i), carry');
  }

  // ---- the allocation below ----

  /** What the allocation below asks for: a block of tree `t`, or the given one. */
  function Asked(req: Request, given: Option<nat>, t: nat): Wish
  {
    Wish(t, req.order, given)
  }

  /** The allocation below has ended without a block: there was none. */
  ghost predicate NotFound(frames: nat, low0: CL.State, low: CL.State, w: Wish)
  {
    CL.Good(frames, low) && low.threads == low0.threads && low.held == low0.held && NothingFor(Unheld(frames, low0), w)
  }

  /** The allocation below is in progress or has a block. */
  ghost predicate Below(config: Config, low0: CL.State, s: System, i: nat)
    requires i < |s.calls| && s.calls[i].Run?
  {
    Lone.Searching(config.frames, low0, s.low, i, Asked(s.calls[i].req, s.calls[i].given, s.calls[i].t))
  }

  lemma BelowStep(config: Config, classes: set<nat>, s: System, carry: Carry, i: nat, low0: CL.State)
    requires Only(config, classes, s, carry, i) && s.calls[i].Run? && CT.AllIdle(low0.threads)
    requires Below(config, low0, s, i) && i < |low0.threads| && i < |s.low.threads| && !s.low.threads[i].Hand?
    ensures var s' := Step(config, s, i);
            && s' == s.(low := CL.Step(s.low, i)) && i < |s'.low.threads| && Nearer(s'.low.threads[i], s.low.threads[i])
            && (Below(config, low0, s', i) ||
                NotFound(config.frames, low0, s'.low, Asked(s.calls[i].req, s.calls[i].given, s.calls[i].t)))
  {
    hide Good, CL.Good, Nearer, Unheld, Suits, NothingFor, Pow2;
    Parts(config, classes, s, carry);
    var w := Asked(s.calls[i].req, s.calls[i].given, s.calls[i].t);
    SameLow(config, s, i);
    LoneStep(config.frames, low0, s.low, i, w);
    GetNearer(config.frames, s.low, i);
    HeldStays(s.low, i);
    if Ended(config.frames, low0, CL.Step(s.low, i), w) {
      EndedEmpty(config.frames, low0, CL.Step(s.low, i), w);
    }
  }

  /** Outside the undo loops both kinds of steps are the same. */
  lemma SameLow(config: Config, s: System, i: nat)
    requires i < |s.low.threads| && CL.Good(config.frames, s.low) && CalmOk(config, s.low)
    ensures CL.StepBy(config.undo, s.low, i) == CL.Step(s.low, i)
  {
    hide CL.Good, CL.StepBy, CW.Calm;
    if config.undo.Written? {
      CW.CalmStep(config.frames, s.low, i);
    }
  }

  lemma HeldStays(low: CL.State, i: nat)
    requires i < |low.threads| && !low.threads[i].Hand?
    ensures CL.Step(low, i).held == low.held
  {
    hide CL.GetStep, CL.PutStep;
  }

  lemma EndedEmpty(frames: nat, low0: CL.State, low: CL.State, w: Wish)
    requires Ended(frames, low0, low, w) && low.held == low0.held
    ensures NotFound(frames, low0, low, w)
  {
    hide CL.Good, Unheld, NothingFor, Suits;
    forall f | Suits(frames, w, f) && Block(f, Pow2(w.order)) !! low0.held
      ensures low0.held + Block(f, Pow2(w.order)) != low0.held
    {
      assert f in Block(f, Pow2(w.order));
    }
  }

  /** The allocation below ends: with a block to hand over, or without one because there is none. */
  lemma {:induction false} BelowEnds(config: Config, classes: set<nat>, s: System, carry: Carry, i: nat,
                                     low0: CL.State) returns (n: nat, carry': Carry)
    requires Only(config, classes, s, carry, i) && s.calls[i].Run? && CT.AllIdle(low0.threads)
    requires i < |low0.threads| && Below(config, low0, s, i)
    ensures var s' := Alone(config, s, i, n);
            && Only(config, classes, s', carry', i) && s' == s.(low := s'.low) &&
               s'.low.threads == low0.threads[i := s'.low.threads[i]]
            && if s'.low.threads[i].Hand? then Below(config, low0, s', i)
               else NotFound(config.frames, low0, s'.low, Asked(s.calls[i].req, s.calls[i].given, s.calls[i].t))
    decreases RoundsLeft(s.low.threads[i]), StepsLeft(s.low.threads[i])
  {
    hide Good, CL.Good, Unheld, NothingFor, Suits, RoundsLeft, StepsLeft, Step;
    n, carry' := 0, carry;
    if !s.low.threads[i].Hand? {
      BelowStep(config, classes, s, carry, i, low0);
      var next := OnlyStep(config, classes, s, carry, i);
      var s1 := Step(config, s, i);
      if Below(config, low0, s1, i) {
        var k;
        k, carry' := BelowEnds(config, classes, s1, next, i, low0);
        n := k + 1;
      } else {
        n, carry' := 1, next;
        assert Alone(config, s1, i, 0) == s1;
      }
    }
  }

  // ---- one attempt ----

  /** The slot that a request with a slot of class `cls` uses. */
  function OwnAt(config: Config, req: Request, cls: nat): nat
  {
    SlotAt(config, cls, if req.local.Some? then req.local.value else 0)
  }

  /** The slot that a new reservation goes into. */
  function ReserveAt(config: Config, req: Request, target: nat): nat
  {
    var len := SlotsOf(config, target);
    SlotAt(config, target, if len > 0 && req.local.Some? then req.local.value % len else 0)
  }

  /** The entries after a slot gave up its tree. */
  ghost predicate LetGo(config: Config, before: seq<Tree>, after: seq<Tree>, slot: Reserved, cls: nat)
  {
    if slot.present then
      var p := TreeOfRow(slot.startRow);
      && p < |before| == |after| && after == before[p := after[p]]
      && Some(after[p]) == TreeUnreserve(before[p], slot.free, cls, config.policy, config.defaultClass)
    else after == before
  }

  /** Entries and slots after the block at `f` was allocated: a new reservation of `t`, which has `n` frames, is in its
      slot, and the slot of a request points at the block. */
  ghost predicate Settled(config: Config, u: Upper, after: Upper, req: Request, t: nat, n: nat, from: From, f: nat)
  {
    match from
    case ByReserve(target) =>
      var at := ReserveAt(config, req, target);
      && at < |u.slots| && Frames(req) <= n
      && after.slots == u.slots[at := NewReserved(true, n - Frames(req), RowFromTree(t))]
      && LetGo(config, u.trees, after.trees, u.slots[at], target)
    case OwnSlot(row) =>
      var at := OwnAt(config, req, req.cls);
      if row == f / 64 then after == u
      else
        && at < |u.slots|
        && var r := ReservedSetStart(u.slots[at], f / 64);
           after == if r.Some? then Upper(u.trees, u.slots[at := r.value]) else u
    case _ => after == u
  }

  /** The attempt took the block at `f`, which nobody held. */
  ghost predicate Served(config: Config, s: System, s': System, i: nat, f: nat)
    requires i < |s.calls| && s.calls[i].Start?
  {
    var Start(req, given, t, n, from) := s.calls[i];
    && s'.calls == s.calls[i := Rest] && s'.low.threads == s.low.threads
    && Suits(config.frames, Asked(req, given, t), f) && Block(f, Frames(req)) !! s.low.held
    && s'.low.held == s.low.held + Block(f, Frames(req))
    && Settled(config, Upper(s.trees, s.slots), Upper(s'.trees, s'.slots), req, t, n, from, f)
  }

  /** The entry of a tree that gets back what was taken from it. */
  function Restored(config: Config, tree: Tree, n: nat, from: From): Option<Tree>
  {
    if from.ByReserve? then TreeUnreserve(tree, n, from.target, config.policy, config.defaultClass)
    else Some(TreePut(tree, n, config.policy, config.defaultClass))
  }

  /** The class that the tree would get has no slot. */
  predicate Unslotted(config: Config, from: From)
  {
    (from.ByReserve? || (from.BySteal? && from.checked)) && SlotsOf(config, from.target) == 0
  }

  /** The attempt met no block, and the entry has its frames again. */
  ghost predicate Unserved(config: Config, s: System, s': System, i: nat)
    requires i < |s.calls| && s.calls[i].Start?
  {
    var Start(req, given, t, n, from) := s.calls[i];
    && s'.calls == s.calls[i := GiveUp(req, given, t, n, from).next] && s'.low.threads == s.low.threads
    && s'.low.held == s.low.held && s'.slots == s.slots && t < |s.trees| == |s'.trees|
    && s'.trees == s.trees[t := s'.trees[t]] && Restored(config, s.trees[t], n, from) == Some(s'.trees[t])
    && (Unslotted(config, from) || NothingFor(Unheld(config.frames, s.low), Asked(req, given, t)))
  }

  // ---- giving up ----

  lemma GivesUp(config: Config, classes: set<nat>, s: System, carry: Carry, i: nat) returns (carry': Carry)
    requires Only(config, classes, s, carry, i) && (s.calls[i].PutBack? || s.calls[i].Unreserve?)
    ensures var c, s' := s.calls[i], Step(config, s, i);
            && Only(config, classes, s', carry', i)
            && s' == s.(calls := s.calls[i := c.next], trees := s'.trees) && c.t < |s.trees| == |s'.trees|
            && s'.trees == s.trees[c.t := s'.trees[c.t]]
            && (c.PutBack? ==> s'.trees[c.t] == TreePut(s.trees[c.t], c.n, config.policy, config.defaultClass))
            && (c.Unreserve? ==>
                  Some(s'.trees[c.t]) ==
                  TreeUnreserve(s.trees[c.t], c.n, c.cls, config.policy, config.defaultClass))
  {
    hide Good, TreePut, TreeUnreserve;
    carry' := OnlyStep(config, classes, s, carry, i);
  }

  /** A block that was found is handed to the client. */
  lemma Returns(config: Config, classes: set<nat>, s: System, carry: Carry, i: nat) returns (carry': Carry)
    requires Only(config, classes, s, carry, i) && s.calls[i].Return?
    ensures s.low.threads[i].Hand?
    ensures var p, s' := s.low.threads[i], Step(config, s, i);
            && Only(config, classes, s', carry', i)
            && s'.calls == s.calls[i := Rest] && s'.trees == s.trees && s'.slots == s.slots
            && s'.low == CL.State(s.low.m, s.low.threads[i := CL.Idle], s.low.held + Block(p.frame, Pow2(p.order)))
  {
    hide Good, CL.GetStep, CL.PutStep, Block, Pow2;
    CallParts(config, classes, s, carry, i);
    carry' := OnlyStep(config, classes, s, carry, i);
  }

  /** The call is over and its block with the client; entries and slots are `after`. */
  ghost predicate Handed(s: System, s': System, i: nat, after: Upper)
    requires i < |s.calls| == |s.low.threads| && s.low.threads[i].Hand?
  {
    var p := s.low.threads[i];
    && s'.calls == s.calls[i := Rest] && Upper(s'.trees, s'.slots) == after
    && s'.low == CL.State(s.low.m, s.low.threads[i := CL.Idle], s.low.held + Block(p.frame, Pow2(p.order)))
  }

  lemma ReturnEnds(config: Config, classes: set<nat>, s: System, carry: Carry, i: nat) returns (n: nat, carry': Carry)
    requires Only(config, classes, s, carry, i) && s.calls[i].Return?
    ensures s.low.threads[i].Hand?
    ensures var s' := Alone(config, s, i, n);
            Only(config, classes, s', carry', i) && Handed(s, s', i, Upper(s.trees, s.slots))
  {
    hide Good, Step, Block, Pow2;
    n := 1;
    carry' := Returns(config, classes, s, carry, i);
    AloneNext(config, s, i, 0);
  }

  lemma AloneNext(config: Config, s: System, i: nat, n: nat)
    requires i < |s.calls| == |s.low.threads|
    ensures Alone(config, s, i, n + 1) == Alone(config, Step(config, s, i), i, n)
    ensures Alone(config, s, i, 0) == s
  {}

  lemma SetStartEnds(config: Config, classes: set<nat>, s: System, carry: Carry, i: nat)
    returns (n: nat, carry': Carry)
    requires Only(config, classes, s, carry, i) && s.calls[i].SetStart?
    ensures var c, s' := s.calls[i], Alone(config, s, i, n);
            var at := OwnAt(config, c.req, c.req.cls);
            && s.low.threads[i].Hand? && at < |s.slots| && Only(config, classes, s', carry', i)
            && var r := ReservedSetStart(s.slots[at], c.frame / 64);
               Handed(s, s', i, Upper(s.trees, if r.Some? then s.slots[at := r.value] else s.slots))
  {
    hide Good, Block, Pow2, ReservedSetStart, SlotAt;
    CallParts(config, classes, s, carry, i);
    carry' := OnlyStep(config, classes, s, carry, i);
    n, carry' := ReturnEnds(config, classes, Step(config, s, i), carry', i);
    AloneNext(config, s, i, n);
    n := n + 1;
  }

  lemma UnreserveEnds(config: Config, classes: set<nat>, s: System, carry: Carry, i: nat)
    returns (n: nat, carry': Carry)
    requires Only(config, classes, s, carry, i) && s.calls[i].Unreserve? && s.calls[i].next.Return?
    ensures var c, s' := s.calls[i], Alone(config, s, i, n);
            && s.low.threads[i].Hand? && c.t < |s.trees| && Only(config, classes, s', carry', i)
            && var r := TreeUnreserve(s.trees[c.t], c.n, c.cls, config.policy, config.defaultClass);
               r.Some? && Handed(s, s', i, Upper(s.trees[c.t := r.value], s.slots))
  {
    hide Good, Step, Block, Pow2, TreeUnreserve;
    var c := s.calls[i];
    carry' := GivesUp(config, classes, s, carry, i);
    n, carry' := ReturnEnds(config, classes, Step(config, s, i), carry', i);
    AloneNext(config, s, i, n);
    n := n + 1;
  }

  lemma SwapEnds(config: Config, classes: set<nat>, s: System, carry: Carry, i: nat) returns (n: nat, carry': Carry)
    requires Only(config, classes, s, carry, i) && s.calls[i].Swap?
    ensures var c, s' := s.calls[i], Alone(config, s, i, n);
            && s.low.threads[i].Hand? && Only(config, classes, s', carry', i)
            && Handed(s, s', i, Upper(s'.trees, s'.slots))
            && forall f :: Settled(config, Upper(s.trees, s.slots), Upper(s'.trees, s'.slots), c.req, c.t, c.n,
                                   ByReserve(c.target), f)
  {
    hide Good, Block, Pow2, SlotAt, SlotsOf, TreeUnreserve;
    CallParts(config, classes, s, carry, i);
    carry' := OnlyStep(config, classes, s, carry, i);
    var s1 := Step(config, s, i);
    if s1.calls[i].Return? {
      n, carry' := ReturnEnds(config, classes, s1, carry', i);
    } else {
      n, carry' := UnreserveEnds(config, classes, s1, carry', i);
    }
    AloneNext(config, s, i, n);
    n := n + 1;
  }

  /** A block that was found settles the slots and is handed to the client. */
  lemma HandsOver(config: Config, classes: set<nat>, s: System, carry: Carry, i: nat) returns (n: nat, carry': Carry)
    requires Only(config, classes, s, carry, i) && s.calls[i].Run? && s.low.threads[i].Hand?
    ensures var Run(req, given, t, k, from) := s.calls[i];
            var s' := Alone(config, s, i, n);
            && Only(config, classes, s', carry', i) && Handed(s, s', i, Upper(s'.trees, s'.slots))
            && Settled(config, Upper(s.trees, s.slots), Upper(s'.trees, s'.slots), req, t, k, from,
                       s.low.threads[i].frame)
  {
    hide Good, Block, Pow2, SlotAt, SlotsOf, LetGo, ReservedSetStart;
    carry' := OnlyStep(config, classes, s, carry, i);
    var s1 := Step(config, s, i);
    if s1.calls[i].Swap? {
      n, carry' := SwapEnds(config, classes, s1, carry', i);
    } else if s1.calls[i].SetStart? {
      n, carry' := SetStartEnds(config, classes, s1, carry', i);
    } else {
      n, carry' := ReturnEnds(config, classes, s1, carry', i);
    }
    AloneNext(config, s, i, n);
    n := n + 1;
  }

  // ---- the attempt as a whole ----

  /** Begins the allocation below. */
  lemma StartBegins(config: Config, classes: set<nat>, s: System, carry: Carry, i: nat)
    requires Only(config, classes, s, carry, i) && s.calls[i].Start? && !Unslotted(config, s.calls[i].from)
    ensures var Start(req, given, t, n, from) := s.calls[i];
            var s' := Step(config, s, i);
            && s' == s.(low := s'.low, calls := s.calls[i := Run(req, given, t, n, from)])
            && CT.AllIdle(s.low.threads) && i < |s.low.threads|
            && Lone.Searching(config.frames, s.low, s'.low, i, Asked(req, given, t))
  {
    hide Good, CL.Good, SlotsOf, ConcLone.Searching, CL.Begin, CallOk;
    Parts(config, classes, s, carry);
    CallParts(config, classes, s, carry, i);
    var Start(req, given, t, n, from) := s.calls[i];
    var call := if given.Some? then CL.GetGiven(given.value, req.order)
        else CL.GetNear(StartFrame(t, from), req.order);
    StartFits(config, classes, s, carry, i);
    CP.BeginKeeps(config.frames, s.low, i, call);
    BeginsSearch(config.frames, s.low, i, call);
  }

  lemma StartFits(config: Config, classes: set<nat>, s: System, carry: Carry, i: nat)
    requires Only(config, classes, s, carry, i) && s.calls[i].Start?
    ensures var Start(req, given, t, n, from) := s.calls[i];
            var call := if given.Some? then CL.GetGiven(given.value, req.order)
                        else CL.GetNear(StartFrame(t, from), req.order);
            CL.MayBegin(config.frames, s.low, i, call) && WishOf(call) == Asked(req, given, t)
    ensures CT.AllIdle(s.low.threads)
  {
    hide Good, CL.Good, Pow2, TreeCount, StartFrame, ClassOf, TreeOf;
    CallParts(config, classes, s, carry, i);
  }

  /** Every attempt ends: with a block that nobody held, of its tree or the given one; or, when there is none, or no
      slot for the class, with everything given back. */
  lemma AttemptEnds(config: Config, classes: set<nat>, s: System, carry: Carry, i: nat) returns (n: nat, carry': Carry)
    requires Only(config, classes, s, carry, i) && s.calls[i].Start?
    ensures var s' := Alone(config, s, i, n);
            Only(config, classes, s', carry', i) && (Unserved(config, s, s', i) || exists f ::
                                                     Served(config, s, s', i, f))
  {
    hide Good, Step, Settled, Unheld, NothingFor, Suits, Pow2, Block, Restored, CL.Good;
    var Start(req, given, t, k, from) := s.calls[i];
    carry' := OnlyStep(config, classes, s, carry, i);
    var s1 := Step(config, s, i);
    if Unslotted(config, from) {
      UnslottedStep(config, s, i);
      n, carry' := MissEnds(config, classes, s, s1, carry', i);
      AloneNext(config, s, i, n);
      n := n + 1;
    } else {
      StartBegins(config, classes, s, carry, i);
      n, carry' := BelowEnds(config, classes, s1, carry', i, s.low);
      var s2 := Alone(config, s1, i, n);
      var m;
      if s2.low.threads[i].Hand? {
        Parts(config, classes, s2, carry');
        HandedSuits(config, s, s2, i);
        m, carry' := HandsOver(config, classes, s2, carry', i);
        assert Served(config, s, Alone(config, s2, i, m), i, s2.low.threads[i].frame);
      } else {
        IdleStep(config, s2, i);
        var next := OnlyStep(config, classes, s2, carry', i);
        m, carry' := MissEnds(config, classes, s, Step(config, s2, i), next, i);
        AloneNext(config, s2, i, m);
        m := m + 1;
      }
      AloneMore(config, s1, i, n, m);
      AloneNext(config, s, i, n + m);
      n := n + m + 1;
    }
  }

  /** The block in hand suits the request, and nobody holds it. */
  lemma HandedSuits(config: Config, s: System, s2: System, i: nat)
    requires i < |s.calls| && i < |s2.low.threads| && s.calls[i].Start? && s2.low.threads[i].Hand?
    requires var Start(req, given, t, n, from) := s.calls[i];
             CL.Good(config.frames, s2.low) && Lone.Searching(config.frames, s.low, s2.low, i, Asked(req, given, t))
    ensures var Start(req, given, t, n, from) := s.calls[i];
            var p := s2.low.threads[i];
            && p.order == req.order && Suits(config.frames, Asked(req, given, t), p.frame)
            && Block(p.frame, Frames(req)) !! s.low.held && s2.low.held == s.low.held
  {
    hide CL.Good, Pow2, Block, TreeOf, Managed, Progress;
    var Start(req, given, t, n, from) := s.calls[i];
    HandSuits(config.frames, s2.low, i, Asked(req, given, t));
    CT.HandsOutOnce(config.frames, s2.low, i);
  }

  lemma IdleStep(config: Config, s: System, i: nat)
    requires i < |s.calls| == |s.low.threads| && s.calls[i].Run? && s.low.threads[i].Idle?
    ensures var Run(req, given, t, n, from) := s.calls[i];
            Step(config, s, i) == s.(calls := s.calls[i := GiveUp(req, given, t, n, from)])
  {
    hide Pow2;
  }

  lemma UnslottedStep(config: Config, s: System, i: nat)
    requires i < |s.calls| == |s.low.threads| && s.calls[i].Start? && Unslotted(config, s.calls[i].from)
    ensures var Start(req, given, t, n, from) := s.calls[i];
            Step(config, s, i) == s.(calls := s.calls[i := GiveUp(req, given, t, n, from)])
  {
    hide SlotsOf, Pow2;
  }

  /** Gives back what the attempt that began at `s` took. */
  lemma MissEnds(config: Config, classes: set<nat>, s: System, s1: System, carry: Carry, i: nat)
    returns (n: nat, carry': Carry)
    requires i < |s.calls| && s.calls[i].Start? && Only(config, classes, s1, carry, i)
    requires var Start(req, given, t, k, from) := s.calls[i];
             && s1.calls == s.calls[i := GiveUp(req, given, t, k, from)] && s1.trees == s.trees && s1.slots == s.slots
             && s1.low.threads == s.low.threads && s1.low.held == s.low.held
             && (Unslotted(config, from) || NothingFor(Unheld(config.frames, s.low), Asked(req, given, t)))
    ensures var s' := Alone(config, s1, i, n);
            Only(config, classes, s', carry', i) && Unserved(config, s, s', i)
  {
    hide Good, Step, Unheld, NothingFor, Pow2, TreePut, TreeUnreserve, SlotsOf;
    n := 1;
    carry' := GivesUp(config, classes, s1, carry, i);
    AloneNext(config, s1, i, 0);
  }
}
