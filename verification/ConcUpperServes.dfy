/** What gets and puts of the whole allocator achieve that run while all other calls rest: the slot of the request, the
    search over the trees in any order, and where a put is counted. */
module ConcUpperServes {
  import opened Base
  import opened LowerSpec
  import opened LowerWhole
  import opened Policies
  import opened TreeEntries
  import opened Locals
  import opened Accounts
  import opened UpperSpec
  import opened UpperLemmas
  import opened ConcUpper
  import opened ConcUpperProof
  import opened ConcUpperRuns
  import opened ConcUpperTheorems
  import opened ConcLone
  import opened ConcSearch
  import opened ConcEnds
  import opened ConcUpperLone
  import CL = ConcLower
  import CT = ConcTheorems
  import CW = ConcWritten

  // ---- the slot of a request ----

  /** What is left of a call that took the block at `f`: entries and slots are `after`. */
  ghost predicate TookAt(config: Config, s: System, s': System, i: nat, w: Wish, f: nat, after: Upper)
    requires i < |s.calls|
  {
    && s'.calls == s.calls[i := Rest] && s'.low.threads == s.low.threads && Suits(config.frames, w, f)
    && Block(f, Pow2(w.order)) !! s.low.held && s'.low.held == s.low.held + Block(f, Pow2(w.order))
    && Upper(s'.trees, s'.slots) == after
  }

  /** What is left of a call that found no block where it looked, and goes on as `next`. */
  ghost predicate Kept(config: Config, s: System, s': System, i: nat, w: Wish, next: Call, after: Upper)
    requires i < |s.calls|
  {
    && s'.calls == s.calls[i := next] && s'.low.threads == s.low.threads && s'.low.held == s.low.held
    && NothingFor(Unheld(config.frames, s.low), w) && Upper(s'.trees, s'.slots) == after
  }

  /** The call has tried the slot at `at` of `u`: without the frames it goes on; else it took a block of the slot's
      tree and the slot points at it, or there is none and the entry of the tree gets the frames. */
  ghost predicate TriedSlot(config: Config, u: Upper, s: System, s': System, i: nat, at: nat, req: Request,
                            given: Option<nat>)
    requires i < |s.calls| && at < |u.slots|
  {
    var t, n := TreeOfRow(u.slots[at].startRow), Frames(req);
    match ReservedDec(u.slots[at], FilterOf(given), n)
    case None => s' == System(s.low, u.trees, u.slots, s.calls[i := AfterLocal(req, given)])
    case Some(r) =>
      || (exists f: nat {:trigger Suits(config.frames, Asked(req, given, t), f)} ::
            TookAt(config, s, s', i, Asked(req, given, t), f,
                 Upper(u.trees, u.slots[at := r.(startRow := f / 64)])))
      || (t < |u.trees| && Kept(config, s, s', i, Asked(req, given, t), AfterLocal(req, given),
                                Upper(u.trees[t := TreePut(u.trees[t], n, config.policy, config.defaultClass)],
                                      u.slots[at := r])))
  }

  /** A call that takes frames from its slot. */
  lemma SlotEnds(config: Config, classes: set<nat>, s: System, carry: Carry, i: nat) returns (n: nat, carry': Carry)
    requires Only(config, classes, s, carry, i) && s.calls[i].FromLocal?
    requires var at := OwnAt(config, s.calls[i].req, s.calls[i].req.cls);
             at < |s.slots| && ReservedDec(s.slots[at], FilterOf(s.calls[i].given), Frames(s.calls[i].req)).Some?
    ensures var FromLocal(req, given, sync) := s.calls[i];
            var s' := Alone(config, s, i, n);
            Only(config, classes, s', carry', i) &&
            TriedSlot(config, Upper(s.trees, s.slots), s, s', i, OwnAt(config, req, req.cls), req, given)
  {
    hide Good, Step, TriedSlot, Unserved, Served, ReservedDec, Pow2, SlotAt;
    Parts(config, classes, s, carry);
    TakesFrames(config, s, i);
    carry' := OnlyStep(config, classes, s, carry, i);
    var s1 := Step(config, s, i);
    n, carry' := AttemptEnds(config, classes, s1, carry', i);
    AloneNext(config, s, i, n);
    var s' := Alone(config, s1, i, n);
    SlotTried(config, classes, s, s', i);
    n := n + 1;
  }

  lemma TakesFrames(config: Config, s: System, i: nat)
    requires i < |s.calls| == |s.low.threads| && s.calls[i].FromLocal?
    requires var at := OwnAt(config, s.calls[i].req, s.calls[i].req.cls);
             at < |s.slots| && ReservedDec(s.slots[at], FilterOf(s.calls[i].given), Frames(s.calls[i].req)).Some?
    ensures Step(config, s, i) == Taken(config, s, i)
  {
    hide Pow2, SlotAt, TreeOf, TreeOfRow;
  }

  /** The call has taken frames from its slot. */
  function Taken(config: Config, s: System, i: nat): System
    requires i < |s.calls| && s.calls[i].FromLocal?
  {
    var FromLocal(req, given, sync) := s.calls[i];
    var at := OwnAt(config, req, req.cls);
    if at < |s.slots| && ReservedDec(s.slots[at], FilterOf(given), Frames(req)).Some? then
      var row := s.slots[at].startRow;
      s.(slots := s.slots[at := ReservedDec(s.slots[at], FilterOf(given), Frames(req)).value],
         calls := s.calls[i := Start(req, given, TreeOfRow(row), Frames(req), OwnSlot(row))])
    else s
  }

  lemma SlotTried(config: Config, classes: set<nat>, s: System, s': System, i: nat)
    requires i < |s.calls| && s.calls[i].FromLocal? && ConfigOk(config, classes, |s.slots|)
    requires var at := OwnAt(config, s.calls[i].req, s.calls[i].req.cls);
             at < |s.slots| && ReservedDec(s.slots[at], FilterOf(s.calls[i].given), Frames(s.calls[i].req)).Some?
    requires var s1 := Taken(config, s, i);
             Unserved(config, s1, s', i) || exists f :: Served(config, s1, s', i, f)
    ensures var FromLocal(req, given, sync) := s.calls[i];
            TriedSlot(config, Upper(s.trees, s.slots), s, s', i, OwnAt(config, req, req.cls), req, given)
  {
    hide Block, Pow2, SlotAt, Suits, NothingFor, Unheld, TreeOf, TreePut, TreeOfRow, ConfigOk;
    var FromLocal(req, given, sync) := s.calls[i];
    var at := OwnAt(config, req, req.cls);
    var r := ReservedDec(s.slots[at], FilterOf(given), Frames(req)).value;
    var s1, t := Taken(config, s, i), TreeOfRow(s.slots[at].startRow);
    if f: nat :| Served(config, s1, s', i, f) {
      SuitsTree(config.frames, Asked(req, given, t), f);
      PointsAt(config, classes, s, r, f);
      assert s1.slots[at := r.(startRow := f / 64)] == s.slots[at := r.(startRow := f / 64)];
      assert s1.calls[i := Rest] == s.calls[i := Rest];
      assert TookAt(config, s, s', i, Asked(req, given, t), f, Upper(s.trees, s.slots[at := r.(startRow := f / 64)]));
    } else {
      assert s1.calls[i := AfterLocal(req, given)] == s.calls[i := AfterLocal(req, given)];
      assert Kept(config, s, s', i, Asked(req, given, t), AfterLocal(req, given),
                  Upper(s.trees[t := TreePut(s.trees[t], Frames(req), config.policy, config.defaultClass)],
                        s.slots[at := r]));
    }
  }

  lemma SuitsTree(frames: nat, w: Wish, f: nat)
    requires Suits(frames, w, f)
    ensures f < frames && TreeOf(f) == w.tree
  {
    hide TreeOf, Aligned;
  }

  /** The slot of a tree can point at each of its blocks. */
  lemma PointsAt(config: Config, classes: set<nat>, s: System, r: Reserved, f: nat)
    requires ConfigOk(config, classes, |s.slots|) && r.present && f < config.frames &&
             TreeOfRow(r.startRow) == TreeOf(f)
    ensures ReservedSetStart(r, f / 64) == Some(r.(startRow := f / 64))
  {
    hide TreeOf, TreeOfRow;
    RowOfFrame(f);
  }

  /** Without enough frames in its slot a call goes on, or takes the counter of the entry first. */
  lemma LocalStepIs(config: Config, classes: set<nat>, s: System, carry: Carry, i: nat)
    requires Only(config, classes, s, carry, i) && s.calls[i].FromLocal?
    ensures var FromLocal(req, given, sync) := s.calls[i];
            var at := OwnAt(config, req, req.cls);
            && at < |s.slots|
            && (ReservedDec(s.slots[at], FilterOf(given), Frames(req)).None? ==>
                  Step(config, s, i) ==
                  s.(calls := s.calls[i :=
                     if sync && s.slots[at].present && s.slots[at].free < Frames(req)
                     then Sync(req, given, TreeOfRow(s.slots[at].startRow), Frames(req) - s.slots[at].free)
                     else AfterLocal(req, given)]))
  {
    hide Good, Pow2, SlotAt, TreeOfRow;
    var next := OnlyStep(config, classes, s, carry, i);
  }

  /** The counter of the entry goes into the slot exactly if both together have more than what is needed. */
  lemma SyncEnds(config: Config, classes: set<nat>, s: System, carry: Carry, i: nat) returns (n: nat, carry': Carry)
    requires Only(config, classes, s, carry, i) && s.calls[i].Sync?
    requires var Sync(req, given, t, min) := s.calls[i];
             var at := OwnAt(config, req, req.cls);
             && at < |s.slots| && s.slots[at].present && TreeOfRow(s.slots[at].startRow) == t
             && s.slots[at].free < Frames(req) && min == Frames(req) - s.slots[at].free
    ensures var Sync(req, given, t, min) := s.calls[i];
            var at, s' := OwnAt(config, req, req.cls), Alone(config, s, i, n);
            var u := Synced(Upper(s.trees, s.slots), at, Frames(req));
            && Only(config, classes, s', carry', i)
            && s' == System(s.low, u.trees, u.slots,
                            s.calls[i := if u == Upper(s.trees, s.slots) then AfterLocal(req, given)
                                         else FromLocal(req, given, false)])
  {
    hide Good, Pow2, SlotAt, TreeOfRow;
    var Sync(req, given, t, min) := s.calls[i];
    var at := OwnAt(config, req, req.cls);
    HolderReserved(config, classes, s, carry, at);
    carry' := OnlyStep(config, classes, s, carry, i);
    var s1 := Step(config, s, i);
    AloneNext(config, s, i, 0);
    n := 1;
    if s1.calls[i].SyncPut? {
      carry' := OnlyStep(config, classes, s1, carry', i);
      AloneNext(config, s1, i, 0);
      AloneNext(config, s, i, 1);
      n := 2;
    }
  }

  lemma HolderReserved(config: Config, classes: set<nat>, s: System, carry: Carry, at: nat)
    requires Good(config, classes, s, carry) && at < |s.slots| && s.slots[at].present
    ensures TreeOfRow(s.slots[at].startRow) < |s.trees| && s.trees[TreeOfRow(s.slots[at].startRow)].reserved
  {
    hide Good, TreeCount, Account, TreeOfRow;
    Parts(config, classes, s, carry);
    DistinctHolders(BelowSum(config, s.low.m), Upper(s.trees, s.slots), carry, {}, classes);
  }

  /** A call that begins with the slot of its request: it first moves the counter of the entry into the slot if that
      is needed and enough, and then tries the slot. */
  lemma LocalEnds(config: Config, classes: set<nat>, s: System, carry: Carry, i: nat) returns (n: nat, carry': Carry)
    requires Only(config, classes, s, carry, i) && s.calls[i].FromLocal?
    ensures var FromLocal(req, given, sync) := s.calls[i];
            var at, s' := OwnAt(config, req, req.cls), Alone(config, s, i, n);
            && at < |s.slots| && Only(config, classes, s', carry', i)
            && var u := if sync && ReservedDec(s.slots[at], FilterOf(given), Frames(req)).None?
                        then Synced(Upper(s.trees, s.slots), at, Frames(req)) else Upper(s.trees, s.slots);
               TriedSlot(config, u, s, s', i, at, req, given)
  {
    hide Good, Step, Pow2, SlotAt, TreeOfRow, Suits, NothingFor, Unheld, Block;
    var FromLocal(req, given, sync) := s.calls[i];
    var at := OwnAt(config, req, req.cls);
    LocalStepIs(config, classes, s, carry, i);
    if ReservedDec(s.slots[at], FilterOf(given), Frames(req)).Some? {
      n, carry' := SlotEnds(config, classes, s, carry, i);
    } else {
      carry' := OnlyStep(config, classes, s, carry, i);
      var s1 := Step(config, s, i);
      AloneNext(config, s, i, 0);
      n := 1;
      if s1.calls[i].Sync? {
        n, carry' := SyncEnds(config, classes, s1, carry', i);
        AloneNext(config, s, i, n);
        var s2 := Alone(config, s1, i, n);
        if s2.calls[i].FromLocal? {
          LocalStepIs(config, classes, s2, carry', i);
          var m;
          if ReservedDec(s2.slots[at], FilterOf(given), Frames(req)).Some? {
            m, carry' := SlotEnds(config, classes, s2, carry', i);
          } else {
            m := 1;
            carry' := OnlyStep(config, classes, s2, carry', i);
            AloneNext(config, s2, i, 0);
          }
          AloneMore(config, s1, i, n, m);
          AloneNext(config, s, i, n + m);
          TriedFrom(config, s, s2, Alone(config, s2, i, m), i, at, req, given);
          n := n + m;
        }
        n := n + 1;
      }
    }
  }

  lemma TriedFrom(config: Config, s: System, s2: System, s': System, i: nat, at: nat, req: Request, given: Option<nat>)
    requires i < |s.calls| == |s2.calls| && at < |s2.slots| && s2.calls == s.calls[i := s2.calls[i]] && s2.low == s.low
    requires TriedSlot(config, Upper(s2.trees, s2.slots), s2, s', i, at, req, given)
    ensures TriedSlot(config, Upper(s2.trees, s2.slots), s, s', i, at, req, given)
  {
    hide Pow2, TreeOfRow, Suits, NothingFor, Unheld, Block, TreePut;
    assert s2.calls[i := Rest] == s.calls[i := Rest];
    assert s2.calls[i := AfterLocal(req, given)] == s.calls[i := AfterLocal(req, given)];
    var u, w := Upper(s2.trees, s2.slots), Asked(req, given, TreeOfRow(s2.slots[at].startRow));
    var r := ReservedDec(u.slots[at], FilterOf(given), Frames(req));
    if r.Some? {
      if f: nat :| Suits(config.frames, w, f) &&
                   TookAt(config, s2, s', i, w, f, Upper(u.trees, u.slots[at := r.value.(startRow := f / 64)])) {
        assert TookAt(config, s, s', i, w, f, Upper(u.trees, u.slots[at := r.value.(startRow := f / 64)]));
      }
    }
  }

  // ---- the search over the trees ----

  /** Every class that a tree can have has a slot. */
  ghost predicate Stocked(config: Config, classes: set<nat>)
  {
    forall c :: c in classes ==> SlotsOf(config, c) > 0
  }

  /** Why a tree does not serve a request. */
  ghost predicate Refusing(config: Config, s: System, req: Request, idx: nat)
    requires idx < |s.trees|
  {
    || s.trees[idx].free < Frames(req)
    || (UsesSlot(config, req, |s.trees|) && s.trees[idx].reserved)
    || NothingFor(Unheld(config.frames, s.low), Asked(req, None, idx))
  }

  /** Entries and slots after a block at `f` of the tree was allocated: the tree was reserved, and its slot has what is
      left of it, or the frames were stolen from its entry. */
  ghost predicate FromTree(config: Config, u: Upper, after: Upper, req: Request, idx: nat, f: nat)
    requires idx < |u.trees|
  {
    var tree, n := u.trees[idx], Frames(req);
    if UsesSlot(config, req, |u.trees|) then
      var a := TreeReserveOrSteal(tree, n, config.policy, req.cls);
      && a.Some?
      && if a.value.reserved then
           Settled(config, Upper(u.trees[idx := a.value.tree], u.slots), after, req, idx, tree.free,
                   ByReserve(a.value.cls), f)
         else after == Upper(u.trees[idx := a.value.tree], u.slots)
    else
      var stolen := TreeSteal(tree, n, req.cls, config.policy);
      stolen.Some? && after == Upper(u.trees[idx := stolen.value.tree], u.slots)
  }

  /** The call has tried a tree: it took a block of it, or the tree does not serve it and counts what it counted. */
  ghost predicate TriedTree(config: Config, s: System, s': System, i: nat, req: Request, idx: nat)
    requires i < |s.calls| && idx < |s.trees|
  {
    || (exists f: nat {:trigger Suits(config.frames, Asked(req, None, idx), f)} ::
          && TookAt(config, s, s', i, Asked(req, None, idx), f, Upper(s'.trees, s'.slots))
          && FromTree(config, Upper(s.trees, s.slots), Upper(s'.trees, s'.slots), req, idx, f))
    || (Unchanged(s, s') && Refusing(config, s, req, idx))
  }

  /** Nothing changed but the classes of trees. */
  ghost predicate Unchanged(s: System, s': System)
  {
    && s'.calls == s.calls && s'.low.threads == s.low.threads && s'.low.held == s.low.held && s'.slots == s.slots
    && SameCounts(s.trees, s'.trees)
  }

  /** Where the access to a tree leads. */
  lemma PickIs(config: Config, s: System, i: nat, req: Request, idx: nat)
    requires i < |s.calls| && s.calls[i] == Choose(req, None, Searching) && idx < |s.trees|
    ensures var s1, tree, n := Pick(config, s, i, TryTree(idx)), s.trees[idx], Frames(req);
            if UsesSlot(config, req, |s.trees|) then
              var a := TreeReserveOrSteal(tree, n, config.policy, req.cls);
              s1 == if a.None? then s
                    else s.(trees := s.trees[idx := a.value.tree],
                            calls := s.calls[i := if a.value.reserved
                                                  then Start(req, None, idx, tree.free, ByReserve(a.value.cls))
                                                  else Start(req, None, idx, n, BySteal(a.value.cls, true))])
            else
              var stolen := TreeSteal(tree, n, req.cls, config.policy);
              s1 == if stolen.None? then s
                    else s.(trees := s.trees[idx := stolen.value.tree],
                            calls := s.calls[i := Start(req, None, idx, n, BySteal(stolen.value.cls, false))])
  {
    hide Pow2, TreeReserveOrSteal, TreeSteal;
  }

  /** Under an ordered policy an access takes a class that trees can have. */
  lemma AccessKnown(config: Config, classes: set<nat>, s: System, carry: Carry, i: nat, req: Request, idx: nat)
    requires Only(config, classes, s, carry, i) && s.calls[i] == Choose(req, None, Searching) && idx < |s.trees|
    requires Ordered(config.policy)
    ensures var tree, n := s.trees[idx], Frames(req);
            var a, stolen := TreeReserveOrSteal(tree, n, config.policy, req.cls),
                             TreeSteal(tree, n, req.cls, config.policy);
            && (a.Some? <==> !tree.reserved && tree.free >= n) && (a.Some? ==> a.value.cls in classes)
            && (stolen.Some? <==> tree.free >= n)
  {
    hide Good, Pow2, TreeCount, Account, Ordered;
    Parts(config, classes, s, carry);
    CallParts(config, classes, s, carry, i);
    ClassKnown(BelowSum(config, s.low.m), Upper(s.trees, s.slots), carry, {}, classes, idx);
    OrderedNeverRefuses(s.trees[idx], Frames(req), req.cls, config.policy);
    OrderAt(config.policy, req.cls, s.trees[idx].cls, s.trees[idx].free);
  }

  /** What was taken from an entry and given back leaves the counter and the reservation as they were. */
  lemma BackAgain(config: Config, s: System, req: Request, idx: nat)
    requires idx < |s.trees|
    ensures var tree, n := s.trees[idx], Frames(req);
            && (var a := TreeReserveOrSteal(tree, n, config.policy, req.cls);
                a.Some? ==>
                  var back := if a.value.reserved then Restored(config, a.value.tree, tree.free, ByReserve(a.value.cls))
                              else Restored(config, a.value.tree, n, BySteal(a.value.cls, true));
                  back.Some? && back.value.free == tree.free && !back.value.reserved && !tree.reserved)
            && (var stolen := TreeSteal(tree, n, req.cls, config.policy);
                stolen.Some? ==>
                  var back := Restored(config, stolen.value.tree, n, BySteal(stolen.value.cls, false));
                  back.Some? && back.value.free == tree.free && back.value.reserved == tree.reserved)
  {
    hide Pow2;
    PutUndoes(s.trees[idx], Frames(req), req.cls, config.policy, config.defaultClass);
  }

  /** The attempt on a tree, as a whole. */
  lemma AfterAttempt(config: Config, s: System, s1: System, s': System, i: nat, req: Request, idx: nat)
    requires i < |s.calls| && s.calls[i] == Choose(req, None, Searching) && idx < |s.trees|
    requires s1 == Pick(config, s, i, TryTree(idx)) && i < |s1.calls| && s1.calls[i].Start?
    requires !Unslotted(config, s1.calls[i].from)
    requires Unserved(config, s1, s', i) || exists f :: Served(config, s1, s', i, f)
    ensures TriedTree(config, s, s', i, req, idx)
  {
    hide Pow2, Pick, Suits, NothingFor, Unheld, Block, Settled, TreeSteal, TreeReserveOrSteal, UsesSlot, Restored;
    PickIs(config, s, i, req, idx);
    var tree, n := s.trees[idx], Frames(req);
    BackAgain(config, s, req, idx);
    var w := Asked(req, None, idx);
    if f: nat :| Served(config, s1, s', i, f) {
      assert s1.calls[i := Rest] == s.calls[i := Rest];
      StealSettles(config, s1, s', i, f);
      assert Suits(config.frames, w, f) && TookAt(config, s, s', i, w, f, Upper(s'.trees, s'.slots));
      assert FromTree(config, Upper(s.trees, s.slots), Upper(s'.trees, s'.slots), req, idx, f);
    } else {
      assert s1.calls[i := s.calls[i]] == s.calls;
      assert SameCounts(s.trees, s'.trees) && s'.slots == s.slots;
      assert Unchanged(s, s') && NothingFor(Unheld(config.frames, s1.low), w) && Refusing(config, s, req, idx);
    }
  }

  lemma StealSettles(config: Config, s: System, s': System, i: nat, f: nat)
    requires i < |s.calls| && s.calls[i].Start? && Served(config, s, s', i, f)
    ensures s.calls[i].from.BySteal? ==> Upper(s'.trees, s'.slots) == Upper(s.trees, s.slots)
  {
    hide Pow2, Suits, Block;
  }

  lemma TreeEnds(config: Config, classes: set<nat>, s: System, carry: Carry, i: nat, req: Request, idx: nat)
    returns (n: nat, carry': Carry)
    requires Only(config, classes, s, carry, i) && s.calls[i] == Choose(req, None, Searching) && idx < |s.trees|
    requires Ordered(config.policy) && Stocked(config, classes)
    ensures var s' := Alone(config, Pick(config, s, i, TryTree(idx)), i, n);
            Only(config, classes, s', carry', i) && TriedTree(config, s, s', i, req, idx)
  {
    hide Good, Pow2, Pick, Suits, NothingFor, Unheld, Block, Ordered, Settled, TreeSteal, TreeReserveOrSteal,
      UsesSlot;
    PickIs(config, s, i, req, idx);
    AccessKnown(config, classes, s, carry, i, req, idx);
    carry' := PickKeeps(config, classes, s, carry, i, TryTree(idx));
    var s1 := Pick(config, s, i, TryTree(idx));
    n := 0;
    if s1.calls[i].Start? {
      n, carry' := AttemptEnds(config, classes, s1, carry', i);
      AfterAttempt(config, s, s1, Alone(config, s1, i, n), i, req, idx);
    } else {
      assert Alone(config, s1, i, 0) == s1 == s && Unchanged(s, s) && Refusing(config, s, req, idx);
    }
  }

  /** Tries trees in a given order, with `ns[k]` steps after the access to tree `idxs[k]`, until the call is over. */
  function TryTrees(config: Config, s: System, i: nat, idxs: seq<nat>, ns: seq<nat>): System
    requires |ns| == |idxs|
    decreases |idxs|
  {
    if idxs == [] || !(i < |s.calls| && s.calls[i].Choose?) then s
    else TryTrees(config, Alone(config, Pick(config, s, i, TryTree(idxs[0])), i, ns[0]), i, idxs[1..], ns[1..])
  }

  /** The call ended with a block that nobody held. */
  ghost predicate GotOne(config: Config, s: System, s': System, i: nat, order: nat)
    requires i < |s.calls|
  {
    && s'.calls == s.calls[i := Rest] && s'.low.threads == s.low.threads
    && exists f: nat {:trigger Managed(config.frames, f, order)} ::
         Managed(config.frames, f, order) && Block(f, Pow2(order)) !! s.low.held &&
         s'.low.held == s.low.held + Block(f, Pow2(order))
  }

  /** In whatever order the trees are tried, the call takes a block, or none of them serves it. */
  lemma {:induction false} TreesTried(config: Config, classes: set<nat>, s: System, carry: Carry, i: nat, req: Request,
                                      idxs: seq<nat>) returns (ns: seq<nat>, carry': Carry)
    requires Only(config, classes, s, carry, i) && s.calls[i] == Choose(req, None, Searching)
    requires Ordered(config.policy) && Stocked(config, classes) && forall k :: 0 <= k < |idxs| ==> idxs[k] < |s.trees|
    ensures |ns| == |idxs|
    ensures var s' := TryTrees(config, s, i, idxs, ns);
            && Only(config, classes, s', carry', i)
            && (GotOne(config, s, s', i, req.order) ||
                (Unchanged(s, s') && forall k :: 0 <= k < |idxs| ==> Refusing(config, s, req, idxs[k])))
    decreases |idxs|
  {
    hide Good, Pow2, Pick, Suits, NothingFor, Unheld, Block, Ordered, Stocked, FromTree, Refusing, GotOne,
      SameCounts;
    ns, carry' := [], carry;
    if idxs == [] {
      SameItself(s.trees);
    } else {
      var n;
      n, carry' := TreeEnds(config, classes, s, carry, i, req, idxs[0]);
      var s1 := Alone(config, Pick(config, s, i, TryTree(idxs[0])), i, n);
      if Unchanged(s, s1) && Refusing(config, s, req, idxs[0]) {
        CountsLength(s.trees, s1.trees);
        ns, carry' := TreesTried(config, classes, s1, carry', i, req, idxs[1..]);
        var s' := TryTrees(config, s1, i, idxs[1..], ns);
        assert ([n] + ns)[1..] == ns;
        ns := [n] + ns;
        GotSince(config, s, s1, s', i, req.order);
        if !GotOne(config, s1, s', i, req.order) {
          SameCountsThen(s.trees, s1.trees, s'.trees);
          forall k | 0 <= k < |idxs|
            ensures Refusing(config, s, req, idxs[k])
          {
            if k > 0 {
              assert idxs[k] == idxs[1..][k - 1];
              RefusingStill(config, s, s1, req, idxs[k]);
            }
          }
        }
      } else {
        TookOne(config, s, s1, i, req, idxs[0]);
        ns := seq(|idxs|, k => n);
        RestStops(config, s1, i, idxs[1..], ns[1..]);
      }
    }
  }

  lemma RestStops(config: Config, s: System, i: nat, idxs: seq<nat>, ns: seq<nat>)
    requires |idxs| == |ns| && i < |s.calls| && s.calls[i].Rest?
    ensures TryTrees(config, s, i, idxs, ns) == s
  {
    hide Pick, Step;
  }

  lemma TookOne(config: Config, s: System, s': System, i: nat, req: Request, idx: nat)
    requires i < |s.calls| && idx < |s.trees| && TriedTree(config, s, s', i, req, idx)
    requires !(Unchanged(s, s') && Refusing(config, s, req, idx))
    ensures GotOne(config, s, s', i, req.order) && i < |s'.calls| && s'.calls[i].Rest?
  {
    hide Pow2, NothingFor, Unheld, Block, FromTree, Refusing, SameCounts, Managed, TreeOf;
    var f: nat :| Suits(config.frames, Asked(req, None, idx), f) &&
        TookAt(config, s, s', i, Asked(req, None, idx), f, Upper(s'.trees, s'.slots));
    assert Managed(config.frames, f, req.order);
  }

  lemma SameItself(a: seq<Tree>)
    ensures SameCounts(a, a)
  {}

  lemma CountsLength(a: seq<Tree>, b: seq<Tree>)
    requires SameCounts(a, b)
    ensures |a| == |b|
  {}

  lemma GotSince(config: Config, s: System, s1: System, s': System, i: nat, order: nat)
    requires i < |s.calls| && Unchanged(s, s1)
    ensures i < |s1.calls| && (GotOne(config, s1, s', i, order) ==> GotOne(config, s, s', i, order))
  {
    hide Pow2, Block, Managed, SameCounts;
  }

  lemma RefusingStill(config: Config, s: System, s1: System, req: Request, idx: nat)
    requires Unchanged(s, s1) && idx < |s.trees| == |s1.trees| && Refusing(config, s1, req, idx)
    ensures Refusing(config, s, req, idx)
  {
    hide Pow2, NothingFor, UsesSlot;
    assert Unheld(config.frames, s1.low) == Unheld(config.frames, s.low);
  }

  // ---- a get, as a whole ----

  /** No slot is in use. */
  ghost predicate NoSlots(s: System)
  {
    forall k :: 0 <= k < |s.slots| ==> !s.slots[k].present
  }

  /** A get begins with the search when its slot is not in use. */
  lemma GetBegins(config: Config, classes: set<nat>, s: System, carry: Carry, i: nat, req: Request)
    returns (n: nat, carry': Carry)
    requires AtRest(s) && Good(config, classes, s, carry) && NoSlots(s) && MayBegin(config, s, i, Get(req, None))
    ensures i < |s.calls| == |s.low.threads|
    ensures var s' := Alone(config, Begin(config, s, i, Get(req, None)), i, n);
            Only(config, classes, s', carry', i) && s' == s.(calls := s.calls[i := Choose(req, None, Searching)])
  {
    hide Good, Pow2, Accepts, UsesSlot, SlotAt, TreePut, Unheld, NothingFor, Suits;
    carry' := BeginKeeps(config, classes, s, carry, i, Get(req, None));
    var b := Begin(config, s, i, Get(req, None));
    n := 0;
    assert Alone(config, b, i, 0) == b;
    if b.calls[i].FromLocal? {
      n, carry' := LocalEnds(config, classes, b, carry', i);
      assert b.calls[i := AfterLocal(req, None)] == s.calls[i := AfterLocal(req, None)];
    }
  }

  /** Without calls and slots in use, entries are not reserved and count exactly the free frames. */
  lemma EntriesExact(config: Config, classes: set<nat>, s: System, t: nat)
    requires AtRest(s) && Good(config, classes, s, NoCarry(TreeCount(config.frames))) && NoSlots(s)
    requires t < TreeCount(config.frames)
    ensures |s.trees| == TreeCount(config.frames)
    ensures !s.trees[t].reserved && s.trees[t].free == FreeOfTree(config.frames, s.low.m, t)
  {
    hide Good, TreeCount, FreeOfTree, LowerSpec.Inv, LowerSpec.Free, Block, BelowOf;
    ConcUpperTheorems.QuietIsSequential(config, classes, s);
    BelowIs(config.frames, s.low.m, t);
    var below, none := BelowOf(config.frames, s.low.m), NoCarry(TreeCount(config.frames));
    NothingHeld(s.slots, t);
    assert TreeAccount(below[t], s.trees[t], s.slots, t, none.frames[t], none.tokens[t], t !in {}, classes);
  }

  ghost predicate HasBlock(frames: nat, m: Mem, order: nat)
  {
    exists f: nat {:trigger Managed(frames, f, order)} ::
      Managed(frames, f, order) && Block(f, Pow2(order)) <= LowerSpec.Free(frames, m)
  }

  ghost predicate TookBlock(frames: nat, m: Mem, m': Mem, order: nat)
  {
    exists f: nat {:trigger Managed(frames, f, order)} ::
      Managed(frames, f, order) && Block(f, Pow2(order)) <= LowerSpec.Free(frames, m) &&
      LowerSpec.Free(frames, m') == LowerSpec.Free(frames, m) - Block(f, Pow2(order))
  }

  /** While all other calls rest and no slot is in use, a get takes a free block exactly if there is one, in whatever
      order it tries the trees. */
  lemma LoneGetServes(config: Config, classes: set<nat>, s: System, i: nat, req: Request, idxs: seq<nat>)
    returns (n: nat, ns: seq<nat>, carry': Carry)
    requires AtRest(s) && Good(config, classes, s, NoCarry(TreeCount(config.frames))) && NoSlots(s)
    requires MayBegin(config, s, i, Get(req, None)) && Ordered(config.policy) && Stocked(config, classes)
    requires forall k :: 0 <= k < |idxs| ==> idxs[k] < |s.trees|
    requires forall t: nat :: t < |s.trees| ==> t in idxs
    ensures i < |s.calls| == |s.low.threads| && |ns| == |idxs|
    ensures var b := Begin(config, s, i, Get(req, None));
            var s' := TryTrees(config, Alone(config, b, i, n), i, idxs, ns);
            && Only(config, classes, s', carry', i)
            && if HasBlock(config.frames, s.low.m, req.order)
               then AtRest(s') && LowerSpec.Inv(config.frames, s'.low.m) &&
                    TookBlock(config.frames, s.low.m, s'.low.m, req.order)
               else s'.calls[i] == Choose(req, None, Searching) && s'.low.held == s.low.held
  {
    hide Good, MayBegin, Ordered, Stocked, Refusing, Begin, HasBlock, TookBlock, LowerSpec.Inv, GotOne, TreeCount,
      NoSlots;
    n, carry' := GetBegins(config, classes, s, NoCarry(TreeCount(config.frames)), i, req);
    var s1 := Alone(config, Begin(config, s, i, Get(req, None)), i, n);
    ns, carry' := TreesTried(config, classes, s1, carry', i, req, idxs);
    var s' := TryTrees(config, s1, i, idxs, ns);
    if GotOne(config, s1, s', i, req.order) {
      GotBlock(config, classes, s, s1, s', carry', i, req);
    } else {
      NoneServes(config, classes, s, s1, i, req, idxs);
    }
  }

  lemma GotBlock(config: Config, classes: set<nat>, s: System, s1: System, s': System, carry: Carry, i: nat,
                 req: Request)
    requires AtRest(s) && Good(config, classes, s, NoCarry(TreeCount(config.frames))) && i < |s.calls|
    requires s1 == s.(calls := s.calls[i := Choose(req, None, Searching)]) && GotOne(config, s1, s', i, req.order)
    requires Good(config, classes, s', carry)
    ensures AtRest(s') && LowerSpec.Inv(config.frames, s'.low.m)
    ensures HasBlock(config.frames, s.low.m, req.order) && TookBlock(config.frames, s.low.m, s'.low.m, req.order)
  {
    hide Good, LowerSpec.Inv, LowerSpec.Free, Pow2, Block, TreeCount, Managed, Account, NoCarry, ConfigOk, RowsOk;
    var f: nat :| Managed(config.frames, f, req.order) && Block(f, Pow2(req.order)) !! s1.low.held &&
        s'.low.held == s1.low.held + Block(f, Pow2(req.order));
    assert s1.calls[i := Rest] == s.calls;
    QuietFree(config, classes, s, NoCarry(TreeCount(config.frames)));
    QuietFree(config, classes, s', carry);
    BlockManaged(config.frames, f, req.order);
    TakenFrom(Block(0, config.frames), s.low.held, Block(f, Pow2(req.order)), LowerSpec.Free(config.frames, s.low.m),
              LowerSpec.Free(config.frames, s'.low.m));
  }

  lemma TakenFrom(all: set<nat>, held: set<nat>, b: set<nat>, free: set<nat>, free': set<nat>)
    requires b <= all && b !! held && free == all - held && free' == all - (held + b)
    ensures b <= free && free' == free - b
  {}

  lemma BlockManaged(frames: nat, f: nat, order: nat)
    requires Managed(frames, f, order)
    ensures Block(f, Pow2(order)) <= Block(0, frames)
  {
    hide Pow2, Aligned;
  }

  /** Without calls in progress what nobody holds is free. */
  lemma QuietFree(config: Config, classes: set<nat>, s: System, carry: Carry)
    requires AtRest(s) && Good(config, classes, s, carry)
    ensures LowerSpec.Inv(config.frames, s.low.m)
    ensures LowerSpec.Free(config.frames, s.low.m) == Block(0, config.frames) - s.low.held
  {
    hide Good, CL.Good, LowerSpec.Inv, LowerSpec.Free, Block;
    Parts(config, classes, s, carry);
    CT.QuietIsSequential(config.frames, s.low);
    FreeWithin(config.frames, s.low.m);
    TakenBack(Block(0, config.frames), s.low.held, LowerSpec.Free(config.frames, s.low.m));
  }

  lemma FreeWithin(frames: nat, m: Mem)
    ensures LowerSpec.Free(frames, m) <= Block(0, frames)
  {}

  lemma TakenBack(all: set<nat>, held: set<nat>, free: set<nat>)
    requires free <= all && held == all - free
    ensures free == all - held
  {}

  lemma NoneServes(config: Config, classes: set<nat>, s: System, s1: System, i: nat, req: Request, idxs: seq<nat>)
    requires AtRest(s) && Good(config, classes, s, NoCarry(TreeCount(config.frames))) && NoSlots(s)
    requires i < |s.calls| && s1 == s.(calls := s.calls[i := Choose(req, None, Searching)])
    requires forall k :: 0 <= k < |idxs| ==> idxs[k] < |s.trees| && Refusing(config, s1, req, idxs[k])
    requires forall t: nat :: t < |s.trees| ==> t in idxs
    ensures !HasBlock(config.frames, s.low.m, req.order)
  {
    hide Good, TreeCount, FreeOfTree, Pow2, Aligned, TreeOf, UsesSlot, AtRest, NoSlots;
    QuietFree(config, classes, s, NoCarry(TreeCount(config.frames)));
    forall f: nat | Managed(config.frames, f, req.order)
      ensures !(Block(f, Pow2(req.order)) <= LowerSpec.Free(config.frames, s.low.m))
    {
      var t := TreeOf(f);
      BlockInTree(config.frames, f, req.order);
      EntriesExact(config, classes, s, t);
      TooFewFrames(config.frames, s.low.m, t, req.order);
      assert t in idxs;
      var k :| 0 <= k < |idxs| && idxs[k] == t;
      assert Refusing(config, s1, req, idxs[k]);
    }
  }

  // ---- a put, as a whole ----

  /** A put below that nothing is in the way of ends. */
  lemma {:induction false} PutBelow(config: Config, classes: set<nat>, s: System, carry: Carry, i: nat, low0: CL.State,
                                    held: set<nat>) returns (n: nat, carry': Carry)
    requires Only(config, classes, s, carry, i) && s.calls[i].PutRun? && CT.AllIdle(low0.threads)
    requires Giving(config.frames, low0, s.low, i, held) && i < |low0.threads|
    ensures var s' := Alone(config, s, i, n);
            && Only(config, classes, s', carry', i) && s' == s.(low := s'.low)
            && s'.low.threads == low0.threads && s'.low.held == held
    decreases StepsLeft(s.low.threads[i])
  {
    hide Good, CL.Good, StepsLeft, RoundsLeft, CW.Calm, Step;
    n, carry' := 0, carry;
    if s.low.threads[i].Idle? {
      assert low0.threads[i := CL.Idle] == low0.threads;
    } else {
      PutLowStep(config, classes, s, carry, i);
      GivingStep(config.frames, low0, s.low, i, held);
      PutNearer(config.frames, s.low, i);
      PutRounds(s.low.threads[i], CL.Step(s.low, i).threads[i]);
      carry' := OnlyStep(config, classes, s, carry, i);
      n, carry' := PutBelow(config, classes, Step(config, s, i), carry', i, low0, held);
      AloneNext(config, s, i, n);
      n := n + 1;
    }
  }

  lemma PutLowStep(config: Config, classes: set<nat>, s: System, carry: Carry, i: nat)
    requires Only(config, classes, s, carry, i) && s.calls[i].PutRun? && Putting(s.low.threads[i])
    ensures Step(config, s, i) == s.(low := CL.Step(s.low, i))
  {
    hide Good, CL.Good, CL.StepBy;
    Parts(config, classes, s, carry);
    SameLow(config, s, i);
  }

  lemma PutRounds(p: CL.Pc, q: CL.Pc)
    requires Putting(p) && Nearer(q, p)
    ensures 0 <= StepsLeft(q) < StepsLeft(p)
  {}

  /** While all other calls rest, a put frees its block and nothing else, and counts its frames in the slot of the
      request if that holds the tree, and else in the entry. */
  lemma LonePutCounts(config: Config, classes: set<nat>, s: System, i: nat, req: Request, frame: nat)
    returns (n: nat, carry': Carry)
    requires AtRest(s) && Good(config, classes, s, NoCarry(TreeCount(config.frames)))
    requires MayBegin(config, s, i, Put(req, frame))
    ensures i < |s.calls| == |s.low.threads|
    ensures var s' := Alone(config, Begin(config, s, i, Put(req, frame)), i, n);
            && Only(config, classes, s', carry', i) && AtRest(s') && LowerSpec.Inv(config.frames, s'.low.m)
            && LowerSpec.Free(config.frames, s'.low.m) ==
                 LowerSpec.Free(config.frames, s.low.m) + Block(frame, Frames(req))
            && Counted(Upper(s.trees, s.slots), Upper(s'.trees, s'.slots),
                       if req.local.Some? then Some(OwnAt(config, req, req.cls)) else None, TreeOf(frame), Frames(req),
                       config.policy, config.defaultClass)
  {
    hide Good, CL.Good, TreeCount, Pow2, Block, TreeOf, Giving, Counted, LowerSpec.Inv, LowerSpec.Free, Accepts,
      Step, CL.MayBegin;
    Parts(config, classes, s, NoCarry(TreeCount(config.frames)));
    carry' := BeginKeeps(config, classes, s, NoCarry(TreeCount(config.frames)), i, Put(req, frame));
    var b := Begin(config, s, i, Put(req, frame));
    GivingBegins(config.frames, s.low, i, frame, req.order);
    n, carry' := PutBelow(config, classes, b, carry', i, s.low, s.low.held - Block(frame, Frames(req)));
    var s1 := Alone(config, b, i, n);
    var m;
    m, carry' := PutCounts(config, classes, s1, carry', i);
    AloneMore(config, b, i, n, m);
    PutFrees(config, classes, s, Alone(config, s1, i, m), carry', i, req, frame);
    n := n + m;
  }

  /** The end of a put: its frames are counted. */
  lemma PutCounts(config: Config, classes: set<nat>, s: System, carry: Carry, i: nat) returns (n: nat, carry': Carry)
    requires Only(config, classes, s, carry, i) && s.calls[i].PutRun? && s.low.threads[i].Idle?
    ensures var PutRun(req, frame) := s.calls[i];
            var s' := Alone(config, s, i, n);
            && Only(config, classes, s', carry', i) && s'.calls == s.calls[i := Rest] && s'.low == s.low
            && Counted(Upper(s.trees, s.slots), Upper(s'.trees, s'.slots),
                       if req.local.Some? then Some(OwnAt(config, req, req.cls)) else None, TreeOf(frame), Frames(req),
                       config.policy, config.defaultClass)
  {
    hide Good, Pow2, TreeOf, SlotAt;
    var PutRun(req, frame) := s.calls[i];
    carry' := OnlyStep(config, classes, s, carry, i);
    AloneNext(config, s, i, 0);
    n := 1;
    var s1 := Step(config, s, i);
    carry' := OnlyStep(config, classes, s1, carry', i);
    AloneNext(config, s1, i, 0);
    AloneNext(config, s, i, 1);
    n := 2;
    var s2 := Step(config, s1, i);
    if s2.calls[i].PutBack? {
      carry' := OnlyStep(config, classes, s2, carry', i);
      AloneNext(config, s2, i, 0);
      AloneNext(config, s1, i, 1);
      AloneNext(config, s, i, 2);
      n := 3;
    }
  }

  lemma PutFrees(config: Config, classes: set<nat>, s: System, s': System, carry: Carry, i: nat, req: Request,
                 frame: nat)
    requires AtRest(s) && Good(config, classes, s, NoCarry(TreeCount(config.frames))) &&
             Good(config, classes, s', carry)
    requires MayBegin(config, s, i, Put(req, frame)) && s'.calls == s.calls && s'.low.threads == s.low.threads
    requires s'.low.held == s.low.held - Block(frame, Frames(req))
    ensures AtRest(s') && LowerSpec.Inv(config.frames, s'.low.m)
    ensures LowerSpec.Free(config.frames, s'.low.m) ==
            LowerSpec.Free(config.frames, s.low.m) + Block(frame, Frames(req))
  {
    hide Good, TreeCount, Pow2, Block, LowerSpec.Inv, LowerSpec.Free, Accepts;
    QuietFree(config, classes, s, NoCarry(TreeCount(config.frames)));
    QuietFree(config, classes, s', carry);
    BlockManaged(config.frames, frame, req.order);
    GivenBack(Block(0, config.frames), s.low.held, Block(frame, Frames(req)));
  }

  lemma GivenBack(all: set<nat>, held: set<nat>, b: set<nat>)
    requires b <= held && b <= all
    ensures all - (held - b) == (all - held) + b
  {}
}
