/** The steps of the upper level, one lemma for each kind of call. */
module ConcUpperSteps {
  import opened Base
  import opened Children
  import opened LowerSpec
  import opened LowerWhole
  import opened Policies
  import opened TreeEntries
  import opened Locals
  import opened Accounts
  import opened UpperSpec
  import opened UpperLemmas
  import opened ConcUpper
  import opened ConcCredit
  import opened ConcUpperProof
  import CL = ConcLower
  import CP = ConcProof

  // ---- slots and classes ----

  lemma SlotInside(config: Config, classes: set<nat>, slots: nat, cls: nat, index: nat)
    requires ConfigOk(config, classes, slots) && index < SlotsOf(config, cls)
    ensures SlotAt(config, cls, index) < slots && cls in classes && cls < MAX_CLASSES
  {}

  /** The slot that a request names. */
  lemma RequestSlot(config: Config, classes: set<nat>, slots: nat, req: Request, given: Option<nat>)
    requires ConfigOk(config, classes, slots) && RequestOk(config, classes, req, given) && req.local.Some?
    ensures SlotAt(config, req.cls, req.local.value) < slots
  {
    SlotInside(config, classes, slots, req.cls, req.local.value);
  }

  lemma RequestClass(config: Config, classes: set<nat>, slots: nat, req: Request, given: Option<nat>)
    requires ConfigOk(config, classes, slots) && RequestOk(config, classes, req, given)
    ensures req.cls < MAX_CLASSES && Bits3(req.cls) == req.cls && Bits3(req.cls) in classes && req.order <= TREE_ORDER
    ensures Bits3(config.defaultClass) in classes
  {}

  /** A get that goes on without having taken anything. */
  lemma GoesOn(config: Config, classes: set<nat>, s: System, carry: Carry, i: nat, c: Call)
    requires Good(config, classes, s, carry) && i < |s.calls| && CallOk(config, classes, c) &&
             |s.calls| == |s.low.threads|
    requires LowOk(config, c, s.low.threads[i])
    requires forall x :: 0 <= x < TreeCount(config.frames) ==>
               Carries(c, x) == Carries(s.calls[i], x) && Tokens(c, x) == Tokens(s.calls[i], x)
    ensures Good(config, classes, SetCall(s, i, c), carry)
  {
    hide Good, TreeCount, Carries, Tokens, CallOk, LowOk, RowsOk;
    Parts(config, classes, s, carry);
    Finish(config, classes, s, carry, i, SetCall(s, i, c), c, carry);
  }

  /** Frames of a present slot start in its tree. */
  lemma FromSlot(config: Config, classes: set<nat>, s: System, carry: Carry, at: nat)
    requires Good(config, classes, s, carry) && at < |s.slots| && s.slots[at].present
    ensures TreeOfRow(s.slots[at].startRow) < TreeCount(config.frames) && 64 * s.slots[at].startRow < config.frames
  {
    hide TreeAccount, TreeCount, CallOk, LowOk, CL.Good;
    Parts(config, classes, s, carry);
    SlotTree(BelowSum(config, s.low.m), Upper(s.trees, s.slots), carry, {}, classes, at);
  }

  /** The slot keeps its row: rows stay managed. */
  lemma SameRows(config: Config, slots: seq<Reserved>, at: nat, r: Reserved)
    requires RowsOk(config, slots) && at < |slots| && (r.present ==> 64 * r.startRow < config.frames)
    ensures RowsOk(config, slots[at := r])
  {}

  // ---- the slot of the request ----

  lemma LocalKeeps(config: Config, classes: set<nat>, s: System, carry: Carry, i: nat) returns (carry': Carry)
    requires Good(config, classes, s, carry) && i < |s.calls| == |s.low.threads| && s.calls[i].FromLocal?
    ensures Good(config, classes, Step(config, s, i), carry')
  {
    hide Good, FromOk, TreeCount, TreeAccount, Account, Pow2, TreeOf, RequestOk, RowsOk, TreeOfRow, ConfigOk,
      CL.ThreadOk, PcTree, PcOrder, Putting, CL.Getting;
    Parts(config, classes, s, carry);
    CallParts(config, classes, s, carry, i);
    var FromLocal(req, given, sync) := s.calls[i];
    RequestSlot(config, classes, |s.slots|, req, given);
    var at := SlotAt(config, req.cls, req.local.value);
    var slot := s.slots[at];
    match ReservedDec(slot, FilterOf(given), Frames(req))
    case Some(r) =>
      TakeFromSlot(BelowSum(config, s.low.m), Upper(s.trees, s.slots), carry, {}, classes, at, FilterOf(given),
                   Frames(req));
      FromSlot(config, classes, s, carry, at);
      StartTree(slot.startRow);
      carry' := carry.Add(TreeOfRow(slot.startRow), Frames(req));
      SameRows(config, s.slots, at, r);
      var c := Start(req, given, TreeOfRow(slot.startRow), Frames(req), OwnSlot(slot.startRow));
      InClasses(config, classes, req, given);
      Starts(config, classes, |s.slots|, req, given, TreeOfRow(slot.startRow), Frames(req), OwnSlot(slot.startRow));
      Finish(config, classes, s, carry, i, Step(config, s, i), c, carry');
    case None =>
      carry' := carry;
      if sync && slot.present && slot.free < Frames(req) {
        FromSlot(config, classes, s, carry, at);
        GoesOn(config, classes, s, carry, i, Sync(req, given, TreeOfRow(slot.startRow), Frames(req) - slot.free));
      } else {
        GoesOn(config, classes, s, carry, i, AfterLocal(req, given));
      }
  }

  /** An allocation may start in tree `t` with its frames. */
  lemma Starts(config: Config, classes: set<nat>, slots: nat, req: Request, given: Option<nat>, t: nat, n: nat,
               from: From)
    requires ConfigOk(config, classes, slots) && GetOk(config, classes, req, given) && t < TreeCount(config.frames)
    requires if from.ByReserve? then Frames(req) <= n else n == Frames(req)
    requires from.ByReserve? || from.BySteal? ==> given.None?
    requires given.Some? ==> t == TreeOf(given.value)
    requires ClassOf(req, from) in classes && (from.OwnSlot? ==> req.local.Some?)
    requires match from
             case OwnSlot(row) => 64 * row < config.frames && TreeOfRow(row) == t
             case OtherSlot(_, row) => 64 * row < config.frames && TreeOfRow(row) == t
             case ByDemote(row) => 64 * row < config.frames && TreeOfRow(row) == t
             case _ => true
    ensures CallOk(config, classes, Start(req, given, t, n, from))
  {
    hide Pow2, TreeOf, TreeCount, RequestOk, ConfigOk, TreeFrame;
    TreeStart(config.frames, t);
    match from
    case OwnSlot(row) => StartTree(row);
    case OtherSlot(_, row) => StartTree(row);
    case ByDemote(row) => StartTree(row);
    case _ =>
  }

  lemma SyncKeeps(config: Config, classes: set<nat>, s: System, carry: Carry, i: nat) returns (carry': Carry)
    requires Good(config, classes, s, carry) && i < |s.calls| == |s.low.threads| && s.calls[i].Sync?
    ensures Good(config, classes, Step(config, s, i), carry')
  {
    hide Good, FromOk, TreeCount, TreeAccount, Account, Pow2, TreeOf, RequestOk, RowsOk, TreeOfRow, ConfigOk,
      CL.ThreadOk, PcTree, PcOrder, Putting, CL.Getting;
    Parts(config, classes, s, carry);
    CallParts(config, classes, s, carry, i);
    var Sync(req, given, t, min) := s.calls[i];
    if TreeSyncSteal(s.trees[t], min).Some? {
      SyncTree(BelowSum(config, s.low.m), Upper(s.trees, s.slots), carry, {}, classes, t, min);
      carry' := carry.Add(t, s.trees[t].free);
      Finish(config, classes, s, carry, i, Step(config, s, i), SyncPut(req, given, t, s.trees[t].free), carry');
    } else {
      carry' := carry;
      GoesOn(config, classes, s, carry, i, AfterLocal(req, given));
    }
  }

  /** Carried frames go into the slot `at`, whose counter has room. */
  lemma PutsIntoSlot(config: Config, classes: set<nat>, s: System, carry: Carry, i: nat, at: nat, t: nat, n: nat,
                     next: Call)
    returns (carry': Carry)
    requires Good(config, classes, s, carry) && i < |s.calls| == |s.low.threads| && at < |s.slots| &&
             t < TreeCount(config.frames)
    requires carry.For(TreeCount(config.frames)) && n <= carry.frames[t] && ReservedInc(s.slots[at], t, n).Some?
    requires CallOk(config, classes, next) && LowOk(config, next, s.low.threads[i])
    requires forall x: nat :: Carries(s.calls[i], x) == Carries(next, x) + (if x == t then n else 0)
    requires forall x: nat :: Tokens(s.calls[i], x) == Tokens(next, x)
    ensures var r := ReservedInc(s.slots[at], t, n).value;
            r.free <= TREE_SIZE && Good(config, classes, SetCall(s.(slots := s.slots[at := r]), i, next), carry')
  {
    hide Good, TreeCount, TreeAccount, Account, RowsOk, TreeOfRow, ConfigOk, CallOk, LowOk, Carries, Tokens;
    Parts(config, classes, s, carry);
    PutIntoSlot(BelowSum(config, s.low.m), Upper(s.trees, s.slots), carry, {}, classes, at, t, n);
    FromSlot(config, classes, s, carry, at);
    var r := ReservedInc(s.slots[at], t, n).value;
    SameRows(config, s.slots, at, r);
    carry' := carry.Sub(t, n);
    Finish(config, classes, s, carry, i, SetCall(s.(slots := s.slots[at := r]), i, next), next, carry');
  }

  lemma SyncPutKeeps(config: Config, classes: set<nat>, s: System, carry: Carry, i: nat) returns (carry': Carry)
    requires Good(config, classes, s, carry) && i < |s.calls| == |s.low.threads| && s.calls[i].SyncPut?
    ensures var c := s.calls[i]; Good(config, classes, SyncPutStep(config, s, i, c.req, c.given, c.t, c.n), carry')
  {
    hide Good, FromOk, TreeCount, TreeAccount, Account, Pow2, TreeOf, RequestOk, RowsOk, TreeOfRow, ConfigOk,
      TreeCharge, CL.ThreadOk, PcTree, PcOrder, Putting, CL.Getting;
    Parts(config, classes, s, carry);
    CallParts(config, classes, s, carry, i);
    var SyncPut(req, given, t, n) := s.calls[i];
    RequestSlot(config, classes, |s.slots|, req, given);
    var at := SlotAt(config, req.cls, req.local.value);
    CarriedBy(config, classes, s, carry, i, t);
    IdleOwesNothing(config, s, i, t);
    if ReservedInc(s.slots[at], t, n).Some? {
      carry' := PutsIntoSlot(config, classes, s, carry, i, at, t, n, FromLocal(req, given, false));
    } else {
      carry' := carry;
      GoesOn(config, classes, s, carry, i, PutBack(t, n, AfterLocal(req, given)));
    }
  }

  /** An idle thread below owes nothing. */
  lemma IdleOwesNothing(config: Config, s: System, i: nat, x: nat)
    requires i < |s.low.threads| && s.low.threads[i].Idle?
    ensures TreeCharge(s.low.threads[i], x) == 0
  {
    ChargeInTree(config.frames, s.low.m, s.low.threads[i], x);
  }

  // ---- giving back ----

  lemma PutBackKeeps(config: Config, classes: set<nat>, s: System, carry: Carry, i: nat) returns (carry': Carry)
    requires Good(config, classes, s, carry) && i < |s.calls| == |s.low.threads| && s.calls[i].PutBack?
    ensures Good(config, classes, Step(config, s, i), carry')
  {
    hide Good, FromOk, TreeCount, TreeAccount, Account, RowsOk, TreeCharge, TreePut, ConfigOk;
    Parts(config, classes, s, carry);
    CallParts(config, classes, s, carry, i);
    DefaultOk(config, classes, |s.slots|);
    var PutBack(t, n, next) := s.calls[i];
    CarriedBy(config, classes, s, carry, i, t);
    IdleOwesNothing(config, s, i, t);
    PutIntoTree(BelowSum(config, s.low.m), Upper(s.trees, s.slots), carry, {}, classes, t, n, config.policy,
                config.defaultClass);
    carry' := carry.Sub(t, n);
    Finish(config, classes, s, carry, i, Step(config, s, i), next, carry');
  }

  lemma DefaultOk(config: Config, classes: set<nat>, slots: nat)
    requires ConfigOk(config, classes, slots)
    ensures Bits3(config.defaultClass) in classes && 512 <= config.frames <= 64 * ROW_LIMIT
    ensures forall c :: c in classes ==> Bits3(c) == c
  {}

  /** The tree is reserved, and its counter has room. */
  lemma UnreserveKeeps(config: Config, classes: set<nat>, s: System, carry: Carry, i: nat) returns (carry': Carry)
    requires Good(config, classes, s, carry) && i < |s.calls| == |s.low.threads| && s.calls[i].Unreserve?
    ensures Good(config, classes, Step(config, s, i), carry')
  {
    hide Good, FromOk, TreeCount, TreeAccount, Account, RowsOk, TreeCharge, TreeUnreserve, ConfigOk, CL.ThreadOk;
    Parts(config, classes, s, carry);
    CallParts(config, classes, s, carry, i);
    DefaultOk(config, classes, |s.slots|);
    var Unreserve(t, n, cls, next) := s.calls[i];
    CarriedBy(config, classes, s, carry, i, t);
    CreditOk(config, classes, s.low.m, next, s.low.threads[i], t);
    UnreserveTree(BelowSum(config, s.low.m), Upper(s.trees, s.slots), carry, {}, classes, t, n, cls, config.policy,
                  config.defaultClass);
    carry' := carry.Sub(t, n).Drop(t);
    Finish(config, classes, s, carry, i, Step(config, s, i), next, carry');
  }

  // ---- slots take over trees ----

  /** What `Released` adds is what the unreservation carries. */
  lemma ReleasedCarry(carry: Carry, r: Reserved, n: nat, x: nat)
    requires carry.For(n) && (r.present ==> TreeOfRow(r.startRow) < n) && x < n
    ensures Released(carry, r).For(n)
    ensures Released(carry, r).frames[x] == carry.frames[x] + if r.present &&
            TreeOfRow(r.startRow) == x then r.free else 0
    ensures Released(carry, r).tokens[x] == carry.tokens[x] + if r.present && TreeOfRow(r.startRow) == x then 1 else 0
  {
    hide TreeOfRow;
  }

  lemma ReleasedFor(carry: Carry, r: Reserved, n: nat)
    requires carry.For(n) && (r.present ==> TreeOfRow(r.startRow) < n)
    ensures Released(carry, r).For(n)
  {
    hide TreeOfRow;
  }

  /** The slot `at` takes over the carried tree of `r`, and the call goes on by giving up what the slot
      held before. */
  lemma TakesOver(config: Config, classes: set<nat>, s: System, carry: Carry, i: nat, at: nat, r: Reserved, cls: nat,
                  rest: Call)
    returns (carry': Carry)
    requires Good(config, classes, s, carry) && i < |s.calls| == |s.low.threads| && at < |s.slots| && cls in classes
    requires carry.For(TreeCount(config.frames)) && r.present && 64 * r.startRow < config.frames
    requires var t := TreeOfRow(r.startRow);
             t < TreeCount(config.frames) && r.free <= carry.frames[t] && carry.tokens[t] > 0
    requires CallOk(config, classes, rest) && LowOk(config, rest, s.low.threads[i])
    requires forall x: nat ::
               && Carries(s.calls[i], x) == Carries(rest, x) + (if x == TreeOfRow(r.startRow) then r.free else 0)
               && Tokens(s.calls[i], x) == Tokens(rest, x) + (if x == TreeOfRow(r.startRow) then 1 else 0)
    ensures var prev := s.slots[at];
            Good(config, classes,
                 SetCall(s.(slots := s.slots[at := r]), i,
                         if prev.present then Unreserve(TreeOfRow(prev.startRow), prev.free, cls, rest)
                             else rest), carry')
  {
    hide Good, FromOk, TreeCount, TreeAccount, Account, RowsOk, TreeOfRow, ConfigOk, RequestOk, FromOk, Released,
      PcTree, PcOrder, Putting, CL.Getting;
    Parts(config, classes, s, carry);
    var prev, t := s.slots[at], TreeOfRow(r.startRow);
    SwapSlot(BelowSum(config, s.low.m), Upper(s.trees, s.slots), carry, {}, classes, at, r);
    var spent := carry.Sub(t, r.free).Drop(t);
    carry' := Released(spent, prev);
    SameRows(config, s.slots, at, r);
    var c := if prev.present then Unreserve(TreeOfRow(prev.startRow), prev.free, cls, rest) else rest;
    GivesUp(config, classes, prev, cls, rest, s.low.threads[i]);
    ReleasedFor(spent, prev, TreeCount(config.frames));
    forall x: nat | x < TreeCount(config.frames)
      ensures carry'.frames[x] + Carries(s.calls[i], x) == carry.frames[x] + Carries(c, x)
      ensures carry'.tokens[x] + Tokens(s.calls[i], x) == carry.tokens[x] + Tokens(c, x)
    {
      ReleasedCarry(spent, prev, TreeCount(config.frames), x);
    }
    Finish(config, classes, s, carry, i, SetCall(s.(slots := s.slots[at := r]), i, c), c, carry');
  }

  /** Giving up what a slot held comes before the rest of the call. */
  lemma GivesUp(config: Config, classes: set<nat>, prev: Reserved, cls: nat, rest: Call, p: CL.Pc)
    requires CallOk(config, classes, rest) && LowOk(config, rest, p) && cls in classes
    requires prev.present ==> TreeOfRow(prev.startRow) < TreeCount(config.frames)
    ensures var c := if prev.present then Unreserve(TreeOfRow(prev.startRow), prev.free, cls, rest) else rest;
            && CallOk(config, classes, c) && LowOk(config, c, p)
            && forall x: nat ::
                 && Carries(c, x) == Carries(rest, x) + (if prev.present &&
                                                         TreeOfRow(prev.startRow) == x then prev.free else 0)
                 && Tokens(c, x) == Tokens(rest, x) + (if prev.present && TreeOfRow(prev.startRow) == x then 1 else 0)
  {
    hide TreeCount, TreeOfRow, RequestOk, FromOk, PcTree, PcOrder;
  }

  lemma SwapKeeps(config: Config, classes: set<nat>, s: System, carry: Carry, i: nat) returns (carry': Carry)
    requires Good(config, classes, s, carry) && i < |s.calls| == |s.low.threads| && s.calls[i].Swap?
    ensures Good(config, classes, Step(config, s, i), carry')
  {
    hide Good, FromOk, TreeCount, TreeAccount, Account, RowsOk, TreeCharge, TreeOfRow, RowFromTree, ConfigOk,
      CL.ThreadOk, Pow2, TreeFrame, PcTree, PcOrder, RequestOk, Released, NewReserved, TreeOf, Putting, CL.Getting;
    Parts(config, classes, s, carry);
    CallParts(config, classes, s, carry, i);
    DefaultOk(config, classes, |s.slots|);
    var Swap(req, t, n, target) := s.calls[i];
    var len := SlotsOf(config, target);
    var index := if req.local.Some? then req.local.value % len else 0;
    SlotInside(config, classes, |s.slots|, target, index);
    var at := SlotAt(config, target, index);
    CarriedBy(config, classes, s, carry, i, t);
    HandOwes(config, s, i, t);
    var r := NewReserved(true, n - Frames(req), RowFromTree(t));
    NewRow(config, n - Frames(req), t);
    carry' := TakesOver(config, classes, s, carry, i, at, r, target, Return(req, t, Frames(req), target));
  }

  /** A thread that hands over a block owes just its frames. */
  lemma HandOwes(config: Config, s: System, i: nat, x: nat)
    requires i < |s.low.threads| && s.low.threads[i].Hand? && CL.ThreadOk(config.frames, s.low.m, s.low.threads[i])
    ensures TreeCharge(s.low.threads[i], x) == if x == PcTree(s.low.threads[i]) then Pow2(s.low.threads[i].order) else 0
  {
    ChargeInTree(config.frames, s.low.m, s.low.threads[i], x);
  }

  lemma NewRow(config: Config, free: nat, t: nat)
    requires config.frames <= 64 * ROW_LIMIT && t < TreeCount(config.frames)
    ensures var r := NewReserved(true, free, RowFromTree(t));
            r.present && r.free == free && TreeOfRow(r.startRow) == t && 64 * r.startRow < config.frames
  {
    hide TreeCount, RowFromTree, TreeOfRow, TreeFrame;
    TreeStart(config.frames, t);
    RowOfTree(config.frames, t);
  }

  lemma MovedKeeps(config: Config, classes: set<nat>, s: System, carry: Carry, i: nat) returns (carry': Carry)
    requires Good(config, classes, s, carry) && i < |s.calls| == |s.low.threads| && s.calls[i].Moved?
    ensures Good(config, classes, Step(config, s, i), carry')
  {
    hide Good, FromOk, TreeCount, TreeAccount, Account, RowsOk, TreeCharge, TreeOfRow, ConfigOk, CL.ThreadOk, Pow2,
      TreeFrame, RequestOk, Released, TreeOf;
    Parts(config, classes, s, carry);
    CallParts(config, classes, s, carry, i);
    DefaultOk(config, classes, |s.slots|);
    var Moved(req, given, t, taken) := s.calls[i];
    RequestClass(config, classes, |s.slots|, req, given);
    InClasses(config, classes, req, given);
    var rest := Start(req, given, t, Frames(req), ByDemote(taken.startRow));
    Starts(config, classes, |s.slots|, req, given, t, Frames(req), ByDemote(taken.startRow));
    if req.local.Some? && req.local.value < SlotsOf(config, req.cls) {
      RequestSlot(config, classes, |s.slots|, req, given);
      var at := SlotAt(config, req.cls, req.local.value);
      CarriedBy(config, classes, s, carry, i, t);
      IdleOwesNothing(config, s, i, t);
      carry' := TakesOver(config, classes, s, carry, i, at, taken, req.cls, rest);
    } else {
      carry' := carry;
      GoesOn(config, classes, s, carry, i, Unreserve(t, taken.free, req.cls, rest));
    }
  }

  lemma InClasses(config: Config, classes: set<nat>, req: Request, given: Option<nat>)
    requires RequestOk(config, classes, req, given)
    ensures req.cls in classes && RequestOk(config, classes, req, None)
  {}

  lemma SetStartKeeps(config: Config, classes: set<nat>, s: System, carry: Carry, i: nat) returns (carry': Carry)
    requires Good(config, classes, s, carry) && i < |s.calls| == |s.low.threads| && s.calls[i].SetStart?
    ensures Good(config, classes, Step(config, s, i), carry')
  {
    hide Good, FromOk, TreeCount, TreeAccount, Account, RowsOk, TreeCharge, TreeOfRow, ConfigOk, CL.ThreadOk, Pow2,
      TreeFrame, RequestOk, PcTree, TreeOf;
    Parts(config, classes, s, carry);
    CallParts(config, classes, s, carry, i);
    DefaultOk(config, classes, |s.slots|);
    var SetStart(req, t, frame) := s.calls[i];
    RequestSlot(config, classes, |s.slots|, req, None);
    InClasses(config, classes, req, None);
    var at := SlotAt(config, req.cls, req.local.value);
    var slot := s.slots[at];
    HandManaged(config, s, i);
    var moved := ReservedSetStart(slot, frame / 64);
    var r := if moved.Some? then moved.value else slot;
    if slot.present {
      FromSlot(config, classes, s, carry, at);
    }
    StartRow(config, frame);
    MoveStart(BelowSum(config, s.low.m), Upper(s.trees, s.slots), carry, {}, classes, at, r);
    SameRows(config, s.slots, at, r);
    carry' := carry;
    Finish(config, classes, s, carry, i, Step(config, s, i), Return(req, t, Frames(req), req.cls), carry');
  }

  lemma StartRow(config: Config, frame: nat)
    requires frame < config.frames <= 64 * ROW_LIMIT
    ensures frame / 64 % ROW_LIMIT == frame / 64 && 64 * (frame / 64) < config.frames
  {}

  lemma HandManaged(config: Config, s: System, i: nat)
    requires i < |s.low.threads| && s.low.threads[i].Hand? && CL.ThreadOk(config.frames, s.low.m, s.low.threads[i])
    ensures s.low.threads[i].frame < config.frames &&
            Managed(config.frames, s.low.threads[i].frame, s.low.threads[i].order)
  {
    hide Pow2;
  }

  lemma PutSlotKeeps(config: Config, classes: set<nat>, s: System, carry: Carry, i: nat) returns (carry': Carry)
    requires Good(config, classes, s, carry) && i < |s.calls| == |s.low.threads| && s.calls[i].PutSlot?
    ensures var c := s.calls[i]; Good(config, classes, PutSlotStep(config, s, i, c.req, c.t, c.n), carry')
  {
    hide Good, FromOk, TreeCount, TreeAccount, Account, Pow2, TreeOf, RequestOk, RowsOk, TreeOfRow, ConfigOk,
      TreeCharge, CL.ThreadOk, PcTree, PcOrder, Putting, CL.Getting;
    Parts(config, classes, s, carry);
    CallParts(config, classes, s, carry, i);
    var PutSlot(req, t, n) := s.calls[i];
    RequestSlot(config, classes, |s.slots|, req, None);
    var at := SlotAt(config, req.cls, req.local.value);
    CarriedBy(config, classes, s, carry, i, t);
    IdleOwesNothing(config, s, i, t);
    if ReservedInc(s.slots[at], t, n).Some? {
      carry' := PutsIntoSlot(config, classes, s, carry, i, at, t, n, Rest);
    } else {
      carry' := carry;
      GoesOn(config, classes, s, carry, i, PutBack(t, n, Rest));
    }
  }
}
