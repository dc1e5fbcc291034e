/** The whole allocator with any number of threads: one step is one compare-and-swap or update of one
    tree entry, slot, child or row. Trees are never brought offline here. */
module ConcUpper {
  import opened Base
  import opened Children
  import opened LowerSpec
  import opened LowerLemmas
  import opened LowerWhole
  import opened Policies
  import opened TreeEntries
  import opened Locals
  import opened Accounts
  import opened UpperSpec
  import CL = ConcLower
  import CW = ConcWritten

  /** `undo` says which undo loops the lower allocator has. */
  datatype Config = Config(frames: nat, slices: seq<Slice>, policy: PolicyFn, defaultClass: nat, undo: Undo)

  /** Where the frames of an allocation come from. */
  datatype From =
    | OwnSlot(row: nat)
    | ByReserve(target: nat)
    | BySteal(target: nat, checked: bool)
    | OtherSlot(target: nat, row: nat)
    | AtTree(target: nat)
    | ByDemote(row: nat)

  /** The parts of a get: the tree of a given block, the search over trees, the slots to steal from,
      and the slots to demote. */
  datatype Stage = AtGiven | Searching | Slots | Demoting

  /** Where a call is. `t` and `n` are a tree and the frames of it that the call carries. */
  datatype Call =
    | Rest
    | FromLocal(req: Request, given: Option<nat>, sync: bool)
    | Sync(req: Request, given: Option<nat>, t: nat, min: nat)
    | SyncPut(req: Request, given: Option<nat>, t: nat, n: nat)
    | Choose(req: Request, given: Option<nat>, stage: Stage)
    | Start(req: Request, given: Option<nat>, t: nat, n: nat, from: From)
    | Run(req: Request, given: Option<nat>, t: nat, n: nat, from: From)
    | Swap(req: Request, t: nat, n: nat, target: nat)
    | SetStart(req: Request, t: nat, frame: nat)
    | Return(req: Request, t: nat, n: nat, cls: nat)
    | PutBack(t: nat, n: nat, next: Call)
    | Unreserve(t: nat, n: nat, cls: nat, next: Call)
    | Moved(req: Request, given: Option<nat>, t: nat, taken: Reserved)
    | PutRun(req: Request, frame: nat)
    | PutSlot(req: Request, t: nat, n: nat)
    | Broken

  /** `calls[i]` runs on the thread `low.threads[i]` below. */
  datatype System = System(low: CL.State, trees: seq<Tree>, slots: seq<Reserved>, calls: seq<Call>)

  // ---- what calls carry ----

  function Frames(req: Request): nat
  {
    Pow2(req.order)
  }

  /** The frames of tree `x` that a call took from counters, before what it allocated below. */
  function Carries(c: Call, x: nat): nat
    decreases c
  {
    match c
    case SyncPut(_, _, t, n) => if x == t then n else 0
    case Start(_, _, t, n, _) => if x == t then n else 0
    case Run(_, _, t, n, _) => if x == t then n else 0
    case Swap(_, t, n, _) => if x == t then n else 0
    case SetStart(req, t, _) => if x == t then Frames(req) else 0
    case Return(_, t, n, _) => if x == t then n else 0
    case PutBack(t, n, next) => (if x == t then n else 0) + Carries(next, x)
    case Unreserve(t, n, _, next) => (if x == t then n else 0) + Carries(next, x)
    case Moved(req, _, t, taken) => if x == t then Frames(req) + taken.free else 0
    case PutRun(req, frame) => if x == TreeOf(frame) then Frames(req) else 0
    case PutSlot(_, t, n) => if x == t then n else 0
    case Rest => 0
    case FromLocal(_, _, _) => 0
    case Sync(_, _, _, _) => 0
    case Choose(_, _, _) => 0
    case Broken => 0
  }

  /** How often a call carries the reservation of tree `x`. */
  function Tokens(c: Call, x: nat): nat
    decreases c
  {
    match c
    case Start(_, _, t, _, from) => if x == t && from.ByReserve? then 1 else 0
    case Run(_, _, t, _, from) => if x == t && from.ByReserve? then 1 else 0
    case Swap(_, t, _, _) => if x == t then 1 else 0
    case PutBack(_, _, next) => Tokens(next, x)
    case Unreserve(t, _, _, next) => (if x == t then 1 else 0) + Tokens(next, x)
    case Moved(_, _, t, _) => if x == t then 1 else 0
    case _ => 0
  }

  /** What the thread below took from the counters of `n` children, or is about to add to them. */
  function ChargeRange(p: CL.Pc, first: nat, n: nat): nat
  {
    if n == 0 then 0 else ChargeRange(p, first, n - 1) + CL.Charge(p, first + n - 1)
  }

  function TreeCharge(p: CL.Pc, x: nat): nat
  {
    ChargeRange(p, x * TREE_CHILDREN, TREE_CHILDREN)
  }

  /** The frames of tree `x` that one thread carries. */
  function Credit(c: Call, p: CL.Pc, x: nat): int
  {
    Carries(c, x) - TreeCharge(p, x)
  }

  function CreditSum(calls: seq<Call>, threads: seq<CL.Pc>, x: nat): int
    requires |calls| == |threads|
  {
    if calls == [] then 0
    else
      var n := |calls| - 1;
      CreditSum(calls[..n], threads[..n], x) + Credit(calls[n], threads[n], x)
  }

  function TokenSum(calls: seq<Call>, x: nat): nat
  {
    if calls == [] then 0 else TokenSum(calls[..|calls| - 1], x) + Tokens(calls[|calls| - 1], x)
  }

  // ---- steps ----

  function SetCall(s: System, i: nat, c: Call): System
    requires i < |s.calls|
  {
    s.(calls := s.calls[i := c])
  }

  /** The number of slots of a class. */
  function SlotsOf(config: Config, cls: nat): nat
  {
    if cls < |config.slices| && config.slices[cls].len.Some? then config.slices[cls].len.value else 0
  }

  /** Whether a get without a given block goes through the slot of the request. */
  predicate UsesSlot(config: Config, req: Request, trees: nat)
  {
    req.local.Some? && 0 < SlotsOf(config, req.cls) < trees
  }

  /** After the slot of the request did not serve. */
  function AfterLocal(req: Request, given: Option<nat>): Call
  {
    Choose(req, given, if given.Some? then AtGiven else Searching)
  }

  function SlotAt(config: Config, cls: nat, index: nat): nat
  {
    if cls < |config.slices| then config.slices[cls].offset + index else 0
  }

  function FilterOf(given: Option<nat>): Option<nat>
  {
    if given.Some? then Some(TreeOf(given.value)) else None
  }

  /** `get_local`: takes the frames from the slot of the request, or goes on. */
  function LocalStep(config: Config, s: System, i: nat, req: Request, given: Option<nat>, sync: bool): System
    requires i < |s.calls|
  {
    var at := SlotAt(config, req.cls, if req.local.Some? then req.local.value else 0);
    if at >= |s.slots| then SetCall(s, i, Broken)
    else
      var slot := s.slots[at];
      match ReservedDec(slot, FilterOf(given), Frames(req))
      case Some(r) =>
        SetCall(s.(slots := s.slots[at := r]), i,
                Start(req, given, TreeOfRow(slot.startRow), Frames(req), OwnSlot(slot.startRow)))
      case None =>
        SetCall(s, i,
                if sync && slot.present && slot.free < Frames(req)
                then Sync(req, given, TreeOfRow(slot.startRow), Frames(req) - slot.free) else AfterLocal(req, given))
  }

  function SyncStep(s: System, i: nat, req: Request, given: Option<nat>, t: nat, min: nat): System
    requires i < |s.calls|
  {
    if t >= |s.trees| then SetCall(s, i, Broken)
    else
      match TreeSyncSteal(s.trees[t], min)
      case Some(tree) => SetCall(s.(trees := s.trees[t := tree]), i, SyncPut(req, given, t, s.trees[t].free))
      case None => SetCall(s, i, AfterLocal(req, given))
  }

  /** The stolen counter goes into the slot, unless the slot changed meanwhile. */
  function SyncPutStep(config: Config, s: System, i: nat, req: Request, given: Option<nat>, t: nat, n: nat): System
    requires i < |s.calls|
  {
    var at := SlotAt(config, req.cls, if req.local.Some? then req.local.value else 0);
    if at >= |s.slots| then SetCall(s, i, Broken)
    else
      match ReservedInc(s.slots[at], t, n)
      case Some(r) =>
        if r.free > TREE_SIZE then SetCall(s, i, Broken)
        else SetCall(s.(slots := s.slots[at := r]), i, FromLocal(req, given, false))
      case None => SetCall(s, i, PutBack(t, n, AfterLocal(req, given)))
  }

  /** The frame near which the lower allocator searches. */
  function StartFrame(t: nat, from: From): nat
  {
    match from
    case OwnSlot(row) => 64 * row
    case OtherSlot(_, row) => 64 * row
    case ByDemote(row) => 64 * row
    case _ => TreeFrame(t)
  }

  /** Giving back what an access to a tree took. */
  function GiveUp(req: Request, given: Option<nat>, t: nat, n: nat, from: From): Call
  {
    match from
    case OwnSlot(_) => PutBack(t, n, AfterLocal(req, given))
    case ByReserve(target) => Unreserve(t, n, target, Choose(req, given, Searching))
    case BySteal(_, _) => PutBack(t, n, Choose(req, given, Searching))
    case OtherSlot(_, _) => PutBack(t, n, Choose(req, given, Demoting))
    case AtTree(_) => PutBack(t, n, Rest)
    case ByDemote(_) => PutBack(t, n, Rest)
  }

  /** Begins the allocation below, unless the resulting class has no slot. */
  function StartStep(config: Config, s: System, i: nat, req: Request, given: Option<nat>, t: nat, n: nat,
                     from: From): System
    requires i < |s.calls| == |s.low.threads|
  {
    if (from.ByReserve? || (from.BySteal? && from.checked)) && SlotsOf(config, from.target) == 0 then
      SetCall(s, i, GiveUp(req, given, t, n, from))
    else
      var call := if given.Some? then CL.GetGiven(given.value, req.order)
          else CL.GetNear(StartFrame(t, from), req.order);
      SetCall(s.(low := CL.Begin(s.low, i, call)), i, Run(req, given, t, n, from))
  }

  /** The class that a successful get reports. */
  function ClassOf(req: Request, from: From): nat
  {
    match from
    case OwnSlot(_) => req.cls
    case ByReserve(target) => target
    case BySteal(target, _) => target
    case OtherSlot(target, _) => target
    case AtTree(target) => target
    case ByDemote(_) => req.cls
  }

  /** A step below, or the end of the allocation below. */
  function RunStep(config: Config, s: System, i: nat, req: Request, given: Option<nat>, t: nat, n: nat,
                   from: From): System
    requires i < |s.calls| == |s.low.threads|
  {
    match s.low.threads[i]
    case Idle => SetCall(s, i, GiveUp(req, given, t, n, from))
    case Hand(f, _) =>
      SetCall(s, i,
              if from.ByReserve? then Swap(req, t, n, from.target)
              else if from.OwnSlot? && from.row != f / 64 then SetStart(req, t, f)
              else Return(req, t, n, ClassOf(req, from)))
    case _ => s.(low := CL.StepBy(config.undo, s.low, i))
  }

  /** `swap_reserved` */
  function SwapStep(config: Config, s: System, i: nat, req: Request, t: nat, n: nat, target: nat): System
    requires i < |s.calls|
  {
    var len := SlotsOf(config, target);
    var index := if len > 0 && req.local.Some? then req.local.value % len else 0;
    var at := SlotAt(config, target, index);
    if at >= |s.slots| || n < Frames(req) || n - Frames(req) > TREE_SIZE then SetCall(s, i, Broken)
    else
      var prev := s.slots[at];
      SetCall(s.(slots := s.slots[at := NewReserved(true, n - Frames(req), RowFromTree(t))]), i,
              if prev.present then Unreserve(TreeOfRow(prev.startRow), prev.free, target,
                                             Return(req, t, Frames(req), target))
              else Return(req, t, Frames(req), target))
  }

  function SetStartStep(config: Config, s: System, i: nat, req: Request, t: nat, frame: nat): System
    requires i < |s.calls|
  {
    var at := SlotAt(config, req.cls, if req.local.Some? then req.local.value else 0);
    if at >= |s.slots| then SetCall(s, i, Broken)
    else
      var r := ReservedSetStart(s.slots[at], frame / 64);
      SetCall(s.(slots := s.slots[at := if r.Some? then r.value else s.slots[at]]), i,
              Return(req, t, Frames(req), req.cls))
  }

  function PutBackStep(config: Config, s: System, i: nat, t: nat, n: nat, next: Call): System
    requires i < |s.calls|
  {
    if t >= |s.trees| || s.trees[t].free + n > TREE_SIZE then SetCall(s, i, Broken)
    else SetCall(s.(trees := s.trees[t := TreePut(s.trees[t], n, config.policy, config.defaultClass)]), i, next)
  }

  /** A tree that is not reserved, or a counter above the tree size, would be an error. */
  function UnreserveStep(config: Config, s: System, i: nat, t: nat, n: nat, cls: nat, next: Call): System
    requires i < |s.calls|
  {
    if t >= |s.trees| || s.trees[t].free + n > TREE_SIZE then SetCall(s, i, Broken)
    else
      match TreeUnreserve(s.trees[t], n, cls, config.policy, config.defaultClass)
      case Some(tree) => SetCall(s.(trees := s.trees[t := tree]), i, next)
      case None => SetCall(s, i, Broken)
  }

  /** A demoted tree goes into the slot of the request, or is given up. */
  function MovedStep(config: Config, s: System, i: nat, req: Request, given: Option<nat>, t: nat,
                     taken: Reserved): System
    requires i < |s.calls|
  {
    var rest := Start(req, given, t, Frames(req), ByDemote(taken.startRow));
    if req.local.Some? && req.local.value < SlotsOf(config, req.cls) then
      var at := SlotAt(config, req.cls, req.local.value);
      if at >= |s.slots| then SetCall(s, i, Broken)
      else
        var prev := s.slots[at];
        SetCall(s.(slots := s.slots[at := taken]), i,
                if prev.present then Unreserve(TreeOfRow(prev.startRow), prev.free, req.cls, rest) else rest)
    else
      SetCall(s, i, Unreserve(t, taken.free, req.cls, rest))
  }

  /** A step of a put below, or its end. */
  function PutRunStep(config: Config, s: System, i: nat, req: Request, frame: nat): System
    requires i < |s.calls| == |s.low.threads|
  {
    match s.low.threads[i]
    case Idle =>
      SetCall(s, i, if req.local.Some? then PutSlot(req, TreeOf(frame), Frames(req))
              else PutBack(TreeOf(frame), Frames(req), Rest))
    case Hand(_, _) => SetCall(s, i, Return(req, TreeOf(frame), Frames(req), req.cls))
    case _ => s.(low := CL.StepBy(config.undo, s.low, i))
  }

  function PutSlotStep(config: Config, s: System, i: nat, req: Request, t: nat, n: nat): System
    requires i < |s.calls|
  {
    var at := SlotAt(config, req.cls, if req.local.Some? then req.local.value else 0);
    if at >= |s.slots| then SetCall(s, i, Broken)
    else
      match ReservedInc(s.slots[at], t, n)
      case Some(r) =>
        if r.free > TREE_SIZE then SetCall(s, i, Broken) else SetCall(s.(slots := s.slots[at := r]), i, Rest)
      case None => SetCall(s, i, PutBack(t, n, Rest))
  }

  /** The step of thread `i` where it has no choice. */
  function Step(config: Config, s: System, i: nat): System
    requires i < |s.calls| == |s.low.threads|
  {
    match s.calls[i]
    case Rest => s
    case FromLocal(req, given, sync) => LocalStep(config, s, i, req, given, sync)
    case Sync(req, given, t, min) => SyncStep(s, i, req, given, t, min)
    case SyncPut(req, given, t, n) => SyncPutStep(config, s, i, req, given, t, n)
    case Choose(_, _, _) => s
    case Start(req, given, t, n, from) => StartStep(config, s, i, req, given, t, n, from)
    case Run(req, given, t, n, from) => RunStep(config, s, i, req, given, t, n, from)
    case Swap(req, t, n, target) => SwapStep(config, s, i, req, t, n, target)
    case SetStart(req, t, frame) => SetStartStep(config, s, i, req, t, frame)
    case Return(_, _, _, _) => SetCall(s.(low := CL.StepBy(config.undo, s.low, i)), i, Rest)
    case PutBack(t, n, next) => PutBackStep(config, s, i, t, n, next)
    case Unreserve(t, n, cls, next) => UnreserveStep(config, s, i, t, n, cls, next)
    case Moved(req, given, t, taken) => MovedStep(config, s, i, req, given, t, taken)
    case PutRun(req, frame) => PutRunStep(config, s, i, req, frame)
    case PutSlot(req, t, n) => PutSlotStep(config, s, i, req, t, n)
    case Broken => s
  }

  /** What a thread tries next where the order of the search decides: a tree, a slot of a class, or
      the next part of the get. Any order of trees and slots is allowed. */
  datatype Choice = TryTree(idx: nat) | TrySlot(cls: nat, index: nat) | Onward

  function Pick(config: Config, s: System, i: nat, choice: Choice): System
    requires i < |s.calls| && s.calls[i].Choose?
  {
    var Choose(req, given, stage) := s.calls[i];
    match stage
    case AtGiven =>
      if given.None? then SetCall(s, i, Broken) else PickGiven(config, s, i, req, given.value)
    case Searching =>
      (match choice
       case TryTree(idx) => PickTree(config, s, i, req, given, idx)
       case TrySlot(_, _) => s
       case Onward => SetCall(s, i, Choose(req, given, Slots)))
    case Slots =>
      (match choice
       case TrySlot(cls, index) => PickSlot(config, s, i, req, given, cls, index)
       case TryTree(_) => s
       case Onward => SetCall(s, i, Choose(req, given, Demoting)))
    case Demoting =>
      (match choice
       case TrySlot(cls, index) => PickDemote(config, s, i, req, given, cls, index)
       case TryTree(_) => s
       case Onward => SetCall(s, i, Rest))
  }

  /** The part of `llfree_get_at` that steals from the entry of the block's tree. */
  function PickGiven(config: Config, s: System, i: nat, req: Request, frame: nat): System
    requires i < |s.calls|
  {
    var t := TreeOf(frame);
    if t >= |s.trees| then SetCall(s, i, Broken)
    else
      match TreeSteal(s.trees[t], Frames(req), req.cls, config.policy)
      case Some(stolen) =>
        SetCall(s.(trees := s.trees[t := stolen.tree]), i, Start(req, Some(frame), t, Frames(req), AtTree(stolen.cls)))
      case None => SetCall(s, i, Choose(req, Some(frame), Slots))
  }

  /** The callbacks of the searches. */
  function PickTree(config: Config, s: System, i: nat, req: Request, given: Option<nat>, idx: nat): System
    requires i < |s.calls|
  {
    if idx >= |s.trees| || given.Some? then s
    else if UsesSlot(config, req, |s.trees|) then
      match TreeReserveOrSteal(s.trees[idx], Frames(req), config.policy, req.cls)
      case Some(a) =>
        SetCall(s.(trees := s.trees[idx := a.tree]), i,
                if a.reserved then Start(req, given, idx, s.trees[idx].free, ByReserve(a.cls))
                else Start(req, given, idx, Frames(req), BySteal(a.cls, true)))
      case None => s
    else
      match TreeSteal(s.trees[idx], Frames(req), req.cls, config.policy)
      case Some(stolen) =>
        SetCall(s.(trees := s.trees[idx := stolen.tree]), i,
                Start(req, given, idx, Frames(req), BySteal(stolen.cls, false)))
      case None => s
  }

  /** One slot of `ll_local_steal`. */
  function PickSlot(config: Config, s: System, i: nat, req: Request, given: Option<nat>, cls: nat, index: nat): System
    requires i < |s.calls|
  {
    var at := SlotAt(config, cls, index);
    if !(cls < |config.slices| && index < SlotsOf(config, cls) && at < |s.slots|) then s
    else
      var kind := config.policy(req.cls, cls, Frames(req)).kind;
      match ReservedDec(s.slots[at], FilterOf(given), Frames(req))
      case Some(r) =>
        if kind == Match || kind == PolicyType.Steal then
          SetCall(s.(slots := s.slots[at := r]), i,
                  Start(req, given, TreeOfRow(r.startRow), Frames(req), OtherSlot(cls, r.startRow)))
        else s
      case None => s
  }

  /** One slot of `ll_local_demote_any`. */
  function PickDemote(config: Config, s: System, i: nat, req: Request, given: Option<nat>, cls: nat, index: nat): System
    requires i < |s.calls|
  {
    var at := SlotAt(config, cls, index);
    if !(cls < |config.slices| && cls != req.cls && index < SlotsOf(config, cls) && at < |s.slots|) then s
    else
      match ReservedDec(s.slots[at], FilterOf(given), Frames(req))
      case Some(r) =>
        if config.policy(req.cls, cls, Frames(req)).kind == Demote then
          SetCall(s.(slots := s.slots[at := EMPTY]), i, Moved(req, given, TreeOfRow(r.startRow), r))
        else s
      case None => s
  }

  /** A call that a client may begin. `Drain` empties one slot. */
  datatype Client = Get(req: Request, given: Option<nat>) | Put(req: Request, frame: nat) | DrainSlot(cls: nat,
      index: nat)

  /** What `validate_request` accepts. */
  predicate Accepts(config: Config, req: Request, given: Option<nat>)
  {
    && req.order <= TREE_ORDER && req.cls < |config.slices| && config.slices[req.cls].len.Some?
    && (req.local.Some? ==> req.local.value < config.slices[req.cls].len.value)
    && Pow2(req.order) <= config.frames
    && (given.Some? ==> given.value <= config.frames - Pow2(req.order) && given.value % Pow2(req.order) == 0)
  }

  /** What clients of the code as written see to. */
  ghost predicate Careful(s: System, client: Client)
  {
    match client
    case Get(req, given) => UndoUnused(Written, req.order, given.Some?)
    case Put(req, frame) => CW.Careful(s.low, CL.PutBlock(frame, req.order))
    case DrainSlot(_, _) => true
  }

  ghost predicate MayBegin(config: Config, s: System, i: nat, client: Client)
  {
    && i < |s.calls| == |s.low.threads| && s.calls[i].Rest? && (config.undo.Written? ==> Careful(s, client))
    && match client
       case Get(req, given) => Accepts(config, req, given)
       case Put(req, frame) =>
         Accepts(config, req, Some(frame)) && CL.MayBegin(config.frames, s.low, i, CL.PutBlock(frame, req.order))
       case DrainSlot(cls, index) => cls < |config.slices| && index < SlotsOf(config, cls)
  }

  function Begin(config: Config, s: System, i: nat, client: Client): System
    requires i < |s.calls| == |s.low.threads|
  {
    match client
    case Get(req, given) =>
      SetCall(s, i, if given.Some? && req.local.Some? then FromLocal(req, given, true)
                    else if given.None? && UsesSlot(config, req, |s.trees|) then FromLocal(req, given, true)
                    else AfterLocal(req, given))
    case Put(req, frame) => SetCall(s.(low := CL.Begin(s.low, i, CL.PutBlock(frame, req.order))), i, PutRun(req, frame))
    case DrainSlot(cls, index) =>
      var at := SlotAt(config, cls, index);
      if at >= |s.slots| then SetCall(s, i, Broken)
      else
        var prev := s.slots[at];
        SetCall(s.(slots := s.slots[at := EMPTY]), i,
                if prev.present then Unreserve(TreeOfRow(prev.startRow), prev.free, cls, Rest) else Rest)
  }

  /** One step of the system. */
  ghost predicate Steps(config: Config, s: System, s': System)
  {
    |s.calls| == |s.low.threads| &&
    (|| (exists i :: 0 <= i < |s.calls| && s' == Step(config, s, i))
     || (exists i, choice :: 0 <= i < |s.calls| && s.calls[i].Choose? && s' == Pick(config, s, i, choice))
     || (exists i, client :: 0 <= i < |s.calls| && MayBegin(config, s, i, client) && s' == Begin(config, s, i, client)))
  }

  // ---- the invariant ----

  /** The free frames below tree `x`, by the counters of its children. */
  function SumOf(m: Mem, x: nat): nat
  {
    if x * TREE_CHILDREN + TREE_CHILDREN <= |m.children| then SumFree(m.children, x * TREE_CHILDREN, TREE_CHILDREN)
    else 0
  }

  function BelowSum(config: Config, m: Mem): seq<nat>
  {
    seq(TreeCount(config.frames), (x: nat) => SumOf(m, x))
  }

  /** All calls together carry these frames and reservations. */
  ghost predicate CarryIs(s: System, carry: Carry, n: nat)
    requires |s.calls| == |s.low.threads|
  {
    && carry.For(n)
    && forall x :: 0 <= x < n ==>
                     carry.frames[x] == CreditSum(s.calls, s.low.threads, x) && carry.tokens[x] == TokenSum(s.calls, x)
  }

  /** What the thread below is doing while a call is at `c`: nothing, an allocation or a put in tree
      `t`, or handing over the block. */
  ghost predicate LowOk(config: Config, c: Call, p: CL.Pc)
    decreases c
  {
    match c
    case Run(req, given, t, n, from) => p.Idle? ||
        ((CL.Getting(p) || p.Hand?) && PcTree(p) == t && PcOrder(p) == req.order)
    case Swap(req, t, n, target) => p.Hand? && PcTree(p) == t && p.order == req.order
    case SetStart(req, t, frame) => p.Hand? && PcTree(p) == t && p.order == req.order && p.frame == frame
    case Return(req, t, n, cls) => p.Hand? && PcTree(p) == t && Pow2(p.order) == n
    case PutRun(req, frame) => p.Idle? || ((Putting(p) || p.Hand?) && PcTree(p) == TreeOf(frame) &&
                                           PcOrder(p) == req.order)
    case Unreserve(t, n, cls, next) => LowOk(config, next, p)
    case PutBack(t, n, next) => p.Idle? && LowOk(config, next, p)
    case _ => p.Idle?
  }

  /** The tree and order of what a thread below does. */
  function PcTree(p: CL.Pc): nat
  {
    match p
    case Dec(goal, _) => GoalTree(goal)
    case Find(goal, _, _) => GoalTree(goal)
    case Fill(goal, _, _, _) => GoalTree(goal)
    case Clear(goal, _, _, _, _) => GoalTree(goal)
    case Inc(goal, _) => GoalTree(goal)
    case Whole(goal, _, _) => GoalTree(goal)
    case Unwhole(goal, _, _, _) => GoalTree(goal)
    case Hand(frame, _) => TreeOf(frame)
    case Load(frame, _) => TreeOf(frame)
    case Split(frame, _, _) => TreeOf(frame)
    case Unsplit(frame, _, _, _) => TreeOf(frame)
    case Commit(frame, _) => TreeOf(frame)
    case Wait(frame, _, _) => TreeOf(frame)
    case Release(frame, _, _) => TreeOf(frame)
    case Count(frame, _) => TreeOf(frame)
    case FreeWhole(frame, _, _) => TreeOf(frame)
    case Idle => 0
    case Fired => 0
  }

  function GoalTree(goal: CL.Goal): nat
  {
    match goal
    case Near(start, _) => TreeOf(start)
    case Given(frame) => TreeOf(frame)
  }

  function PcOrder(p: CL.Pc): nat
  {
    if p.Idle? || p.Fired? then 0 else p.order
  }

  predicate Putting(p: CL.Pc)
  {
    p.Load? || p.Split? || p.Unsplit? || p.Commit? || p.Wait? || p.Release? || p.Count? || p.FreeWhole?
  }

  /** The request was accepted, and names a class that trees can have. */
  ghost predicate RequestOk(config: Config, classes: set<nat>, req: Request, given: Option<nat>)
  {
    Accepts(config, req, given) && req.cls in classes
  }

  /** A get that was accepted, for which the undo loops do not matter if they are the written ones. */
  ghost predicate GetOk(config: Config, classes: set<nat>, req: Request, given: Option<nat>)
  {
    RequestOk(config, classes, req, given) && UndoUnused(config.undo, req.order, given.Some?)
  }

  /** Classes, trees and amounts of an allocation in progress. */
  ghost predicate FromOk(config: Config, classes: set<nat>, req: Request, given: Option<nat>, t: nat, n: nat,
                         from: From)
  {
    && GetOk(config, classes, req, given) && t < TreeCount(config.frames)
    && (given.Some? ==> t == TreeOf(given.value))
    && (if from.ByReserve? then Frames(req) <= n else n == Frames(req))
    && (from.ByReserve? || from.BySteal? ==> given.None?)
    && ClassOf(req, from) in classes
    && (from.OwnSlot? ==> req.local.Some?)
    && StartFrame(t, from) < config.frames && TreeOf(StartFrame(t, from)) == t
  }

  ghost predicate CallOk(config: Config, classes: set<nat>, c: Call)
    decreases c
  {
    match c
    case Rest => true
    case FromLocal(req, given, sync) => GetOk(config, classes, req, given) && req.local.Some?
    case Sync(req, given, t, min) => GetOk(config, classes, req, given) && req.local.Some? &&
        t < TreeCount(config.frames)
    case SyncPut(req, given, t, n) => GetOk(config, classes, req, given) && req.local.Some? &&
        t < TreeCount(config.frames)
    case Choose(req, given, stage) =>
      GetOk(config, classes, req, given) && (stage.AtGiven? ==> given.Some?) && (stage.Searching? ==> given.None?)
    case Start(req, given, t, n, from) => FromOk(config, classes, req, given, t, n, from)
    case Run(req, given, t, n, from) =>
      FromOk(config, classes, req, given, t, n, from) && (from.ByReserve? ==> SlotsOf(config, from.target) > 0)
    case Swap(req, t, n, target) =>
      && RequestOk(config, classes, req, None) && t < TreeCount(config.frames) && Frames(req) <= n && target in classes
      && SlotsOf(config, target) > 0
    case SetStart(req, t, frame) => RequestOk(config, classes, req, None) && req.local.Some? &&
        t < TreeCount(config.frames)
    case Return(req, t, n, cls) => t < TreeCount(config.frames) && cls in classes
    case PutBack(t, n, next) => t < TreeCount(config.frames) && !next.Return? && CallOk(config, classes, next)
    case Unreserve(t, n, cls, next) => t < TreeCount(config.frames) && cls in classes && CallOk(config, classes, next)
    case Moved(req, given, t, taken) =>
      && GetOk(config, classes, req, given) && t < TreeCount(config.frames) &&
         (given.Some? ==> t == TreeOf(given.value))
      && taken.present && TreeOfRow(taken.startRow) == t && 64 * taken.startRow < config.frames
    case PutRun(req, frame) => RequestOk(config, classes, req, Some(frame))
    case PutSlot(req, t, n) => RequestOk(config, classes, req, None) && req.local.Some? && t < TreeCount(config.frames)
    case Broken => false
  }

  /** The configuration: slices that fit the slots, and classes that trees can have. */
  ghost predicate ConfigOk(config: Config, classes: set<nat>, slots: nat)
  {
    && Sliced(config.slices, slots) && 512 <= config.frames <= 64 * ROW_LIMIT
    && (forall c :: c in classes ==> c < MAX_CLASSES) && Bits3(config.defaultClass) in classes
    && forall c :: 0 <= c < |config.slices| && config.slices[c].len.Some? ==> c in classes
  }

  /** Slots in use start their search at managed frames. */
  ghost predicate RowsOk(config: Config, slots: seq<Reserved>)
  {
    forall i :: 0 <= i < |slots| && slots[i].present ==> 64 * slots[i].startRow < config.frames
  }

  /** With the written undo loops, no thread is in one of them or on the way there. */
  ghost predicate CalmOk(config: Config, low: CL.State)
  {
    config.undo.Written? ==> CW.Calm(low)
  }

  ghost predicate Good(config: Config, classes: set<nat>, s: System, carry: Carry)
  {
    && ConfigOk(config, classes, |s.slots|) && |s.calls| == |s.low.threads| && RowsOk(config, s.slots)
    && CL.Good(config.frames, s.low) && CalmOk(config, s.low)
    && CarryIs(s, carry, TreeCount(config.frames))
    && Account(BelowSum(config, s.low.m), Upper(s.trees, s.slots), carry, {}, classes)
    && forall i :: 0 <= i < |s.calls| ==>
       CallOk(config, classes, s.calls[i]) && LowOk(config, s.calls[i], s.low.threads[i])
  }
}
