/** The lower allocator with any number of threads: one step is one compare-and-swap, update or load
    of one entry or row. The undo loops are the ones in the source or the ones that restore what was
    changed, as `undo` says. */
module ConcLower {
  import opened Base
  import opened Children
  import opened LowerSpec
  import opened LowerLemmas
  import opened LowerWhole

  // ---- threads ----

  /** What a get looks for: any block near `start`, where `i` is the round of the search, or one
      given block. */
  datatype Goal = Near(start: nat, i: nat) | Given(frame: nat)

  /** Where a thread is. Gets go from `Dec` to `Inc`, or through `Whole` and `Unwhole`; puts from `Load`
      to `Count`, or through `FreeWhole`. `Hand` gives a block to the client. An assertion that fails
      leads to `Fired`. */
  datatype Pc =
    | Idle
    | Dec(goal: Goal, order: nat)
    | Find(goal: Goal, order: nat, j: nat)
    | Fill(goal: Goal, order: nat, g: nat, k: nat)
    | Clear(goal: Goal, order: nat, g: nat, k: nat, u: nat)
    | Inc(goal: Goal, order: nat)
    | Whole(goal: Goal, order: nat, j: nat)
    | Unwhole(goal: Goal, order: nat, j: nat, u: nat)
    | Hand(frame: nat, order: nat)
    | Load(frame: nat, order: nat)
    | Split(frame: nat, order: nat, k: nat)
    | Unsplit(frame: nat, order: nat, k: nat, u: nat)
    | Commit(frame: nat, order: nat)
    | Wait(frame: nat, order: nat, r: nat)
    | Release(frame: nat, order: nat, k: nat)
    | Count(frame: nat, order: nat)
    | FreeWhole(frame: nat, order: nat, j: nat)
    | Fired

  /** `held` are the frames of completed gets that no put was begun for. */
  datatype State = State(m: Mem, threads: seq<Pc>, held: set<nat>)

  /** `RETRIES` */
  const RETRIES: nat := 4

  // ---- indices ----

  /** The child that a get of order below 9 works on. */
  function ChildOf(goal: Goal): nat
  {
    match goal
    case Near(start, i) => Offsetted(start / 512, TREE_CHILDREN, i)
    case Given(frame) => frame / 512
  }

  /** The first child of the group that a get of order 9 or more works on. */
  function FirstOf(goal: Goal, order: nat): nat
    requires 9 <= order <= TREE_ORDER
  {
    match goal
    case Near(start, i) => GroupAt(start, order, i)
    case Given(frame) => frame / 512
  }

  /** The first frame of the group of rows `g`. */
  function BaseOf(goal: Goal, order: nat, g: nat): nat
  {
    match goal
    case Near(start, i) =>
      512 * ChildOf(goal) + 64 * (RowsOf(order) * Offsetted(start / 64 % 8 / RowsOf(order), 8 / RowsOf(order), g))
    case Given(frame) => frame
  }

  /** The row searched in round `j`, by its first frame. */
  function RowOf(goal: Goal, j: nat): nat
  {
    match goal
    case Near(start, i) => 512 * ChildOf(goal) + 64 * Offsetted(start / 64 % 8, 8, j)
    case Given(frame) => frame
  }

  /** How many rounds the search over rows, groups of rows, or groups of children has. */
  function Rounds(goal: Goal, order: nat): nat
    requires order <= TREE_ORDER
  {
    match goal
    case Near(_, _) => if order < 9 then TREE_CHILDREN else Groups(order)
    case Given(_) => 1
  }

  /** The next round of the search, or the end of the call. */
  function Next(goal: Goal, order: nat): Pc
    requires order <= TREE_ORDER
  {
    match goal
    case Given(_) => Idle
    case Near(start, i) =>
      if i + 1 == Rounds(goal, order) then Idle
      else if order < 9 then Dec(Near(start, i + 1), order)
      else Whole(Near(start, i + 1), order, 0)
  }

  /** The lowest aligned free block of the frames from `f` up to `end`. */
  function LowestFree(zeros: set<nat>, f: nat, end: nat, n: nat): Option<nat>
    requires n > 0
    decreases end - f
  {
    if f + n > end then None
    else if Block(f, n) <= zeros then Some(f)
    else LowestFree(zeros, f + n, end, n)
  }

  // ---- what a thread accounts for ----

  /** How many frames of child `c` the thread took from the counter, or is about to add to it. */
  function Charge(p: Pc, c: nat): nat
  {
    match p
    case Find(goal, order, _) => if c == ChildOf(goal) then Pow2(order) else 0
    case Fill(goal, order, _, _) => if c == ChildOf(goal) then Pow2(order) else 0
    case Clear(goal, order, _, _, _) => if c == ChildOf(goal) then Pow2(order) else 0
    case Inc(goal, order) => if c == ChildOf(goal) then Pow2(order) else 0
    case Whole(goal, order, j) => if 9 <= order <= TREE_ORDER &&
        FirstOf(goal, order) <= c < FirstOf(goal, order) + j then 512 else 0
    case Unwhole(goal, order, j, u) =>
      if 9 <= order <= TREE_ORDER && u <= j &&
          FirstOf(goal, order) <= c < FirstOf(goal, order) + (j - u) then 512 else 0
    case Hand(frame, order) => BlockCharge(frame, order, c)
    case Load(frame, order) => BlockCharge(frame, order, c)
    case Split(frame, order, _) => BlockCharge(frame, order, c)
    case Unsplit(frame, order, _, _) => BlockCharge(frame, order, c)
    case Commit(frame, order) => BlockCharge(frame, order, c)
    case Wait(frame, order, _) => BlockCharge(frame, order, c)
    case Release(frame, order, _) => BlockCharge(frame, order, c)
    case Count(frame, order) => BlockCharge(frame, order, c)
    case FreeWhole(frame, order, j) => if order >= 9 && frame / 512 + j <= c < frame / 512 + Span(order) then 512 else 0
    case Idle => 0
    case Dec(_, _) => 0
    case Fired => 0
  }

  /** How many frames of child `c` a block has. */
  function BlockCharge(frame: nat, order: nat, c: nat): nat
  {
    if order < 9 then (if c == frame / 512 then Pow2(order) else 0)
    else if frame / 512 <= c < frame / 512 + Span(order) then 512 else 0
  }

  /** The frames that only this thread may change: the bits that it set and has not cleared, and the
      block that it gives back. */
  function Own(p: Pc): set<nat>
  {
    match p
    case Fill(goal, order, g, k) => Block(BaseOf(goal, order, g), 64 * k)
    case Clear(goal, order, g, k, u) =>
      if u > k then {}
      else if goal.Near? then Block(BaseOf(goal, order, g) + 64 * u, 64 * (k - u))
      else Block(BaseOf(goal, order, g), 64 * (k - u))
    case Whole(goal, order, j) => if 9 <= order <= TREE_ORDER then Block(512 * FirstOf(goal, order), 512 * j) else {}
    case Unwhole(goal, order, j, u) =>
      if 9 <= order <= TREE_ORDER && u <= j then Block(512 * FirstOf(goal, order), 512 * (j - u)) else {}
    case Hand(frame, order) => Block(frame, Pow2(order))
    case Load(frame, order) => Block(frame, Pow2(order))
    case Split(frame, order, _) => Block(frame, Pow2(order))
    case Unsplit(frame, order, _, _) => Block(frame, Pow2(order))
    case Commit(frame, order) => Block(frame, Pow2(order))
    case Wait(frame, order, _) => Block(frame, Pow2(order))
    case Release(frame, order, k) => if 64 * k <= Pow2(order) then Block(frame + 64 * k, Pow2(order) - 64 * k) else {}
    case FreeWhole(frame, order, j) =>
      if order >= 9 && j <= Span(order) then Block(512 * (frame / 512 + j), 512 * (Span(order) - j)) else {}
    case Count(_, _) => {}
    case Idle => {}
    case Dec(_, _) => {}
    case Find(_, _, _) => {}
    case Inc(_, _) => {}
    case Fired => {}
  }

  /** The rows that a thread filled to split a child, without owning their frames. */
  function Fills(p: Pc): set<nat>
  {
    match p
    case Split(frame, _, k) => Block(512 * (frame / 512), 64 * k)
    case Unsplit(frame, _, k, u) => if u <= k then Block(512 * (frame / 512), 64 * (k - u)) else {}
    case Commit(frame, _) => Field(frame / 512)
    case _ => {}
  }

  // ---- steps ----

  function SetChild(m: Mem, c: nat, v: Child): Mem
    requires c < |m.children|
  {
    m.(children := m.children[c := v])
  }

  /** One step of a get. The undo loop of `field_toggle` in the source expects the value that the row
      had before, and the one of `try_update_huge_n` visits the entries one further on. */
  function GetStep(undo: Undo, m: Mem, p: Pc): (Mem, Pc)
  {
    match p
    case Dec(goal, order) =>
      var c := ChildOf(goal);
      if order < 9 && c < |m.children| && ChildDec(m.children[c], order).Some? then
        (SetChild(m, c, ChildDec(m.children[c], order).value), if order <= 6 then Find(goal, order, 0)
         else Fill(goal, order, 0, 0))
      else if order <= TREE_ORDER then (m, Next(goal, order))
      else (m, Fired)
    case Find(goal, order, j) =>
      if goal.Near? then
        match LowestFree(m.zeros, RowOf(goal, j), RowOf(goal, j) + 64, Pow2(order))
        case Some(f) => (m.(zeros := m.zeros - Block(f, Pow2(order))), Hand(f, order))
        case None => (m, if j + 1 < 8 then Find(goal, order, j + 1) else Inc(goal, order))
      else if Block(goal.frame, Pow2(order)) <= m.zeros then
        (m.(zeros := m.zeros - Block(goal.frame, Pow2(order))), Hand(goal.frame, order))
      else (m, Inc(goal, order))
    case Fill(goal, order, g, k) =>
      var row := Block(BaseOf(goal, order, g) + 64 * k, 64);
      if row <= m.zeros then
        (m.(zeros := m.zeros - row),
         if k + 1 == RowsOf(order) then Hand(BaseOf(goal, order, g), order) else Fill(goal, order, g, k + 1))
      else (m, if k > 0 then Clear(goal, order, g, k, 0) else NextRows(goal, order, g))
    case Clear(goal, order, g, k, u) =>
      var row := Block(BaseOf(goal, order, g) + 64 * (if goal.Near? || u >= k then u else k - u - 1), 64);
      var next := if u + 1 == k then NextRows(goal, order, g) else Clear(goal, order, g, k, u + 1);
      if undo.Written? && goal.Given? then
        if row <= m.zeros then (m.(zeros := m.zeros - row), next) else (m, Fired)
      else if row !! m.zeros then (m.(zeros := m.zeros + row), next)
      else (m, Fired)
    case Inc(goal, order) =>
      var c := ChildOf(goal);
      if order <= TREE_ORDER && c < |m.children| && ChildInc(m.children[c], order).Some? then
        (SetChild(m, c, ChildInc(m.children[c], order).value), Next(goal, order))
      else (m, Fired)
    case Whole(goal, order, j) =>
      if !(9 <= order <= TREE_ORDER) then (m, Fired)
      else
        var c := FirstOf(goal, order) + j;
        if c < |m.children| && m.children[c] == FULL then
          (SetChild(m, c, TAKEN),
           if j + 1 == Span(order) then Hand(512 * FirstOf(goal, order), order) else Whole(goal, order, j + 1))
        else (m, if j > 0 then Unwhole(goal, order, j, 0) else Next(goal, order))
    case Unwhole(goal, order, j, u) =>
      if !(9 <= order <= TREE_ORDER && u < j) then (m, Fired)
      else
        var c := FirstOf(goal, order) + (if undo.Written? then j - u else j - u - 1);
        if c < |m.children| && m.children[c] == TAKEN then
          (SetChild(m, c, FULL), if u + 1 == j then Next(goal, order) else Unwhole(goal, order, j, u + 1))
        else (m, Fired)
    case _ => (m, p)
  }

  /** The next group of rows, or the end of the search in this child. */
  function NextRows(goal: Goal, order: nat, g: nat): Pc
  {
    if goal.Near? && g + 1 < 8 / RowsOf(order) then Fill(goal, order, g + 1, 0) else Inc(goal, order)
  }

  /** One step of a put. A put of a held block never fails, except that the wait for another
      splitter may end. */
  function PutStep(undo: Undo, m: Mem, p: Pc): (Mem, Pc)
  {
    match p
    case Load(frame, order) =>
      if frame / 512 >= |m.children| then (m, Fired)
      else (m, if m.children[frame / 512].huge then Split(frame, order, 0) else Release(frame, order, 0))
    case Split(frame, order, k) =>
      var row := Block(512 * (frame / 512) + 64 * k, 64);
      if row <= m.zeros then
        (m.(zeros := m.zeros - row), if k + 1 == 8 then Commit(frame, order) else Split(frame, order, k + 1))
      else (m, if k > 0 then Unsplit(frame, order, k, 0) else Wait(frame, order, 0))
    case Unsplit(frame, order, k, u) =>
      if u >= k then (m, Fired)
      else
        var row := Block(512 * (frame / 512) + 64 * (k - u - 1), 64);
        var next := if u + 1 == k then Wait(frame, order, 0) else Unsplit(frame, order, k, u + 1);
        if undo.Written? then
          if row <= m.zeros then (m.(zeros := m.zeros - row), next) else (m, Fired)
        else if row !! m.zeros then (m.(zeros := m.zeros + row), next)
        else (m, Fired)
    case Commit(frame, order) =>
      var c := frame / 512;
      if c < |m.children| && m.children[c] == TAKEN then (SetChild(m, c, Child(0, false)), Release(frame, order, 0))
      else (m, Fired)
    case Wait(frame, order, r) =>
      if frame / 512 >= |m.children| then (m, Fired)
      else if !m.children[frame / 512].huge then (m, Release(frame, order, 0))
      else (m, if r + 1 < RETRIES then Wait(frame, order, r + 1) else Hand(frame, order))
    case Release(frame, order, k) =>
      var part := if order <= 6 then Block(frame, Pow2(order)) else Block(frame + 64 * k, 64);
      if part !! m.zeros then
        (m.(zeros := m.zeros + part),
         if order <= 6 || k + 1 == RowsOf(order) then Count(frame, order) else Release(frame, order, k + 1))
      else (m, Fired)
    case Count(frame, order) =>
      var c := frame / 512;
      if c < |m.children| && ChildInc(m.children[c], order).Some? then
          (SetChild(m, c, ChildInc(m.children[c], order).value), Idle)
      else (m, Fired)
    case FreeWhole(frame, order, j) =>
      var c := frame / 512 + j;
      if order >= 9 && c < |m.children| && m.children[c] == TAKEN then
        (SetChild(m, c, FULL), if j + 1 == Span(order) then Idle else FreeWhole(frame, order, j + 1))
      else (m, Fired)
    case _ => (m, p)
  }

  predicate Getting(p: Pc)
  {
    p.Dec? || p.Find? || p.Fill? || p.Clear? || p.Inc? || p.Whole? || p.Unwhole?
  }

  /** A step of thread `t`. A finished get hands its block to the client, and so does a put that gave
      up. */
  function StepBy(undo: Undo, s: State, t: nat): State
    requires t < |s.threads|
  {
    var p := s.threads[t];
    if p.Hand? then
      State(s.m, s.threads[t := Idle], s.held + Block(p.frame, Pow2(p.order)))
    else
      var (m, q) := if Getting(p) then GetStep(undo, s.m, p) else PutStep(undo, s.m, p);
      State(m, s.threads[t := q], s.held)
  }

  /** A step with the undo loops that restore what was changed. */
  function Step(s: State, t: nat): State
    requires t < |s.threads|
  {
    StepBy(Intended, s, t)
  }

  /** A call that a client may begin. */
  datatype Call = GetNear(start: nat, order: nat) | GetGiven(frame: nat, order: nat) | PutBlock(frame: nat, order: nat)

  /** Clients give back only blocks that they hold, and whole children only while they are held as
      huge. */
  ghost predicate MayBegin(frames: nat, s: State, t: nat, call: Call)
  {
    && t < |s.threads| && s.threads[t].Idle?
    && match call
       case GetNear(start, order) => start < frames && order <= TREE_ORDER
       case GetGiven(frame, order) => Managed(frames, frame, order)
       case PutBlock(frame, order) =>
         && Managed(frames, frame, order) && Block(frame, Pow2(order)) <= s.held
         && (order >= 9 ==> AllAre(s.m.children, frame / 512, Span(order), TAKEN))
  }

  function Begin(s: State, t: nat, call: Call): State
    requires t < |s.threads|
  {
    match call
    case GetNear(start, order) =>
      s.(threads := s.threads[t := if order < 9 then Dec(Near(start, 0), order) else Whole(Near(start, 0), order, 0)])
    case GetGiven(frame, order) =>
      s.(threads := s.threads[t := if order < 9 then Dec(Given(frame), order) else Whole(Given(frame), order, 0)])
    case PutBlock(frame, order) =>
      State(s.m, s.threads[t := if order < 9 then Load(frame, order) else FreeWhole(frame, order, 0)],
            s.held - Block(frame, Pow2(order)))
  }

  /** What happens next: a thread takes its next step, or its client begins a call. */
  datatype Act = Go(t: nat) | Enter(t: nat, call: Call)

  ghost predicate Legal(frames: nat, s: State, act: Act)
  {
    match act
    case Go(t) => t < |s.threads|
    case Enter(t, call) => MayBegin(frames, s, t, call)
  }

  function Do(undo: Undo, s: State, act: Act): State
    requires act.t < |s.threads|
  {
    match act
    case Go(t) => StepBy(undo, s, t)
    case Enter(t, call) => Begin(s, t, call)
  }

  /** A run of the system: the states, and what happened between them. */
  ghost predicate Run(frames: nat, undo: Undo, run: seq<State>, acts: seq<Act>)
  {
    && |run| == |acts| + 1
    && forall n :: 0 <= n < |acts| ==> Legal(frames, run[n], acts[n]) && run[n + 1] == Do(undo, run[n], acts[n])
  }

  // ---- the invariant ----

  function ChargeSum(threads: seq<Pc>, c: nat): nat
  {
    if threads == [] then 0 else ChargeSum(threads[..|threads| - 1], c) + Charge(threads[|threads| - 1], c)
  }

  ghost predicate Owned(threads: seq<Pc>, f: nat)
  {
    exists i :: 0 <= i < |threads| && f in Own(threads[i])
  }

  ghost predicate Filled(threads: seq<Pc>, f: nat)
  {
    exists i :: 0 <= i < |threads| && f in Fills(threads[i])
  }

  /** The frames of child `c` past the last one. */
  function Beyond(frames: nat, c: nat): nat
  {
    512 - FramesIn(frames, c)
  }

  /** Every frame of child `c` is counted exactly once: in the counter, for a thread, for the client,
      or as not managed. */
  ghost predicate Balanced(frames: nat, s: State, c: nat)
    requires c < |s.m.children|
  {
    s.m.children[c].free + ChargeSum(s.threads, c) + |s.held * Field(c)| + Beyond(frames, c) == 512
  }

  /** What the bits of frame `f` of child `c` say. */
  ghost predicate FrameOk(frames: nat, s: State, huge: bool, f: nat)
  {
    if huge then
      && (f in s.m.zeros || Filled(s.threads, f)) && (f >= frames || f in s.held || Owned(s.threads, f))
    else
      && (f in s.m.zeros || Filled(s.threads, f) ==> f < frames && f !in s.held && !Owned(s.threads, f))
      && (f >= frames || f in s.m.zeros || f in s.held || Owned(s.threads, f) || Filled(s.threads, f))
  }

  ghost predicate ChildInv(frames: nat, s: State, c: nat)
    requires c < |s.m.children|
  {
    && Balanced(frames, s, c) && (s.m.children[c].huge ==> s.m.children[c].free == 0)
    && forall f: nat :: f in Field(c) ==> FrameOk(frames, s, s.m.children[c].huge, f)
  }

  /** No frame belongs to two threads, or to a thread and the client. */
  ghost predicate Apart(frames: nat, s: State)
  {
    && (forall f :: f in s.held ==> f < frames)
    && (forall i :: 0 <= i < |s.threads| ==> Own(s.threads[i]) !! s.held && Fills(s.threads[i]) !! s.m.zeros)
    && (forall i, f :: 0 <= i < |s.threads| && f in Own(s.threads[i]) ==> f < frames)
    && forall i, j :: 0 <= i < j < |s.threads| ==>
                        Own(s.threads[i]) !! Own(s.threads[j]) && Fills(s.threads[i]) !! Fills(s.threads[j])
  }

  /** The arguments of a get are in range. */
  ghost predicate GoalOk(frames: nat, goal: Goal, order: nat)
  {
    order <= TREE_ORDER &&
    match goal
    case Near(start, i) => start < frames && i < Rounds(goal, order)
    case Given(frame) => Managed(frames, frame, order)
  }

  /** What thread `p` knows about the entries, and the ranges of its variables. */
  ghost predicate ThreadOk(frames: nat, m: Mem, p: Pc)
  {
    match p
    case Idle => true
    case Dec(goal, order) => GoalOk(frames, goal, order) && order < 9
    case Find(goal, order, j) => Inside(frames, m, goal, order) && order <= 6 && j < 8 && (goal.Given? ==> j == 0)
    case Fill(goal, order, g, k) => Inside(frames, m, goal, order) && GroupOk(goal, order, g) && k < RowsOf(order)
    case Clear(goal, order, g, k, u) => Inside(frames, m, goal, order) && GroupOk(goal, order, g) &&
        u < k < RowsOf(order)
    case Inc(goal, order) => Inside(frames, m, goal, order)
    case Whole(goal, order, j) =>
      GoalOk(frames, goal, order) && order >= 9 && j < Span(order) && AllAre(m.children, FirstOf(goal, order), j, TAKEN)
    case Unwhole(goal, order, j, u) =>
      GoalOk(frames, goal, order) && order >= 9 && u < j < Span(order) &&
          AllAre(m.children, FirstOf(goal, order), j - u, TAKEN)
    case Hand(frame, order) => Managed(frames, frame, order)
    case Load(frame, order) => Managed(frames, frame, order) && order < 9
    case Split(frame, order, k) => Managed(frames, frame, order) && order < 9 && k < 8
    case Unsplit(frame, order, k, u) => Managed(frames, frame, order) && order < 9 && u < k < 8
    case Commit(frame, order) => Managed(frames, frame, order) && order < 9
    case Wait(frame, order, r) => Managed(frames, frame, order) && order < 9 && r < RETRIES
    case Release(frame, order, k) =>
      && Managed(frames, frame, order) && order < 9 && NotHuge(m, frame / 512)
      && (if order <= 6 then k == 0 else k < RowsOf(order))
    case Count(frame, order) => Managed(frames, frame, order) && order < 9 && NotHuge(m, frame / 512)
    case FreeWhole(frame, order, j) =>
      Managed(frames, frame, order) && order >= 9 && j < Span(order) &&
          AllAre(m.children, frame / 512 + j, Span(order) - j, TAKEN)
    case Fired => false
  }

  ghost predicate NotHuge(m: Mem, c: nat)
  {
    c < |m.children| && !m.children[c].huge
  }

  /** A get of order below 9 that changed the counter of its child. */
  ghost predicate Inside(frames: nat, m: Mem, goal: Goal, order: nat)
  {
    GoalOk(frames, goal, order) && order < 9 && ChildOf(goal) < ChildCount(frames) && NotHuge(m, ChildOf(goal))
  }

  ghost predicate GroupOk(goal: Goal, order: nat, g: nat)
  {
    7 <= order <= 8 && if goal.Near? then g < 8 / RowsOf(order) else g == 0
  }

  ghost predicate Good(frames: nat, s: State)
  {
    && |s.m.children| == Padded(frames) && ChildCount(frames) <= |s.m.children|
    && (forall c :: ChildCount(frames) <= c < |s.m.children| ==> s.m.children[c] == TAKEN)
    && (forall f :: f in s.m.zeros ==> f < 512 * ChildCount(frames))
    && Apart(frames, s)
    && (forall c :: 0 <= c < ChildCount(frames) ==> ChildInv(frames, s, c))
    && forall t :: 0 <= t < |s.threads| ==> ThreadOk(frames, s.m, s.threads[t])
  }
}
