/** Facts used by the upper level: what is carried, what a search leaves, what an allocation does. */
module UpperLemmas {
  import opened Base
  import opened Children
  import opened LowerSpec
  import opened LowerWhole
  import opened Policies
  import opened TreeEntries
  import opened TreeArray
  import opened Locals
  import opened Accounts
  import opened UpperSpec

  /** The allocation of a block: it was free, and is now taken; or nothing below changed. */
  ghost predicate Serves(frames: nat, m: Mem, m': Mem, frame: Option<nat>, order: nat, r: Result)
  {
    match r
    case Ok(f, _) => Took(frames, m, m', f, order) && (frame.Some? ==> f == frame.value)
    case Err(e) => e == Error.Memory && m' == m
  }

  /** A reservation that was given up and returned leaves nothing carried. */
  lemma Returned(carry: Carry, r: Reserved, n: nat)
    requires carry.For(n) && r.present && TreeOfRow(r.startRow) < n
    ensures var t := TreeOfRow(r.startRow);
            && Released(carry, r).For(n)
            && r.free <= Released(carry, r).frames[t] && Released(carry, r).tokens[t] > 0
            && Released(carry, r).Sub(t, r.free).Drop(t) == carry
  {
    var t := TreeOfRow(r.startRow);
    var c := Released(carry, r).Sub(t, r.free).Drop(t);
    assert c.frames == carry.frames;
    assert c.tokens == carry.tokens;
  }

  lemma AddSub(carry: Carry, n: nat, t: nat, k: nat)
    requires carry.For(n) && t < n
    ensures carry.Add(t, k).For(n) && k <= carry.Add(t, k).frames[t] && carry.Add(t, k).Sub(t, k) == carry
  {
    assert carry.Add(t, k).Sub(t, k).frames == carry.frames;
  }

  lemma Sizes(below: seq<nat>, u: Upper, carry: Carry, offline: set<nat>, classes: set<nat>)
    requires Account(below, u, carry, offline, classes)
    ensures |u.trees| == |below| && carry.For(|below|)
  {}

  /** What the lower allocator promises about the block, when the tree is known to have the frames. */
  lemma GotServes(frames: nat, m: Mem, m': Mem, start: nat, order: nat, frame: Option<nat>, r: Result)
    requires frame.None? ==> GetMeets(frames, m, m', start, order, r)
    requires frame.Some? ==> Managed(frames, frame.value, order) && GetAtMeets(frames, m, m', frame.value, order, r)
    requires frame.Some? ==> TreeOf(frame.value) == TreeOf(start)
    requires TreeOf(start) < TreeCount(frames) && Pow2(order) <= BelowOf(frames, m)[TreeOf(start)]
    ensures Serves(frames, m, m', frame, order, r)
    ensures r.Ok? ==> TreeOf(r.frame) == TreeOf(start)
    ensures order == 0 && frame.None? ==> r.Ok?
    ensures frame.None? && r.Err? ==> NoBlock(frames, m, TreeOf(start), order)
    ensures order == 0 && frame.Some? && frame.value in Free(frames, m) ==> r.Ok?
    ensures frame.Some? && r.Err? ==> !(Block(frame.value, Pow2(order)) <= Free(frames, m))
  {
    hide Free, TreeCount, TreeOf, Pow2, NoBlock, Took;
    if order == 0 && frame.Some? && frame.value in Free(frames, m) {
      SmallPow(0);
      assert Block(frame.value, 1) <= Free(frames, m);
    }
    if order == 0 && frame.None? && r.Err? {
      SmallPow(0);
      FreeFrameExists(frames, m, TreeOf(start));
    }
  }

  /** A carried reservation with its frames can be returned, also in two parts. */
  lemma ReserveBack(carry: Carry, n: nat, t: nat, a: nat, f: nat)
    requires carry.For(n) && t < n
    ensures var c := carry.Add(t, a).Grab(t);
            && c.For(n) && a <= c.frames[t] && c.tokens[t] > 0 && c.Sub(t, a).Drop(t) == carry
            && (f <= a ==>
                a - f <= c.Sub(t, f).frames[t] && c.Sub(t, f).tokens[t] > 0 &&
                c.Sub(t, f).Sub(t, a - f).Drop(t) == carry)
  {
    var c := carry.Add(t, a).Grab(t);
    assert c.Sub(t, a).Drop(t).frames == carry.frames && c.Sub(t, a).Drop(t).tokens == carry.tokens;
    if f <= a {
      var d := c.Sub(t, f).Sub(t, a - f).Drop(t);
      assert d.frames == carry.frames && d.tokens == carry.tokens;
    }
  }

  /** Carried frames are free below. */
  lemma CarriedFits(below: seq<nat>, u: Upper, carry: Carry, offline: set<nat>, classes: set<nat>, t: nat)
    requires Account(below, u, carry, offline, classes) && t < |below|
    ensures carry.frames[t] <= below[t] <= TREE_SIZE
  {
    assert TreeAccount(below[t], u.trees[t], u.slots, t, carry.frames[t], carry.tokens[t], t !in offline, classes);
  }

  lemma CountFits(below: seq<nat>, u: Upper, carry: Carry, offline: set<nat>, classes: set<nat>, t: nat)
    requires Account(below, u, carry, offline, classes) && t < |below|
    ensures u.trees[t].free + carry.frames[t] <= TREE_SIZE
  {
    assert TreeAccount(below[t], u.trees[t], u.slots, t, carry.frames[t], carry.tokens[t], t !in offline, classes);
  }

  lemma ClassKnown(below: seq<nat>, u: Upper, carry: Carry, offline: set<nat>, classes: set<nat>, t: nat)
    requires Account(below, u, carry, offline, classes) && t < |below|
    ensures u.trees[t].cls in classes
  {
    assert TreeAccount(below[t], u.trees[t], u.slots, t, carry.frames[t], carry.tokens[t], t !in offline, classes);
  }

  /** What an ordered policy and the callers' class say about an access to a tree. */
  lemma AccessOrdered(t: Tree, frames: nat, cls: nat, policy: PolicyFn)
    requires cls < MAX_CLASSES
    ensures var s := TreeSteal(t, frames, cls, policy);
            && (s.Some? ==> s.value.cls == cls || s.value.cls == t.cls)
            && (Ordered(policy) ==> (s.Some? <==> t.free >= frames) && (s.Some? ==> s.value.cls <= cls))
    ensures var a := TreeReserveOrSteal(t, frames, policy, cls);
            && (a.Some? ==> t.free >= frames && (a.value.cls == cls || a.value.cls == t.cls))
            && (Ordered(policy) ==> (a.Some? <==> !t.reserved && t.free >= frames) && (a.Some? ==> a.value.cls <= cls))
    ensures Bits3(cls) == cls
  {
    if Ordered(policy) {
      OrderedNeverRefuses(t, frames, cls, policy);
      ClassesFall(t, frames, cls, policy, 0);
    }
  }

  /** A tree whose reservation a call carries is reserved, and no slot holds it. */
  lemma TokenMeans(below: seq<nat>, u: Upper, carry: Carry, offline: set<nat>, classes: set<nat>, t: nat)
    requires Account(below, u, carry, offline, classes) && t < |below| && carry.tokens[t] > 0
    ensures u.trees[t].reserved && forall i :: 0 <= i < |u.slots| ==> !HoldsTree(u.slots[i], t)
  {
    assert TreeAccount(below[t], u.trees[t], u.slots, t, carry.frames[t], carry.tokens[t], t !in offline, classes);
    forall i | 0 <= i < |u.slots|
      ensures !HoldsTree(u.slots[i], t)
    {
      if HoldsTree(u.slots[i], t) {
        SlotAtMost(u.slots, i, t);
      }
    }
  }

  /** What an access takes out of the entry. */
  lemma AccessTakes(t: Tree, frames: nat, policy: PolicyFn, cls: nat)
    ensures var a := TreeReserveOrSteal(t, frames, policy, cls);
            a.Some? ==>
              && !t.reserved && frames <= t.free && a.value.tree.reserved == a.value.reserved
              && a.value.tree.free == if a.value.reserved then 0 else t.free - frames
  {}

  lemma PutAdds(t: Tree, frames: nat, policy: PolicyFn, dflt: nat)
    ensures TreePut(t, frames, policy, dflt).free == t.free + frames
    ensures TreePut(t, frames, policy, dflt).reserved == t.reserved
  {}

  lemma UnreserveAdds(t: Tree, frames: nat, cls: nat, policy: PolicyFn, dflt: nat)
    ensures var u := TreeUnreserve(t, frames, cls, policy, dflt);
            u.Some? == t.reserved && (u.Some? ==> !u.value.reserved && u.value.free == t.free + frames)
  {}

  /** The tree of a present slot. */
  lemma SlotTree(below: seq<nat>, u: Upper, carry: Carry, offline: set<nat>, classes: set<nat>, at: nat)
    requires Account(below, u, carry, offline, classes) && at < |u.slots| && u.slots[at].present
    ensures TreeOfRow(u.slots[at].startRow) < |below| == |u.trees|
  {}

  lemma StartTree(row: nat)
    ensures TreeOf(64 * row) == TreeOfRow(row)
  {}

  lemma TookBelowFrames(frames: nat, m: Mem, m': Mem, frame: Option<nat>, order: nat, r: Result)
    requires Serves(frames, m, m', frame, order, r) && r.Ok?
    ensures r.frame < frames && Managed(frames, r.frame, order)
  {
    hide Pow2;
  }

  /** The account after frames were stolen from a slot. */
  lemma StolenSlot(below: seq<nat>, u: Upper, carry: Carry, offline: set<nat>, classes: set<nat>, at: nat,
                   tree: Option<nat>, n: nat)
    requires Account(below, u, carry, offline, classes) && at < |u.slots| && ReservedDec(u.slots[at], tree, n).Some?
    ensures var t := TreeOfRow(u.slots[at].startRow);
            && t < |below| == |u.trees| && carry.For(|below|) && TreeOf(64 * u.slots[at].startRow) == t
            && Account(below, u.(slots := u.slots[at := ReservedDec(u.slots[at], tree, n).value]), carry.Add(t, n),
                       offline, classes)
            && carry.Add(t, n).For(|below|) && n <= carry.Add(t, n).frames[t] && carry.Add(t, n).Sub(t, n) == carry
  {
    TakeFromSlot(below, u, carry, offline, classes, at, tree, n);
    AddSub(carry, |below|, TreeOfRow(u.slots[at].startRow), n);
  }

  /** What is carried after a demotion: the frames to allocate, and the reservation to give up. */
  function DemoteCarry(carry: Carry, t: nat, n: nat, u: Upper, to: Option<nat>, taken: Reserved): Carry
    requires carry.For(|u.trees|) && t < |u.trees| && SlotsOk(u.slots, |u.trees|)
    requires taken.present && TreeOfRow(taken.startRow) < |u.trees| && (to.Some? ==> to.value < |u.slots|)
  {
    Released(carry.Add(t, n), if to.Some? then u.slots[to.value] else taken)
  }

  /** The account after a demotion. */
  lemma DemotedSlots(below: seq<nat>, u: Upper, carry: Carry, offline: set<nat>, classes: set<nat>, at: nat,
                     tree: Option<nat>, n: nat,
                     slots: seq<Reserved>, to: Option<nat>, cls: nat, dem: DemoteResult)
    requires Account(below, u, carry, offline, classes) && at < |u.slots| && ReservedDec(u.slots[at], tree, n).Some?
    requires dem.Demoted? && DemoteMoves(u.slots, slots, at, ReservedDec(u.slots[at], tree, n).value, to, cls, dem)
    ensures var t, taken := TreeOfRow(dem.row), ReservedDec(u.slots[at], tree, n).value;
            && t < |below| == |u.trees| && carry.For(|below|) && SlotsOk(u.slots, |u.trees|) &&
               TreeOfRow(taken.startRow) == t
            && dem.row == u.slots[at].startRow && TreeOf(64 * dem.row) == t && (tree.Some? ==> t == tree.value)
            && (to.Some? ==> to.value < |u.slots|)
            && var given := DemoteCarry(carry, t, n, u, to, taken);
               && Account(below, u.(slots := slots), given, offline, classes)
               && carry.Add(t, n).For(|below|) && n <= carry.Add(t, n).frames[t] && carry.Add(t, n).Sub(t, n) == carry
               && if dem.unreserve then
                    var s := TreeOfRow(dem.unresRow);
                    s < |below| && dem.unresFree <= given.frames[s] && given.tokens[s] > 0 &&
                    given.Sub(s, dem.unresFree).Drop(s) == carry.Add(t, n)
                  else given == carry.Add(t, n)
  {
    var taken := ReservedDec(u.slots[at], tree, n).value;
    var t := TreeOfRow(dem.row);
    var c := carry.Add(t, n);
    AddSub(carry, |below|, t, n);
    TakeFromSlot(below, u, carry, offline, classes, at, tree, n);
    var u1 := u.(slots := u.slots[at := taken]);
    EmptySlot(below, u1, c, offline, classes, at);
    Returned(c, taken, |below|);
    assert u.slots[at := taken][at := EMPTY] == u.slots[at := EMPTY];
    if to.Some? {
      var u2 := u.(slots := u.slots[at := EMPTY]);
      SwapSlot(below, u2, Released(c, taken), offline, classes, to.value, taken);
      if dem.unreserve {
        Returned(c, u.slots[to.value], |below|);
      }
    }
  }

  function NextPow2(n: nat): (p: nat)
    ensures p > 0
  {
    if n <= 1 then 1 else 2 * NextPow2((n + 1) / 2)
  }

  /** The smallest power of two that is not below `n`. */
  lemma {:induction false} NextPow2Is(n: nat)
    ensures exists k: nat :: NextPow2(n) == Pow2(k)
    ensures forall k: nat :: n <= Pow2(k) <==> NextPow2(n) <= Pow2(k)
  {
    if n <= 1 {
      assert Pow2(0) == 1;
    } else {
      var h := (n + 1) / 2;
      NextPow2Is(h);
      var k: nat :| NextPow2(h) == Pow2(k);
      assert Pow2(k + 1) == NextPow2(n);
      forall j: nat
        ensures n <= Pow2(j) <==> NextPow2(n) <= Pow2(j)
      {
        if j > 0 {
          assert h <= Pow2(j - 1) <==> NextPow2(h) <= Pow2(j - 1);
        }
      }
    }
  }

  lemma AlignedBelow(x: nat, a: nat)
    requires a > 0
    ensures AlignDown(x, a) <= x
  {
    QuotientIs(x, a);
    DivBounds(x, a);
  }

  /** No tree that is not reserved has a free frame. */
  ghost predicate NoneUnreserved(u: Upper)
  {
    forall t :: 0 <= t < |u.trees| && !u.trees[t].reserved ==> u.trees[t].free == 0
  }

  /** When a search over all trees tried nothing, no unreserved tree had a free frame. */
  lemma {:induction false} AllVisited(log: seq<Visited>, policy: PolicyFn, search: Search, start: nat, order: nat,
                                      cls: nat,
                                      entries: seq<Tree>, tried: seq<nat>)
    requires Ordered(policy) && order == 0 && !search.Near? && |entries| > 0 && start < |entries| == |log|
    requires Logged(log, policy, search, start, 0, order, cls, |entries|) && Unchanged(log, entries)
    requires tried == [] && tried == PerfectOnes(log) + Indices(Top(Ranking(Candidates(log))))
    ensures forall t :: 0 <= t < |entries| && !entries[t].reserved ==> entries[t].free == 0
  {
    forall t | 0 <= t < |entries| && !entries[t].reserved
      ensures entries[t].free == 0
    {
      VisitsEveryTreeOnce(start, |entries|);
      var k := TreeArray.RoundOf(start, |entries|, t);
      assert log[k].idx == Visit(start, |entries|, 0 + k) == t;
      if entries[t].free > 0 {
        RatedPositive(log[k], policy, search, order, cls);
        if log[k].Perfect() {
          PerfectComplete(log, k);
        } else {
          CandidatesComplete(log, k);
        }
      }
    }
  }

  // ---- searches that fail ----

  /** While a search fails, counters and reservations stay as they were, also where the search loads or tries a
      tree, and slots do not change. */
  ghost predicate Steady(u: Upper, now: Upper, log: seq<Visited>, tried: seq<Attempt>, classes: set<nat>)
  {
    && SameCounts(u.trees, now.trees) && now.slots == u.slots
    && (forall k :: 0 <= k < |log| ==> SameCount(u.trees, log[k].idx, log[k].tree))
    && forall k :: 0 <= k < |tried| ==> SameCount(u.trees, tried[k].idx, tried[k].tree) && tried[k].tree.cls in classes
  }

  predicate SameCount(trees: seq<Tree>, t: nat, tree: Tree)
  {
    t < |trees| && trees[t].free == tree.free && trees[t].reserved == tree.reserved
  }

  lemma {:induction false} SteadyStart(u: Upper, classes: set<nat>)
    ensures Steady(u, u, [], [], classes)
  {}

  lemma {:induction false} SteadyVisit(u: Upper, now: Upper, log: seq<Visited>, tried: seq<Attempt>, classes: set<nat>,
                                       v: Visited)
    requires Steady(u, now, log, tried, classes) && v.idx < |now.trees| && v.tree == now.trees[v.idx]
    ensures Steady(u, now, log + [v], tried, classes)
  {}

  lemma {:induction false} SteadyTry(u: Upper, now: Upper, classes: set<nat>, a: Attempt)
    requires a.idx < |u.trees| && a.tree == u.trees[a.idx] && a.tree.cls in classes
    requires SameCounts(u.trees, now.trees) && now.slots == u.slots
    ensures Steady(u, now, [], [a], classes)
  {}

  lemma {:induction false} SteadyThen(u: Upper, mid: Upper, now: Upper, log: seq<Visited>, tried: seq<Attempt>,
                                      more: seq<Attempt>, classes: set<nat>)
    requires Steady(u, mid, log, tried, classes) && Steady(mid, now, [], more, classes)
    ensures Steady(u, now, log, tried + more, classes)
  {
    SameCountsThen(u.trees, mid.trees, now.trees);
    forall k | 0 <= k < |more|
      ensures SameCount(u.trees, more[k].idx, more[k].tree) && more[k].tree.cls in classes
    {
      assert SameCount(mid.trees, more[k].idx, more[k].tree);
    }
  }

  lemma {:induction false} SteadySince(u: Upper, mid: Upper, now: Upper, log: seq<Visited>, tried: seq<Attempt>,
                                       classes: set<nat>)
    requires SameCounts(u.trees, mid.trees) && mid.slots == u.slots && Steady(mid, now, log, tried, classes)
    ensures Steady(u, now, log, tried, classes)
  {
    SameCountsThen(u.trees, mid.trees, now.trees);
    forall k | 0 <= k < |log|
      ensures SameCount(u.trees, log[k].idx, log[k].tree)
    {
      assert SameCount(mid.trees, log[k].idx, log[k].tree);
    }
    forall k | 0 <= k < |tried|
      ensures SameCount(u.trees, tried[k].idx, tried[k].tree) && tried[k].tree.cls in classes
    {
      assert SameCount(mid.trees, tried[k].idx, tried[k].tree);
    }
  }

  lemma {:induction false} SteadyIs(u: Upper, now: Upper, log: seq<Visited>, tried: seq<Attempt>, classes: set<nat>)
    requires Steady(u, now, log, tried, classes)
    ensures SameCounts(u.trees, now.trees) && now.slots == u.slots
  {}

  /** A candidate is in the list with the round in which it was visited. */
  lemma {:induction false} CandidateIn(log: seq<Visited>, k: nat)
    requires k < |log| && log[k].Prio() > 0
    ensures Seen(log[k].Prio(), log[k].idx, k) in Candidates(log)
  {
    if k < |log| - 1 {
      CandidateIn(log[..|log| - 1], k);
    }
  }

  lemma {:induction false} PerfectIn(log: seq<Visited>, k: nat)
    requires k < |log| && log[k].Perfect()
    ensures log[k].idx in PerfectOnes(log)
  {
    if k < |log| - 1 {
      PerfectIn(log[..|log| - 1], k);
    }
  }

  lemma {:induction false} CandidatesFit(log: seq<Visited>)
    ensures |Candidates(log)| <= |log|
  {
    if log != [] {
      CandidatesFit(log[..|log| - 1]);
    }
  }

  /** The trees that a search tries before it fails. */
  function ToTry(log: seq<Visited>): seq<nat>
  {
    PerfectOnes(log) + Indices(Top(Ranking(Candidates(log))))
  }

  /** A search over all trees tries every tree with enough frames that is not reserved, if there are not more than
      eight candidates. */
  lemma {:induction false} TriesAll(log: seq<Visited>, policy: PolicyFn, search: Search, start: nat, order: nat,
                                    cls: nat, u: Upper, now: Upper, tried: seq<Attempt>, classes: set<nat>, t: nat)
    requires Ordered(policy) && !search.Near? && start < |u.trees| == |log| && Steady(u, now, log, tried, classes)
    requires Logged(log, policy, search, start, 0, order, cls, |u.trees|)
    requires t < |u.trees| && !u.trees[t].reserved && Pow2(order) <= u.trees[t].free
    ensures |Candidates(log)| <= SEARCH_BEST ==> t in ToTry(log)
  {
    hide Logged, Visit, Rate, Ranking, Top, Candidates, PerfectOnes, Ordered, SameCounts;
    var k := VisitOf(log, policy, search, start, order, cls, |u.trees|, t);
    assert SameCount(u.trees, log[k].idx, log[k].tree);
    RatedValid(log[k], policy, search, order, cls);
    if log[k].Perfect() {
      PerfectIn(log, k);
    } else {
      CandidateIn(log, k);
      if |Candidates(log)| <= SEARCH_BEST {
        AllOnTop(log, Seen(log[k].Prio(), log[k].idx, k));
      }
    }
  }

  /** The round in which a search over all trees visits tree `t`. */
  lemma {:induction false} VisitOf(log: seq<Visited>, policy: PolicyFn, search: Search, start: nat, order: nat,
                                   cls: nat,
                                   n: nat, t: nat) returns (k: nat)
    requires start < n == |log| && t < n && Logged(log, policy, search, start, 0, order, cls, n)
    ensures k < |log| && log[k].idx == t
    ensures log[k].rating == if log[k].tree.reserved then INVALID
            else Rate(search, policy, Pow2(order), cls, log[k].tree.cls, log[k].tree.free)
  {
    VisitsEveryTreeOnce(start, n);
    k := TreeArray.RoundOf(start, n, t);
    assert log[k].idx == Visit(start, n, 0 + k) == t;
  }

  lemma RatedValid(v: Visited, policy: PolicyFn, search: Search, order: nat, cls: nat)
    requires Ordered(policy) && !search.Near? && !v.tree.reserved && Pow2(order) <= v.tree.free
    requires v.rating == Rate(search, policy, Pow2(order), cls, v.tree.cls, v.tree.free)
    ensures v.Perfect() || v.Prio() > 0
  {
    assert policy(cls, v.tree.cls, v.tree.free).kind != Invalid;
  }

  lemma {:induction false} AllOnTop(log: seq<Visited>, c: Seen)
    requires c in Candidates(log) && |Candidates(log)| <= SEARCH_BEST
    ensures c.idx in Indices(Top(Ranking(Candidates(log))))
  {
    var s := Candidates(log);
    CandidatesKnown(log);
    RankingIsRanked(s);
    assert c in multiset(s);
    assert c in multiset(Ranking(s));
    var k :| 0 <= k < |Ranking(s)| && Ranking(s)[k] == c;
    assert Indices(Ranking(s))[k] == c.idx;
  }

  /** Under an ordered policy a tree with a free frame is tried at once or is a candidate. */
  lemma RatedPositive(v: Visited, policy: PolicyFn, search: Search, order: nat, cls: nat)
    requires Ordered(policy) && order == 0 && !search.Near? && v.tree.free > 0
    requires v.rating == Rate(search, policy, Pow2(order), cls, v.tree.cls, v.tree.free)
    ensures v.Perfect() || v.Prio() > 0
  {
    SmallPow(0);
    assert policy(cls, v.tree.cls, v.tree.free).kind != Invalid;
  }

  lemma ShareBelow(len: nat, count: nat, i: nat)
    requires i < count && len > 0
    ensures len / count * i < len
  {
    var q := len / count;
    DivBounds(len, count);
    if q > 0 {
      MulLe(i, count - 1, q);
      MulStep(count - 1, q);
      assert i * q == q * i && count * q == q * count;
    }
  }

  /** What is known about the log after one more visit. */
  lemma {:induction false} AfterVisit(log: seq<Visited>, policy: PolicyFn, search: Search, start: nat, offset: nat,
                                      order: nat,
                                      cls: nat, n: nat, v: Visited, entries: seq<Tree>)
    requires n == |entries| > 0 && Logged(log, policy, search, start, offset, order, cls, n)
    requires v.idx == Visit(start, n, offset + |log|) && v.tree == entries[v.idx]
    requires v.rating == if v.tree.reserved then INVALID
             else Rate(search, policy, Pow2(order), cls, v.tree.cls, v.tree.free)
    ensures Logged(log + [v], policy, search, start, offset, order, cls, n)
    ensures Unchanged(log, entries) ==> Unchanged(log + [v], entries)
    ensures PerfectOnes(log + [v]) == if v.Perfect() then PerfectOnes(log) + [v.idx] else PerfectOnes(log)
    ensures v.Perfect() || v.rating.kind == Invalid ==> Candidates(log + [v]) == Candidates(log)
    ensures v.Perfect() ==> !v.tree.reserved && v.tree.free > 0
  {
    hide Visit, Rate, Candidates, PerfectOnes, Logged, Unchanged;
    LoggedMore(log, policy, search, start, offset, order, cls, n, v, entries);
    LogMore(log, v);
    if v.Perfect() || v.rating.kind == Invalid {
      NotKept(log, v);
    }
    if v.Perfect() {
      RatedFree(search, policy, order, cls, v.tree);
    }
  }

  /** An allocation removes exactly its frames. */
  lemma ServedFree(frames: nat, m: Mem, m': Mem, frame: Option<nat>, order: nat, r: Result)
    requires Inv(frames, m) && Serves(frames, m, m', frame, order, r)
    ensures r.Ok? ==> Block(r.frame, Pow2(order)) <= Free(frames, m) && Block(r.frame, Pow2(order)) != {}
                      && Free(frames, m') == Free(frames, m) - Block(r.frame, Pow2(order))
  {
    hide Inv, Pow2;
    if r.Ok? {
      TookBelow(frames, m, m', r.frame, order);
      BlockInTree(frames, r.frame, order);
    }
  }

  /** Without slots in use, exhausted entries mean that no frame is free. */
  lemma NothingBelow(frames: nat, m: Mem, u: Upper, carry: Carry, classes: set<nat>)
    requires Inv(frames, m) && Account(BelowOf(frames, m), u, carry, {}, classes) && carry == NoCarry(TreeCount(frames))
    requires NoneUnreserved(u) && forall i :: 0 <= i < |u.slots| ==> !u.slots[i].present
    ensures Free(frames, m) == {}
  {
    hide Inv, TreeFrames, TreeCount;
    if f :| f in Free(frames, m) {
      TreeBelow(frames, f);
      var t := TreeOf(f);
      NothingHeld(u.slots, t);
      assert TreeAccount(BelowOf(frames, m)[t], u.trees[t], u.slots, t, carry.frames[t], carry.tokens[t], true,
                         classes);
      TreeOfChildren(t);
      assert f in Free(frames, m) * TreeFrames(t);
      BelowIs(frames, m, t);
    }
  }

  /** An attempt after one that served nothing. */
  lemma ThenServed(frames: nat, m: Mem, m1: Mem, m2: Mem, order: nat, r: Result)
    requires Serves(frames, m, m1, None, order, Err(Error.Memory)) && Serves(frames, m1, m2, None, order, r)
    ensures Serves(frames, m, m2, None, order, r)
    ensures r.Err? ==> r == Err(Error.Memory)
  {}

  lemma ErrKeeps(frames: nat, m: Mem, m': Mem, frame: Option<nat>, order: nat, r: Result)
    requires Serves(frames, m, m', frame, order, r) && r.Err?
    ensures m' == m && r == Err(Error.Memory)
  {}

  lemma NothingServed(frames: nat, m: Mem, frame: Option<nat>, order: nat)
    ensures Serves(frames, m, m, frame, order, Err(Error.Memory))
  {}

  lemma SameService(frames: nat, m: Mem, m': Mem, frame: Option<nat>, order: nat, r: Result, cls: nat)
    requires Serves(frames, m, m', frame, order, r) && r.Ok?
    ensures Serves(frames, m, m', frame, order, Result.Ok(r.frame, cls))
  {}

  /** What the lower allocator promises about giving back a block, in terms of the counts. */
  lemma PutGave(frames: nat, m: Mem, m': Mem, f: nat, order: nat, r: Result)
    requires Inv(frames, m) && Managed(frames, f, order) && PutMeets(frames, m, m', f, order, r)
    ensures r.Err? ==> m' == m
    ensures r.Ok? ==>
              var t, below := TreeOf(f), BelowOf(frames, m);
              && t < |below| && below[t] + Pow2(order) <= TREE_SIZE &&
                 BelowOf(frames, m') == below[t := below[t] + Pow2(order)]
              && Block(f, Pow2(order)) !! Free(frames, m) && Free(frames, m') == Free(frames, m) + Block(f, Pow2(order))
  {
    hide Inv, BelowOf, TreeOf, Pow2, Free, Block, Allocated, Dealloc;
    if r.Ok? {
      GaveBelow(frames, m, f, order);
    }
  }

  // ---- changing trees ----

  function AfterChange(offline: set<nat>, idx: nat, operation: Operation): set<nat>
  {
    match operation
    case Keep => offline
    case Offline => offline + {idx}
    case Online => offline - {idx}
  }

  function WithClass(classes: set<nat>, cls: nat): set<nat>
  {
    if cls == CLASS_NONE then classes else classes + {Bits3(cls)}
  }

  /** Where neither the entry of a tree nor a slot that holds it counts a frame, none of its frames is free. */
  lemma NothingIn(frames: nat, m: Mem, u: Upper, carry: Carry, classes: set<nat>, f: nat)
    requires Account(BelowOf(frames, m), u, carry, {}, classes) && carry == NoCarry(TreeCount(frames)) && f < frames
    requires TreeOf(f) < |u.trees| && u.trees[TreeOf(f)].free == 0
    requires forall i :: 0 <= i < |u.slots| && HoldsTree(u.slots[i], TreeOf(f)) ==> u.slots[i].free == 0
    ensures f !in Free(frames, m)
  {
    hide Free, TreeCount, TreeOf, TreeFrames;
    var t := TreeOf(f);
    TreeBelow(frames, f);
    BelowIs(frames, m, t);
    EmptyHolders(u.slots, t);
    assert TreeAccount(BelowOf(frames, m)[t], u.trees[t], u.slots, t, carry.frames[t], carry.tokens[t], t !in {},
                       classes);
    NoneFree(frames, m, f);
  }

  /** A tree with fewer free frames than a block has no free block. */
  lemma TooFewFrames(frames: nat, m: Mem, t: nat, order: nat)
    ensures FreeOfTree(frames, m, t) < Pow2(order) ==> NoBlock(frames, m, t, order)
  {
    hide Free, Pow2, TreeOf, TreeFrames, Aligned;
    forall f | Managed(frames, f, order) && TreeOf(f) == t && Block(f, Pow2(order)) <= Free(frames, m)
      ensures Pow2(order) <= FreeOfTree(frames, m, t)
    {
      BlockInTree(frames, f, order);
      CardSubset(Block(f, Pow2(order)), Free(frames, m) * TreeFrames(t));
    }
  }

  /** The tree that was demoted, while the call carries its frames, is reserved, or has a class that is not above the
      requested one. */
  lemma DemotedTree(below: seq<nat>, u: Upper, carry: Carry, offline: set<nat>, classes: set<nat>, t: nat, frames: nat,
                    to: Option<nat>, before: Tree, free: nat, cls: nat, policy: PolicyFn, dflt: nat)
    requires Account(below, u, carry, offline, classes) && t < |below| && 0 < frames <= carry.frames[t]
    requires Ordered(policy) && cls < MAX_CLASSES && dflt < MAX_CLASSES
    requires if to.Some? then to.value < |u.slots| && HoldsTree(u.slots[to.value], t)
             else Some(u.trees[t]) == TreeUnreserve(before, free, cls, policy, dflt)
    ensures u.trees[t].reserved || u.trees[t].cls <= cls
  {
    hide Ordered, TreeUnreserve;
    if to.Some? {
      DistinctHolders(below, u, carry, offline, classes);
    } else {
      CountFits(below, u, carry, offline, classes, t);
      ClassesAfter(before, free, cls, policy, dflt);
    }
  }

  lemma {:induction false} EmptyHolders(slots: seq<Reserved>, t: nat)
    requires forall i :: 0 <= i < |slots| && HoldsTree(slots[i], t) ==> slots[i].free == 0
    ensures SlotFrames(slots, t) == 0
  {
    if slots != [] {
      EmptyHolders(slots[..|slots| - 1], t);
    }
  }

  lemma NoneFree(frames: nat, m: Mem, f: nat)
    ensures FreeOfTree(frames, m, TreeOf(f)) == 0 ==> f !in Free(frames, m)
  {
    hide Free, TreeOf;
    TreeOfChildren(TreeOf(f));
    if f in Free(frames, m) {
      CardSubset({f}, Free(frames, m) * TreeFrames(TreeOf(f)));
    }
  }

  /** An unreserved tree without calls in progress is held by no slot. */
  lemma {:induction false} UnheldSlots(slots: seq<Reserved>, t: nat)
    requires SlotCount(slots, t) == 0
    ensures SlotFrames(slots, t) == 0
  {
    if slots != [] {
      UnheldSlots(slots[..|slots| - 1], t);
    }
  }

  /** The accounts after a change of a tree that meets the conditions. */
  lemma ChangeAccount(frames: nat, m: Mem, u: Upper, carry: Carry, offline: set<nat>, classes: set<nat>, idx: nat,
                      matcher: Matcher, change: Change)
    requires Account(BelowOf(frames, m), u, carry, offline, classes) && carry == NoCarry(TreeCount(frames))
    requires idx < |u.trees| && Meets(u.trees[idx], matcher, change)
    ensures Account(BelowOf(frames, m), u.(trees :=
                                           u.trees[idx := Changed(u.trees[idx], change, FreeOfTree(frames, m, idx))]),
                    carry, AfterChange(offline, idx, change.operation), WithClass(classes, change.cls))
  {
    hide FreeOfTree;
    var below := BelowOf(frames, m);
    var trees := u.trees[idx := Changed(u.trees[idx], change, FreeOfTree(frames, m, idx))];
    BelowIs(frames, m, idx);
    forall t | 0 <= t < |below|
      ensures TreeAccount(below[t], trees[t], u.slots, t, carry.frames[t], carry.tokens[t],
                          t !in AfterChange(offline, idx, change.operation), WithClass(classes, change.cls))
    {
      assert TreeAccount(below[t], u.trees[t], u.slots, t, carry.frames[t], carry.tokens[t], t !in offline, classes);
      if t == idx {
        UnheldSlots(u.slots, t);
      }
    }
  }

  /** The tree of visit `k` is the first in the order of the visits that meets the conditions. */
  ghost predicate FirstMeets(entries: seq<Tree>, matcher: Matcher, change: Change, k: nat)
    requires k < |entries|
  {
    && Meets(entries[Visit(0, |entries|, k)], matcher, change)
    && forall i: nat :: i < k ==> !Meets(entries[Visit(0, |entries|, i)], matcher, change)
  }

  lemma {:induction false} FirstIs(entries: seq<Tree>, matcher: Matcher, change: Change, k: nat)
    requires k < |entries| && forall i: nat :: i < k ==> !Meets(entries[Visit(0, |entries|, i)], matcher, change)
    ensures Meets(entries[Visit(0, |entries|, k)], matcher, change) ==> FirstMeets(entries, matcher, change, k)
  {}

  lemma {:induction false} NoneMet(entries: seq<Tree>, matcher: Matcher, change: Change)
    requires |entries| > 0 && forall k: nat :: k < |entries| ==>
             !Meets(entries[Visit(0, |entries|, k)], matcher, change)
    ensures forall t :: 0 <= t < |entries| ==> !Meets(entries[t], matcher, change)
  {
    hide Meets;
    forall t | 0 <= t < |entries|
      ensures !Meets(entries[t], matcher, change)
    {
      VisitOfRound(0, |entries|, t);
      assert !Meets(entries[Visit(0, |entries|, TreeArray.RoundOf(0, |entries|, t))], matcher, change);
    }
  }

  /** No counter exceeds the tree size. */
  lemma {:induction false} NoneMeets(entries: seq<Tree>, matcher: Matcher, change: Change)
    requires matcher.free > TREE_SIZE && forall t :: 0 <= t < |entries| ==> entries[t].free <= TREE_SIZE
    ensures forall t :: 0 <= t < |entries| ==> !Meets(entries[t], matcher, change)
  {}

  /** The statistics of a frame at the tree order count the free frames of its tree, also when trees
      are single children. */
  lemma TreeStats(frames: nat, m: Mem, f: nat)
    ensures TREE_ORDER == HUGE_ORDER ==> FreeIn(frames, m, 512 * (f / 512), 512) == FreeOfTree(frames, m, TreeOf(f))
  {
    TreeOfIs(f);
    if TREE_ORDER == HUGE_ORDER {
      SmallPow(0);
      assert TREE_SIZE == 512;
    }
  }

  /** Where only one slot holds a tree, its frames are all that slots hold of the tree. */
  lemma {:induction false} OneHolder(slots: seq<Reserved>, i: nat, t: nat)
    requires i < |slots| && HoldsTree(slots[i], t) && SlotCount(slots, t) <= 1
    ensures SlotCount(slots, t) == 1 && SlotFrames(slots, t) == slots[i].free
  {
    var n := |slots| - 1;
    if i < n {
      SlotAtMost(slots[..n], i, t);
      OneHolder(slots[..n], i, t);
    } else {
      UnheldSlots(slots[..n], t);
    }
  }

  // ---- initialisation ----

  /** `MAX_PAGES` */
  const MAX_PAGES: nat := 0x10_0000_0000_0000

  /** The configured classes and the default class. */
  function Configured(classing: Classing): set<nat>
  {
    (set i | 0 <= i < |classing.classes| :: classing.classes[i].cls) + {Bits3(classing.defaultClass)}
  }

  /** A class with slots is configured. */
  lemma {:induction false} CountedIsConfigured(conf: seq<ClassConf>, c: nat)
    requires CountOf(conf, c).Some?
    ensures exists i :: 0 <= i < |conf| && conf[i].cls == c
  {
    var n := |conf| - 1;
    if conf[n].cls != c {
      CountedIsConfigured(conf[..n], c);
      var i :| 0 <= i < n && conf[..n][i].cls == c;
      assert conf[i].cls == c;
    }
  }

  lemma ConfiguredClasses(classing: Classing)
    requires classing.defaultClass < MAX_CLASSES
    requires forall i :: 0 <= i < |classing.classes| ==> classing.classes[i].cls < MAX_CLASSES
    ensures forall c :: c in Configured(classing) ==> c < MAX_CLASSES
    ensures Bits3(classing.defaultClass) == classing.defaultClass && classing.defaultClass in Configured(classing)
    ensures forall c: nat :: CountOf(classing.classes, c).Some? ==> c in Configured(classing)
  {
    forall c: nat | CountOf(classing.classes, c).Some?
      ensures c in Configured(classing)
    {
      CountedIsConfigured(classing.classes, c);
    }
  }

  /** The movable classing has three classes, each with a slot per core. */
  lemma MovableHasSlots(cores: nat, c: nat)
    ensures c in Configured(ClassingMovable(cores)) <==> c < 3
    ensures c < 3 ==> CountOf(ClassingMovable(cores).classes, c) == Some(cores)
  {
    var conf := ClassingMovable(cores).classes;
    assert conf[0].cls == 0 && conf[1].cls == 1 && conf[2].cls == 2;
    assert conf[..2] == [ClassConf(0, cores), ClassConf(1, cores)];
    assert conf[..2][..1] == [ClassConf(0, cores)];
    assert CountOf(conf[..2][..1], 0) == Some(cores);
    assert CountOf(conf[..2], 0) == Some(cores) && CountOf(conf[..2], 1) == Some(cores);
  }

  lemma EntriesOf(frames: nat, t: nat)
    requires t < TreeCount(frames)
    ensures t * TREE_CHILDREN + TREE_CHILDREN <= Padded(frames)
  {
    PaddedIs(frames);
    MulLe(t + 1, TreeCount(frames), TREE_CHILDREN);
    MulStep(t, TREE_CHILDREN);
  }

  /** The accounts of a new allocator. */
  lemma FreshAccount(frames: nat, m: Mem, u: Upper, classes: set<nat>, cls: nat)
    requires cls in classes && |u.trees| == TreeCount(frames)
    requires forall t :: 0 <= t < |u.trees| ==> u.trees[t] == Tree(false, cls, FreeOfTree(frames, m, t))
    requires forall i :: 0 <= i < |u.slots| ==> !u.slots[i].present
    ensures Account(BelowOf(frames, m), u, NoCarry(TreeCount(frames)), {}, classes)
  {
    hide FreeOfTree, TreeCount;
    var below, carry := BelowOf(frames, m), NoCarry(TreeCount(frames));
    forall t | 0 <= t < |below|
      ensures TreeAccount(below[t], u.trees[t], u.slots, t, carry.frames[t], carry.tokens[t], true, classes)
    {
      BelowIs(frames, m, t);
      NothingHeld(u.slots, t);
      TreeCounts(frames, m, t);
    }
  }

  /** The frames of the entry moved into the slot that holds its tree, if the slot has fewer than `n` and both
      together more. */
  function Synced(u: Upper, at: nat, n: nat): Upper
    requires at < |u.slots|
  {
    var slot := u.slots[at];
    var t := TreeOfRow(slot.startRow);
    if slot.present && t < |u.trees| && slot.free < n < slot.free + u.trees[t].free then
      Upper(u.trees[t := u.trees[t].(free := 0)], u.slots[at := slot.(free := slot.free + u.trees[t].free)])
    else u
  }

  /** `n` frames of tree `t` that are given back are counted in the slot at `at` if it holds the tree, and else in the
      entry of the tree. */
  ghost predicate Counted(before: Upper, after: Upper, at: Option<nat>, t: nat, n: nat, policy: PolicyFn, dflt: nat)
  {
    if at.Some? && at.value < |before.slots| && HoldsTree(before.slots[at.value], t) then
      var slot := before.slots[at.value];
      after == Upper(before.trees, before.slots[at.value := slot.(free := slot.free + n)])
    else
      && t < |before.trees| && |after.trees| == |before.trees|
      && after == Upper(before.trees[t := after.trees[t]], before.slots)
      && after.trees[t].free == before.trees[t].free + n && after.trees[t].reserved == before.trees[t].reserved
      && after.trees[t] == TreePut(before.trees[t], n, policy, dflt)
  }
}
