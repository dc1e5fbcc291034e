/** What the upper level knows about the lower one, and how trees are rated (src/llfree.c). */
module UpperSpec {
  import opened Base
  import opened Children
  import opened LowerSpec
  import opened LowerWhole
  import opened Policies
  import opened TreeEntries
  import opened TreeArray
  import opened Locals

  // ---- rows, frames and trees ----

  /** `frame_from_tree` */
  function TreeFrame(t: nat): nat
  {
    t * TREE_SIZE
  }

  lemma RowOfTree(frames: nat, t: nat)
    requires TreeFrame(t) < frames <= 64 * ROW_LIMIT
    ensures var row := NewReserved(true, 0, RowFromTree(t)).startRow;
            64 * row == TreeFrame(t) && TreeOfRow(row) == t
  {
    hide Quotient, TreeFrame, TreeOf;
    var row := RowFromTree(t);
    FirstRow(t);
    assert row < ROW_LIMIT && row % ROW_LIMIT == row;
  }

  lemma FirstRow(t: nat)
    ensures 64 * RowFromTree(t) == TreeFrame(t) && TreeOf(TreeFrame(t)) == t
  {
    hide Quotient, TreeOf;
    QuotientIs(t * TREE_SIZE, 64);
    TreeOfIs(TreeFrame(t));
    TreeOfChildren(t);
    MulDiv(t, TREE_SIZE);
  }

  lemma RowOfFrame(f: nat)
    ensures TreeOfRow(f / 64) == TreeOf(f) && 64 * (f / 64) <= f
  {
    hide TreeOf;
    TreeOfIs(f);
    TreeOfIs(64 * (f / 64));
    DivDiv(f, 64, 8 * TREE_CHILDREN);
    DivDiv(64 * (f / 64), 64, 8 * TREE_CHILDREN);
    assert 64 * (8 * TREE_CHILDREN) == TREE_SIZE;
  }

  lemma TreeStart(frames: nat, t: nat)
    requires t < TreeCount(frames)
    ensures TreeFrame(t) < frames && TreeOf(TreeFrame(t)) == t
  {
    hide ChildCount;
    ChildCountIs(frames);
    TreeOfChildren(t);
    MulDiv(t, TREE_SIZE);
    BelowCeiling(t, ChildCount(frames), TREE_CHILDREN);
  }

  lemma BelowCeiling(t: nat, n: nat, d: nat)
    requires d > 0 && t < DivCeil(n, d)
    ensures t * d < n
  {
    DivCeilIs(n, d);
    DivBounds(n + d - 1, d);
    MulLe(t + 1, DivCeil(n, d), d);
    MulStep(t, d);
  }

  /** `div_ceil(frames, TREE_SIZE)` */
  lemma TreeCountIs(frames: nat)
    ensures TreeCount(frames) == DivCeil(frames, TREE_SIZE)
  {
    Ceilings(frames, 512, TREE_CHILDREN);
  }

  lemma Ceilings(a: nat, b: nat, c: nat)
    requires b > 0 && c > 0
    ensures b * c > 0 && DivCeil(DivCeil(a, b), c) == DivCeil(a, b * c)
  {
    var x := DivCeil(a, b);
    var q := DivCeil(x, c);
    AlignUpIs(a, b);
    AlignUpIs(x, c);
    assert a <= x * b < a + b && x <= q * c < x + c;
    MulLe(x, q * c, b);
    MulSwap(q, b, c);
    MulCommutes(q, b, c);
    if q > 0 {
      MulLe((q - 1) * c + 1, x, b);
      MulCommutes(q - 1, b, c);
      MulStep((q - 1) * c, b);
      MulStep(q - 1, c);
      MulStep(q - 1, b * c);
      CeilIs(a, b * c, q);
    } else {
      DivIs(a + b * c - 1, b * c, 0);
    }
  }

  lemma MulCommutes(q: nat, b: nat, c: nat)
    ensures q * (b * c) == q * c * b
  {}

  lemma CeilIs(a: nat, d: nat, q: nat)
    requires d > 0 && q > 0 && (q - 1) * d < a <= q * d
    ensures DivCeil(a, d) == q
  {
    DivCeilIs(a, d);
    MulStep(q - 1, d);
    MulStep(q, d);
    DivIs(a + d - 1, d, q);
  }

  /** Counters and reservations are the same; classes may differ. */
  ghost predicate SameCounts(before: seq<Tree>, after: seq<Tree>)
  {
    && |before| == |after|
    && forall t :: 0 <= t < |before| ==> before[t].free == after[t].free && before[t].reserved == after[t].reserved
  }

  lemma {:induction false} SameCountsThen(a: seq<Tree>, b: seq<Tree>, c: seq<Tree>)
    requires SameCounts(a, b) && SameCounts(b, c)
    ensures SameCounts(a, c)
  {}

  lemma {:induction false} CountsReturned(before: seq<Tree>, after: seq<Tree>, idx: nat)
    requires idx < |before| == |after| && after == before[idx := after[idx]]
    requires after[idx].free == before[idx].free && after[idx].reserved == before[idx].reserved
    ensures SameCounts(before, after)
  {}

  // ---- the free frames below each tree ----

  ghost function BelowOf(frames: nat, m: Mem): seq<nat>
  {
    seq(TreeCount(frames), t requires t >= 0 => FreeOfTree(frames, m, t))
  }

  lemma BelowIs(frames: nat, m: Mem, t: nat)
    requires t < TreeCount(frames)
    ensures |BelowOf(frames, m)| == TreeCount(frames) && BelowOf(frames, m)[t] == FreeOfTree(frames, m, t)
  {}

  /** An aligned block lies in one tree. */
  lemma BlockInTree(frames: nat, f: nat, order: nat)
    requires Managed(frames, f, order)
    ensures Block(f, Pow2(order)) <= TreeFrames(TreeOf(f)) && TreeOf(f) < TreeCount(frames)
    ensures f in Block(f, Pow2(order)) && |Block(f, Pow2(order))| == Pow2(order)
  {
    TreeOfIs(f);
    TreeBelow(frames, f);
    TreeSizeIsPow();
    BlockInside(f, order, TREE_ORDER);
    BlockSize(f, Pow2(order));
    DivBounds(f, TREE_SIZE);
  }

  lemma TreesApart(t: nat, i: nat, b: set<nat>)
    requires b <= TreeFrames(t) && i != t
    ensures b !! TreeFrames(i)
  {
    TreeOfChildren(t);
    TreeOfChildren(i);
  }

  /** The counts after frames of one tree were allocated. */
  lemma BelowLess(frames: nat, m: Mem, m': Mem, t: nat, b: set<nat>)
    requires t < TreeCount(frames) && b <= TreeFrames(t)
    requires Free(frames, m') == Free(frames, m) - b && b <= Free(frames, m)
    ensures |b| <= BelowOf(frames, m)[t] && BelowOf(frames, m') == BelowOf(frames, m)[t := BelowOf(frames, m)[t] - |b|]
  {
    hide Free, TreeFrames, TreeCount;
    forall i: nat | i < TreeCount(frames)
      ensures BelowOf(frames, m')[i] == BelowOf(frames, m)[i] - if i == t then |b| else 0
    {
      CountLess(Free(frames, m), b, TreeFrames(i));
      if i != t {
        TreesApart(t, i, b);
      }
    }
  }

  /** The counts after frames of one tree were given back. */
  lemma BelowMore(frames: nat, m: Mem, m': Mem, t: nat, b: set<nat>)
    requires t < TreeCount(frames) && b <= TreeFrames(t)
    requires Free(frames, m') == Free(frames, m) + b && b !! Free(frames, m)
    ensures BelowOf(frames, m') == BelowOf(frames, m)[t := BelowOf(frames, m)[t] + |b|]
  {
    hide Free, TreeFrames, TreeCount;
    forall i: nat | i < TreeCount(frames)
      ensures BelowOf(frames, m')[i] == BelowOf(frames, m)[i] + if i == t then |b| else 0
    {
      CountMore(Free(frames, m), b, TreeFrames(i));
      if i != t {
        TreesApart(t, i, b);
      }
    }
  }

  lemma TookBelow(frames: nat, m: Mem, m': Mem, f: nat, order: nat)
    requires Inv(frames, m) && Took(frames, m, m', f, order)
    ensures var t, below := TreeOf(f), BelowOf(frames, m);
            t < |below| && Pow2(order) <= below[t] && BelowOf(frames, m') == below[t := below[t] - Pow2(order)]
    ensures Free(frames, m') == Free(frames, m) - Block(f, Pow2(order))
  {
    hide Inv, Free, TreeCount, TreeFrames, Pow2, Block;
    BlockInTree(frames, f, order);
    AllocRefines(frames, m, f, order);
    BelowLess(frames, m, m', TreeOf(f), Block(f, Pow2(order)));
  }

  lemma GaveBelow(frames: nat, m: Mem, f: nat, order: nat)
    requires Inv(frames, m) && Managed(frames, f, order) && Allocated(m, f, order) && Covered(m, f, order)
    ensures var t, below := TreeOf(f), BelowOf(frames, m);
            && t < |below| && below[t] + Pow2(order) <= TREE_SIZE
            && BelowOf(frames, Dealloc(m, f, order)) == below[t := below[t] + Pow2(order)]
    ensures Free(frames, Dealloc(m, f, order)) == Free(frames, m) + Block(f, Pow2(order))
    ensures Block(f, Pow2(order)) !! Free(frames, m)
  {
    hide Inv, Free, TreeCount, TreeFrames, Pow2, Block, Dealloc, Allocated, Managed, Covered, TreeOf;
    BlockInTree(frames, f, order);
    DeallocRefines(frames, m, f, order);
    BelowMore(frames, m, Dealloc(m, f, order), TreeOf(f), Block(f, Pow2(order)));
    TreeCounts(frames, Dealloc(m, f, order), TreeOf(f));
    assert BelowOf(frames, Dealloc(m, f, order))[TreeOf(f)] == FreeOfTree(frames, Dealloc(m, f, order), TreeOf(f));
  }

  /** A tree with a free frame has a free block of order 0. */
  lemma FreeFrameExists(frames: nat, m: Mem, t: nat)
    requires FreeOfTree(frames, m, t) > 0
    ensures !NoBlock(frames, m, t, 0)
  {
    var s := Free(frames, m) * TreeFrames(t);
    assert s != {};
    var f :| f in s;
    SmallPow(0);
    TreeOfChildren(t);
    assert Block(f, 1) == {f};
    assert Managed(frames, f, 0);
    assert TreeOf(f) == t;
  }

  // ---- rating trees ----

  /** The three searches: near the start, over all trees, and over all trees without a slot. */
  datatype Search = Near | Global | Any

  const INVALID: Policy := Policy(Invalid, 0)

  /** `rate_reserve_near_tree`, `rate_reserve_global_tree` and `rate_global_tree` */
  function Rate(search: Search, policy: PolicyFn, frames: nat, cls: nat, treeClass: nat, free: nat): Policy
  {
    if free < frames then INVALID
    else
      var p := policy(cls, treeClass, free);
      match search
      case Near =>
        if p.kind == Match then p
        else if p.kind == Demote && free == TREE_SIZE then Policy(Match, 255)
        else INVALID
      case Global =>
        if p.kind == Match || (p.kind == Demote && free == TREE_SIZE) then Policy(Match, 255) else p
      case Any => p
  }

  /** A tree as the search loaded it, with its rating. Reserved trees are not rated. */
  datatype Visited = Visited(idx: nat, tree: Tree, rating: Policy) {
    predicate Perfect() {
      rating.kind == Match && rating.priority == 255
    }

    /** The priority that is kept, 0 if the tree is no candidate. */
    function Prio(): nat {
      if rating.kind == Invalid || Perfect() then 0 else (rating.priority as int + 1) % 256
    }
  }

  /** The candidates among the trees visited. */
  function Candidates(log: seq<Visited>): seq<Seen>
  {
    if log == [] then []
    else
      var n := |log| - 1;
      Candidates(log[..n]) + if log[n].Prio() > 0 then [Seen(log[n].Prio(), log[n].idx, n)] else []
  }

  /** The trees that were tried at once. */
  function PerfectOnes(log: seq<Visited>): seq<nat>
  {
    if log == [] then []
    else
      var n := |log| - 1;
      PerfectOnes(log[..n]) + if log[n].Perfect() then [log[n].idx] else []
  }

  /** A call of a callback: the tree, and its entry before the call. */
  datatype Attempt = Attempt(idx: nat, tree: Tree)

  function Tried(attempts: seq<Attempt>): (r: seq<nat>)
    ensures |r| == |attempts|
  {
    seq(|attempts|, k requires 0 <= k < |attempts| => attempts[k].idx)
  }

  lemma {:induction false} TriedMore(attempts: seq<Attempt>, more: seq<Attempt>)
    ensures Tried(attempts + more) == Tried(attempts) + Tried(more)
  {}

  function Indices(s: seq<Seen>): seq<nat>
  {
    seq(|s|, k requires 0 <= k < |s| => s[k].idx)
  }

  /** Each candidate was visited in its round. */
  ghost predicate Known(log: seq<Visited>, c: Seen)
  {
    c.round < |log| && c.prio > 0 && c.prio == log[c.round].Prio() && c.idx == log[c.round].idx
  }

  lemma {:induction false} CandidatesKnown(log: seq<Visited>)
    ensures forall k :: 0 <= k < |Candidates(log)| ==> Known(log, Candidates(log)[k])
    ensures InOrder(Candidates(log))
  {
    if log != [] {
      var n := |log| - 1;
      CandidatesKnown(log[..n]);
      var rest, all := Candidates(log[..n]), Candidates(log);
      forall k | 0 <= k < |all|
        ensures Known(log, all[k])
      {
        if k < |rest| {
          assert Known(log[..n], rest[k]);
        }
      }
      assert forall k :: 0 <= k < |rest| ==> Known(log[..n], rest[k]) && rest[k].round < n;
    }
  }

  /** No visited tree that can be a candidate is missing. */
  lemma {:induction false} CandidatesComplete(log: seq<Visited>, k: nat)
    requires k < |log| && log[k].Prio() > 0
    ensures Candidates(log) != []
  {
    if k < |log| - 1 {
      CandidatesComplete(log[..|log| - 1], k);
    }
  }

  lemma {:induction false} PerfectComplete(log: seq<Visited>, k: nat)
    requires k < |log| && log[k].Perfect()
    ensures PerfectOnes(log) != []
  {
    if k < |log| - 1 {
      PerfectComplete(log[..|log| - 1], k);
    }
  }

  lemma {:induction false} IndicesMore(s: seq<Seen>, k: nat)
    requires k < |s|
    ensures Indices(s[..k + 1]) == Indices(s[..k]) + [s[k].idx]
    ensures Indices(s[..0]) == []
  {}

  lemma {:induction false} LogMore(log: seq<Visited>, v: Visited)
    ensures Candidates(log + [v]) == Candidates(log) + if v.Prio() > 0 then [Seen(v.Prio(), v.idx, |log|)] else []
    ensures PerfectOnes(log + [v]) == PerfectOnes(log) + if v.Perfect() then [v.idx] else []
  {
    assert (log + [v])[..|log|] == log;
  }

  /** The log of a search: the trees in the order of the visits, with their ratings. */
  ghost predicate Logged(log: seq<Visited>, policy: PolicyFn, search: Search, start: nat, offset: nat, order: nat,
                         cls: nat, n: nat)
    requires n > 0
  {
    forall k :: 0 <= k < |log| ==>
      && log[k].idx == Visit(start, n, offset + k)
      && var t := log[k].tree;
         log[k].rating == if t.reserved then INVALID else Rate(search, policy, Pow2(order), cls, t.cls, t.free)
  }

  /** The entries are still as they were visited. */
  ghost predicate Unchanged(log: seq<Visited>, entries: seq<Tree>)
  {
    forall k :: 0 <= k < |log| ==> log[k].idx < |entries| && log[k].tree == entries[log[k].idx]
  }

  lemma NothingLogged(policy: PolicyFn, search: Search, start: nat, offset: nat, order: nat, cls: nat, n: nat,
                      entries: seq<Tree>)
    requires n > 0
    ensures Logged([], policy, search, start, offset, order, cls, n) && Unchanged([], entries) && PerfectOnes([]) == []
  {}

  lemma {:induction false} LoggedMore(log: seq<Visited>, policy: PolicyFn, search: Search, start: nat, offset: nat,
                                      order: nat,
                                      cls: nat, n: nat, v: Visited, entries: seq<Tree>)
    requires n == |entries| > 0 && Logged(log, policy, search, start, offset, order, cls, n)
    requires v.idx == Visit(start, n, offset + |log|) && v.tree == entries[v.idx]
    requires v.rating == if v.tree.reserved then INVALID
             else Rate(search, policy, Pow2(order), cls, v.tree.cls, v.tree.free)
    ensures Logged(log + [v], policy, search, start, offset, order, cls, n)
    ensures Unchanged(log, entries) ==> Unchanged(log + [v], entries)
  {}

  lemma RatedFree(search: Search, policy: PolicyFn, order: nat, cls: nat, t: Tree)
    requires Rate(search, policy, Pow2(order), cls, t.cls, t.free).kind != Invalid
    ensures t.free > 0
  {}

  lemma NothingSeen(best: seq<Candidate>)
    requires |best| == SEARCH_BEST && forall k :: 0 <= k < SEARCH_BEST ==> best[k] == Candidate(0, 0)
    ensures TreeArray.Holds(best, Candidates([])) && PerfectOnes([]) == []
  {}

  lemma {:induction false} HeldAt(best: seq<Candidate>, seen: seq<Seen>, k: nat)
    requires TreeArray.Holds(best, seen) && k < SEARCH_BEST
    ensures |best| == SEARCH_BEST && |Top(Ranking(seen))| <= SEARCH_BEST
    ensures var top := Top(Ranking(seen));
            best[k] == if k < |top| then Candidate(top[k].prio, top[k].idx) else Candidate(0, 0)
  {
    RankingMembers(seen);
  }

  /** The kept candidates were visited, and have a priority. */
  lemma {:induction false} KeptKnown(log: seq<Visited>)
    ensures var top := Top(Ranking(Candidates(log)));
            |top| <= SEARCH_BEST && forall k :: 0 <= k < |top| ==> Known(log, top[k])
  {
    CandidatesKnown(log);
    RankingMembers(Candidates(log));
    hide Known, Candidates, Ranking;
    forall k | 0 <= k < |Top(Ranking(Candidates(log)))|
      ensures Known(log, Top(Ranking(Candidates(log)))[k])
    {
      assert Ranking(Candidates(log))[k] in Candidates(log);
    }
  }

  /** A kept candidate was free when it was visited, and still is if the entries did not change. */
  lemma {:induction false} KeptFree(log: seq<Visited>, policy: PolicyFn, search: Search, start: nat, offset: nat,
                                    order: nat,
                                    cls: nat, entries: seq<Tree>, c: Seen)
    requires |entries| > 0 && Logged(log, policy, search, start, offset, order, cls, |entries|) && Known(log, c)
    ensures c.idx < |entries| && (Unchanged(log, entries) ==> !entries[c.idx].reserved && entries[c.idx].free > 0)
  {
    var t := log[c.round].tree;
    if !t.reserved {
      RatedFree(search, policy, order, cls, t);
    }
  }

  /** Keeps a visited tree as a candidate, if there are not eight better ones. */
  method KeepBest(best: array<Candidate>, v: Visited, ghost log: seq<Visited>)
    requires best.Length == SEARCH_BEST && TreeArray.Holds(best[..], Candidates(log))
    requires v.rating.kind != Invalid && !v.Perfect()
    modifies best
    ensures TreeArray.Holds(best[..], Candidates(log + [v]))
  {
    hide TreeArray.Holds, Candidates;
    var prio := (v.rating.priority as int + 1) % 256;
    CandidatesKnown(log);
    LogMore(log, v);
    assert v.Prio() == prio;
    InsertBest(best, prio, v.idx, Candidates(log), |log|);
    assert prio == 0 ==> Candidates(log) + [] == Candidates(log);
  }

  /** A tree that is not kept leaves the candidates as they are. */
  lemma {:induction false} NotKept(log: seq<Visited>, v: Visited)
    requires v.rating.kind == Invalid || v.Perfect()
    ensures Candidates(log + [v]) == Candidates(log)
    ensures PerfectOnes(log + [v]) == if v.Perfect() then PerfectOnes(log) + [v.idx] else PerfectOnes(log)
  {
    LogMore(log, v);
  }
}
