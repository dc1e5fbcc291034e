/** The array of tree entries: transitions, visit order and best candidates (src/trees.c). */
module TreeArray {
  import opened Base
  import opened Policies
  import opened TreeEntries

  // ---- the visit order ----

  /** The offset of visit `i`: 0, -1, 1, -2, 2, ... */
  function Offset(i: nat): int
  {
    if i % 2 == 0 then i / 2 else -((i + 1) / 2)
  }

  /** The tree visited in round `i` of a search that starts at `start`. */
  function Visit(start: nat, len: nat, i: nat): (idx: nat)
    requires len > 0
    ensures idx < len
  {
    (start + len + Offset(i)) % len
  }

  /** The round in which tree `x` is visited. */
  function RoundOf(start: nat, len: nat, x: nat): nat
    requires x < len && start < len
  {
    var d := if x >= start then x - start else x + len - start;
    if 2 * d < len then 2 * d else 2 * (len - d) - 1
  }

  lemma VisitIs(start: nat, len: nat, i: nat)
    requires i < len && start < len
    ensures var y := start + Offset(i);
            Visit(start, len, i) == if y < 0 then y + len else if y < len then y else y - len
  {
    var y := start + Offset(i);
    DivIs(y + len, len, if y < 0 then 0 else if y < len then 1 else 2);
  }

  /** In `len` rounds the search visits every tree exactly once, for odd and even lengths. */
  lemma VisitsEveryTreeOnce(start: nat, len: nat)
    requires start < len
    ensures forall i: nat :: i < len ==> RoundOf(start, len, Visit(start, len, i)) == i
    ensures forall x: nat :: x < len ==> RoundOf(start, len, x) < len && Visit(start, len, RoundOf(start, len, x)) == x
  {
    forall i: nat | i < len
      ensures RoundOf(start, len, Visit(start, len, i)) == i
    {
      RoundOfVisit(start, len, i);
    }
    forall x: nat | x < len
      ensures RoundOf(start, len, x) < len && Visit(start, len, RoundOf(start, len, x)) == x
    {
      VisitOfRound(start, len, x);
    }
  }

  lemma RoundOfVisit(start: nat, len: nat, i: nat)
    requires i < len && start < len
    ensures RoundOf(start, len, Visit(start, len, i)) == i
  {
    VisitIs(start, len, i);
  }

  lemma VisitOfRound(start: nat, len: nat, x: nat)
    requires x < len && start < len
    ensures RoundOf(start, len, x) < len && Visit(start, len, RoundOf(start, len, x)) == x
  {
    VisitIs(start, len, RoundOf(start, len, x));
  }

  // ---- the best candidates ----

  /** How many candidates `trees_search_best` keeps. */
  const SEARCH_BEST: nat := 8

  /** An element of the `best` array. A priority of 0 means that there is no candidate. */
  datatype Candidate = Candidate(prio: nat, idx: nat)

  /** A candidate with the round in which it was seen. */
  datatype Seen = Seen(prio: nat, idx: nat, round: nat)

  /** `a` is preferred to `b`. */
  predicate Before(a: Seen, b: Seen)
  {
    a.prio > b.prio || (a.prio == b.prio && a.round < b.round)
  }

  /** Higher priority first, earlier round first among equals. */
  ghost predicate Ranked(s: seq<Seen>)
  {
    forall a, b :: 0 <= a < b < |s| ==> Before(s[a], s[b])
  }

  /** Where a candidate of that priority goes: before the first one with a lower priority. */
  function Place(s: seq<Seen>, prio: nat): (k: nat)
    ensures k <= |s| && (k < |s| ==> prio > s[k].prio)
    ensures forall a :: 0 <= a < k ==> prio <= s[a].prio
  {
    if s == [] || prio > s[0].prio then 0 else 1 + Place(s[1..], prio)
  }

  function Insert(s: seq<Seen>, x: Seen): seq<Seen>
  {
    var k := Place(s, x.prio);
    s[..k] + [x] + s[k..]
  }

  /** The candidates in the order in which they are preferred. */
  function Ranking(seen: seq<Seen>): (r: seq<Seen>)
    ensures |r| == |seen|
  {
    if seen == [] then [] else Insert(Ranking(seen[..|seen| - 1]), seen[|seen| - 1])
  }

  function Top(s: seq<Seen>): seq<Seen>
  {
    if |s| <= SEARCH_BEST then s else s[..SEARCH_BEST]
  }

  /** The candidates were seen in this order. */
  ghost predicate InOrder(seen: seq<Seen>)
  {
    forall a, b :: 0 <= a < b < |seen| ==> seen[a].round < seen[b].round
  }

  /** The ranking is the one arrangement of all candidates that is ordered by priority and, among
      equal priorities, by visit. */
  lemma {:induction false} RankingIsRanked(seen: seq<Seen>)
    requires InOrder(seen)
    ensures Ranked(Ranking(seen)) && multiset(Ranking(seen)) == multiset(seen)
  {
    hide Insert;
    if seen != [] {
      var n := |seen| - 1;
      var rest, x := seen[..n], seen[n];
      RankingIsRanked(rest);
      RankingMembers(rest);
      forall a | 0 <= a < n
        ensures Ranking(rest)[a].round < x.round
      {
        assert Ranking(rest)[a] in rest;
      }
      InsertKeepsRank(Ranking(rest), x);
      assert seen == rest + [x];
    }
  }

  lemma {:induction false} InsertKeepsRank(s: seq<Seen>, x: Seen)
    requires Ranked(s) && forall a :: 0 <= a < |s| ==> s[a].round < x.round
    ensures Ranked(Insert(s, x)) && multiset(Insert(s, x)) == multiset(s) + multiset{x}
  {
    hide Insert, Place;
    var k := Place(s, x.prio);
    var r := Insert(s, x);
    InsertedAt(s, x);
    InsertedOne(s, x);
    forall a, b | 0 <= a < b < |r|
      ensures Before(r[a], r[b])
    {
      if a < k <= b && b != k {
        assert Before(s[a], s[b - 1]);
      } else if a == k {
        assert Before(x, s[b - 1]);
      }
    }
  }

  lemma {:induction false} InsertedOne(s: seq<Seen>, x: Seen)
    ensures multiset(Insert(s, x)) == multiset(s) + multiset{x}
  {
    var k := Place(s, x.prio);
    assert s == s[..k] + s[k..];
  }

  lemma {:induction false} InsertedAt(s: seq<Seen>, x: Seen)
    requires Ranked(s) && forall a :: 0 <= a < |s| ==> s[a].round < x.round
    ensures var k, r := Place(s, x.prio), Insert(s, x);
            && |r| == |s| + 1 && r[k] == x
            && (forall a :: 0 <= a < k ==> r[a] == s[a] && Before(s[a], x))
            && (forall a :: k < a < |r| ==> r[a] == s[a - 1] && Before(x, s[a - 1]))
  {
    var k := Place(s, x.prio);
    forall b | k <= b < |s|
      ensures Before(x, s[b])
    {
      assert b > k ==> Before(s[k], s[b]);
    }
  }

  /** Two ranked arrangements of the same candidates are equal. */
  lemma {:induction false} RankedIsUnique(s: seq<Seen>, t: seq<Seen>)
    requires Ranked(s) && Ranked(t) && multiset(s) == multiset(t)
    ensures s == t
  {
    hide Before;
    assert |s| == |multiset(s)| == |multiset(t)| == |t|;
    if s != [] {
      SameFirst(s, t);
      assert s == [s[0]] + s[1..] && t == [t[0]] + t[1..];
      assert multiset(s[1..]) == multiset(s) - multiset{s[0]};
      RankedIsUnique(s[1..], t[1..]);
    }
  }

  lemma {:induction false} SameFirst(s: seq<Seen>, t: seq<Seen>)
    requires Ranked(s) && Ranked(t) && multiset(s) == multiset(t) && s != [] && t != []
    ensures s[0] == t[0]
  {
    assert s[0] in multiset(t) && t[0] in multiset(s);
    FirstIsBefore(s, t[0]);
    FirstIsBefore(t, s[0]);
  }

  lemma {:induction false} FirstIsBefore(s: seq<Seen>, x: Seen)
    requires Ranked(s) && x in s
    ensures s[0] == x || Before(s[0], x)
  {
    var i :| 0 <= i < |s| && s[i] == x;
    if i > 0 {
      assert Before(s[0], s[i]);
    }
  }

  lemma {:induction false} PlaceInTop(s: seq<Seen>, prio: nat, n: nat)
    requires n <= |s|
    ensures Place(s[..n], prio) == if Place(s, prio) < n then Place(s, prio) else n
  {
    if n > 0 && prio <= s[0].prio {
      assert s[..n][1..] == s[1..][..n - 1];
      PlaceInTop(s[1..], prio, n - 1);
    }
  }

  /** A candidate outside the first eight never comes back. */
  lemma {:induction false} TopOfInsert(s: seq<Seen>, x: Seen)
    ensures Top(Insert(Top(s), x)) == Top(Insert(s, x))
  {
    if |s| > SEARCH_BEST {
      PlaceInTop(s, x.prio, SEARCH_BEST);
      var a, b := Insert(Top(s), x), Insert(s, x);
      assert Place(Top(s), x.prio) == if Place(s, x.prio) < 8 then Place(s, x.prio) else 8;
      forall i | 0 <= i < SEARCH_BEST
        ensures a[i] == b[i]
      {}
      assert a[..SEARCH_BEST] == b[..SEARCH_BEST];
    }
  }

  /** The array `best` shows the candidates of `top`. */
  ghost predicate Shows(best: seq<Candidate>, top: seq<Seen>)
  {
    && |best| == SEARCH_BEST
    && forall k :: 0 <= k < SEARCH_BEST ==>
       best[k] == if k < |top| then Candidate(top[k].prio, top[k].idx) else Candidate(0, 0)
  }

  /** The array holds the first eight of all candidates seen. */
  ghost predicate Holds(best: seq<Candidate>, seen: seq<Seen>)
  {
    Shows(best, Top(Ranking(seen)))
  }

  /** The array after one more candidate, as the shifting loop leaves it. */
  function Shifted(best: seq<Candidate>, pos: nat, x: Candidate): (r: seq<Candidate>)
    requires pos < |best|
    ensures |r| == |best|
  {
    best[..pos] + [x] + best[pos..|best| - 1]
  }

  lemma {:induction false} ShiftedIs(before: seq<Candidate>, after: seq<Candidate>, pos: nat, x: Candidate)
    requires pos < |before| == |after| && after[pos] == x
    requires forall k :: 0 <= k < pos ==> after[k] == before[k]
    requires forall k :: pos < k < |after| ==> after[k] == before[k - 1]
    ensures after == Shifted(before, pos, x)
  {}

  lemma {:induction false} SamePlace(best: seq<Candidate>, top: seq<Seen>, prio: nat, pos: nat)
    requires Shows(best, top) && |top| <= SEARCH_BEST && prio > 0 && (forall k :: 0 <= k < |top| ==> top[k].prio > 0)
    requires pos <= SEARCH_BEST && (forall k :: 0 <= k < pos ==> prio <= best[k].prio)
    requires pos < SEARCH_BEST ==> prio > best[pos].prio
    ensures pos == Place(top, prio)
  {
    var k := Place(top, prio);
    if k < SEARCH_BEST {
      assert best[k].prio < prio;
    }
    if pos < |top| {
      assert top[pos].prio < prio;
    }
  }

  lemma {:induction false} ShowsShifted(best: seq<Candidate>, top: seq<Seen>, x: Seen)
    requires Shows(best, top) && |top| <= SEARCH_BEST
    ensures var pos := Place(top, x.prio);
            Shows(if pos < SEARCH_BEST then Shifted(best, pos, Candidate(x.prio, x.idx)) else best, Top(Insert(top, x)))
  {
    hide Place;
    var pos := Place(top, x.prio);
    if pos < SEARCH_BEST {
      var after, s := Top(Insert(top, x)), Shifted(best, pos, Candidate(x.prio, x.idx));
      forall k | 0 <= k < SEARCH_BEST
        ensures s[k] == if k < |after| then Candidate(after[k].prio, after[k].idx) else Candidate(0, 0)
      {
        if k > pos {
          assert s[k] == best[k - 1];
        }
      }
    }
  }

  lemma {:induction false} HoldsMore(best: seq<Candidate>, seen: seq<Seen>, x: Seen, pos: nat)
    requires Holds(best, seen) && x.prio > 0 && forall k :: 0 <= k < |seen| ==> seen[k].prio > 0
    requires pos <= SEARCH_BEST && (forall k :: 0 <= k < pos ==> x.prio <= best[k].prio)
    requires pos < SEARCH_BEST ==> x.prio > best[pos].prio
    ensures Holds(if pos < SEARCH_BEST then Shifted(best, pos, Candidate(x.prio, x.idx)) else best, seen + [x])
  {
    hide Ranking, Insert, Place, Shifted, Shows;
    var top := Top(Ranking(seen));
    RankingMembers(seen);
    RankingMore(seen, x);
    TopOfInsert(Ranking(seen), x);
    SamePlace(best, top, x.prio, pos);
    ShowsShifted(best, top, x);
  }

  lemma {:induction false} RankingMembers(seen: seq<Seen>)
    ensures forall k :: 0 <= k < |seen| ==> Ranking(seen)[k] in seen
    ensures |Top(Ranking(seen))| <= SEARCH_BEST
  {
    hide Insert;
    if seen != [] {
      var n := |seen| - 1;
      var rest := seen[..n];
      RankingMembers(rest);
      forall k | 0 <= k < n
        ensures Ranking(rest)[k] in seen
      {
        assert Ranking(rest)[k] in rest;
      }
      InsertMembers(Ranking(rest), seen[n], seen);
    }
  }

  lemma {:induction false} InsertMembers(s: seq<Seen>, x: Seen, seen: seq<Seen>)
    requires x in seen && forall k :: 0 <= k < |s| ==> s[k] in seen
    ensures forall k :: 0 <= k < |Insert(s, x)| ==> Insert(s, x)[k] in seen
  {
    var p := Place(s, x.prio);
    forall k | 0 <= k < |s| + 1
      ensures Insert(s, x)[k] in seen
    {
      assert Insert(s, x)[k] == if k < p then s[k] else if k == p then x else s[k - 1];
    }
  }

  lemma {:induction false} RankingMore(seen: seq<Seen>, x: Seen)
    ensures Ranking(seen + [x]) == Insert(Ranking(seen), x)
  {
    assert (seen + [x])[..|seen|] == seen;
  }

  /** The insertion into the array. A priority of 255 wraps to 0 and is never kept. */
  method InsertBest(best: array<Candidate>, prio: nat, idx: nat, ghost seen: seq<Seen>, ghost round: nat)
    requires best.Length == SEARCH_BEST && Holds(best[..], seen) && forall k :: 0 <= k < |seen| ==> seen[k].prio > 0
    modifies best
    ensures Holds(best[..], if prio > 0 then seen + [Seen(prio, idx, round)] else seen)
  {
    hide Holds, Ranking, Shifted;
    var pos := 0;
    while pos < SEARCH_BEST
      invariant pos <= SEARCH_BEST && forall k :: 0 <= k < pos ==> prio <= best[k].prio
    {
      if prio > best[pos].prio {
        break;
      }
      pos := pos + 1;
    }
    if prio > 0 {
      HoldsMore(best[..], seen, Seen(prio, idx, round), pos);
    }
    if pos < SEARCH_BEST {
      ghost var before := best[..];
      var j := SEARCH_BEST - 1;
      while j > pos
        invariant pos <= j < SEARCH_BEST
        invariant forall k :: 0 <= k <= j ==> best[k] == before[k]
        invariant forall k :: j < k < SEARCH_BEST ==> best[k] == before[k - 1]
      {
        best[j] := best[j - 1];
        j := j - 1;
      }
      best[pos] := Candidate(prio, idx);
      ShiftedIs(before, best[..], pos, Candidate(prio, idx));
    }
  }

  // ---- the array ----

  /** The frames that the entries count. */
  function EntryFrames(trees: seq<Tree>): nat
  {
    if trees == [] then 0 else EntryFrames(trees[..|trees| - 1]) + trees[|trees| - 1].free
  }

  class Trees {
    const entries: array<Tree>
    const defaultClass: nat

    constructor (entries: array<Tree>, defaultClass: nat)
      ensures this.entries == entries && this.defaultClass == defaultClass
    {
      this.entries, this.defaultClass := entries, defaultClass;
    }

    method Steal(idx: nat, frames: nat, cls: nat, policy: PolicyFn) returns (ok: bool, target: nat)
      requires idx < entries.Length
      modifies entries
      ensures var s := TreeSteal(old(entries[idx]), frames, cls, policy);
              && ok == s.Some?
              && (ok ==> target == s.value.cls)
              && entries[..] == if ok then old(entries[..])[idx := s.value.tree] else old(entries[..])
    {
      var cell := new TreeCell(entries[idx]);
      ok, target := cell.StealFrames(frames, cls, policy);
      if ok {
        entries[idx] := Tree(cell.reserved, cell.cls, cell.free);
      }
    }

    method Put(idx: nat, frames: nat, policy: PolicyFn)
      requires idx < entries.Length && entries[idx].free + frames <= TREE_SIZE
      modifies entries
      ensures entries[..] == old(entries[..])[idx := TreePut(old(entries[idx]), frames, policy, defaultClass)]
    {
      var cell := new TreeCell(entries[idx]);
      cell.Put(frames, policy, defaultClass);
      entries[idx] := Tree(cell.reserved, cell.cls, cell.free);
    }

    method ReserveOrSteal(idx: nat, frames: nat, policy: PolicyFn, cls: nat)
      returns (ok: bool, reserved: bool, free: nat, target: nat)
      requires idx < entries.Length
      modifies entries
      ensures var a := TreeReserveOrSteal(old(entries[idx]), frames, policy, cls);
              && ok == a.Some?
              && (ok ==> reserved == a.value.reserved && target == a.value.cls && free == old(entries[idx]).free)
              && entries[..] == if ok then old(entries[..])[idx := a.value.tree] else old(entries[..])
    {
      free := entries[idx].free;
      var cell := new TreeCell(entries[idx]);
      ok, reserved, target := cell.ReserveOrSteal(frames, policy, cls);
      if ok {
        entries[idx] := Tree(cell.reserved, cell.cls, cell.free);
      }
    }

    method Unreserve(idx: nat, frames: nat, cls: nat, policy: PolicyFn) returns (ok: bool)
      requires idx < entries.Length && entries[idx].free + frames <= TREE_SIZE
      modifies entries
      ensures var u := TreeUnreserve(old(entries[idx]), frames, cls, policy, defaultClass);
              ok == u.Some? && entries[..] == if ok then old(entries[..])[idx := u.value] else old(entries[..])
    {
      var cell := new TreeCell(entries[idx]);
      ok := cell.UnreserveAdd(frames, cls, policy, defaultClass);
      if ok {
        entries[idx] := Tree(cell.reserved, cell.cls, cell.free);
      }
    }

    method SyncSteal(idx: nat, min: nat) returns (ok: bool, stolen: nat)
      requires idx < entries.Length
      modifies entries
      ensures var t := TreeSyncSteal(old(entries[idx]), min);
              && ok == t.Some?
              && (ok ==> stolen == old(entries[idx]).free)
              && entries[..] == if ok then old(entries[..])[idx := t.value] else old(entries[..])
    {
      stolen := entries[idx].free;
      var cell := new TreeCell(entries[idx]);
      ok := cell.SyncSteal(min);
      if ok {
        entries[idx] := Tree(cell.reserved, cell.cls, cell.free);
      }
    }

    /** The frames of `trees_stats`. */
    method CountFrames() returns (n: nat)
      ensures n == EntryFrames(entries[..])
    {
      n := 0;
      for i := 0 to entries.Length
        invariant n == EntryFrames(entries[..i])
      {
        assert entries[..i + 1][..i] == entries[..i];
        n := n + entries[i].free;
      }
      assert entries[..entries.Length] == entries[..];
    }
  }
}
