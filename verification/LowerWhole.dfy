/** Initialisation, recovery and statistics of the lower allocator, stated on its memory
    (src/lower.c). */
module LowerWhole {
  import opened Base
  import opened Children
  import opened LowerSpec

  // ---- lower_clear ----

  /** How many managed frames child `c` has. */
  function FramesIn(frames: nat, c: nat): nat
  {
    if 512 * c + 512 <= frames then 512 else if 512 * c < frames then frames - 512 * c else 0
  }

  /** The memory after the first `n` children, or all entries beyond the last child up to `n`, were
      initialised. */
  function ClearedChild(frames: nat, freeAll: bool, c: nat): Child
  {
    if freeAll && c < ChildCount(frames) then Child(FramesIn(frames, c), false) else TAKEN
  }

  function Cleared(frames: nat, freeAll: bool): Mem
  {
    Mem(seq(Padded(frames), c requires c >= 0 => ClearedChild(frames, freeAll, c)),
        Block(0, if freeAll then frames else 512 * ChildCount(frames)))
  }

  lemma ChildCountIs(frames: nat)
    ensures frames <= 512 * ChildCount(frames) < frames + 512
    ensures ChildCount(frames) <= Padded(frames)
  {
    DivCeilIs(frames, CHILD_SIZE);
    AlignUpIs(ChildCount(frames), TREE_CHILDREN);
  }

  /** Initialisation makes every frame free, or none. */
  lemma ClearedRefines(frames: nat, freeAll: bool)
    ensures Inv(frames, Cleared(frames, freeAll))
    ensures Free(frames, Cleared(frames, freeAll)) == if freeAll then Block(0, frames) else {}
  {
    hide ChildCount, Padded;
    var m := Cleared(frames, freeAll);
    ChildCountIs(frames);
    forall c | 0 <= c < |m.children|
      ensures ChildOk(frames, m, c)
    {
      if freeAll && c < ChildCount(frames) {
        BlockSize(512 * c, FramesIn(frames, c));
        assert m.zeros * Field(c) == Block(512 * c, FramesIn(frames, c));
      }
    }
    if freeAll {
      forall f | f in Block(0, frames)
        ensures f in Free(frames, m)
      {
        InsideCount(frames, f);
      }
    }
  }

  // ---- lower_recover ----

  /** The frames of the huge ones among the first `n` children. */
  function HugeFrames(m: Mem, n: nat): set<nat>
  {
    set f | f in Block(0, 512 * n) && f / 512 < |m.children| && m.children[f / 512].huge
  }

  function RecoveredChild(m: Mem, c: nat): Child
    requires c < |m.children|
  {
    if m.children[c].huge then TAKEN else Child(|m.zeros * Field(c)|, false)
  }

  /** The memory after the first `n` children were recovered. */
  function Recovered(m: Mem, n: nat): Mem
    requires n <= |m.children|
  {
    Mem(seq(|m.children|, c requires 0 <= c < |m.children| => if c < n then RecoveredChild(m, c) else m.children[c]),
        m.zeros + HugeFrames(m, n))
  }

  /** What recovery relies on: the leftover entries are taken, and no bit past the last frame is
      zero unless its child is huge. The counters may hold anything. */
  ghost predicate Recoverable(frames: nat, m: Mem)
  {
    && |m.children| == Padded(frames)
    && (forall c :: ChildCount(frames) <= c < |m.children| ==> m.children[c] == TAKEN)
    && forall f :: f in m.zeros ==> f < 512 * ChildCount(frames) &&
                                    (f < frames || (f / 512 < |m.children| && m.children[f / 512].huge))
  }

  /** Recovery establishes the invariant from any counters, and keeps the free frames. */
  lemma RecoverRefines(frames: nat, m: Mem)
    requires Recoverable(frames, m)
    ensures ChildCount(frames) <= |m.children|
    ensures Inv(frames, Recovered(m, ChildCount(frames)))
    ensures Free(frames, Recovered(m, ChildCount(frames))) == Free(frames, m)
  {
    hide ChildCount, Padded, Recovered, ChildOk;
    ChildCountIs(frames);
    var n := ChildCount(frames);
    var r := Recovered(m, n);
    RecoveredIs(m, n);
    forall c | 0 <= c < |r.children|
      ensures ChildOk(frames, r, c)
    {
      RecoveredOk(frames, m, c);
    }
  }

  lemma RecoveredIs(m: Mem, n: nat)
    requires n <= |m.children|
    ensures var r := Recovered(m, n);
            && |r.children| == |m.children|
            && (forall c :: 0 <= c < |m.children| ==> r.children[c].huge == m.children[c].huge)
            && (forall f: nat :: f in r.zeros <==> f in m.zeros || f in HugeFrames(m, n))
  {}

  lemma RecoveredOk(frames: nat, m: Mem, c: nat)
    requires Recoverable(frames, m) && ChildCount(frames) <= |m.children| && c < |m.children|
    ensures ChildOk(frames, Recovered(m, ChildCount(frames)), c)
  {
    hide ChildCount, Padded;
    var n := ChildCount(frames);
    if c < n {
      FieldRecovered(m, n, c);
    }
  }

  lemma FieldRecovered(m: Mem, n: nat, c: nat)
    requires c < n <= |m.children|
    ensures var z := Recovered(m, n).zeros * Field(c);
            z == if m.children[c].huge then Field(c) else m.zeros * Field(c)
  {}

  /** Recovery reads nothing but the huge flags and the bits of the other children. */
  lemma RecoverIgnores(m: Mem, a: Mem, n: nat)
    requires n <= |m.children| == |a.children|
    requires forall c :: 0 <= c < n ==> m.children[c].huge == a.children[c].huge
    requires forall c :: n <= c < |m.children| ==> m.children[c] == a.children[c]
    requires forall f: nat :: f in HugeFrames(m, n) || (f in m.zeros <==> f in a.zeros)
    ensures Recovered(m, n) == Recovered(a, n)
  {
    forall c | 0 <= c < n
      ensures RecoveredChild(m, c) == RecoveredChild(a, c)
    {
      SameChild(m, a, n, c);
    }
    assert HugeFrames(m, n) == HugeFrames(a, n);
    SameRest(m, a, n);
  }

  lemma SameChild(m: Mem, a: Mem, n: nat, c: nat)
    requires c < n <= |m.children| == |a.children| && m.children[c].huge == a.children[c].huge
    requires forall f: nat :: f in HugeFrames(m, n) || (f in m.zeros <==> f in a.zeros)
    ensures RecoveredChild(m, c) == RecoveredChild(a, c)
  {
    if !m.children[c].huge {
      assert m.zeros * Field(c) == a.zeros * Field(c);
    }
  }

  lemma SameRest(m: Mem, a: Mem, n: nat)
    requires n <= |m.children| == |a.children| && HugeFrames(m, n) == HugeFrames(a, n)
    requires forall f: nat :: f in HugeFrames(m, n) || (f in m.zeros <==> f in a.zeros)
    ensures m.zeros + HugeFrames(m, n) == a.zeros + HugeFrames(a, n)
  {}

  /** Recovering again changes nothing, also when the first recovery stopped after `k` children. */
  lemma RecoverAgain(m: Mem, k: nat, n: nat)
    requires k <= n <= |m.children|
    ensures Recovered(Recovered(m, k), n) == Recovered(m, n)
  {
    RecoverIgnores(m, Recovered(m, k), n);
  }

  /** A recoverable memory meets the invariant exactly when recovery leaves it as it is. */
  lemma RecoverFixes(frames: nat, m: Mem)
    requires Recoverable(frames, m)
    ensures ChildCount(frames) <= |m.children|
    ensures Inv(frames, m) <==> Recovered(m, ChildCount(frames)) == m
  {
    hide ChildCount, Padded;
    RecoverRefines(frames, m);
    var n := ChildCount(frames);
    var r := Recovered(m, n);
    if Inv(frames, m) {
      forall c | 0 <= c < |m.children|
        ensures r.children[c] == m.children[c]
      {
        assert ChildOk(frames, m, c);
      }
      forall f | f in HugeFrames(m, n)
        ensures f in m.zeros
      {
        assert ChildOk(frames, m, f / 512);
      }
      assert r.zeros == m.zeros;
    }
  }

  lemma InvIsRecoverable(frames: nat, m: Mem)
    requires Inv(frames, m)
    ensures Recoverable(frames, m)
  {
    hide ChildCount, Padded;
    forall c | ChildCount(frames) <= c < |m.children|
      ensures m.children[c] == TAKEN
    {
      assert ChildOk(frames, m, c);
    }
    ChildCountIs(frames);
    forall f | f in m.zeros
      ensures f < frames || (f / 512 < |m.children| && m.children[f / 512].huge)
    {
      assert ChildOk(frames, m, f / 512);
    }
  }

  /** One round of the loop of `lower_recover`. */
  lemma RecoverStep(m: Mem, n: nat)
    requires n < |m.children|
    ensures var r := Recovered(m, n);
            && r.children[n].huge == m.children[n].huge
            && r.zeros * Field(n) == m.zeros * Field(n)
            && Recovered(m, n + 1) == Mem(r.children[n := RecoveredChild(m, n)],
                                          if m.children[n].huge then r.zeros + Field(n) else r.zeros)
  {
    var r := Recovered(m, n);
    assert Recovered(m, n + 1).zeros == if m.children[n].huge then r.zeros + Field(n) else r.zeros;
  }

  // ---- statistics ----

  datatype Stats = Stats(freeFrames: nat, freeHuge: nat, freeTrees: nat)

  function TreeFrames(t: nat): set<nat>
  {
    Block(t * TREE_SIZE, TREE_SIZE)
  }

  /** How many of the `n` frames from `f` on are free. */
  ghost function FreeIn(frames: nat, m: Mem, f: nat, n: nat): nat
  {
    |Free(frames, m) * Block(f, n)|
  }

  /** How many frames of a tree are free. */
  ghost function FreeOfTree(frames: nat, m: Mem, t: nat): nat
  {
    |Free(frames, m) * TreeFrames(t)|
  }

  /** The children from `first` up to `first + n` that are wholly free. */
  ghost function WholeChildren(frames: nat, m: Mem, first: nat, n: nat): set<nat>
  {
    set c | c in Block(first, n) && Field(c) <= Free(frames, m)
  }

  /** The trees below `n` that are wholly free. */
  ghost function WholeTrees(frames: nat, m: Mem, n: nat): set<nat>
  {
    set t | t in Block(0, n) && TreeFrames(t) <= Free(frames, m)
  }

  /** The counter of an entry is the number of free frames of the child. */
  lemma EntryCounts(frames: nat, m: Mem, c: nat)
    requires Inv(frames, m) && c < |m.children|
    ensures m.children[c].free == FreeIn(frames, m, 512 * c, 512) <= 512
    ensures m.children[c].free == 512 <==> Field(c) <= Free(frames, m)
  {
    hide ChildCount, Padded;
    FullIff(frames, m, c);
    ChildIsOk(frames, m, c);
    if c < ChildCount(frames) {
      FreeInField(frames, m, c);
    } else {
      ChildCountIs(frames);
      assert Free(frames, m) * Field(c) == {};
    }
  }

  lemma FreeInNext(frames: nat, m: Mem, f: nat, n: nat, k: nat)
    ensures FreeIn(frames, m, f, n + k) == FreeIn(frames, m, f, n) + FreeIn(frames, m, f + n, k)
  {
    var z := Free(frames, m);
    var a, b := z * Block(f, n), z * Block(f + n, k);
    assert z * Block(f, n + k) == a + b;
    assert a !! b;
  }

  lemma WholeNext(frames: nat, m: Mem, first: nat, n: nat)
    ensures |WholeChildren(frames, m, first, n + 1)| ==
            |WholeChildren(frames, m, first, n)| + if Field(first + n) <= Free(frames, m) then 1 else 0
  {
    hide Field, Free;
    var a := WholeChildren(frames, m, first, n);
    assert WholeChildren(frames, m, first, n + 1) == if Field(first + n) <= Free(frames, m) then a + {first + n} else a;
  }

  lemma WholeTreesNext(frames: nat, m: Mem, n: nat)
    ensures |WholeTrees(frames, m, n + 1)| ==
            |WholeTrees(frames, m, n)| + if TreeFrames(n) <= Free(frames, m) then 1 else 0
  {
    hide TreeFrames, Free;
    var a := WholeTrees(frames, m, n);
    assert WholeTrees(frames, m, n + 1) == if TreeFrames(n) <= Free(frames, m) then a + {n} else a;
  }

  /** The same for one more child, as the loops of the statistics go. */
  lemma CountChild(frames: nat, m: Mem, first: nat, n: nat)
    requires Inv(frames, m) && first + n < |m.children|
    ensures FreeIn(frames, m, 512 * first, 512 * (n + 1)) ==
            FreeIn(frames, m, 512 * first, 512 * n) + m.children[first + n].free
    ensures |WholeChildren(frames, m, first, n + 1)| ==
            |WholeChildren(frames, m, first, n)| + if m.children[first + n].free == 512 then 1 else 0
  {
    hide Inv, FreeIn, WholeChildren, Free;
    EntryCounts(frames, m, first + n);
    FreeInNext(frames, m, 512 * first, 512 * n, 512);
    WholeNext(frames, m, first, n);
  }

  lemma NothingYet(frames: nat, m: Mem, first: nat)
    ensures FreeIn(frames, m, 512 * first, 0) == 0 && |WholeChildren(frames, m, first, 0)| == 0
  {
    assert Free(frames, m) * Block(512 * first, 0) == {};
    assert WholeChildren(frames, m, first, 0) == {};
  }

  /** A tree is wholly free exactly when its count is the tree size. */
  lemma TreeCounts(frames: nat, m: Mem, t: nat)
    ensures FreeOfTree(frames, m, t) <= TREE_SIZE
    ensures FreeOfTree(frames, m, t) == TREE_SIZE <==> TreeFrames(t) <= Free(frames, m)
  {
    hide Free;
    var b := TreeFrames(t);
    BlockSize(t * TREE_SIZE, TREE_SIZE);
    CardSubset(Free(frames, m) * b, b);
    if b <= Free(frames, m) {
      assert Free(frames, m) * b == b;
    }
  }

  /** The frames of a tree are those of its children. */
  lemma TreeOfChildren(t: nat)
    ensures t * TREE_SIZE == 512 * (t * TREE_CHILDREN) && TREE_SIZE == 512 * TREE_CHILDREN
    ensures forall f: nat :: f in TreeFrames(t) <==> TreeOf(f) == t
  {
    assert t * TREE_SIZE == 512 * (t * TREE_CHILDREN);
    forall f: nat
      ensures f in TreeFrames(t) <==> TreeOf(f) == t
    {
      InTree(f, t);
    }
  }

  lemma InTree(f: nat, t: nat)
    ensures f in TreeFrames(t) <==> TreeOf(f) == t
  {
    TreeOfIs(f);
    DivBounds(f, TREE_SIZE);
    if t * TREE_SIZE <= f < t * TREE_SIZE + TREE_SIZE {
      DivIs(f, TREE_SIZE, t);
    }
  }

  /** All free frames lie below the last entry. */
  lemma AllFree(frames: nat, m: Mem)
    requires Inv(frames, m)
    ensures FreeIn(frames, m, 0, 512 * |m.children|) == |Free(frames, m)|
  {
    hide ChildCount, Padded;
    ChildCountIs(frames);
    assert Free(frames, m) * Block(0, 512 * |m.children|) == Free(frames, m);
  }

  lemma PaddedIs(frames: nat)
    ensures Padded(frames) == TreeCount(frames) * TREE_CHILDREN
  {
    AlignUpIs(ChildCount(frames), TREE_CHILDREN);
  }

  // ---- the sum of a tree's counters ----

  function SumFree(s: seq<Child>, first: nat, n: nat): nat
    requires first + n <= |s|
  {
    if n == 0 then 0 else SumFree(s, first, n - 1) + s[first + n - 1].free
  }

  lemma {:induction false} SumIsFree(frames: nat, m: Mem, first: nat, n: nat)
    requires Inv(frames, m) && first + n <= |m.children|
    ensures SumFree(m.children, first, n) == FreeIn(frames, m, 512 * first, 512 * n)
  {
    hide Inv, FreeIn, WholeChildren;
    if n == 0 {
      NothingYet(frames, m, first);
    } else {
      SumIsFree(frames, m, first, n - 1);
      CountChild(frames, m, first, n - 1);
    }
  }

  lemma TreeSum(frames: nat, m: Mem, t: nat)
    requires Inv(frames, m) && t < TreeCount(frames)
    ensures t * TREE_CHILDREN + TREE_CHILDREN <= |m.children|
    ensures SumFree(m.children, t * TREE_CHILDREN, TREE_CHILDREN) == FreeOfTree(frames, m, t)
  {
    hide ChildCount, Inv;
    TreeInside(frames, m, t);
    SumIsFree(frames, m, t * TREE_CHILDREN, TREE_CHILDREN);
    TreeOfChildren(t);
  }

  lemma TreeInside(frames: nat, m: Mem, t: nat)
    requires Inv(frames, m) && t < TreeCount(frames)
    ensures t * TREE_CHILDREN + TREE_CHILDREN <= |m.children|
  {
    PaddedIs(frames);
    MulLe(t + 1, TreeCount(frames), TREE_CHILDREN);
    MulStep(t, TREE_CHILDREN);
  }

  lemma FreeOfTreeIs(frames: nat, m: Mem, t: nat)
    ensures FreeOfTree(frames, m, t) == FreeIn(frames, m, 512 * (t * TREE_CHILDREN), 512 * TREE_CHILDREN)
  {
    TreeOfChildren(t);
  }

  lemma NoTrees(frames: nat, m: Mem)
    ensures |WholeTrees(frames, m, 0)| == 0
  {
    assert WholeTrees(frames, m, 0) == {};
  }

  /** The bit of a managed frame decides, unless its child's counter does. */
  lemma FreeBit(frames: nat, m: Mem, f: nat)
    requires Inv(frames, m) && f < frames && f / 512 < |m.children|
    ensures f in Free(frames, m) <==> m.children[f / 512].free > 0 && f in m.zeros
  {
    hide ChildCount, Padded;
    var c := f / 512;
    InField(f, c);
    ChildIsOk(frames, m, c);
    EntryCounts(frames, m, c);
    if f in Free(frames, m) {
      CardSubset({f}, Free(frames, m) * Field(c));
    }
  }

  lemma TreeBelow(frames: nat, f: nat)
    requires f < frames
    ensures TreeOf(f) < TreeCount(frames)
  {
    hide ChildCount;
    TreeOfIs(f);
    InsideCount(frames, f);
    DivDiv(f, 512, TREE_CHILDREN);
    Ceiling(f / 512, ChildCount(frames), TREE_CHILDREN);
  }

  lemma Ceiling(c: nat, n: nat, d: nat)
    requires c < n && d > 0
    ensures c / d < DivCeil(n, d)
  {
    DivCeilIs(n, d);
    DivBounds(c, d);
    DivBounds(n + d - 1, d);
    var a, b := c / d, DivCeil(n, d);
    if a >= b {
      MulLe(b + 1, a + 1, d);
      MulStep(b, d);
      MulStep(a, d);
    }
  }

  // ---- the loops of lower_clear and lower_recover ----

  ghost predicate ClearedBelow(zeros: set<nat>, frames: nat, freeAll: bool, n: nat)
  {
    forall f: nat :: f < 512 * n ==> (f in zeros <==> f in Cleared(frames, freeAll).zeros)
  }

  lemma NothingCleared(zeros: set<nat>, frames: nat, freeAll: bool)
    ensures ClearedBelow(zeros, frames, freeAll, 0)
  {}

  lemma ClearStep(before: set<nat>, after: set<nat>, frames: nat, freeAll: bool, i: nat, free: nat)
    requires ClearedBelow(before, frames, freeAll, i) && i < ChildCount(frames)
    requires free == if freeAll then FramesIn(frames, i) else 512
    requires after == before - Block(512 * i, 512) + Block(512 * i, free)
    ensures ClearedBelow(after, frames, freeAll, i + 1)
  {
    hide ChildCount;
    ChildCountIs(frames);
  }

  lemma ClearEnd(zeros: set<nat>, frames: nat, freeAll: bool)
    requires ClearedBelow(zeros, frames, freeAll, ChildCount(frames)) && zeros <= Block(0, 512 * ChildCount(frames))
    ensures zeros == Cleared(frames, freeAll).zeros
  {
    hide ChildCount;
    ChildCountIs(frames);
  }

  lemma RecoveredNone(m: Mem)
    ensures Recovered(m, 0) == m
  {
    assert HugeFrames(m, 0) == {};
  }
}
