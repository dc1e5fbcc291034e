/** What the lower allocator promises, stated on its entries and the set of zero bits. */
module LowerSpec {
  import opened Base
  import opened Children

  /** The memory of the lower allocator: one entry per child, and the frames whose bit is zero. */
  datatype Mem = Mem(children: seq<Child>, zeros: set<nat>)

  function Field(c: nat): set<nat>
  {
    Block(512 * c, 512)
  }

  function ChildCount(frames: nat): nat
  {
    DivCeil(frames, CHILD_SIZE)
  }

  function TreeCount(frames: nat): nat
  {
    DivCeil(ChildCount(frames), TREE_CHILDREN)
  }

  /** The number of entries: the children, padded to whole trees. */
  function Padded(frames: nat): nat
  {
    AlignUp(ChildCount(frames), TREE_CHILDREN)
  }

  /** The entry of child `c` agrees with its bits. */
  ghost predicate ChildOk(frames: nat, m: Mem, c: nat)
    requires c < |m.children|
  {
    var child := m.children[c];
    if c >= ChildCount(frames) then
      child == TAKEN
    else if child.huge then
      child.free == 0 && Field(c) <= m.zeros
    else
      child.free == |m.zeros * Field(c)| && forall f :: f in m.zeros && f in Field(c) ==> f < frames
  }

  ghost predicate Inv(frames: nat, m: Mem)
  {
    && |m.children| == Padded(frames)
    && (forall f :: f in m.zeros ==> f < 512 * ChildCount(frames))
    && forall c :: 0 <= c < |m.children| ==> ChildOk(frames, m, c)
  }

  /** The frames nobody holds. */
  ghost function Free(frames: nat, m: Mem): set<nat>
  {
    set f | f in m.zeros && f < frames && f / 512 < |m.children| && !m.children[f / 512].huge
  }

  function SetRange(s: seq<Child>, first: nat, n: nat, v: Child): (r: seq<Child>)
    requires first + n <= |s|
    ensures |r| == |s|
    ensures forall i :: 0 <= i < |s| ==> r[i] == if first <= i < first + n then v else s[i]
  {
    seq(|s|, i requires 0 <= i < |s| => if first <= i < first + n then v else s[i])
  }

  ghost predicate AllAre(s: seq<Child>, first: nat, n: nat, v: Child)
  {
    first + n <= |s| && forall i :: first <= i < first + n ==> s[i] == v
  }

  /** How many children a block of order 9 or more spans. */
  function Span(order: nat): nat
    requires order >= HUGE_ORDER
  {
    Pow2(order - HUGE_ORDER)
  }

  /** The block's children have entries. */
  predicate Covered(m: Mem, f: nat, order: nat)
  {
    f / 512 < |m.children| && (order >= 9 ==> f / 512 + Span(order) <= |m.children|)
  }

  /** The memory after the block of 2^`order` frames at `f` was allocated. */
  function Alloc(m: Mem, f: nat, order: nat): Mem
    requires Covered(m, f, order) && (order < 9 ==> m.children[f / 512].free >= Pow2(order))
  {
    var c := f / 512;
    if order < 9 then
      Mem(m.children[c := Child(m.children[c].free - Pow2(order), false)], m.zeros - Block(f, Pow2(order)))
    else
      Mem(SetRange(m.children, c, Span(order), TAKEN), m.zeros)
  }

  /** A huge child turned into 512 allocated frames. */
  function Split(m: Mem, c: nat): Mem
    requires c < |m.children|
  {
    Mem(m.children[c := Child(0, false)], m.zeros - Field(c))
  }

  /** The memory after the block of 2^`order` frames at `f` was given back. */
  function Dealloc(m: Mem, f: nat, order: nat): Mem
    requires Covered(m, f, order)
  {
    var c := f / 512;
    if order < 9 then
      var s := if m.children[c].huge then Split(m, c) else m;
      Mem(s.children[c := Child(s.children[c].free + Pow2(order), false)], s.zeros + Block(f, Pow2(order)))
    else
      Mem(SetRange(m.children, c, Span(order), FULL), m.zeros)
  }

  /** An aligned block inside the managed frames. */
  predicate Managed(frames: nat, f: nat, order: nat)
  {
    order <= TREE_ORDER && Aligned(f, order) && f + Pow2(order) <= frames
  }

  /** The block can be given back: its bits are all set, or it is (part of) a huge child. */
  ghost predicate Allocated(m: Mem, f: nat, order: nat)
  {
    if order < 9 then
      f / 512 < |m.children| && (m.children[f / 512].huge || Block(f, Pow2(order)) !! m.zeros)
    else
      AllAre(m.children, f / 512, Span(order), TAKEN)
  }

  /** No aligned block of that order in the tree is free. */
  ghost predicate NoBlock(frames: nat, m: Mem, tree: nat, order: nat)
  {
    forall f :: Managed(frames, f, order) && TreeOf(f) == tree ==> !(Block(f, Pow2(order)) <= Free(frames, m))
  }

  /** The block was free, and is allocated now. */
  ghost predicate Took(frames: nat, m: Mem, m': Mem, f: nat, order: nat)
  {
    && Managed(frames, f, order) && Block(f, Pow2(order)) <= Free(frames, m)
    && Covered(m, f, order) && (order < 9 ==> m.children[f / 512].free >= Pow2(order))
    && m' == Alloc(m, f, order)
  }

  /** What an allocation without a given frame promises: a free block of the tree of `start`, or
      the fact that this tree has none and nothing changed. */
  ghost predicate GetMeets(frames: nat, m: Mem, m': Mem, start: nat, order: nat, r: Result)
  {
    match r
    case Ok(f, _) => TreeOf(f) == TreeOf(start) && Took(frames, m, m', f, order)
    case Err(e) => e == Error.Memory && m' == m && NoBlock(frames, m, TreeOf(start), order)
  }

  /** What an allocation of one given block promises. */
  ghost predicate GetAtMeets(frames: nat, m: Mem, m': Mem, f: nat, order: nat, r: Result)
  {
    if !(Aligned(f, order) && f + Pow2(order) <= frames) then
      r == Err(Argument) && m' == m
    else if r.Ok? then
      r.frame == f && Took(frames, m, m', f, order)
    else
      r == Err(Error.Memory) && m' == m && !(Block(f, Pow2(order)) <= Free(frames, m))
  }

  /** What giving back a block promises. */
  ghost predicate PutMeets(frames: nat, m: Mem, m': Mem, f: nat, order: nat, r: Result)
  {
    if !(Aligned(f, order) && f + Pow2(order) <= frames) then
      r == Err(Argument) && m' == m
    else if r.Ok? then
      Allocated(m, f, order) && Covered(m, f, order) && m' == Dealloc(m, f, order)
    else
      r == Err(if order < 9 then Error.Memory else Argument) && m' == m && !Allocated(m, f, order)
  }

  // ---- fields and blocks ----

  lemma InField(f: nat, c: nat)
    ensures f in Field(c) <==> f / 512 == c
  {}

  lemma SmallBlock(f: nat, order: nat)
    requires order < 9 && Aligned(f, order)
    ensures Block(f, Pow2(order)) <= Field(f / 512)
    ensures |Block(f, Pow2(order))| == Pow2(order)
    ensures f in Block(f, Pow2(order))
  {
    BlockInChild(f, order);
    BlockSize(f, Pow2(order));
  }

  /** A block of order 9 or more is a run of whole children of one tree. */
  lemma LargeBlock(f: nat, order: nat)
    requires 9 <= order && Aligned(f, order)
    ensures f == 512 * (f / 512) && Pow2(order) == 512 * Span(order)
    ensures forall x: nat :: x in Block(f, Pow2(order)) <==> f / 512 <= x / 512 < f / 512 + Span(order)
  {
    SmallPow(9);
    PowAdd(9, order - 9);
    AlignedDown(f, order, 9);
  }

  lemma CountPadded(frames: nat)
    ensures ChildCount(frames) <= Padded(frames)
  {
    AlignUpIs(ChildCount(frames), TREE_CHILDREN);
  }

  lemma InsideCount(frames: nat, f: nat)
    requires f < frames
    ensures f / 512 < ChildCount(frames) <= Padded(frames)
  {
    hide Padded, Quotient;
    DivCeilIs(frames, CHILD_SIZE);
    CountPadded(frames);
  }

  lemma InsideCountSpan(frames: nat, f: nat, order: nat)
    requires Managed(frames, f, order) && order >= 9
    ensures f / 512 + Span(order) <= ChildCount(frames)
  {
    LargeBlock(f, order);
    InsideCount(frames, f + Pow2(order) - 1);
    assert f + Pow2(order) - 1 in Block(f, Pow2(order));
  }

  /** Frames of a child that is not huge are free exactly when their bit is zero. */
  lemma FreeInField(frames: nat, m: Mem, c: nat)
    requires Inv(frames, m) && c < ChildCount(frames)
    ensures c < |m.children|
    ensures Free(frames, m) * Field(c) == if m.children[c].huge then {} else m.zeros * Field(c)
    ensures m.children[c].free == |Free(frames, m) * Field(c)| <= 512
  {
    hide Padded, ChildCount;
    CountPadded(frames);
    assert ChildOk(frames, m, c);
    BlockSize(512 * c, 512);
    CardSubset(Free(frames, m) * Field(c), Field(c));
  }

  /** A child's entry is (512, not huge) exactly when all its frames are free. */
  lemma FullIff(frames: nat, m: Mem, c: nat)
    requires Inv(frames, m) && c < |m.children|
    ensures m.children[c] == FULL <==> Field(c) <= Free(frames, m)
  {
    assert ChildOk(frames, m, c);
    BlockSize(512 * c, 512);
    if c < ChildCount(frames) {
      FreeInField(frames, m, c);
      CardSubset(Free(frames, m) * Field(c), Field(c));
      if Field(c) <= Free(frames, m) {
        assert Free(frames, m) * Field(c) == Field(c);
      }
    } else {
      assert 512 * c in Field(c);
    }
  }

  lemma FullRange(frames: nat, m: Mem, f: nat, order: nat)
    requires Inv(frames, m) && 9 <= order && Aligned(f, order) && f / 512 + Span(order) <= |m.children|
    ensures AllAre(m.children, f / 512, Span(order), FULL) <==> Block(f, Pow2(order)) <= Free(frames, m)
  {
    LargeBlock(f, order);
    var c, h := f / 512, Span(order);
    forall i | c <= i < c + h
      ensures m.children[i] == FULL <==> Field(i) <= Free(frames, m)
      ensures Field(i) <= Block(f, Pow2(order))
    {
      FullIff(frames, m, i);
      forall x | x in Field(i)
        ensures x in Block(f, Pow2(order))
      {
        InField(x, i);
      }
    }
    if AllAre(m.children, c, h, FULL) {
      forall x | x in Block(f, Pow2(order))
        ensures x in Free(frames, m)
      {
        InField(x, x / 512);
        assert m.children[x / 512] == FULL;
      }
    }
  }

  // ---- allocating and freeing on the memory ----

  /** Allocating a wholly free block keeps the invariant and removes exactly its frames. */
  lemma AllocRefines(frames: nat, m: Mem, f: nat, order: nat)
    requires Inv(frames, m) && Managed(frames, f, order) && Block(f, Pow2(order)) <= Free(frames, m)
    ensures Covered(m, f, order)
    ensures order < 9 ==> m.children[f / 512].free >= Pow2(order)
    ensures Inv(frames, Alloc(m, f, order))
    ensures Free(frames, Alloc(m, f, order)) == Free(frames, m) - Block(f, Pow2(order))
  {
    InsideCount(frames, f);
    if order < 9 {
      AllocSmall(frames, m, f, order);
    } else {
      InsideCountSpan(frames, f, order);
      AllocLarge(frames, m, f, order);
    }
  }

  lemma AllocSmall(frames: nat, m: Mem, f: nat, order: nat)
    requires Inv(frames, m) && Managed(frames, f, order) && order < 9 && f / 512 < ChildCount(frames) <= |m.children|
    requires Block(f, Pow2(order)) <= Free(frames, m)
    ensures m.children[f / 512].free >= Pow2(order)
    ensures Inv(frames, Alloc(m, f, order))
    ensures Free(frames, Alloc(m, f, order)) == Free(frames, m) - Block(f, Pow2(order))
  {
    hide Inv, Pow2, Block, Field, ChildCount;
    SmallBlock(f, order);
    TakeBits(frames, m, f / 512, Block(f, Pow2(order)));
  }

  lemma TakeBits(frames: nat, m: Mem, c: nat, b: set<nat>)
    requires Inv(frames, m) && c < ChildCount(frames) <= |m.children|
    requires b <= Free(frames, m) && b <= Field(c) && b != {}
    ensures !m.children[c].huge && m.children[c].free >= |b|
    ensures var m' := Mem(m.children[c := Child(m.children[c].free - |b|, false)], m.zeros - b);
            Inv(frames, m') && Free(frames, m') == Free(frames, m) - b
  {
    hide ChildCount, Padded, Inv, Field;
    FreeInField(frames, m, c);
    assert ChildOk(frames, m, c) by { ChildIsOk(frames, m, c); }
    assert b <= Free(frames, m) * Field(c);
    CountLess(m.zeros, b, Field(c));
    var m' := Mem(m.children[c := Child(m.children[c].free - |b|, false)], m.zeros - b);
    InOneField(b, c);
    SameElsewhere(frames, m, m', c);
    SameFree(frames, m, m');
  }

  lemma ChildIsOk(frames: nat, m: Mem, c: nat)
    requires Inv(frames, m) && c < |m.children|
    ensures ChildOk(frames, m, c)
  {}

  lemma AddBits(frames: nat, m: Mem, c: nat, b: set<nat>)
    requires Inv(frames, m) && c < ChildCount(frames) <= |m.children| && !m.children[c].huge
    requires b !! m.zeros && b <= Field(c) && forall f :: f in b ==> f < frames
    ensures var m' := Mem(m.children[c := Child(m.children[c].free + |b|, false)], m.zeros + b);
            Inv(frames, m') && Free(frames, m') == Free(frames, m) + b
  {
    hide ChildCount, Padded, Inv, Field;
    assert ChildOk(frames, m, c) by { ChildIsOk(frames, m, c); }
    CountMore(m.zeros, b, Field(c));
    var m' := Mem(m.children[c := Child(m.children[c].free + |b|, false)], m.zeros + b);
    InOneField(b, c);
    SameElsewhere(frames, m, m', c);
    SameFree(frames, m, m');
  }

  lemma InOneField(b: set<nat>, c: nat)
    requires b <= Field(c)
    ensures forall f :: f in b ==> f / 512 == c
  {
    forall f | f in b
      ensures f / 512 == c
    {
      InField(f, c);
    }
  }

  /** Where no child becomes huge or stops being huge, frames become free or allocated with their
      bits. */
  lemma SameFree(frames: nat, m: Mem, m': Mem)
    requires |m'.children| == |m.children| && forall i :: 0 <= i < |m.children| ==>
             m'.children[i].huge == m.children[i].huge
    ensures forall f :: f in Free(frames, m') <==>
              f in m'.zeros && f < frames && f / 512 < |m.children| && !m.children[f / 512].huge
  {}

  /** Changing one child and its bits leaves the other children as they were. */
  lemma SameElsewhere(frames: nat, m: Mem, m': Mem, c: nat)
    requires Inv(frames, m) && c < ChildCount(frames) <= |m.children| && |m'.children| == |m.children|
    requires forall i :: 0 <= i < |m.children| && i != c ==> m'.children[i] == m.children[i]
    requires forall f: nat :: f / 512 != c ==> (f in m'.zeros <==> f in m.zeros)
    requires ChildOk(frames, m', c)
    ensures Inv(frames, m')
  {
    forall i | 0 <= i < |m.children|
      ensures ChildOk(frames, m', i)
    {
      if i != c {
        assert ChildOk(frames, m, i);
        assert m'.zeros * Field(i) == m.zeros * Field(i);
      }
    }
  }

  lemma AllocLarge(frames: nat, m: Mem, f: nat, order: nat)
    requires Inv(frames, m) && Managed(frames, f, order) && order >= 9
    requires f / 512 + Span(order) <= ChildCount(frames) <= |m.children|
    requires Block(f, Pow2(order)) <= Free(frames, m)
    ensures Inv(frames, Alloc(m, f, order))
    ensures Free(frames, Alloc(m, f, order)) == Free(frames, m) - Block(f, Pow2(order))
  {
    LargeBlock(f, order);
    FullRange(frames, m, f, order);
    var m' := Alloc(m, f, order);
    forall i | 0 <= i < |m.children|
      ensures ChildOk(frames, m', i)
    {
      assert ChildOk(frames, m, i);
      if f / 512 <= i < f / 512 + Span(order) {
        FullIff(frames, m, i);
      }
    }
  }

  /** Giving back an allocated block keeps the invariant and adds exactly its frames. */
  lemma DeallocRefines(frames: nat, m: Mem, f: nat, order: nat)
    requires Inv(frames, m) && Managed(frames, f, order) && Allocated(m, f, order)
    ensures Covered(m, f, order)
    ensures Inv(frames, Dealloc(m, f, order))
    ensures Block(f, Pow2(order)) !! Free(frames, m)
    ensures Free(frames, Dealloc(m, f, order)) == Free(frames, m) + Block(f, Pow2(order))
  {
    InsideCount(frames, f);
    if order < 9 {
      DeallocSmall(frames, m, f, order);
    } else {
      InsideCountSpan(frames, f, order);
      DeallocLarge(frames, m, f, order);
    }
  }

  /** Splitting a huge child does not change which frames are free. */
  lemma SplitRefines(frames: nat, m: Mem, c: nat)
    requires Inv(frames, m) && c < ChildCount(frames) <= |m.children| && m.children[c].huge
    ensures Inv(frames, Split(m, c)) && Free(frames, Split(m, c)) == Free(frames, m)
  {
    var s := Split(m, c);
    assert ChildOk(frames, m, c);
    assert s.zeros * Field(c) == {};
    SameElsewhere(frames, m, s, c);
  }

  lemma DeallocSmall(frames: nat, m: Mem, f: nat, order: nat)
    requires Inv(frames, m) && Managed(frames, f, order) && Allocated(m, f, order) && order < 9
    requires f / 512 < ChildCount(frames) <= |m.children|
    ensures Inv(frames, Dealloc(m, f, order))
    ensures Block(f, Pow2(order)) !! Free(frames, m)
    ensures Free(frames, Dealloc(m, f, order)) == Free(frames, m) + Block(f, Pow2(order))
  {
    hide Inv, Pow2, Field, ChildCount, Free, Block;
    var c, b := f / 512, Block(f, Pow2(order));
    SmallBlock(f, order);
    BelowFrames(frames, f, order);
    NotFree(frames, m, c, b);
    if m.children[c].huge {
      SplitRefines(frames, m, c);
      var s := Split(m, c);
      AddBits(frames, s, c, b);
    } else {
      AddBits(frames, m, c, b);
    }
  }

  lemma BelowFrames(frames: nat, f: nat, order: nat)
    requires Managed(frames, f, order)
    ensures forall x :: x in Block(f, Pow2(order)) ==> x < frames
  {}

  lemma NotFree(frames: nat, m: Mem, c: nat, b: set<nat>)
    requires c < |m.children| && b <= Field(c) && (m.children[c].huge || b !! m.zeros)
    ensures b !! Free(frames, m)
  {
    forall x | x in b
      ensures x !in Free(frames, m)
    {
      InField(x, c);
    }
  }

  lemma DeallocLarge(frames: nat, m: Mem, f: nat, order: nat)
    requires Inv(frames, m) && Managed(frames, f, order) && Allocated(m, f, order) && order >= 9
    requires f / 512 + Span(order) <= ChildCount(frames) <= |m.children|
    ensures Inv(frames, Dealloc(m, f, order))
    ensures Block(f, Pow2(order)) !! Free(frames, m)
    ensures Free(frames, Dealloc(m, f, order)) == Free(frames, m) + Block(f, Pow2(order))
  {
    LargeBlock(f, order);
    var m' := Dealloc(m, f, order);
    var c, h := f / 512, Span(order);
    forall i | 0 <= i < |m.children|
      ensures ChildOk(frames, m', i)
    {
      assert ChildOk(frames, m, i);
      if c <= i < c + h {
        assert m.zeros * Field(i) == Field(i);
        BlockSize(512 * i, 512);
        forall x | x in Field(i)
          ensures x < frames
        {
          InField(x, i);
          assert x in Block(f, Pow2(order));
        }
      }
    }
    forall x | x in Block(f, Pow2(order))
      ensures x in m.zeros
    {
      assert ChildOk(frames, m, x / 512);
      InField(x, x / 512);
    }
  }

  /** Giving back what was just allocated restores the memory exactly. */
  lemma GetThenPut(frames: nat, m: Mem, f: nat, order: nat)
    requires Inv(frames, m) && Managed(frames, f, order) && Block(f, Pow2(order)) <= Free(frames, m)
    requires Covered(m, f, order) && (order < 9 ==> m.children[f / 512].free >= Pow2(order))
    ensures Allocated(Alloc(m, f, order), f, order)
    ensures Dealloc(Alloc(m, f, order), f, order) == m
  {
    hide AlignUp, DivCeil, AlignDown, Pow2, ChildCount, Padded;
    var m' := Dealloc(Alloc(m, f, order), f, order);
    if order < 9 {
      SmallBlock(f, order);
      InField(f, f / 512);
      assert f in Free(frames, m);
      assert m'.zeros == m.zeros;
    } else {
      FullRange(frames, m, f, order);
    }
    assert m'.children == m.children;
  }
}
