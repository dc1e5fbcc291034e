/** The lower allocator, changing its entries and rows in place (src/lower.c). */
module Lower {
  import opened Base
  import opened Words
  import opened Bitfield
  import opened Children
  import opened LowerSpec
  import opened LowerLemmas
  import opened LowerWhole

  class Lower {
    const frames: nat
    const undo: Undo
    const children: array<Child>
    const rows: array<bv64>

    /** The buffers have the sizes computed from the number of frames. */
    predicate Shape()
    {
      children.Length == Padded(frames) && rows.Length == 8 * ChildCount(frames) && children as object != rows
    }

    ghost function Memory(): Mem
      reads children, rows
    {
      Mem(children[..], Zeros(rows[..]))
    }

    ghost predicate Valid()
      reads children, rows
    {
      Shape() && Inv(frames, Memory())
    }

    constructor (frames: nat, undo: Undo, children: array<Child>, rows: array<bv64>)
      requires children.Length == Padded(frames) && rows.Length == 8 * ChildCount(frames) && children as object != rows
      ensures Shape() && this.frames == frames && this.undo == undo && this.children == children && this.rows == rows
    {
      this.frames, this.undo, this.children, this.rows := frames, undo, children, rows;
    }

    /** Compares and swaps `hNum` consecutive entries, undoing the ones done when one of them fails. */
    method TryUpdateHugeN(first: nat, hNum: nat, expected: Child, desired: Child) returns (ok: bool, fired: bool)
      requires first + hNum <= children.Length && expected != desired
      modifies children
      ensures ok <==> AllAre(old(children[..]), first, hNum, expected)
      ensures children[..] == HugeAfter(undo, old(children[..]), first, hNum, expected, desired)
      ensures fired <==> HugeFires(undo, old(children[..]), first, hNum, expected, desired)
    {
      hide Leading;
      fired := false;
      ghost var s := children[..];
      ghost var k := Leading(s, first, hNum, expected);
      for j := 0 to hNum
        invariant j <= k && !fired
        invariant forall i :: 0 <= i < |s| ==> children[i] == if first <= i < first + j then desired else s[i]
      {
        if children[first + j] == expected {
          children[first + j] := desired;
        } else {
          assert j == k;
          for t := 0 to j
            invariant undo.Intended? ==> !fired
            invariant undo.Intended? ==>
                        forall i :: 0 <= i < |s| ==> children[i] == if first <= i < first + j - t then desired else s[i]
            invariant undo.Written? ==> (fired <==> t > 0 && s[first + j] != desired)
            invariant undo.Written? ==>
                        forall i :: 0 <= i < |s| ==>
                          children[i] == if first <= i < first + j - t + (if t > 0 then 1 else 0) then desired
                                         else if t > 0 && i == first + j && s[i] == desired then expected else s[i]
          {
            var i := if undo.Written? then first + (j - t) else first + (j - t - 1);
            if children[i] == desired {
              children[i] := expected;
            } else {
              fired := true;
            }
          }
          return false, fired;
        }
      }
      return true, false;
    }

    /** `atom_update(child, old, child_dec, order)` */
    method DecChild(c: nat, order: nat) returns (ok: bool)
      requires c < children.Length
      modifies children
      ensures ok <==> ChildDec(old(children[c]), order).Some?
      ensures children[..] == if ok then old(children[..])[c := ChildDec(old(children[c]), order).value]
              else old(children[..])
    {
      var cell := new ChildCell(children[c]);
      ok := cell.Dec(order);
      if ok {
        children[c] := Child(cell.free, cell.huge);
      }
    }

    /** `atom_update(child, old, child_inc, order)` */
    method IncChild(c: nat, order: nat) returns (ok: bool)
      requires c < children.Length
      modifies children
      ensures ok <==> ChildInc(old(children[c]), order).Some?
      ensures children[..] == if ok then old(children[..])[c := ChildInc(old(children[c]), order).value]
              else old(children[..])
    {
      var cell := new ChildCell(children[c]);
      ok := cell.Inc(order);
      if ok {
        children[c] := Child(cell.free, cell.huge);
      }
    }

    /** Allocates the given block. */
    method GetAt(frame: nat, order: nat) returns (r: Result, fired: bool)
      requires Valid() && order <= TREE_ORDER
      modifies children, rows
      ensures !Managed(frames, frame, order) || GetAtClean(undo, old(Memory()), frame, order) ==>
                !fired && Valid() && GetAtMeets(frames, old(Memory()), Memory(), frame, order, r)
      ensures Managed(frames, frame, order) && !GetAtClean(undo, old(Memory()), frame, order) ==>
                fired || !GetAtMeets(frames, old(Memory()), Memory(), frame, order, r)
    {
      if frame + Pow2(order) > frames || frame % Pow2(order) != 0 {
        return Err(Argument), false;
      }
      InsideCount(frames, frame);
      if order >= HUGE_ORDER {
        r, fired := GetAtHuge(frame, order);
      } else {
        r, fired := GetAtSmall(frame, order);
      }
    }

    method GetAtHuge(frame: nat, order: nat) returns (r: Result, fired: bool)
      requires Valid() && order >= 9 && Managed(frames, frame, order) &&
               frame / 512 < ChildCount(frames) <= Padded(frames)
      modifies children
      ensures GetAtClean(undo, old(Memory()), frame, order) ==>
                !fired && Valid() && GetAtMeets(frames, old(Memory()), Memory(), frame, order, r)
      ensures !GetAtClean(undo, old(Memory()), frame, order) ==>
                fired || !GetAtMeets(frames, old(Memory()), Memory(), frame, order, r)
    {
      hide Inv, Free, Pow2, AllAre, HugeAfter, HugeFires, HugeClean, Block, Leading, Zeros, ChildCount, Padded;
      var hNum := Pow2(order - HUGE_ORDER);
      InsideCountSpan(frames, frame, order);
      ghost var m := Memory();
      FullRange(frames, m, frame, order);
      HugeAllOrNothing(undo, m.children, frame / 512, hNum, FULL, TAKEN);
      var ok;
      ok, fired := TryUpdateHugeN(frame / CHILD_SIZE, hNum, FULL, TAKEN);
      if ok {
        HugeNotFired(undo, m.children, frame / 512, hNum, FULL, TAKEN);
        AllocRefines(frames, m, frame, order);
        r := Result.Ok(frame, 0);
      } else {
        r := Err(Error.Memory);
      }
    }

    method GetAtSmall(frame: nat, order: nat) returns (r: Result, fired: bool)
      requires Valid() && order < 9 && Managed(frames, frame, order) &&
               frame / 512 < ChildCount(frames) <= Padded(frames)
      modifies children, rows
      ensures GetAtClean(undo, old(Memory()), frame, order) ==>
                !fired && Valid() && GetAtMeets(frames, old(Memory()), Memory(), frame, order, r)
      ensures !GetAtClean(undo, old(Memory()), frame, order) ==>
                fired || !GetAtMeets(frames, old(Memory()), Memory(), frame, order, r)
    {
      hide Inv, Pow2, Block, Zeros, ChildCount, Padded, ChildDec, ChildInc, ToggleClean, Field, Free;
      var c := frame / CHILD_SIZE;
      ghost var m := Memory();
      DecTest(frames, m, frame, order);
      var dec := DecChild(c, order);
      fired := false;
      if dec {
        BlockInChildAt(frame, order);
        var ok;
        ok, fired := FieldToggle(rows, c, frame % CHILD_SIZE, order, false, undo);
        if ok {
          assert Uniform(m.zeros, frame, Pow2(order), false);
          assert Block(frame, Pow2(order)) <= m.zeros;
          AllocRefines(frames, m, frame, order);
          assert Memory() == Alloc(m, frame, order);
          return Result.Ok(frame, 0), fired;
        }
        var inc := IncChild(c, order);
        assert inc;
        assert Memory().children == m.children;
      }
      return Err(Error.Memory), fired;
    }

    /** Turns a huge child into one with 512 allocated frames. Without other threads the field is
        all zero, so the branch that waits for another splitter is not taken. */
    method SplitHuge(c: nat) returns (ok: bool)
      requires Valid() && c < ChildCount(frames) <= Padded(frames) && children[c].huge
      modifies children, rows
      ensures ok && Valid() && Memory() == Split(old(Memory()), c)
    {
      hide Inv, Zeros, ChildCount, Padded, Free;
      ghost var m := Memory();
      ChildIsOk(frames, m, c);
      SplitRefines(frames, m, c);
      WholeChild(c);
      ghost var fired;
      ok, fired := FieldToggle(rows, c, 0, HUGE_ORDER, false, undo);
      assert Uniform(m.zeros, 512 * c, 512, false);
      if ok {
        children[c] := Child(0, false);
        assert children[..] == m.children[c := Child(0, false)];
      } else {
        assert false;
      }
    }

    /** Gives back the given block. */
    method Put(frame: nat, order: nat) returns (r: Result, fired: bool)
      requires Valid() && order <= TREE_ORDER
      modifies children, rows
      ensures !Managed(frames, frame, order) || PutClean(undo, old(Memory()), frame, order) ==>
                !fired && Valid() && PutMeets(frames, old(Memory()), Memory(), frame, order, r)
      ensures Managed(frames, frame, order) && !PutClean(undo, old(Memory()), frame, order) ==>
                fired || !PutMeets(frames, old(Memory()), Memory(), frame, order, r)
    {
      if frame + Pow2(order) > frames || frame % Pow2(order) != 0 {
        return Err(Argument), false;
      }
      InsideCount(frames, frame);
      if order >= HUGE_ORDER {
        r, fired := PutHuge(frame, order);
      } else {
        r, fired := PutSmall(frame, order);
      }
    }

    method PutHuge(frame: nat, order: nat) returns (r: Result, fired: bool)
      requires Valid() && order >= 9 && Managed(frames, frame, order) &&
               frame / 512 < ChildCount(frames) <= Padded(frames)
      modifies children
      ensures PutClean(undo, old(Memory()), frame, order) ==>
                !fired && Valid() && PutMeets(frames, old(Memory()), Memory(), frame, order, r)
      ensures !PutClean(undo, old(Memory()), frame, order) ==>
                fired || !PutMeets(frames, old(Memory()), Memory(), frame, order, r)
    {
      hide Inv, Free, Pow2, HugeAfter, HugeFires, HugeClean, Block, Leading, Zeros, ChildCount, Padded;
      var childIdx := frame / CHILD_SIZE;
      var hNum := Pow2(order - HUGE_ORDER);
      InsideCountSpan(frames, frame, order);
      ghost var m := Memory();
      var baseIdx := AlignDown(childIdx, hNum);
      GroupStart(frame, order);
      if childIdx != baseIdx {
        assert false;
      }
      HugeAllOrNothing(undo, m.children, childIdx, hNum, TAKEN, FULL);
      var ok;
      ok, fired := TryUpdateHugeN(baseIdx, hNum, TAKEN, FULL);
      if ok {
        HugeNotFired(undo, m.children, childIdx, hNum, TAKEN, FULL);
        DeallocRefines(frames, m, frame, order);
        r := Result.Ok(0, 0);
      } else {
        r := Err(Argument);
      }
    }

    method PutSmall(frame: nat, order: nat) returns (r: Result, fired: bool)
      requires Valid() && order < 9 && Managed(frames, frame, order) &&
               frame / 512 < ChildCount(frames) <= Padded(frames)
      modifies children, rows
      ensures PutClean(undo, old(Memory()), frame, order) ==>
                !fired && Valid() && PutMeets(frames, old(Memory()), Memory(), frame, order, r)
      ensures !PutClean(undo, old(Memory()), frame, order) ==>
                fired || !PutMeets(frames, old(Memory()), Memory(), frame, order, r)
    {
      hide Inv, Pow2, Block, Zeros, ChildCount, Padded, ChildDec, ChildInc, ToggleClean, Field, Free;
      var c := frame / CHILD_SIZE;
      ghost var m := Memory();
      if children[c].huge {
        var split := SplitHuge(c);
        if !split {
          assert false;
        }
      }
      ghost var s := Memory();
      assert s == if m.children[c].huge then Split(m, c) else m;
      BlockInChildAt(frame, order);
      SplitTaken(m, frame, order);
      var ok;
      ok, fired := FieldToggle(rows, c, frame % CHILD_SIZE, order, true, undo);
      assert ok <==> Uniform(s.zeros, frame, Pow2(order), true);
      if !ok {
        return Err(Error.Memory), fired;
      }
      DeallocRefines(frames, m, frame, order);
      IncTest(frames, m, frame, order);
      var inc := IncChild(c, order);
      assert inc;
      assert Memory() == Dealloc(m, frame, order);
      r := Result.Ok(0, 0);
    }

    method GetNearSmall(start: nat, order: nat) returns (r: Result)
      requires Valid() && order < 9 && start < frames && start / 512 < ChildCount(frames) <= Padded(frames)
      modifies children, rows
      ensures Valid() && GetMeets(frames, old(Memory()), Memory(), start, order, r)
      ensures r.Ok? ==> FirstFound(frames, old(Memory()), old(rows[..]), start, order, r.frame)
    {
      hide Inv, Pow2, Block, Zeros, Offsetted, OffsettedAt, Free, ChildCount, Padded, ChildDec, ChildInc, FirstPlace,
        FirstFound, NoneInChild, Found;
      ghost var m := Memory();
      var idx := start / CHILD_SIZE;
      OffsettedVisitsOnce(idx, TREE_CHILDREN);
      for i := 0 to TREE_CHILDREN
        invariant Memory() == m && rows[..] == old(rows[..])
        invariant forall k :: 0 <= k < i ==> NoneInChild(frames, m, Offsetted(idx, TREE_CHILDREN, k), order)
      {
        var current := Offsetted(idx, TREE_CHILDREN, i);
        SameTreeChild(frames, start, current);
        var dec := DecChild(current, order);
        DecFits(frames, m, current, order);
        if dec {
          var pos := FieldSetNext(rows, current, start, order);
          FoundInChild(frames, m, Zeros(rows[..]), current, order, pos);
          if pos.Some? {
            var f := current * CHILD_SIZE + pos.value;
            AllocRefines(frames, m, f, order);
            TreeOfChild(f);
            TreeOfChild(start);
            assert Memory() == Alloc(m, f, order);
            FirstChildFound(frames, m, old(rows[..]), start, order, i, pos.value);
            return Result.Ok(f, 0);
          }
          var inc := IncChild(current, order);
          assert inc;
          assert children[..] == m.children;
          SameZeros(rows[..], old(rows[..]));
        }
      }
      NoneInTree(frames, m, start, order);
      return Err(Error.Memory);
    }

    /** Allocates a block of the tree of `start`. */
    method GetNear(start: nat, order: nat) returns (r: Result, fired: bool)
      requires Valid() && order <= TREE_ORDER && start < frames
      modifies children, rows
      ensures GetClean(undo, old(Memory()), start, order) ==>
                !fired && Valid() && GetMeets(frames, old(Memory()), Memory(), start, order, r)
      ensures !GetClean(undo, old(Memory()), start, order) ==>
                fired || !GetMeets(frames, old(Memory()), Memory(), start, order, r)
      ensures r.Ok? ==> FirstFound(frames, old(Memory()), old(rows[..]), start, order, r.frame)
    {
      InsideCount(frames, start);
      if order >= HUGE_ORDER {
        r, fired := GetNearHuge(start, order);
      } else {
        r := GetNearSmall(start, order);
        fired := false;
      }
    }

    method GetNearHuge(start: nat, order: nat) returns (r: Result, fired: bool)
      requires Valid() && 9 <= order <= TREE_ORDER && start < frames &&
               start / 512 < ChildCount(frames) <= Padded(frames)
      modifies children
      ensures GetClean(undo, old(Memory()), start, order) ==>
                !fired && Valid() && GetMeets(frames, old(Memory()), Memory(), start, order, r)
      ensures !GetClean(undo, old(Memory()), start, order) ==>
                fired || !GetMeets(frames, old(Memory()), Memory(), start, order, r)
      ensures r.Ok? ==> FirstFound(frames, old(Memory()), old(rows[..]), start, order, r.frame)
    {
      hide Inv, Pow2, Block, Zeros, Offsetted, Free, ChildCount, Padded, HugeFires, HugeAfter, HugeClean, GroupAt,
        TreeClean, AlignDown, Managed, NoBlock, Aligned, TreeOf, AllAre, GroupIndex, Searched, FirstFound;
      ghost var m := Memory();
      var hNum := Pow2(order - HUGE_ORDER);
      var idx := AlignDown(start / CHILD_SIZE, hNum);
      var groups := TREE_CHILDREN / hNum;
      GroupCount(start, order);
      fired := false;
      ghost var stuck: Option<nat> := None;
      SearchStarts(undo, m.children, start, order);
      for i := 0 to groups
        invariant Searched(undo, m.children, children[..], start, order, i, stuck, fired)
      {
        var current := Offsetted(idx / hNum, groups, i);
        var b := current * hNum;
        GroupAtIs(start, order, i, hNum, idx / hNum);
        GroupInTree(frames, start, order, i);
        SearchStep(undo, m.children, children[..], start, order, i, stuck, fired);
        ghost var s := children[..];
        FirstGroupFound(frames, m, old(rows[..]), start, order, i, undo, s, stuck, fired);
        var ok, fire := TryUpdateHugeN(b, hNum, FULL, TAKEN);
        fired := fired || fire;
        if ok {
          if stuck.None? {
            TookGroupOfTree(frames, m, start, order, b);
          } else {
            NotAlloc(m, b, order, children[..], stuck.value);
          }
          return Result.Ok(b * CHILD_SIZE, 0), fired;
        }
        if stuck.None? && !HugeClean(undo, s, b, hNum, FULL) {
          stuck := Some(b);
        }
      }
      SearchEnds(undo, m.children, children[..], start, order, stuck, fired);
      if stuck.None? {
        NoneInGroupsOfTree(frames, m, start, order);
      }
      return Err(Error.Memory), fired;
    }

    /** `lower_get`: the given block, or any block of the tree of `start`. */
    method Get(start: nat, order: nat, frame: Option<nat>) returns (r: Result, fired: bool)
      requires Valid() && order <= TREE_ORDER && (frame.None? ==> start < frames)
      requires UndoUnused(undo, order, frame.Some?)
      modifies children, rows
      ensures !fired && Valid()
      ensures frame.None? ==> GetMeets(frames, old(Memory()), Memory(), start, order, r)
      ensures frame.None? && r.Ok? ==> FirstFound(frames, old(Memory()), old(rows[..]), start, order, r.frame)
      ensures frame.Some? ==> GetAtMeets(frames, old(Memory()), Memory(), frame.value, order, r)
    {
      hide Inv, GetMeets, GetAtMeets, Zeros, Padded, ChildCount, Aligned, Pow2, GetClean, GetAtClean;
      if frame.None? {
        GetIsClean(undo, Memory(), start, order);
        r, fired := GetNear(start, order);
      } else {
        if Managed(frames, frame.value, order) {
          SizeOk(frames, Memory());
          InsideCount(frames, frame.value);
          GetAtIsClean(undo, Memory(), frame.value, order);
        }
        r, fired := GetAt(frame.value, order);
      }
    }

    /** `lower_clear`: makes all frames free, or none. */
    method Clear(freeAll: bool)
      requires Shape()
      modifies children, rows
      ensures Memory() == Cleared(frames, freeAll)
      ensures Valid() && Free(frames, Memory()) == if freeAll then Block(0, frames) else {}
    {
      hide ChildCount, Padded, Zeros, Inv, Free, ClearedBelow;
      ChildCountIs(frames);
      var n := ChildCount(frames);
      ZerosBelow(rows[..]);
      NothingCleared(Zeros(rows[..]), frames, freeAll);
      for i := 0 to n
        invariant forall c :: 0 <= c < i ==> children[c] == ClearedChild(frames, freeAll, c)
        invariant Zeros(rows[..]) <= Block(0, 512 * n)
        invariant ClearedBelow(Zeros(rows[..]), frames, freeAll, i)
      {
        ghost var before := Zeros(rows[..]);
        var f := if CHILD_SIZE < frames - i * CHILD_SIZE then CHILD_SIZE else frames - i * CHILD_SIZE;
        var free := if freeAll then f else 0;
        children[i] := Child(free, free == 0);
        if free == 0 {
          FieldInit(rows, i);
          ClearStep(before, Zeros(rows[..]), frames, freeAll, i, 512);
        } else {
          InitField(rows, i, free);
          ClearStep(before, Zeros(rows[..]), frames, freeAll, i, free);
        }
      }
      ghost var cleared := rows[..];
      for i := n to Padded(frames)
        invariant rows[..] == cleared
        invariant forall c :: 0 <= c < i ==> children[c] == ClearedChild(frames, freeAll, c)
      {
        children[i] := Child(0, true);
      }
      ClearEnd(Zeros(rows[..]), frames, freeAll);
      ClearedRefines(frames, freeAll);
      assert children[..] == Cleared(frames, freeAll).children;
    }

    /** `lower_recover`: rebuilds the counters from the bits. */
    method Recover()
      requires Shape()
      modifies children, rows
      ensures ChildCount(frames) <= Padded(frames) && Memory() == Recovered(old(Memory()), ChildCount(frames))
      ensures old(Recoverable(frames, Memory())) ==> Valid() && Free(frames, Memory()) == old(Free(frames, Memory()))
    {
      hide ChildCount, Padded, Zeros, Inv, Free, Recovered, Recoverable;
      ChildCountIs(frames);
      ghost var m := Memory();
      RecoveredNone(m);
      for i := 0 to ChildCount(frames)
        invariant Memory() == Recovered(m, i)
      {
        RecoverStep(m, i);
        ghost var r := Memory();
        var child := children[i];
        if child.huge {
          children[i] := Child(0, true);
          FieldInit(rows, i);
        } else {
          var ones := FieldCountOnes(rows, i);
          children[i] := Child(CHILD_SIZE - ones, false);
        }
        assert children[..] == r.children[i := RecoveredChild(m, i)];
      }
      if Recoverable(frames, m) {
        RecoverRefines(frames, m);
      }
    }

    /** `lower_init`, after the buffers were assigned. Mode 4 trusts their content. */
    method Init(mode: nat) returns (error: Option<Error>)
      requires Shape()
      modifies children, rows
      ensures error == if mode == 0 || mode == 1 || mode == 2 || mode == 4 then None else Some(Error.Init)
      ensures mode == 0 ==> Valid() && Free(frames, Memory()) == Block(0, frames)
      ensures mode == 1 ==> Valid() && Free(frames, Memory()) == {}
      ensures mode == 2 && old(Recoverable(frames, Memory())) ==>
                Valid() && Free(frames, Memory()) == old(Free(frames, Memory()))
      ensures mode == 2 ==>
              ChildCount(frames) <= Padded(frames) && Memory() == Recovered(old(Memory()), ChildCount(frames))
      ensures mode > 2 ==> Memory() == old(Memory())
    {
      hide Inv, Free, Recoverable, Recovered, Zeros;
      if mode == 0 {
        Clear(true);
      } else if mode == 1 {
        Clear(false);
      } else if mode == 2 {
        Recover();
      } else if mode != 4 {
        return Some(Error.Init);
      }
      return None;
    }

    /** `lower_stats`: counts the free frames, children and trees. */
    method Statistics() returns (stats: Stats)
      requires Valid()
      ensures stats.freeFrames == |Free(frames, Memory())|
      ensures stats.freeHuge == |WholeChildren(frames, Memory(), 0, Padded(frames))|
      ensures stats.freeTrees == |WholeTrees(frames, Memory(), TreeCount(frames))|
    {
      hide Inv, Free, Zeros, Padded, ChildCount, WholeChildren, WholeTrees, FreeIn, TreeFrames;
      ghost var m := Memory();
      var freeFrames, freeHuge, freeTrees := 0, 0, 0;
      NothingYet(frames, m, 0);
      NoTrees(frames, m);
      for i := 0 to TreeCount(frames)
        invariant freeFrames == FreeIn(frames, m, 0, 512 * (i * TREE_CHILDREN))
        invariant freeHuge == |WholeChildren(frames, m, 0, i * TREE_CHILDREN)|
        invariant freeTrees == |WholeTrees(frames, m, i)|
      {
        SizeOk(frames, m);
        TreeInside(frames, m, i);
        var n := 0;
        for j := 0 to TREE_CHILDREN
          invariant freeFrames == FreeIn(frames, m, 0, 512 * (i * TREE_CHILDREN + j))
          invariant freeHuge == |WholeChildren(frames, m, 0, i * TREE_CHILDREN + j)|
          invariant n == SumFree(m.children, i * TREE_CHILDREN, j)
        {
          CountChild(frames, m, 0, i * TREE_CHILDREN + j);
          var child := children[i * TREE_CHILDREN + j];
          freeFrames := freeFrames + child.free;
          freeHuge := freeHuge + if child.free == CHILD_SIZE then 1 else 0;
          n := n + child.free;
        }
        TreeSum(frames, m, i);
        TreeCounts(frames, m, i);
        WholeTreesNext(frames, m, i);
        freeTrees := freeTrees + if n == TREE_SIZE then 1 else 0;
        MulStep(i, TREE_CHILDREN);
      }
      PaddedIs(frames);
      SizeOk(frames, m);
      AllFree(frames, m);
      stats := Stats(freeFrames, freeHuge, freeTrees);
    }

    /** `lower_stats_at`: the same for one frame, child or tree. Other orders report nothing, and so
        does the tree order when it is the order of a child. */
    method StatisticsAt(frame: nat, order: nat) returns (stats: Stats)
      requires Valid()
      ensures frame >= frames || (order != 0 && order != HUGE_ORDER && order != TREE_ORDER) ==> stats == Stats(0, 0, 0)
      ensures frame < frames && order == 0 ==>
                stats == Stats(if frame in Free(frames, Memory()) then 1 else 0, 0, 0)
      ensures frame < frames && order == HUGE_ORDER ==>
                stats == Stats(FreeIn(frames, Memory(), 512 * (frame / 512), 512),
                               if Field(frame / 512) <= Free(frames, Memory()) then 1 else 0, 0)
      ensures frame < frames && order == TREE_ORDER != HUGE_ORDER ==>
                stats == Stats(FreeOfTree(frames, Memory(), TreeOf(frame)),
                               |WholeChildren(frames, Memory(), TreeOf(frame) * TREE_CHILDREN, TREE_CHILDREN)|,
                               if TreeFrames(TreeOf(frame)) <= Free(frames, Memory()) then 1 else 0)
    {
      hide Inv, Zeros, Padded, ChildCount, WholeChildren, FreeIn, TreeFrames, AlignDown;
      if frame >= frames {
        return Stats(0, 0, 0);
      }
      ghost var m := Memory();
      InsideCount(frames, frame);
      SizeOk(frames, m);
      if order == 0 {
        var i := frame / CHILD_SIZE;
        EntryCounts(frames, m, i);
        InField(frame, i);
        FreeBit(frames, m, frame);
        if children[i].free == CHILD_SIZE {
          return Stats(1, 0, 0);
        } else if children[i].free > 0 {
          var free := FieldIsFree(rows, i, frame % CHILD_SIZE);
          return Stats(if free then 1 else 0, 0, 0);
        }
        return Stats(0, 0, 0);
      } else if order == HUGE_ORDER {
        var i := frame / CHILD_SIZE;
        EntryCounts(frames, m, i);
        return Stats(children[i].free, if children[i].free == CHILD_SIZE then 1 else 0, 0);
      } else if order == TREE_ORDER {
        var start := AlignDown(frame / CHILD_SIZE, TREE_CHILDREN);
        AlignDownIs(frame / CHILD_SIZE, TREE_CHILDREN);
        TreeOfChild(frame);
        ghost var t := TreeOf(frame);
        TreeBelow(frames, frame);
        TreeInside(frames, m, t);
        NothingYet(frames, m, start);
        var freeFrames, freeHuge := 0, 0;
        for i := 0 to TREE_CHILDREN
          invariant freeFrames == FreeIn(frames, m, 512 * start, 512 * i)
          invariant freeHuge == |WholeChildren(frames, m, start, i)|
        {
          CountChild(frames, m, start, i);
          freeFrames := freeFrames + children[start + i].free;
          freeHuge := freeHuge + if children[start + i].free == CHILD_SIZE then 1 else 0;
        }
        FreeOfTreeIs(frames, m, t);
        TreeCounts(frames, m, t);
        return Stats(freeFrames, freeHuge, if freeFrames == TREE_SIZE then 1 else 0);
      }
      return Stats(0, 0, 0);
    }
  }
}
