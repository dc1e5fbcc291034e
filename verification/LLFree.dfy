/** The whole allocator, changing entries, slots and the memory below in place (src/llfree.c). */
module LLFree {
  import opened Base
  import opened Children
  import opened Bitfield
  import opened LowerSpec
  import opened LowerLemmas
  import opened LowerWhole
  import opened Policies
  import opened TreeEntries
  import opened TreeArray
  import opened Locals
  import opened Accounts
  import opened UpperSpec
  import opened UpperLemmas
  import opened Totals
  import L = Lower

  class LLFree {
    const lower: L.Lower
    const trees: Trees
    const local: Local
    const policy: PolicyFn
    /** The trees that were brought offline and not online again. */
    ghost var offline: set<nat>
    /** The classes that a tree can have. */
    ghost var classes: set<nat>
    /** Every call of a callback of a search, with the entry of the tree. Only the callbacks add to it. */
    ghost var trace: seq<Attempt>

    /** Joins the parts. `Init` is the one caller. */
    constructor (lower: L.Lower, trees: Trees, local: Local, policy: PolicyFn, ghost classes: set<nat>)
      ensures this.lower == lower && this.trees == trees && this.local == local && this.policy == policy
      ensures this.offline == {} && this.classes == classes
    {
      this.lower, this.trees, this.local, this.policy := lower, trees, local, policy;
      this.offline, this.classes, this.trace := {}, classes, [];
    }

    /** `llfree_init` on the given buffers. Mode 4 trusts their content. */
    static method Init(frames: nat, mode: nat, undo: Undo, children: array<Child>, rows: array<bv64>,
                       entries: array<Tree>,
                       classing: Classing)
      returns (error: Option<Error>, self: LLFree?)
      requires 1 <= |classing.classes| <= MAX_CLASSES && classing.defaultClass < MAX_CLASSES
      requires forall i :: 0 <= i < |classing.classes| ==> classing.classes[i].cls < MAX_CLASSES
      requires children.Length == Padded(frames) && rows.Length == 8 * ChildCount(frames)
      requires entries.Length == DivCeil(frames, TREE_SIZE)
      requires children as object != rows && children as object != entries && rows as object != entries
      modifies children, rows, entries
      ensures error == if mode >= 5 || mode == 3 || frames < 512 || frames > MAX_PAGES then Some(Error.Init) else None
      ensures error == None <==> self != null
      ensures self != null ==>
                && self.lower.frames == frames && self.lower.children == children && self.lower.rows == rows
                && self.trees.entries == entries && self.offline == {} && self.Drained() && self.lower.undo == undo
                && self.lower.Shape() && self.Follows(classing)
      ensures self != null && mode <= 1 && frames <= 64 * ROW_LIMIT ==>
                self.Valid() && Free(frames, self.lower.Memory()) == if mode == 0 then Block(0, frames) else {}
      ensures self != null && mode == 2 && frames <= 64 * ROW_LIMIT
              && old(Recoverable(frames, Mem(children[..], Zeros(rows[..])))) ==>
                self.Valid() && Free(frames, self.lower.Memory()) ==
                    old(Free(frames, Mem(children[..], Zeros(rows[..]))))
    {
      hide Inv, Free, Zeros, Recoverable, Recovered, Block, Padded, ChildCount, Account, BelowOf;
      if mode >= 5 {
        return Some(Error.Init), null;
      }
      if frames < 512 || frames > MAX_PAGES {
        return Some(Error.Init), null;
      }
      var lower := new L.Lower(frames, undo, children, rows);
      ghost var m := Mem(children[..], Zeros(rows[..]));
      assert lower.Memory() == m;
      error := lower.Init(mode);
      if error.Some? {
        return error, null;
      }
      self := Join(lower, entries, mode != 4, classing);
    }

    /** The part of `llfree_init` above the lower allocator. */
    static method Join(lower: L.Lower, entries: array<Tree>, init: bool, classing: Classing) returns (self: LLFree)
      requires 1 <= |classing.classes| <= MAX_CLASSES && classing.defaultClass < MAX_CLASSES
      requires forall i :: 0 <= i < |classing.classes| ==> classing.classes[i].cls < MAX_CLASSES
      requires lower.Shape() && entries.Length == DivCeil(lower.frames, TREE_SIZE)
      requires lower.children as object != entries && lower.rows as object != entries
      modifies entries
      ensures self.lower == lower && self.trees.entries == entries && self.offline == {} && self.Drained()
      ensures self.Follows(classing)
      ensures init && lower.Valid() && 512 <= lower.frames <= 64 * ROW_LIMIT ==> self.Valid()
    {
      hide Inv, Free, Zeros, Account, BelowOf, TreeCount, Padded, ChildCount;
      var trees := new Trees(entries, classing.defaultClass);
      TreeCountIs(lower.frames);
      if init {
        InitTrees(lower, trees);
      }
      var local := new Local(classing.classes);
      ghost var classes := Configured(classing);
      self := new LLFree(lower, trees, local, classing.policy, classes);
      if init && lower.Valid() && 512 <= lower.frames <= 64 * ROW_LIMIT {
        FreshAccount(lower.frames, lower.Memory(), self.View(), classes, classing.defaultClass);
        ConfiguredClasses(classing);
      }
    }

    /** `trees_init`: every entry counts the frames that the children's counters add up to. */
    static method InitTrees(lower: L.Lower, trees: Trees)
      requires lower.Shape() && trees.entries.Length == TreeCount(lower.frames) && trees.defaultClass < MAX_CLASSES
      requires lower.children as object != trees.entries && lower.rows as object != trees.entries
      modifies trees.entries
      ensures forall t :: 0 <= t < trees.entries.Length ==>
                !trees.entries[t].reserved && trees.entries[t].cls == trees.defaultClass
      ensures lower.Valid() ==> forall t :: 0 <= t < trees.entries.Length ==>
                trees.entries[t].free == FreeOfTree(lower.frames, lower.Memory(), t)
    {
      hide Inv, Zeros, Free, FreeOfTree;
      for i := 0 to trees.entries.Length
        invariant forall t :: 0 <= t < i ==> !trees.entries[t].reserved && trees.entries[t].cls == trees.defaultClass
        invariant lower.Valid() ==> forall t :: 0 <= t < i ==>
                    trees.entries[t].free == FreeOfTree(lower.frames, lower.Memory(), t)
      {
        EntriesOf(lower.frames, i);
        var sum := 0;
        for j := 0 to TREE_CHILDREN
          invariant sum == SumFree(lower.children[..], i * TREE_CHILDREN, j)
        {
          sum := sum + lower.children[i * TREE_CHILDREN + j].free;
        }
        if lower.Valid() {
          TreeSum(lower.frames, lower.Memory(), i);
        }
        trees.entries[i] := Tree(false, trees.defaultClass, sum);
      }
    }

    /** The policy, the classes and the numbers of slots are those of `classing`. */
    ghost predicate Follows(classing: Classing)
      reads `classes
    {
      && policy == classing.policy && classes == Configured(classing) && |local.slices| == MAX_CLASSES
      && forall c :: 0 <= c < MAX_CLASSES ==> local.slices[c].len == CountOf(classing.classes, c)
    }

    // ---- the state and its invariant ----

    ghost function View(): Upper
      reads trees.entries, local.slots
    {
      Upper(trees.entries[..], local.slots[..])
    }

    ghost function Below(): seq<nat>
      reads lower.children, lower.rows
    {
      BelowOf(lower.frames, lower.Memory())
    }

    ghost predicate Layout()
    {
      && lower.Shape() && local.Shape() && trees.entries.Length == TreeCount(lower.frames)
      && 512 <= lower.frames <= 64 * ROW_LIMIT
      && lower.children as object != trees.entries && lower.children as object != local.slots
      && lower.rows as object != trees.entries && lower.rows as object != local.slots
      && trees.entries as object != local.slots
    }

    /** Every class that is configured can be the class of a tree, and so can the default class. */
    ghost predicate ClassesOk()
      requires Layout()
      reads `classes
    {
      && (forall c :: c in classes ==> c < MAX_CLASSES) && trees.defaultClass < MAX_CLASSES
      && Bits3(trees.defaultClass) in classes
      && forall c :: 0 <= c < MAX_CLASSES && local.slices[c].len.Some? ==> c in classes
    }

    /** Slots in use belong to a class and start their search at managed frames. */
    ghost predicate RowsOk()
      reads local.slots
    {
      forall i :: 0 <= i < local.slots.Length && local.slots[i].present ==>
                    64 * local.slots[i].startRow < lower.frames && local.InSlice(i)
    }

    /** The invariant while a call carries frames and reservations. */
    ghost predicate Ready(carry: Carry)
      reads `offline, `classes, lower.children, lower.rows, trees.entries, local.slots
    {
      Layout() && lower.Valid() && ClassesOk() && RowsOk() && Account(Below(), View(), carry, offline, classes)
    }

    ghost predicate Valid()
      reads `offline, `classes, lower.children, lower.rows, trees.entries, local.slots
    {
      Ready(NoCarry(TreeCount(lower.frames)))
    }

    ghost function Nothing(): Carry
    {
      NoCarry(TreeCount(lower.frames))
    }

    // ---- steps on one tree or slot ----

    method PutTree(t: nat, n: nat, ghost carry: Carry)
      requires Ready(carry) && t < trees.entries.Length && n <= carry.frames[t]
      modifies trees.entries
      ensures Ready(carry.Sub(t, n))
      ensures trees.entries[..] ==
              old(trees.entries[..])[t := TreePut(old(trees.entries[t]), n, policy, trees.defaultClass)]
    {
      hide Account;
      PutIntoTree(Below(), View(), carry, offline, classes, t, n, policy, trees.defaultClass);
      trees.Put(t, n, policy);
    }

    method UnreserveTree(t: nat, n: nat, cls: nat, ghost carry: Carry)
      requires Ready(carry) && t < trees.entries.Length && n <= carry.frames[t] && carry.tokens[t] > 0 && cls in classes
      modifies trees.entries
      ensures Ready(carry.Sub(t, n).Drop(t))
      ensures old(trees.entries[t]).reserved && trees.entries[..] == old(trees.entries[..])[t := trees.entries[t]]
      ensures Some(trees.entries[t]) == TreeUnreserve(old(trees.entries[t]), n, cls, policy, trees.defaultClass)
    {
      hide Account;
      Accounts.UnreserveTree(Below(), View(), carry, offline, classes, t, n, cls, policy, trees.defaultClass);
      var ok := trees.Unreserve(t, n, cls, policy);
      assert ok;
    }

    /** An allocation below that is covered by carried frames. */
    method GetLower(start: nat, order: nat, frame: Option<nat>, ghost carry: Carry) returns (r: Result)
      requires Ready(carry) && order <= TREE_ORDER && start < lower.frames
      requires UndoUnused(lower.undo, order, frame.Some?)
      requires TreeOf(start) < |carry.frames| && Pow2(order) <= carry.frames[TreeOf(start)]
      requires frame.Some? ==> Managed(lower.frames, frame.value, order) && TreeOf(frame.value) == TreeOf(start)
      modifies lower.children, lower.rows
      ensures Serves(lower.frames, old(lower.Memory()), lower.Memory(), frame, order, r)
      ensures Ready(if r.Ok? then carry.Sub(TreeOf(start), Pow2(order)) else carry)
      ensures r.Ok? ==> TreeOf(r.frame) == TreeOf(start)
      ensures order == 0 && frame.None? ==> r.Ok?
      ensures frame.None? && r.Err? ==> NoBlock(lower.frames, old(lower.Memory()), TreeOf(start), order)
      ensures order == 0 && frame.Some? && frame.value in old(Free(lower.frames, lower.Memory())) ==> r.Ok?
      ensures r.Err? ==> Missing(old(lower.Memory()), frame, TreeOf(start), order)
    {
      hide Account, Inv, Free, BelowOf, Pow2, GetMeets, GetAtMeets, Took, Managed, ClassesOk, RowsOk, UndoUnused,
        NoBlock, Missing;
      ghost var m, t := lower.Memory(), TreeOf(start);
      ghost var fired;
      Sizes(Below(), View(), carry, offline, classes);
      SpendBelow(Below(), View(), carry, offline, classes, t, Pow2(order));
      r, fired := lower.Get(start, order, frame);
      GotServes(lower.frames, m, lower.Memory(), start, order, frame, r);
      MissingIs(m, frame, t, order);
      if r.Ok? {
        TookBelow(lower.frames, m, lower.Memory(), r.frame, order);
      }
    }

    /** The tree has no free block of that order, or the given block is not free. */
    ghost predicate Missing(m: Mem, frame: Option<nat>, t: nat, order: nat)
    {
      if frame.None? then NoBlock(lower.frames, m, t, order)
      else !(Block(frame.value, Pow2(order)) <= Free(lower.frames, m))
    }

    lemma MissingIs(m: Mem, frame: Option<nat>, t: nat, order: nat)
      ensures frame.None? ==> Missing(m, frame, t, order) == NoBlock(lower.frames, m, t, order)
      ensures frame.Some? ==> Missing(m, frame, t, order) == !(Block(frame.value, Pow2(order)) <= Free(lower.frames, m))
    {}

    /** Puts a carried reservation into a slot and gives up the one that was there. */
    method SwapReserved(cls: nat, index: nat, tree: nat, free: nat, ghost carry: Carry)
      requires Ready(carry) && cls in classes && cls < MAX_CLASSES && local.slices[cls].Has(index)
      requires tree < trees.entries.Length && free <= carry.frames[tree] && carry.tokens[tree] > 0
      modifies trees.entries, local.slots
      ensures Ready(carry.Sub(tree, free).Drop(tree))
      ensures var at := local.At(cls, index);
              && local.slots[..] == old(local.slots[..])[at := local.slots[at]] && HoldsTree(local.slots[at], tree)
              && local.slots[at].free == free
              && GaveUp(old(trees.entries[..]), trees.entries[..], old(local.slots[at]), cls)
      ensures old(trees.entries[tree]).reserved && trees.entries[tree] == old(trees.entries[tree])
    {
      hide Account, Below, Inv, ClassesOk, TreeOfRow, TreeFrame, RowFromTree, TreeUnreserve;
      Sizes(Below(), View(), carry, offline, classes);
      TokenMeans(Below(), View(), carry, offline, classes, tree);
      TreeStart(lower.frames, tree);
      RowOfTree(lower.frames, tree);
      CarriedFits(Below(), View(), carry, offline, classes, tree);
      local.AtInSlice(cls, index);
      ghost var at := local.At(cls, index);
      ghost var now := NewReserved(true, free, RowFromTree(tree));
      SwapSlot(Below(), View(), carry, offline, classes, at, now);
      ghost var rest := carry.Sub(tree, free).Drop(tree);
      var prev := local.Swap(cls, index, tree, free);
      ghost var given := Released(rest, old(local.slots[at]));
      assert Ready(given);
      if prev.present {
        Returned(rest, old(local.slots[at]), trees.entries.Length);
        UnreserveTree(TreeOfRow(prev.startRow), prev.free, prev.cls, given);
        UnreserveAdds(old(trees.entries[TreeOfRow(prev.startRow)]), prev.free, cls, policy, trees.defaultClass);
      }
    }

    /** What a slot held is given up: the entry of its tree is not reserved any more and counts exactly the slot's
        frames in addition. */
    ghost predicate GaveUp(before: seq<Tree>, after: seq<Tree>, slot: Reserved, cls: nat)
    {
      if slot.present then
        var p := TreeOfRow(slot.startRow);
        && p < |before| && |after| == |before| && after == before[p := after[p]] && before[p].reserved
        && !after[p].reserved && after[p].free == before[p].free + slot.free
        && Some(after[p]) == TreeUnreserve(before[p], slot.free, cls, policy, trees.defaultClass)
      else
        after == before
    }

    // ---- allocating from one tree ----

    /** Why a callback can fail: the entry of the tree does not allow the access, the resulting class has no
        slot, or the tree has no free block of that order. */
    ghost predicate Refused(search: Search, order: nat, cls: nat, m: Mem, a: Attempt)
      requires |local.slices| == MAX_CLASSES
    {
      || NoBlock(lower.frames, m, a.idx, order)
      || (if search.Any? then TreeSteal(a.tree, Pow2(order), cls, policy).None?
          else
            var access := TreeReserveOrSteal(a.tree, Pow2(order), policy, cls);
            access.None? || local.ClassLocals(access.value.cls) == None ||
                local.ClassLocals(access.value.cls) == Some(0))
    }

    lemma RefusedIf(order: nat, cls: nat, m: Mem, a: Attempt)
      requires |local.slices| == MAX_CLASSES
      ensures var access := TreeReserveOrSteal(a.tree, Pow2(order), policy, cls);
              (access.None? || local.ClassLocals(access.value.cls) == None ||
               local.ClassLocals(access.value.cls) == Some(0)
               || NoBlock(lower.frames, m, a.idx, order)) ==> Refused(Global, order, cls, m, a)
    {}

    lemma StockedHasSlots()
      requires Layout()
      ensures Stocked() ==> forall c :: c in classes && c < MAX_CLASSES ==>
              local.slices[c].len.Some? && local.slices[c].len.value > 0
    {}

    /** What the trees tried say about the result: all of them refused, or only the last one did not and
        served. */
    ghost predicate Logs(search: Search, order: nat, cls: nat, m: Mem, tried: seq<Attempt>, r: Result)
      requires |local.slices| == MAX_CLASSES
    {
      && (forall k :: 0 <= k < |tried| - (if r.Ok? then 1 else 0) ==> Refused(search, order, cls, m, tried[k]))
      && (r.Ok? ==> tried != [] && TreeOf(r.frame) == tried[|tried| - 1].idx)
    }

    lemma NoneTried(search: Search, order: nat, cls: nat, m: Mem)
      requires |local.slices| == MAX_CLASSES
      ensures Logs(search, order, cls, m, [], Err(Error.Memory)) && Tried([]) == []
    {}

    lemma {:induction false} OneTried(search: Search, order: nat, cls: nat, m: Mem, tried: seq<Attempt>, r: Result,
                                      a: Attempt)
      requires |local.slices| == MAX_CLASSES && Logs(search, order, cls, m, tried, Err(Error.Memory))
      requires if r.Ok? then TreeOf(r.frame) == a.idx else Refused(search, order, cls, m, a)
      ensures Logs(search, order, cls, m, tried + [a], r) && Tried(tried + [a]) == Tried(tried) + [a.idx]
      ensures [] + [a] == [a] && Tried([a]) == [a.idx]
    {
      hide Refused;
    }

    lemma {:induction false} ThenTried(search: Search, order: nat, cls: nat, m: Mem, m1: Mem, tried: seq<Attempt>,
                                       more: seq<Attempt>,
                                       r: Result)
      requires |local.slices| == MAX_CLASSES && Logs(search, order, cls, m, tried, Err(Error.Memory)) && m1 == m
      requires Logs(search, order, cls, m1, more, r)
      ensures Logs(search, order, cls, m, tried + more, r) && Tried(tried + more) == Tried(tried) + Tried(more)
    {
      hide Refused;
      TriedMore(tried, more);
    }

    /** `steal_cb`: allocates from a tree without reserving it. */
    method StealCb(idx: nat, order: nat, cls: nat) returns (r: Result)
      requires Valid() && idx < trees.entries.Length && order <= TREE_ORDER && cls in classes && cls < MAX_CLASSES
      requires UndoUnused(lower.undo, order, false)
      modifies `trace, lower.children, lower.rows, trees.entries
      ensures Valid() && Serves(lower.frames, old(lower.Memory()), lower.Memory(), None, order, r)
      ensures Ordered(policy) && r.Ok? ==> r.cls <= cls
      ensures r.Ok? ==> TreeOf(r.frame) == idx
      ensures Ordered(policy) && order == 0 && old(trees.entries[idx]).free > 0 ==> r.Ok?
      ensures trace == old(trace) + [Attempt(idx, old(trees.entries[idx]))]
      ensures r.Err? ==> Refused(Any, order, cls, old(lower.Memory()), Attempt(idx, old(trees.entries[idx])))
      ensures var s := TreeSteal(old(trees.entries[idx]), Pow2(order), cls, policy);
              if r.Ok? then
                s.Some? && r.cls == s.value.cls && trees.entries[..] == old(trees.entries[..])[idx := s.value.tree]
              else SameCounts(old(trees.entries[..]), trees.entries[..])
    {
      hide Account, Inv, Serves, Below, RowsOk, TreeOf, UndoUnused, TreeSteal, TreeReserveOrSteal, Ordered,
        TreeFrame, Pow2;
      trace := trace + [Attempt(idx, trees.entries[idx])];
      var frames := Pow2(order);
      SmallPow(0);
      ghost var none := Nothing();
      Sizes(Below(), View(), none, offline, classes);
      AccessOrdered(trees.entries[idx], frames, cls, policy);
      TreeStart(lower.frames, idx);
      AddSub(none, trees.entries.Length, idx, frames);
      if TreeSteal(trees.entries[idx], frames, cls, policy).Some? {
        StealFromTree(Below(), View(), none, offline, classes, idx, frames, cls, policy);
      }
      var ok, target := trees.Steal(idx, frames, cls, policy);
      if !ok {
        NothingServed(lower.frames, lower.Memory(), None, order);
        return Err(Error.Memory);
      }
      r := GetLower(TreeFrame(idx), order, None, none.Add(idx, frames));
      if r.Ok? {
        SameService(lower.frames, old(lower.Memory()), lower.Memory(), None, order, r, target);
        r := Result.Ok(r.frame, target);
      } else {
        PutTree(idx, frames, none.Add(idx, frames));
        PutUndoes(old(trees.entries[idx]), frames, cls, policy, trees.defaultClass);
        CountsReturned(old(trees.entries[..]), trees.entries[..], idx);
      }
    }

    /** `reserve_or_steal_cb`: reserves a tree, or steals from it, and allocates. A new reservation
        goes into a slot of the resulting class. */
    method ReserveOrStealCb(idx: nat, order: nat, cls: nat, index: nat) returns (r: Result)
      requires Valid() && idx < trees.entries.Length && order <= TREE_ORDER && cls in classes && cls < MAX_CLASSES
      requires UndoUnused(lower.undo, order, false)
      modifies `trace, lower.children, lower.rows, trees.entries, local.slots
      ensures Valid() && Serves(lower.frames, old(lower.Memory()), lower.Memory(), None, order, r)
      ensures Ordered(policy) && r.Ok? ==> r.cls <= cls
      ensures r.Ok? ==> TreeOf(r.frame) == idx
      ensures Ordered(policy) && order == 0 && Stocked() && !old(trees.entries[idx]).reserved &&
              old(trees.entries[idx]).free > 0 ==>
                r.Ok?
      ensures trace == old(trace) + [Attempt(idx, old(trees.entries[idx]))]
      ensures r.Err? ==> Refused(Global, order, cls, old(lower.Memory()), Attempt(idx, old(trees.entries[idx])))
      ensures r.Ok? ==> Accessed(idx, order, cls, index, old(View()), View(), r.cls)
      ensures r.Err? ==>
              SameCounts(old(trees.entries[..]), trees.entries[..]) && local.slots[..] == old(local.slots[..])
    {
      hide Account, Inv, Serves, Below, RowsOk, TreeOf, UndoUnused, TreeSteal, TreeReserveOrSteal, TreeUnreserve,
        TreePut, Ordered, TreeFrame, Pow2, Refused, NoBlock, Stocked, GaveUp;
      RefusedIf(order, cls, lower.Memory(), Attempt(idx, trees.entries[idx]));
      StockedHasSlots();
      trace := trace + [Attempt(idx, trees.entries[idx])];
      var frames := Pow2(order);
      SmallPow(0);
      ghost var none, entry, u := Nothing(), trees.entries[idx], View();
      Sizes(Below(), u, none, offline, classes);
      AccessOrdered(entry, frames, cls, policy);
      AccessTakes(entry, frames, policy, cls);
      PutUndoes(entry, frames, cls, policy, trees.defaultClass);
      ClassKnown(Below(), u, none, offline, classes, idx);
      if TreeReserveOrSteal(entry, frames, policy, cls).Some? {
        AccessTree(Below(), u, none, offline, classes, idx, frames, policy, cls);
      }
      var ok, reserved, free, target := trees.ReserveOrSteal(idx, frames, policy, cls);
      if !ok {
        NothingServed(lower.frames, lower.Memory(), None, order);
        return Err(Error.Memory);
      }
      r := Allocate(idx, order, index, reserved, free, target);
      if r.Err? {
        CountsReturned(u.trees, trees.entries[..], idx);
      }
    }

    /** What `reserve_or_steal_cb` does after it changed the entry: it allocates, or gives back what it took. */
    method Allocate(idx: nat, order: nat, index: nat, reserved: bool, free: nat, target: nat) returns (r: Result)
      requires idx < trees.entries.Length && order <= TREE_ORDER && target in classes && target < MAX_CLASSES
      requires Nothing().For(trees.entries.Length) && (reserved ==> Pow2(order) <= free)
      requires Ready(if reserved then Nothing().Add(idx, free).Grab(idx) else Nothing().Add(idx, Pow2(order)))
      requires UndoUnused(lower.undo, order, false)
      modifies lower.children, lower.rows, trees.entries, local.slots
      ensures Valid() && Serves(lower.frames, old(lower.Memory()), lower.Memory(), None, order, r)
      ensures r.Ok? ==> TreeOf(r.frame) == idx && r.cls == target && HasSlot(target)
      ensures r.Ok? && reserved ==>
                var at := local.At(target, index % local.slices[target].len.value);
                && local.slots[..] == old(local.slots[..])[at := local.slots[at]] && HoldsTree(local.slots[at], idx)
                && local.slots[at].free + Pow2(order) == free && trees.entries[idx] == old(trees.entries[idx])
                && trees.entries[idx].reserved
                && GaveUp(old(trees.entries[..]), trees.entries[..], old(local.slots[at]), target)
      ensures r.Ok? && !reserved ==> View() == old(View())
      ensures r.Err? ==>
                && (!HasSlot(target) || NoBlock(lower.frames, old(lower.Memory()), idx, order))
                && local.slots[..] == old(local.slots[..])
                && trees.entries[..] == old(trees.entries[..])[idx := trees.entries[idx]]
                && Some(trees.entries[idx]) ==
                   if reserved then TreeUnreserve(old(trees.entries[idx]), free, target, policy, trees.defaultClass)
                   else Some(TreePut(old(trees.entries[idx]), Pow2(order), policy, trees.defaultClass))
      ensures order == 0 && HasSlot(target) ==> r.Ok?
    {
      hide Account, Inv, Serves, Below, RowsOk, TreeOf, UndoUnused, TreeUnreserve, TreePut, TreeFrame, Pow2, NoBlock,
        GaveUp;
      var frames := Pow2(order);
      ghost var none := Nothing();
      AddSub(none, trees.entries.Length, idx, frames);
      ReserveBack(none, trees.entries.Length, idx, free, frames);
      TreeStart(lower.frames, idx);
      ghost var carry := if reserved then none.Add(idx, free).Grab(idx) else none.Add(idx, frames);
      var len := local.ClassLocals(target);
      if len.None? || len.value == 0 {
        NothingServed(lower.frames, lower.Memory(), None, order);
        GiveUp(idx, reserved, free, frames, target, carry);
        return Err(Error.Memory);
      }
      var slot := index % len.value;
      r := GetLower(TreeFrame(idx), order, None, carry);
      if r.Ok? {
        SameService(lower.frames, old(lower.Memory()), lower.Memory(), None, order, r, target);
        if reserved {
          SwapReserved(target, slot, idx, free - frames, carry.Sub(idx, frames));
        }
        r := Result.Ok(r.frame, target);
      } else {
        GiveUp(idx, reserved, free, frames, target, carry);
      }
    }

    predicate HasSlot(cls: nat)
      requires |local.slices| == MAX_CLASSES
    {
      cls < MAX_CLASSES && local.slices[cls].len.Some? && local.slices[cls].len.value > 0
    }

    /** A tree that matches or is demoted is reserved: it keeps the resulting class, and the slot of that class
        holds it with the rest of its frames. From any other tree the frames are taken, and no slot changes. */
    ghost predicate Accessed(idx: nat, order: nat, cls: nat, index: nat, before: Upper, after: Upper, target: nat)
      requires |local.slices| == MAX_CLASSES && idx < |before.trees|
    {
      var a := TreeReserveOrSteal(before.trees[idx], Pow2(order), policy, cls);
      && a.Some? && target == a.value.cls
      && if a.value.reserved then
           HasSlot(target) &&
           var at := local.At(target, index % local.slices[target].len.value);
           && at < |before.slots| == |after.slots| && after.slots == before.slots[at := after.slots[at]]
           && HoldsTree(after.slots[at], idx) && after.slots[at].free + Pow2(order) == before.trees[idx].free
           && idx < |after.trees| && after.trees[idx] == a.value.tree && after.trees[idx].reserved
           && GaveUp(before.trees[idx := a.value.tree], after.trees, before.slots[at], target)
         else
           after == Upper(before.trees[idx := a.value.tree], before.slots)
    }

    /** Gives back what an access to a tree took. */
    method GiveUp(idx: nat, reserved: bool, free: nat, frames: nat, target: nat, ghost carry: Carry)
      requires Ready(carry) && idx < trees.entries.Length && target in classes
      requires Nothing().For(trees.entries.Length)
      requires carry == if reserved then Nothing().Add(idx, free).Grab(idx) else Nothing().Add(idx, frames)
      modifies trees.entries
      ensures Valid() && trees.entries[..] == old(trees.entries[..])[idx := trees.entries[idx]]
      ensures Some(trees.entries[idx]) ==
              if reserved then TreeUnreserve(old(trees.entries[idx]), free, target, policy, trees.defaultClass)
              else Some(TreePut(old(trees.entries[idx]), frames, policy, trees.defaultClass))
    {
      hide Account, Inv, Below;
      AddSub(Nothing(), trees.entries.Length, idx, frames);
      ReserveBack(Nothing(), trees.entries.Length, idx, free, 0);
      if reserved {
        UnreserveTree(idx, free, target, carry);
      } else {
        PutTree(idx, frames, carry);
      }
    }

    /** Every class that a tree can have has a slot. */
    ghost predicate Stocked()
      requires Layout()
      reads `classes
    {
      forall c :: c in classes && c < MAX_CLASSES ==> local.slices[c].len.Some? && local.slices[c].len.value > 0
    }

    // ---- allocating from a slot ----

    /** `ll_local_set_start`, which cannot leave the tree of the slot. */
    method SetStart(cls: nat, index: nat, frame: nat, ghost carry: Carry)
      requires Ready(carry) && cls < MAX_CLASSES && local.slices[cls].Has(index) && frame < lower.frames
      modifies local.slots
      ensures Ready(carry)
      ensures var at, slot := local.At(cls, index), old(local.slots[local.At(cls, index)]);
              local.slots[..] == old(local.slots[..])[at :=
                if HoldsTree(slot, TreeOf(frame)) then slot.(startRow := frame / 64) else slot]
    {
      hide Account, Inv, Below, ClassesOk, TreeOf, TreeOfRow;
      ghost var at := local.At(cls, index);
      RowOfFrame(frame);
      RowsFit(lower.frames);
      assert NewReserved(true, 0, frame / 64).startRow == frame / 64;
      ghost var now := ReservedSetStart(local.slots[at], frame / 64);
      if now.Some? {
        MoveStart(Below(), View(), carry, offline, classes, at, now.value);
      }
      var r := local.SetStart(cls, index, frame / 64);
    }

    /** `sync_with_global`: moves the counter of a reserved tree into the slot that holds it, if it
        is strictly larger than what the slot lacks. */
    method SyncWithGlobal(cls: nat, index: nat, needed: nat, before: LocalResult) returns (ok: bool)
      requires Valid() && cls < MAX_CLASSES && local.slices[cls].Has(index)
      requires before.present && before.startRow == local.slots[local.At(cls, index)].startRow
      requires local.slots[local.At(cls, index)].present && before.free == local.slots[local.At(cls, index)].free
      modifies trees.entries, local.slots
      ensures Valid()
      ensures !ok ==> View() == old(View())
      ensures TreeOfRow(before.startRow) < trees.entries.Length
      ensures var e := old(trees.entries[TreeOfRow(before.startRow)]);
              && (ok <==> before.free < needed < before.free + e.free)
              && (ok ==>
                    && local.slots[..] == old(local.slots[..])[local.At(cls, index) :=
                                            Reserved(true, before.free + e.free, before.startRow)]
                    && trees.entries[..] == old(trees.entries[..])[TreeOfRow(before.startRow) :=
                                              Tree(e.reserved, e.cls, 0)])
    {
      hide Account, Inv, Below, ClassesOk, TreeOf, TreeOfRow;
      DistinctHolders(Below(), View(), Nothing(), offline, classes);
      SlotTree(Below(), View(), Nothing(), offline, classes, local.At(cls, index));
      if before.free >= needed {
        return false;
      }
      ghost var none := Nothing();
      ghost var at := local.At(cls, index);
      var t := TreeOfRow(before.startRow);
      var min := needed - before.free;
      if TreeSyncSteal(trees.entries[t], min).Some? {
        SyncTree(Below(), View(), none, offline, classes, t, min);
      }
      AddSub(none, trees.entries.Length, t, trees.entries[t].free);
      var stolen;
      ok, stolen := trees.SyncSteal(t, min);
      if !ok {
        return false;
      }
      ghost var carry := none.Add(t, stolen);
      PutIntoSlot(Below(), View(), carry, offline, classes, at, t, stolen);
      ok := local.Put(cls, index, t, stolen);
      if !ok {
        assert false;
      }
    }

    /** The tree of a given block. */
    function FilterOf(frame: Option<nat>): Option<nat>
    {
      if frame.Some? then Some(TreeOf(frame.value)) else None
    }

    /** An attempt on one slot: without the frames nothing changes; else the frames are allocated and the slot
        points at the block, or the tree misses it and its entry gets them. */
    ghost predicate LocalOutcome(u: Upper, after: Upper, at: nat, frame: Option<nat>, order: nat, m: Mem, r: Result)
      requires at < |u.slots|
    {
      var t, taken := TreeOfRow(u.slots[at].startRow), ReservedDec(u.slots[at], FilterOf(frame), Pow2(order));
      if taken.None? then
        r.Err? && after == u
      else if r.Ok? then
        TreeOf(r.frame) == t && after == Upper(u.trees, u.slots[at := taken.value.(startRow := r.frame / 64)])
      else
        && Missing(m, frame, t, order) && t < |u.trees|
        && after == Upper(u.trees[t := TreePut(u.trees[t], Pow2(order), policy, trees.defaultClass)],
                          u.slots[at := taken.value])
    }

    /** `get_local`: allocates from the tree of a slot. `start` becomes that tree when it fails. */
    method GetLocal(cls: nat, index: nat, order: nat, frame: Option<nat>, sync: bool, startIn: nat)
      returns (r: Result, start: nat)
      requires Valid() && cls < MAX_CLASSES && local.slices[cls].Has(index) && order <= TREE_ORDER
      requires UndoUnused(lower.undo, order, frame.Some?) && (frame.Some? ==> Managed(lower.frames, frame.value, order))
      requires startIn < trees.entries.Length
      modifies lower.children, lower.rows, trees.entries, local.slots
      ensures Valid() && Serves(lower.frames, old(lower.Memory()), lower.Memory(), frame, order, r)
      ensures r.Ok? ==> r.cls == cls && HoldsTree(local.slots[local.At(cls, index)], TreeOf(r.frame))
      ensures start < trees.entries.Length
      ensures order == 0 && frame.None? && r.Err? ==> View() == old(View())
      ensures order == 0 && frame.None? && r.Err? && !sync ==>
                ReservedDec(local.slots[local.At(cls, index)], None, 1).None?
      ensures order == 0 && frame.None? && r.Err? && sync ==>
                var slot := old(local.slots[local.At(cls, index)]);
                slot.present ==> TreeOfRow(slot.startRow) < trees.entries.Length &&
                                 slot.free + old(trees.entries[TreeOfRow(slot.startRow)]).free <= 1
      ensures var at, n, tree := local.At(cls, index), Pow2(order), FilterOf(frame);
              var u := if sync && ReservedDec(old(local.slots[at]), tree, n).None? then Synced(old(View()), at, n)
                       else old(View());
              LocalOutcome(u, View(), at, frame, order, old(lower.Memory()), r)
      decreases sync
    {
      hide Account, Inv, Below, ClassesOk, TreeOf, TreeOfRow, Serves, UndoUnused, Managed, Missing, TreePut, Pow2,
        Aligned;
      var frames := Pow2(order);
      SmallPow(0);
      start := startIn;
      ghost var none := Nothing();
      ghost var at := local.At(cls, index);
      ghost var slot := local.slots[at];
      var tree := FilterOf(frame);
      if slot.present {
        SlotTree(Below(), View(), none, offline, classes, at);
        StartTree(slot.startRow);
      }
      if ReservedDec(slot, tree, frames).Some? {
        TakeFromSlot(Below(), View(), none, offline, classes, at, tree, frames);
      }
      var before := local.Get(cls, index, tree, frames);
      if before.success {
        r := FromSlot(cls, index, order, frame, before.startRow);
        return r, if r.Ok? then start else TreeOfRow(before.startRow);
      }
      NothingServed(lower.frames, lower.Memory(), frame, order);
      if sync && before.present {
        var synced := SyncWithGlobal(cls, index, frames, before);
        if synced {
          r, start := GetLocal(cls, index, order, frame, false, start);
          return r, start;
        }
      }
      if before.present {
        start := TreeOfRow(before.startRow);
      }
      return Err(Error.Memory), start;
    }

    /** What `get_local` does with frames that it took from a slot. */
    method FromSlot(cls: nat, index: nat, order: nat, frame: Option<nat>, startRow: nat) returns (r: Result)
      requires cls < MAX_CLASSES && |local.slices| == MAX_CLASSES && local.slices[cls].Has(index) && order <= TREE_ORDER
      requires UndoUnused(lower.undo, order, frame.Some?) && (frame.Some? ==> Managed(lower.frames, frame.value, order))
      requires TreeOfRow(startRow) < trees.entries.Length && Nothing().For(trees.entries.Length)
      requires Ready(Nothing().Add(TreeOfRow(startRow), Pow2(order)))
      requires HoldsTree(local.slots[local.At(cls, index)], TreeOfRow(startRow)) && 64 * startRow < lower.frames
      requires local.slots[local.At(cls, index)].startRow == startRow
      requires frame.Some? ==> TreeOf(frame.value) == TreeOfRow(startRow)
      modifies lower.children, lower.rows, trees.entries, local.slots
      ensures Valid() && Serves(lower.frames, old(lower.Memory()), lower.Memory(), frame, order, r)
      ensures order == 0 && frame.None? ==> r.Ok?
      ensures r.Ok? ==>
              r.cls == cls && TreeOf(r.frame) == TreeOfRow(startRow) && trees.entries[..] == old(trees.entries[..])
                        && HoldsTree(local.slots[local.At(cls, index)], TreeOf(r.frame))
                        && local.slots[..] == old(local.slots[..])[local.At(cls, index) :=
                             old(local.slots[local.At(cls, index)]).(startRow := r.frame / 64)]
      ensures r.Err? ==> Missing(old(lower.Memory()), frame, TreeOfRow(startRow), order)
                         && local.slots[..] == old(local.slots[..])
                         && trees.entries[..] == old(trees.entries[..])[TreeOfRow(startRow) :=
                              TreePut(old(trees.entries[TreeOfRow(startRow)]), Pow2(order), policy, trees.defaultClass)]
    {
      hide Account, Inv, Below, ClassesOk, TreeOf, TreeOfRow, Serves, UndoUnused, Managed, Missing, TreePut, Pow2;
      ghost var none := Nothing();
      var t, frames := TreeOfRow(startRow), Pow2(order);
      StartTree(startRow);
      AddSub(none, trees.entries.Length, t, frames);
      r := GetLower(64 * startRow, order, frame, none.Add(t, frames));
      if r.Ok? {
        RowOfFrame(r.frame);
        TookBelowFrames(lower.frames, old(lower.Memory()), lower.Memory(), frame, order, r);
        SameService(lower.frames, old(lower.Memory()), lower.Memory(), frame, order, r, cls);
        if startRow != r.frame / 64 {
          SetStart(cls, index, r.frame, none);
        }
        r := Result.Ok(r.frame, cls);
      } else {
        PutTree(t, frames, none.Add(t, frames));
      }
    }

    // ---- searching for a tree ----

    /** The callback of a search. */
    method Try(search: Search, idx: nat, order: nat, cls: nat, index: nat) returns (r: Result)
      requires Valid() && idx < trees.entries.Length && order <= TREE_ORDER && cls in classes && cls < MAX_CLASSES
      requires UndoUnused(lower.undo, order, false)
      modifies `trace, lower.children, lower.rows, trees.entries, local.slots
      ensures Valid() && Serves(lower.frames, old(lower.Memory()), lower.Memory(), None, order, r)
      ensures Ordered(policy) && r.Ok? ==> r.cls <= cls
      ensures r.Ok? ==> TreeOf(r.frame) == idx
      ensures Sure(order) && !old(trees.entries[idx]).reserved && old(trees.entries[idx]).free > 0 ==> r.Ok?
      ensures trace == old(trace) + [Attempt(idx, old(trees.entries[idx]))]
      ensures r.Err? ==> Refused(search, order, cls, old(lower.Memory()), Attempt(idx, old(trees.entries[idx])))
      ensures Placed(r) && (!search.Any? ==> Held(r, cls))
      ensures r.Err? ==> Steady(old(View()), View(), [], [Attempt(idx, old(trees.entries[idx]))], classes)
    {
      SteadyAttempt(idx);
      hide Account, Inv, Below, ClassesOk, Took, UndoUnused, Ordered, RowsOk, Steady, Accessed, Placed, Held;
      if search.Any? {
        r := StealCb(idx, order, cls);
        StolenIsPlaced(old(trees.entries[..]), idx, order, cls, r);
      } else {
        r := ReserveOrStealCb(idx, order, cls, index);
        AccessIsPlaced(old(View()), idx, order, cls, index, r);
        AccessIsHeld(old(View()), idx, order, cls, index, r);
      }
      if r.Err? {
        SteadyTry(old(View()), View(), classes, Attempt(idx, old(trees.entries[idx])));
      }
    }

    /** Under an ordered policy the tree that served is reserved, or its class is not above the reported one. */
    ghost predicate Placed(r: Result)
      reads trees.entries
    {
      r.Ok? && Ordered(policy) ==>
        var t := TreeOf(r.frame);
        t < trees.entries.Length && (trees.entries[t].reserved || trees.entries[t].cls <= r.cls)
    }

    /** Under an ordered policy, frames of the requested class come from a tree that a slot of that class holds. */
    ghost predicate Held(r: Result, cls: nat)
      reads local.slots
    {
      Ordered(policy) && r.Ok? && r.cls == cls ==>
        exists i :: 0 <= i < local.slots.Length && local.InClass(i, cls) && HoldsTree(local.slots[i], TreeOf(r.frame))
    }

    lemma SlotIsHeld(r: Result, cls: nat, index: nat)
      requires cls < |local.slices| && local.slices[cls].Has(index) && local.At(cls, index) < local.slots.Length
      requires r.Ok? ==> HoldsTree(local.slots[local.At(cls, index)], TreeOf(r.frame))
      ensures Held(r, cls)
    {
      hide TreeOf, TreeOfRow, Ordered;
      assert local.InClass(local.At(cls, index), cls);
    }

    lemma HeldIn(r: Result, i: nat, cls: nat, requested: nat)
      requires i < local.slots.Length && local.InClass(i, cls)
      requires r.Ok? ==> r.cls == cls && HoldsTree(local.slots[i], TreeOf(r.frame))
      ensures Held(r, requested)
    {
      hide TreeOf, TreeOfRow, Ordered;
    }

    lemma AccessIsHeld(before: Upper, idx: nat, order: nat, cls: nat, index: nat, r: Result)
      requires local.Shape() && idx < |before.trees| && cls < MAX_CLASSES && |before.slots| == local.slots.Length
      requires r.Ok? ==> TreeOf(r.frame) == idx && Accessed(idx, order, cls, index, before, View(), r.cls)
      ensures Held(r, cls)
    {
      hide TreeReserveOrSteal, Pow2, Ordered, GaveUp, TreeOfRow;
      if Ordered(policy) && r.Ok? && r.cls == cls {
        ClassesAfter(before.trees[idx], Pow2(order), cls, policy, 0);
        SlotIsHeld(r, cls, index % local.slices[cls].len.value);
      }
    }

    lemma StolenIsPlaced(before: seq<Tree>, idx: nat, order: nat, cls: nat, r: Result)
      requires idx < |before| && cls < MAX_CLASSES && trees.entries.Length == |before|
      requires var s := TreeSteal(before[idx], Pow2(order), cls, policy);
               r.Ok? ==> TreeOf(r.frame) == idx && s.Some? && r.cls == s.value.cls
                         && trees.entries[..] == before[idx := s.value.tree]
      ensures Placed(r)
    {
      hide TreeSteal, Pow2, Ordered;
      if Ordered(policy) {
        ClassesAfter(before[idx], Pow2(order), cls, policy, 0);
      }
    }

    lemma AccessIsPlaced(before: Upper, idx: nat, order: nat, cls: nat, index: nat, r: Result)
      requires |local.slices| == MAX_CLASSES && idx < |before.trees| && cls < MAX_CLASSES
      requires r.Ok? ==> TreeOf(r.frame) == idx && Accessed(idx, order, cls, index, before, View(), r.cls)
      ensures Placed(r)
    {
      hide TreeReserveOrSteal, Pow2, Ordered, GaveUp, TreeOfRow;
      if Ordered(policy) {
        ClassesAfter(before.trees[idx], Pow2(order), cls, policy, 0);
      }
    }

    /** The entry before a call of a callback has a class that trees can have. */
    lemma SteadyAttempt(idx: nat)
      requires Valid() && idx < trees.entries.Length
      ensures trees.entries[idx].cls in classes
    {
      hide Inv, BelowOf, TreeCount;
      ClassKnown(Below(), View(), Nothing(), offline, classes, idx);
    }

    /** Single frames cannot be refused: the policy is ordered and every class has a slot. */
    ghost predicate Sure(order: nat)
      requires Layout()
      reads `classes
    {
      Ordered(policy) && order == 0 && Stocked()
    }

    /** The second part of `trees_search_best`: the kept candidates in their order. */
    method TryBest(search: Search, best: array<Candidate>, ghost start: nat, ghost offset: nat, order: nat, cls: nat,
                   index: nat,
                   ghost log: seq<Visited>)
      returns (r: Result, ghost tried: seq<Attempt>)
      requires Valid() && order <= TREE_ORDER && cls in classes && cls < MAX_CLASSES
      requires UndoUnused(lower.undo, order, false) && trees.entries.Length > 0
      requires best as object != lower.children && best as object != lower.rows
      requires best as object != trees.entries && best as object != local.slots
      requires best.Length == SEARCH_BEST && TreeArray.Holds(best[..], Candidates(log))
      requires Logged(log, policy, search, start, offset, order, cls, trees.entries.Length)
      requires Sure(order) ==> Unchanged(log, trees.entries[..])
      modifies `trace, lower.children, lower.rows, trees.entries, local.slots
      ensures Valid() && Serves(lower.frames, old(lower.Memory()), lower.Memory(), None, order, r)
      ensures Ordered(policy) && r.Ok? ==> r.cls <= cls
      ensures Logs(search, order, cls, old(lower.Memory()), tried, r)
      ensures trace == old(trace) + tried
      ensures r.Err? ==> Tried(tried) == Indices(Top(Ranking(Candidates(log))))
      ensures Placed(r) && (!search.Any? ==> Held(r, cls))
      ensures r.Err? ==> Steady(old(View()), View(), [], tried, classes)
      ensures Sure(order) && r.Err? ==> View() == old(View()) && tried == []
    {
      hide Valid, Sure, Ordered, Took, UndoUnused, TreeOf, Logged, Unchanged, Candidates, Ranking, PerfectOnes, Top,
        Visit, Rate, TreeArray.Holds, NoneUnreserved, Layout, Logs, Tried, Steady, Placed, Held, Pow2, Inv, Free;
      ValidLayout();
      ghost var sure, u := Sure(order), View();
      NothingServed(lower.frames, lower.Memory(), None, order);
      ghost var top := Top(Ranking(Candidates(log)));
      ghost var m := lower.Memory();
      ghost var cands := best[..];
      tried := [];
      r := Err(Error.Memory);
      NoneTried(search, order, cls, m);
      KeptKnown(log);
      SteadyStart(View(), classes);
      for k := 0 to SEARCH_BEST
        invariant k <= |top| && best[..] == cands
        invariant Valid() && Serves(lower.frames, m, lower.Memory(), None, order, r)
        invariant r == Err(Error.Memory) && Tried(tried) == Indices(top[..k])
        invariant trace == old(trace) + tried && Logs(search, order, cls, m, tried, r)
        invariant Steady(u, View(), [], tried, classes)
        invariant sure == Sure(order) && (sure ==> View() == u && tried == [])
      {
        HeldAt(best[..], Candidates(log), k);
        if best[k].prio == 0 {
          break;
        }
        KeptFree(log, policy, search, start, offset, order, cls, trees.entries[..], top[k]);
        ghost var mid := View();
        ghost var before, a := lower.Memory(), Attempt(best[k].idx, trees.entries[best[k].idx]);
        r := Try(search, best[k].idx, order, cls, index);
        ThenServed(lower.frames, m, before, lower.Memory(), order, r);
        OneTried(search, order, cls, m, tried, r, a);
        if r.Err? {
          SteadyThen(u, mid, View(), [], tried, [a], classes);
        }
        tried := tried + [a];
        IndicesMore(top, k);
        if r.Ok? {
          return;
        }
      }
      assert top[..|top|] == top;
      NothingPlaced();
    }

    /** Loads and rates the tree of one round. */
    method LoadTree(search: Search, start: nat, i: nat, order: nat, cls: nat, ghost offset: nat,
                    ghost log: seq<Visited>)
      returns (v: Visited)
      requires trees.entries.Length > 0 && i == offset + |log|
      requires Logged(log, policy, search, start, offset, order, cls, trees.entries.Length)
      ensures Logged(log + [v], policy, search, start, offset, order, cls, trees.entries.Length)
      ensures Unchanged(log, trees.entries[..]) ==> Unchanged(log + [v], trees.entries[..])
      ensures PerfectOnes(log + [v]) == if v.Perfect() then PerfectOnes(log) + [v.idx] else PerfectOnes(log)
      ensures v.Perfect() || v.rating.kind == Invalid ==> Candidates(log + [v]) == Candidates(log)
      ensures v.idx < trees.entries.Length && v.tree == trees.entries[v.idx]
      ensures v.Perfect() ==> !trees.entries[v.idx].reserved && trees.entries[v.idx].free > 0
    {
      var idx := Visit(start, trees.entries.Length, i);
      var tree := trees.entries[idx];
      if tree.reserved {
        v := Visited(idx, tree, INVALID);
      } else {
        v := Visited(idx, tree, Rate(search, policy, Pow2(order), cls, tree.cls, tree.free));
      }
      AfterVisit(log, policy, search, start, offset, order, cls, trees.entries.Length, v, trees.entries[..]);
    }

    /** A tree that was loaded is tried at once, kept as a candidate, or skipped. */
    method Consider(search: Search, best: array<Candidate>, v: Visited, order: nat, cls: nat, index: nat,
                    ghost log: seq<Visited>)
      returns (r: Result, ghost tried: seq<Attempt>)
      requires Valid() && order <= TREE_ORDER && cls in classes && cls < MAX_CLASSES && v.idx < trees.entries.Length
      requires UndoUnused(lower.undo, order, false)
      requires best as object != lower.children && best as object != lower.rows
      requires best as object != trees.entries && best as object != local.slots
      requires best.Length == SEARCH_BEST && TreeArray.Holds(best[..], Candidates(log))
      requires v.Perfect() || v.rating.kind == Invalid ==> Candidates(log + [v]) == Candidates(log)
      requires v.Perfect() ==> !trees.entries[v.idx].reserved && trees.entries[v.idx].free > 0
      modifies `trace, lower.children, lower.rows, trees.entries, local.slots, best
      ensures Valid() && Serves(lower.frames, old(lower.Memory()), lower.Memory(), None, order, r)
      ensures Ordered(policy) && r.Ok? ==> r.cls <= cls
      ensures TreeArray.Holds(best[..], Candidates(log + [v]))
      ensures Logs(search, order, cls, old(lower.Memory()), tried, r) && trace == old(trace) + tried
      ensures Tried(tried) == if v.Perfect() then [v.idx] else []
      ensures Placed(r) && (!search.Any? ==> Held(r, cls))
      ensures r.Err? ==> Steady(old(View()), View(), [], tried, classes)
      ensures Sure(order) && r.Err? ==> !v.Perfect() && View() == old(View())
    {
      hide *;
      ValidLayout();
      NothingServed(lower.frames, lower.Memory(), None, order);
      r, tried := Err(Error.Memory), [];
      NoneTried(search, order, cls, lower.Memory());
      SteadyStart(View(), classes);
      NothingPlaced();
      if v.Perfect() {
        ghost var m, a := lower.Memory(), Attempt(v.idx, trees.entries[v.idx]);
        r := Try(search, v.idx, order, cls, index);
        OneTried(search, order, cls, m, [], r, a);
        tried := [a];
      } else if v.rating.kind != Invalid {
        KeepBest(best, v, log);
      }
    }

    /** `trees_search_best`. `log` lists the trees in the order of the visits as they were loaded, and
        `tried` the trees on which the callback was called. */
    method SearchBest(search: Search, start: nat, offset: nat, len: nat, order: nat, cls: nat, index: nat)
      returns (r: Result, ghost log: seq<Visited>, ghost tried: seq<Attempt>)
      requires Valid() && order <= TREE_ORDER && cls in classes && cls < MAX_CLASSES
      requires UndoUnused(lower.undo, order, false) && trees.entries.Length > 0
      modifies `trace, lower.children, lower.rows, trees.entries, local.slots
      ensures Valid() && Serves(lower.frames, old(lower.Memory()), lower.Memory(), None, order, r)
      ensures Ordered(policy) && r.Ok? ==> r.cls <= cls
      ensures Logged(log, policy, search, start, offset, order, cls, trees.entries.Length)
      ensures r.Err? ==> |log| == (if len > offset then len - offset else 0)
                         && Tried(tried) == PerfectOnes(log) + Indices(Top(Ranking(Candidates(log))))
      ensures Logs(search, order, cls, old(lower.Memory()), tried, r) && trace == old(trace) + tried
      ensures Placed(r) && (!search.Any? ==> Held(r, cls))
      ensures r.Err? ==> Steady(old(View()), View(), log, tried, classes)
      ensures Sure(order) && r.Err? ==> View() == old(View()) && tried == [] && Unchanged(log, trees.entries[..])
    {
      hide *;
      var best := new Candidate[SEARCH_BEST](i => Candidate(0, 0));
      NothingSeen(best[..]);
      r, log, tried := SearchWith(search, best, start, offset, len, order, cls, index);
    }

    /** The first part of `trees_search_best`: visits the trees, and stops when one of them serves. */
    method VisitTrees(search: Search, best: array<Candidate>, start: nat, offset: nat, len: nat, order: nat, cls: nat,
                      index: nat)
      returns (r: Result, ghost log: seq<Visited>, ghost tried: seq<Attempt>)
      requires Valid() && order <= TREE_ORDER && cls in classes && cls < MAX_CLASSES
      requires UndoUnused(lower.undo, order, false) && trees.entries.Length > 0
      requires best as object != lower.children && best as object != lower.rows
      requires best as object != trees.entries && best as object != local.slots
      requires best.Length == SEARCH_BEST && TreeArray.Holds(best[..], Candidates([]))
      modifies `trace, lower.children, lower.rows, trees.entries, local.slots, best
      ensures Valid() && Serves(lower.frames, old(lower.Memory()), lower.Memory(), None, order, r)
      ensures Ordered(policy) && r.Ok? ==> r.cls <= cls
      ensures Logged(log, policy, search, start, offset, order, cls, trees.entries.Length)
      ensures Logs(search, order, cls, old(lower.Memory()), tried, r) && trace == old(trace) + tried
      ensures Tried(tried) == PerfectOnes(log)
      ensures r.Err? ==>
              |log| == (if len > offset then len - offset else 0) && TreeArray.Holds(best[..], Candidates(log))
      ensures Placed(r) && (!search.Any? ==> Held(r, cls))
      ensures r.Err? ==> Steady(old(View()), View(), log, tried, classes)
      ensures Sure(order) && r.Err? ==>
              View() == old(View()) && PerfectOnes(log) == [] && Unchanged(log, trees.entries[..])
    {
      hide Valid, Sure, Ordered, Took, UndoUnused, TreeOf, Logged, Unchanged, Candidates, Ranking, PerfectOnes, Top,
        Visit, Rate, TreeArray.Holds, NoneUnreserved, Layout, Logs, Tried, Steady, Placed, Held, Pow2, Inv, Free;
      ValidLayout();
      ghost var sure, n, u, m := Sure(order), trees.entries.Length, View(), lower.Memory();
      NothingServed(lower.frames, m, None, order);
      log, tried := [], [];
      r := Err(Error.Memory);
      NoneTried(search, order, cls, m);
      SteadyStart(u, classes);
      NothingLogged(policy, search, start, offset, order, cls, n, trees.entries[..]);
      var i := offset;
      while i < len
        invariant offset <= i && (i <= len || i == offset) && |log| == i - offset && r == Err(Error.Memory)
        invariant Valid() && Serves(lower.frames, m, lower.Memory(), None, order, r)
        invariant trace == old(trace) + tried && Logs(search, order, cls, m, tried, r) &&
                  Tried(tried) == PerfectOnes(log)
        invariant Steady(u, View(), log, tried, classes)
        invariant TreeArray.Holds(best[..], Candidates(log))
        invariant Logged(log, policy, search, start, offset, order, cls, n)
        invariant sure == Sure(order) && (sure ==>
                                          View() == u && PerfectOnes(log) == [] && Unchanged(log, trees.entries[..]))
      {
        ghost var before, mid := lower.Memory(), View();
        var v := LoadTree(search, start, i, order, cls, offset, log);
        SteadyVisit(u, mid, log, tried, classes, v);
        ghost var more;
        r, more := Consider(search, best, v, order, cls, index, log);
        ThenServed(lower.frames, m, before, lower.Memory(), order, r);
        ThenTried(search, order, cls, m, before, tried, more, r);
        if r.Err? {
          SteadyThen(u, mid, View(), log + [v], tried, more, classes);
        }
        tried := tried + more;
        log := log + [v];
        i := i + 1;
        if r.Ok? {
          return;
        }
      }
      NothingPlaced();
    }

    /** The search with its array of candidates. */
    method SearchWith(search: Search, best: array<Candidate>, start: nat, offset: nat, len: nat, order: nat, cls: nat,
                      index: nat)
      returns (r: Result, ghost log: seq<Visited>, ghost tried: seq<Attempt>)
      requires Valid() && order <= TREE_ORDER && cls in classes && cls < MAX_CLASSES
      requires UndoUnused(lower.undo, order, false) && trees.entries.Length > 0
      requires best as object != lower.children && best as object != lower.rows
      requires best as object != trees.entries && best as object != local.slots
      requires best.Length == SEARCH_BEST && TreeArray.Holds(best[..], Candidates([]))
      modifies `trace, lower.children, lower.rows, trees.entries, local.slots, best
      ensures Valid() && Serves(lower.frames, old(lower.Memory()), lower.Memory(), None, order, r)
      ensures Ordered(policy) && r.Ok? ==> r.cls <= cls
      ensures Logged(log, policy, search, start, offset, order, cls, trees.entries.Length)
      ensures r.Err? ==> |log| == (if len > offset then len - offset else 0)
                         && Tried(tried) == PerfectOnes(log) + Indices(Top(Ranking(Candidates(log))))
      ensures Logs(search, order, cls, old(lower.Memory()), tried, r) && trace == old(trace) + tried
      ensures Placed(r) && (!search.Any? ==> Held(r, cls))
      ensures r.Err? ==> Steady(old(View()), View(), log, tried, classes)
      ensures Sure(order) && r.Err? ==> View() == old(View()) && tried == [] && Unchanged(log, trees.entries[..])
    {
      hide Valid, Sure, Ordered, Took, UndoUnused, TreeOf, Logged, Unchanged, Candidates, Ranking, PerfectOnes, Top,
        Visit, Rate, TreeArray.Holds, NoneUnreserved, Layout, Logs, Tried, Steady, Placed, Held, Pow2, Inv, Free;
      ValidLayout();
      ghost var m := lower.Memory();
      r, log, tried := VisitTrees(search, best, start, offset, len, order, cls, index);
      if r.Ok? {
        return;
      }
      ghost var before, mid := lower.Memory(), View();
      ghost var rest;
      r, rest := TryBest(search, best, start, offset, order, cls, index, log);
      ThenServed(lower.frames, m, before, lower.Memory(), order, r);
      ThenTried(search, order, cls, m, before, tried, rest, r);
      if r.Err? {
        SteadyThen(old(View()), mid, View(), log, tried, rest, classes);
      }
      tried := tried + rest;
    }

    /** A search over all trees that failed: every perfect match was tried in the order of the visits, then the
        first eight other candidates, and each of them was refused. Counters did not change meanwhile. */
    ghost predicate SearchedAll(search: Search, start: nat, order: nat, cls: nat, m: Mem, log: seq<Visited>,
                                tried: seq<Attempt>, before: Upper, after: Upper)
      requires |local.slices| == MAX_CLASSES
      reads `classes
    {
      && !search.Near? && start < |before.trees| == |log|
      && Logged(log, policy, search, start, 0, order, cls, |before.trees|) && Tried(tried) == ToTry(log)
      && Logs(search, order, cls, m, tried, Err(Error.Memory)) && Steady(before, after, log, tried, classes)
    }

    lemma SearchedIs(search: Search, start: nat, order: nat, cls: nat, m: Mem, log: seq<Visited>,
                     tried: seq<Attempt>, before: Upper, after: Upper)
      requires |local.slices| == MAX_CLASSES && !search.Near? && start < |before.trees| == |log|
      requires Logged(log, policy, search, start, 0, order, cls, |before.trees|)
      requires Tried(tried) == PerfectOnes(log) + Indices(Top(Ranking(Candidates(log))))
      requires Logs(search, order, cls, m, tried, Err(Error.Memory)) && Steady(before, after, log, tried, classes)
      ensures SearchedAll(search, start, order, cls, m, log, tried, before, after)
      ensures SameCounts(before.trees, after.trees) && after.slots == before.slots
    {
      hide Logged, Tried, Logs;
    }

    /** After a search with at most eight candidates failed, no tree with enough frames that is not reserved has a
        free block. */
    lemma SearchedNone(search: Search, start: nat, order: nat, cls: nat, m: Mem, log: seq<Visited>,
                       tried: seq<Attempt>, before: Upper, after: Upper)
      requires |local.slices| == MAX_CLASSES && SearchedAll(search, start, order, cls, m, log, tried, before, after)
      requires Ordered(policy) && (search.Any? || AllHaveSlots()) && cls in classes && cls < MAX_CLASSES
      requires |Candidates(log)| <= SEARCH_BEST && forall c :: c in classes ==> c < MAX_CLASSES
      ensures forall t ::
                0 <= t < |before.trees| && !before.trees[t].reserved && Pow2(order) <= before.trees[t].free ==>
                NoBlock(lower.frames, m, t, order)
    {
      hide Logged, ToTry, Tried, Candidates, Ordered, NoBlock, Pow2, TreeSteal, TreeReserveOrSteal, SameCounts;
      forall t | 0 <= t < |before.trees| && !before.trees[t].reserved && Pow2(order) <= before.trees[t].free
        ensures NoBlock(lower.frames, m, t, order)
      {
        TriesAll(log, policy, search, start, order, cls, before, after, tried, classes, t);
        ghost var k := TriedAt(tried, t);
        assert SameCount(before.trees, tried[k].idx, tried[k].tree) && Refused(search, order, cls, m, tried[k]);
        AccessOrdered(tried[k].tree, Pow2(order), cls, policy);
      }
    }

    lemma SearchedSame(search: Search, start: nat, order: nat, cls: nat, m: Mem, log: seq<Visited>,
                       tried: seq<Attempt>, before: Upper, after: Upper)
      requires |local.slices| == MAX_CLASSES && SearchedAll(search, start, order, cls, m, log, tried, before, after)
      ensures SameCounts(before.trees, after.trees) && after.slots == before.slots
    {
      hide Logged, ToTry, Tried, Logs;
    }

    lemma SameHoldersItself(slots: seq<Reserved>)
      ensures SameHolders(slots, slots)
    {}

    /** A slot that served holds the tree, which is reserved. */
    lemma SlotPlaced(r: Result, cls: nat, index: nat)
      requires Valid() && cls < MAX_CLASSES && local.slices[cls].Has(index) && r.Ok?
      requires HoldsTree(local.slots[local.At(cls, index)], TreeOf(r.frame))
      ensures Placed(r)
    {
      hide TreeOf, TreeOfRow, Inv, BelowOf, Ordered;
      Holders();
    }

    ghost predicate AllHaveSlots()
      requires |local.slices| == MAX_CLASSES
      reads `classes
    {
      forall c :: c in classes ==> HasSlot(c)
    }

    lemma {:induction false} TriedAt(tried: seq<Attempt>, t: nat) returns (k: nat)
      requires t in Tried(tried)
      ensures k < |tried| && tried[k].idx == t
    {
      k :| 0 <= k < |tried| && Tried(tried)[k] == t;
    }

    /** How many trees near the start are searched first. */
    function NearWindow(len: nat): nat
    {
      if len / 16 > 4 then len / 16 else 4
    }

    /** `search_and_reserve`: below the order of a whole child, near the start first; then over all trees. Both
        searches begin at the start rounded down to twice the window. */
    method SearchAndReserve(cls: nat, index: nat, order: nat, start: nat)
      returns (r: Result, ghost near: seq<Visited>, ghost nearTried: seq<Attempt>, ghost log: seq<Visited>,
               ghost tried: seq<Attempt>)
      requires Valid() && order <= TREE_ORDER && cls in classes && cls < MAX_CLASSES && start < trees.entries.Length
      requires UndoUnused(lower.undo, order, false)
      modifies `trace, lower.children, lower.rows, trees.entries, local.slots
      ensures Valid() && Serves(lower.frames, old(lower.Memory()), lower.Memory(), None, order, r)
      ensures Ordered(policy) && r.Ok? ==> r.cls <= cls
      ensures Sure(order) && r.Err? ==> View() == old(View()) && NoneUnreserved(View())
      ensures Placed(r) && Held(r, cls)
      ensures var n := trees.entries.Length;
              var from := AlignDown(start, NextPow2(2 * NearWindow(n)));
              && from < n
              && (if order < HUGE_ORDER then Logged(near, policy, Near, from, 1, order, cls, n)
                                             && (r.Err? ==> |near| == NearWindow(n) - 1)
                                             && (r.Err? ==> Tried(nearTried) == ToTry(near))
                  else near == [] && nearTried == [])
              && trace == old(trace) + nearTried + tried
              && (r.Err? ==>
                  SearchedAll(Global, from, order, cls, old(lower.Memory()), log, tried, old(View()), View()))
    {
      hide Valid, Sure, Ordered, Took, UndoUnused, TreeOf, Logged, Unchanged, Candidates, Ranking, PerfectOnes, Top,
        Visit, Rate, TreeArray.Holds, Layout, Logs, Tried, Steady, Placed, Held, Pow2, Inv, Free, SearchedAll;
      ValidLayout();
      ghost var n, sure, u, m := trees.entries.Length, Sure(order), View(), lower.Memory();
      SureIsOrdered(order);
      var window := if trees.entries.Length / 16 > 4 then trees.entries.Length / 16 else 4;
      var from := AlignDown(start, NextPow2(2 * window));
      AlignedBelow(start, NextPow2(2 * window));
      near, nearTried, log, tried := [], [], [], [];
      SteadyStart(u, classes);
      if order < HUGE_ORDER {
        r, near, nearTried := SearchBest(Near, from, 1, window, order, cls, index);
        if r.Ok? {
          return;
        }
        ErrKeeps(lower.frames, m, lower.Memory(), None, order, r);
      }
      ghost var mid := View();
      SteadyIs(u, mid, near, nearTried, classes);
      r, log, tried := SearchBest(Global, from, 0, trees.entries.Length, order, cls, index);
      if r.Err? {
        SteadySince(u, mid, View(), log, tried, classes);
        SearchedIs(Global, from, order, cls, m, log, tried, u, View());
      }
      if sure && r.Err? {
        AllVisited(log, policy, Global, from, order, cls, trees.entries[..], Tried(tried));
      }
    }

    /** The search over all trees for a request without a slot. */
    method SearchAny(cls: nat, order: nat, start: nat)
      returns (r: Result, ghost log: seq<Visited>, ghost tried: seq<Attempt>)
      requires Valid() && order <= TREE_ORDER && cls in classes && cls < MAX_CLASSES && start < trees.entries.Length
      requires UndoUnused(lower.undo, order, false)
      modifies `trace, lower.children, lower.rows, trees.entries, local.slots
      ensures Valid() && Serves(lower.frames, old(lower.Memory()), lower.Memory(), None, order, r)
      ensures Ordered(policy) && r.Ok? ==> r.cls <= cls
      ensures Sure(order) && r.Err? ==> View() == old(View()) && NoneUnreserved(View())
      ensures Placed(r) && trace == old(trace) + tried
      ensures r.Err? ==> SearchedAll(Any, start, order, cls, old(lower.Memory()), log, tried, old(View()), View())
    {
      hide Valid, Sure, Ordered, Took, UndoUnused, TreeOf, Logged, Unchanged, Candidates, Ranking, PerfectOnes, Top,
        Visit, Rate, TreeArray.Holds, Layout, Logs, Tried, Steady, Placed, Held, Pow2, Inv, Free, SearchedAll;
      ValidLayout();
      SureIsOrdered(order);
      ghost var sure := Sure(order);
      r, log, tried := SearchBest(Any, start, 0, trees.entries.Length, order, cls, 0);
      if r.Err? {
        SearchedIs(Any, start, order, cls, old(lower.Memory()), log, tried, old(View()), View());
      }
      if sure && r.Err? {
        AllVisited(log, policy, Any, start, order, cls, trees.entries[..], Tried(tried));
      }
    }

    lemma NothingPlaced()
      ensures forall r: Result :: r.Err? ==> Placed(r)
      ensures forall r: Result, cls: nat :: r.Err? ==> Held(r, cls)
    {}

    lemma SureIsOrdered(order: nat)
      requires Layout()
      ensures Sure(order) ==> Ordered(policy) && order == 0
    {}

    /** What the other methods need of the invariant without looking into it. */
    lemma ValidLayout()
      requires Valid()
      ensures Layout() && ClassesOk() && Inv(lower.frames, lower.Memory())
      ensures local.Shape() && |local.slices| == MAX_CLASSES && trees.entries.Length > 0
    {
      TreeBelow(lower.frames, 0);
    }

    // ---- other slots ----

    /** `ll_local_steal`: takes frames from a slot that the policy allows. */
    method StealFromSlots(cls: nat, index: nat, tree: Option<nat>, frames: nat)
        returns (res: LocalResult, ghost at: nat)
      requires Valid() && cls < MAX_CLASSES
      modifies local.slots
      ensures res.success ==>
                var t := TreeOfRow(res.startRow);
                && t < trees.entries.Length && TreeOf(64 * res.startRow) == t && 64 * res.startRow < lower.frames
                && (tree.Some? ==> t == tree.value)
                && Nothing().Add(t, frames).For(trees.entries.Length) && frames <= Nothing().Add(t, frames).frames[t]
                && Nothing().Add(t, frames).Sub(t, frames) == Nothing() && Ready(Nothing().Add(t, frames))
                && (Ordered(policy) ==> res.cls <= cls)
      ensures res.success ==>
                && at < local.slots.Length && local.InClass(at, res.cls) &&
                   ReservedDec(old(local.slots[at]), tree, frames).Some?
                && res.startRow == old(local.slots[at]).startRow && old(trees.entries[..]) == trees.entries[..]
                && trees.entries[TreeOfRow(res.startRow)].reserved
                && local.slots[..] ==
                   old(local.slots[..])[at := ReservedDec(old(local.slots[at]), tree, frames).value]
      ensures !res.success ==>
              Valid() && View() == old(View()) && NoneStolen(local.slices, local.slots[..], cls, tree, frames, policy)
    {
      hide Account, Inv, Below, ClassesOk, TreeOf, TreeOfRow, NoneStolen;
      Holders();
      ghost var u := View();
      res, at := local.Steal(cls, index, tree, frames, policy);
      if res.success {
        StolenSlot(Below(), u, Nothing(), offline, classes, at, tree, frames);
      }
    }

    /** The slot at `at` had the frames: they are allocated, or its tree misses the block and its entry gets them. */
    ghost predicate SlotServed(before: Upper, after: Upper, at: nat, frame: Option<nat>, order: nat, m: Mem, r: Result)
    {
      && at < |before.slots| && ReservedDec(before.slots[at], FilterOf(frame), Pow2(order)).Some?
      && var t, taken := TreeOfRow(before.slots[at].startRow),
         ReservedDec(before.slots[at], FilterOf(frame), Pow2(order)).value;
         && t < |before.trees| && after.slots == before.slots[at := taken]
         && if r.Ok? then
              TreeOf(r.frame) == t && after.trees == before.trees
            else
              && Missing(m, frame, t, order)
              && after.trees == before.trees[t := TreePut(before.trees[t], Pow2(order), policy, trees.defaultClass)]
    }

    /** `steal_local`. `at` is the slot that had the frames. */
    method StealLocal(request: Request, frame: Option<nat>) returns (r: Result, ghost at: Option<nat>)
      requires Valid() && request.cls < MAX_CLASSES && request.order <= TREE_ORDER
      requires UndoUnused(lower.undo, request.order, frame.Some?) &&
               (frame.Some? ==> Managed(lower.frames, frame.value, request.order))
      modifies lower.children, lower.rows, trees.entries, local.slots
      ensures Valid() && Serves(lower.frames, old(lower.Memory()), lower.Memory(), frame, request.order, r)
      ensures Ordered(policy) && r.Ok? ==> r.cls <= request.cls
      ensures Placed(r) && Held(r, request.cls) && (request.order == 0 && frame.None? && r.Err? ==> at.None?)
      ensures at.None? ==>
                r.Err? && View() == old(View()) &&
                NoneStolen(local.slices, local.slots[..], request.cls, FilterOf(frame), Pow2(request.order), policy)
      ensures at.Some? ==> SlotServed(old(View()), View(), at.value, frame, request.order, old(lower.Memory()), r)
    {
      hide Account, Inv, Below, ClassesOk, TreeOf, TreeOfRow, Serves, UndoUnused, Managed, Pow2, NoneStolen, Ordered,
        RowsOk, Missing, TreePut, Placed, Held;
      var frames := Pow2(request.order);
      var tree := FilterOf(frame);
      var index := if request.local.Some? then request.local.value else 0;
      ghost var m := lower.Memory();
      NothingServed(lower.frames, m, frame, request.order);
      var res;
      ghost var slot;
      res, slot := StealFromSlots(request.cls, index, tree, frames);
      at := None;
      if res.success {
        at := Some(slot);
        var t := TreeOfRow(res.startRow);
        r := GetLower(64 * res.startRow, request.order, frame, Nothing().Add(t, frames));
        if r.Ok? {
          SameService(lower.frames, m, lower.Memory(), frame, request.order, r, res.cls);
          r := Result.Ok(r.frame, res.cls);
          ReservedIsPlaced(r);
          HeldIn(r, slot, res.cls, request.cls);
          return;
        }
        PutTree(t, frames, Nothing().Add(t, frames));
        NothingPlaced();
        return;
      }
      r := Err(Error.Memory);
      NothingPlaced();
    }

    lemma ReservedIsPlaced(r: Result)
      requires r.Ok? && TreeOf(r.frame) < trees.entries.Length
      requires Ordered(policy) ==>
                 trees.entries[TreeOf(r.frame)].reserved || trees.entries[TreeOf(r.frame)].cls <= r.cls
      ensures Placed(r)
    {
      hide TreeOf, Ordered;
    }

    /** The slot of the request, into which a demoted tree goes. */
    function OwnSlot(request: Request): Option<nat>
      requires |local.slices| == MAX_CLASSES && request.cls < MAX_CLASSES
    {
      if request.local.Some? && local.slices[request.cls].Has(request.local.value)
      then Some(local.At(request.cls, request.local.value)) else None
    }

    /** `ll_local_demote_any`, and giving up the tree that it reports. The demoted tree with the rest of its frames
        goes into the slot of the request, whose previous tree is given up; without such a slot it is given up
        itself. */
    method DemoteFromSlots(request: Request, tree: Option<nat>, frames: nat) returns (dem: DemoteResult, ghost at: nat)
      requires Valid() && request.cls < MAX_CLASSES && request.cls in classes && frames > 0
      modifies trees.entries, local.slots
      ensures |local.slices| == MAX_CLASSES
      ensures dem.Demoted? ==>
                var t := TreeOfRow(dem.row);
                && t < trees.entries.Length && TreeOf(64 * dem.row) == t && 64 * dem.row < lower.frames
                && (tree.Some? ==> t == tree.value)
                && Nothing().Add(t, frames).For(trees.entries.Length) && frames <= Nothing().Add(t, frames).frames[t]
                && Nothing().Add(t, frames).Sub(t, frames) == Nothing() && Ready(Nothing().Add(t, frames))
      ensures dem.Demoted? ==>
                && at < local.slots.Length && ReservedDec(old(local.slots[at]), tree, frames).Some?
                && dem.row == old(local.slots[at]).startRow
                && var taken, to := ReservedDec(old(local.slots[at]), tree, frames).value, OwnSlot(request);
                   if to.Some? then
                     to.value < local.slots.Length && to.value != at &&
                     local.slots[..] == old(local.slots[..])[at := EMPTY][to.value := taken] &&
                     GaveUp(old(trees.entries[..]), trees.entries[..], old(local.slots[to.value]), request.cls)
                   else
                     local.slots[..] == old(local.slots[..])[at := EMPTY] &&
                     GaveUp(old(trees.entries[..]), trees.entries[..], taken, request.cls)
      ensures dem.Demoted? && Ordered(policy) ==>
                var t := TreeOfRow(dem.row);
                t < trees.entries.Length && (trees.entries[t].reserved || trees.entries[t].cls <= request.cls)
      ensures dem.NotFound? ==>
                Valid() && View() == old(View()) && NoneDemoted(local.slices, local.slots[..], request.cls, tree,
                                                                frames, policy)
    {
      hide Account, Inv, Below, TreeOf, TreeOfRow, NoneDemoted, TreeUnreserve, Ordered;
      ghost var none, u := Nothing(), View();
      dem, at := local.DemoteAny(request.cls, request.local, tree, frames, policy);
      if dem.Demoted? {
        ghost var taken := ReservedDec(u.slots[at], tree, frames).value;
        ghost var to := OwnSlot(request);
        if to.Some? {
          local.AtInSlice(request.cls, request.local.value);
        }
        DemotedSlots(Below(), u, none, offline, classes, at, tree, frames, View().slots, to, request.cls, dem);
        ghost var carry := DemoteCarry(none, TreeOfRow(dem.row), frames, u, to, taken);
        if dem.unreserve {
          UnreserveTree(TreeOfRow(dem.unresRow), dem.unresFree, dem.unresClass, carry);
          UnreserveAdds(old(trees.entries[TreeOfRow(dem.unresRow)]), dem.unresFree, request.cls, policy,
                        trees.defaultClass);
        }
        if Ordered(policy) {
          DemotedTree(Below(), View(), none.Add(TreeOfRow(dem.row), frames), offline, classes, TreeOfRow(dem.row),
                      frames, to, u.trees[TreeOfRow(dem.row)], taken.free, request.cls, policy, trees.defaultClass);
        }
      }
    }

    /** `demote_local`. `at` is the slot that had the frames. */
    method DemoteLocal(request: Request, frame: Option<nat>) returns (r: Result, ghost at: Option<nat>)
      requires Valid() && request.cls < MAX_CLASSES && request.cls in classes && request.order <= TREE_ORDER
      requires UndoUnused(lower.undo, request.order, frame.Some?) &&
               (frame.Some? ==> Managed(lower.frames, frame.value, request.order))
      modifies lower.children, lower.rows, trees.entries, local.slots
      ensures Valid() && Serves(lower.frames, old(lower.Memory()), lower.Memory(), frame, request.order, r)
      ensures r.Ok? ==> r.cls == request.cls
      ensures Placed(r) && (OwnSlot(request).Some? ==> Held(r, request.cls)) &&
              (request.order == 0 && frame.None? && r.Err? ==> at.None?)
      ensures at.None? ==>
                r.Err? && View() == old(View()) &&
                NoneDemoted(local.slices, local.slots[..], request.cls, FilterOf(frame), Pow2(request.order), policy)
      ensures at.Some? ==>
                && at.value < local.slots.Length
                && ReservedDec(old(local.slots[at.value]), FilterOf(frame), Pow2(request.order)).Some?
                && (r.Err? ==>
                      Missing(old(lower.Memory()), frame, TreeOfRow(old(local.slots[at.value]).startRow),
                              request.order))
    {
      hide Account, Inv, Below, ClassesOk, TreeOf, TreeOfRow, Serves, UndoUnused, Managed, Pow2, NoneDemoted, RowsOk,
        Missing, TreePut, Placed, Held, GaveUp, Ordered;
      var frames := Pow2(request.order);
      var tree := FilterOf(frame);
      ghost var m := lower.Memory();
      NothingServed(lower.frames, m, frame, request.order);
      var dem;
      ghost var slot;
      dem, slot := DemoteFromSlots(request, tree, frames);
      at := None;
      if dem.Demoted? {
        at := Some(slot);
        var t := TreeOfRow(dem.row);
        r := GetLower(64 * dem.row, request.order, frame, Nothing().Add(t, frames));
        if r.Ok? {
          SameService(lower.frames, m, lower.Memory(), frame, request.order, r, request.cls);
          r := Result.Ok(r.frame, request.cls);
          ReservedIsPlaced(r);
          if OwnSlot(request).Some? {
            SlotIsHeld(r, request.cls, request.local.value);
          }
          return;
        }
        PutTree(t, frames, Nothing().Add(t, frames));
        NothingPlaced();
        return;
      }
      r := Err(Error.Memory);
      NothingPlaced();
    }

    // ---- the interface ----

    /** With the movable policy and a slot per core and class, single frames are not refused for lack of a
        slot, and every request for one of the three classes and a core is accepted. */
    lemma MovableServes(cores: nat)
      requires Layout() && Follows(ClassingMovable(cores)) && cores > 0
      ensures Sure(0) && forall c :: c in classes ==> c < 3
      ensures forall request: Request ::
                request.order == 0 && request.cls < 3 && (request.local.Some? ==> request.local.value < cores) ==>
                Acceptable(request, None)
    {
      BothAreOrdered();
      SmallPow(0);
      forall c: nat
        ensures c in classes <==> c < 3
        ensures c < 3 ==> local.slices[c].len == Some(cores)
      {
        MovableHasSlots(cores, c);
      }
    }

    /** What `validate_request` demands. */
    predicate Acceptable(request: Request, frame: Option<nat>)
      requires |local.slices| == MAX_CLASSES
    {
      && request.order <= TREE_ORDER
      && local.ClassLocals(request.cls).Some?
      && (request.local.Some? ==> request.local.value < local.ClassLocals(request.cls).value)
      && Pow2(request.order) <= lower.frames
      && (frame.Some? ==> frame.value <= lower.frames - Pow2(request.order) && frame.value % Pow2(request.order) == 0)
    }

    /** An acceptable request names a class that trees can have, and a block that is managed. */
    lemma AcceptableIs(request: Request, frame: Option<nat>)
      requires Layout() && ClassesOk() && Acceptable(request, frame)
      ensures request.cls < MAX_CLASSES && request.cls in classes && request.order <= TREE_ORDER
      ensures request.local.Some? ==> local.slices[request.cls].Has(request.local.value)
      ensures frame.Some? ==>
              Managed(lower.frames, frame.value, request.order) && TreeOf(frame.value) < trees.entries.Length
                              && frame.value < lower.frames
      ensures trees.entries.Length > 0
    {
      TreeBelow(lower.frames, 0);
      if frame.Some? {
        TreeBelow(lower.frames, frame.value);
      }
    }

    /** The part of `llfree_get_at` that steals from the entry of the tree. */
    method StealAt(frame: nat, request: Request) returns (stolen: bool, r: Result)
      requires Valid() && Acceptable(request, Some(frame)) && UndoUnused(lower.undo, request.order, true)
      modifies lower.children, lower.rows, trees.entries
      ensures Valid() && Serves(lower.frames, old(lower.Memory()), lower.Memory(), Some(frame), request.order, r)
      ensures Ordered(policy) && r.Ok? ==> r.cls <= request.cls
      ensures Placed(r) && TreeOf(frame) < trees.entries.Length
      ensures var t, n := TreeOf(frame), Pow2(request.order);
              var s := TreeSteal(old(trees.entries[t]), n, request.cls, policy);
              && stolen == s.Some? && (Ordered(policy) ==> (stolen <==> n <= old(trees.entries[t]).free))
              && (!stolen ==> r == Err(Error.Memory) && trees.entries[..] == old(trees.entries[..]))
              && (r.Ok? ==> r.cls == s.value.cls && trees.entries[..] == old(trees.entries[..])[t := s.value.tree])
              && (stolen && r.Err? ==>
                    && Missing(old(lower.Memory()), Some(frame), t, request.order)
                    && trees.entries[..] ==
                       old(trees.entries[..])[t := TreePut(s.value.tree, n, policy, trees.defaultClass)])
    {
      hide Account, Inv, Serves, Below, RowsOk, TreeOf, UndoUnused, TreeSteal, TreePut, Ordered, Pow2, Managed,
        Acceptable, Missing, Placed, TreeCount, Padded, ChildCount;
      AcceptableIs(request, Some(frame));
      var frames, t := Pow2(request.order), TreeOf(frame);
      ghost var none := Nothing();
      Sizes(Below(), View(), none, offline, classes);
      AccessOrdered(trees.entries[t], frames, request.cls, policy);
      AddSub(none, trees.entries.Length, t, frames);
      if TreeSteal(trees.entries[t], frames, request.cls, policy).Some? {
        StealFromTree(Below(), View(), none, offline, classes, t, frames, request.cls, policy);
      }
      NothingServed(lower.frames, lower.Memory(), Some(frame), request.order);
      var target;
      stolen, target := trees.Steal(t, frames, request.cls, policy);
      if !stolen {
        NothingPlaced();
        return false, Err(Error.Memory);
      }
      r := GetLower(frame, request.order, Some(frame), none.Add(t, frames));
      if r.Ok? {
        SameService(lower.frames, old(lower.Memory()), lower.Memory(), Some(frame), request.order, r, target);
        r := Result.Ok(r.frame, target);
        StolenIsPlaced(old(trees.entries[..]), t, request.order, request.cls, r);
      } else {
        PutTree(t, frames, none.Add(t, frames));
        NothingPlaced();
      }
    }

    /** Neither the entry of a tree nor a slot that holds it counts that many frames. */
    ghost predicate TooFew(t: nat, n: nat)
      reads trees.entries, local.slots
    {
      && t < trees.entries.Length && trees.entries[t].free < n
      && forall i :: 0 <= i < local.slots.Length && HoldsTree(local.slots[i], t) ==> local.slots[i].free < n
    }

    /** `llfree_get_at`. A free block is refused only if neither the entry of its tree nor a slot that holds the tree
        counts its frames. */
    method GetAt(frame: nat, request: Request) returns (r: Result)
      requires Valid() && Acceptable(request, Some(frame)) && UndoUnused(lower.undo, request.order, true)
      modifies lower.children, lower.rows, trees.entries, local.slots
      ensures Valid() && Serves(lower.frames, old(lower.Memory()), lower.Memory(), Some(frame), request.order, r)
      ensures Ordered(policy) && r.Ok? ==> r.cls <= request.cls
      ensures Placed(r)
      ensures Ordered(policy) && r.Err? &&
              Block(frame, Pow2(request.order)) <= old(Free(lower.frames, lower.Memory())) ==>
                TooFew(TreeOf(frame), Pow2(request.order))
      ensures Ordered(policy) && offline == {} && (request.order == 0 || old(Drained())) ==>
                (r.Ok? <==> Block(frame, Pow2(request.order)) <= old(Free(lower.frames, lower.Memory())))
    {
      hide Valid, Ordered, Took, Serves, UndoUnused, TreeOf, NoneStolen, NoneDemoted, Acceptable, Layout, Pow2, Inv,
        Free, Block, Placed, TooFew, LocalOutcome, Synced, SlotServed, TreePut, TreeSteal, SameHolders, Missing;
      ValidLayout();
      AcceptableIs(request, Some(frame));
      SmallPow(0);
      ghost var m, u := lower.Memory(), View();
      MissingIs(m, Some(frame), TreeOf(frame), request.order);
      if request.local.Some? {
        var start;
        r, start := GetLocal(request.cls, request.local.value, request.order, Some(frame), true, TreeOf(frame));
        ServedGiven(m, lower.Memory(), frame, request.order, r);
        if r.Ok? {
          SlotPlaced(r, request.cls, request.local.value);
          return;
        }
        LocalKeepsHolders(u, View(), local.At(request.cls, request.local.value), true, Some(frame), request.order, m,
                          r);
      }
      ghost var mid := View();
      var stolen;
      stolen, r := StealAt(frame, request);
      ServedGiven(m, lower.Memory(), frame, request.order, r);
      if stolen {
        if r.Err? {
          NothingPlaced();
        }
        return;
      }
      ghost var slot;
      r, slot := StealLocal(request, Some(frame));
      ServedGiven(m, lower.Memory(), frame, request.order, r);
      if r.Ok? {
        return;
      }
      if slot.Some? {
        SlotMissed(mid, View(), slot.value, Some(frame), request.order, m, r);
        MissingIs(m, Some(frame), TreeOfRow(mid.slots[slot.value].startRow), request.order);
      }
      ghost var last := View();
      r, slot := DemoteLocal(request, Some(frame));
      ServedGiven(m, lower.Memory(), frame, request.order, r);
      if r.Err? && Ordered(policy) && Block(frame, Pow2(request.order)) <= Free(lower.frames, m) {
        if slot.Some? {
          MissingIs(m, Some(frame), TreeOfRow(last.slots[slot.value].startRow), request.order);
        }
        NoSlotHas(request, Some(TreeOf(frame)), Pow2(request.order));
        TooFewIs(TreeOf(frame), Pow2(request.order));
        if offline == {} && request.order == 0 {
          NothingAt(frame);
        }
        if offline == {} && old(Drained()) {
          DrainedServes(frame, request.order);
        }
      }
    }

    lemma ServedGiven(m: Mem, m': Mem, frame: nat, order: nat, r: Result)
      ensures Serves(lower.frames, m, m', Some(frame), order, r) && r.Ok? ==>
                Block(frame, Pow2(order)) <= Free(lower.frames, m)
      ensures Serves(lower.frames, m, m', Some(frame), order, r) && r.Err? ==> m' == m && r == Err(Error.Memory)
    {
      hide Free, Pow2, Inv;
    }

    lemma SlotMissed(before: Upper, after: Upper, at: nat, frame: Option<nat>, order: nat, m: Mem, r: Result)
      requires SlotServed(before, after, at, frame, order, m, r) && r.Err?
      ensures at < |before.slots| && before.slots[at].present
      ensures Missing(m, frame, TreeOfRow(before.slots[at].startRow), order) && SameHolders(before.slots, after.slots)
    {
      hide Missing, Pow2, TreePut, TreeOfRow, TreeOf;
    }

    /** If no slot can be stolen from or demoted, no slot has the frames. */
    lemma NoSlotHas(request: Request, tree: Option<nat>, n: nat)
      requires Valid() && Ordered(policy) && request.cls < MAX_CLASSES
      requires NoneStolen(local.slices, local.slots[..], request.cls, tree, n, policy)
      requires NoneDemoted(local.slices, local.slots[..], request.cls, tree, n, policy)
      ensures forall i ::
                0 <= i < local.slots.Length && local.slots[i].present &&
                (tree.Some? ==> TreeOfRow(local.slots[i].startRow) == tree.value) ==>
                  local.slots[i].free < n
    {
      hide Account, Inv, Below, ClassesOk, TreeOfRow;
      forall i | 0 <= i < local.slots.Length && local.slots[i].present &&
                 (tree.Some? ==> TreeOfRow(local.slots[i].startRow) == tree.value)
        ensures local.slots[i].free < n
      {
        var c, j: nat :| 0 <= c < |local.slices| && local.slices[c].Has(j) && local.slices[c].offset + j == i;
        assert ReservedDec(local.slots[i], tree, n).None?;
      }
    }

    lemma TooFewIs(t: nat, n: nat)
      requires t < trees.entries.Length && trees.entries[t].free < n
      requires forall i ::
                 0 <= i < local.slots.Length && local.slots[i].present && TreeOfRow(local.slots[i].startRow) == t ==>
                   local.slots[i].free < n
      ensures TooFew(t, n)
    {
      hide TreeOfRow;
    }

    /** When neither the entry of the tree nor a slot that holds it has a frame, the given frame is not free. */
    lemma NothingAt(frame: nat)
      requires Valid() && offline == {} && frame < lower.frames && TooFew(TreeOf(frame), 1)
      ensures !(Block(frame, 1) <= Free(lower.frames, lower.Memory()))
    {
      hide Account, Inv, Below, Free, ClassesOk, TreeOf, TreeOfRow;
      assert frame in Block(frame, 1);
      BelowAre();
      NothingIn(lower.frames, lower.Memory(), View(), Nothing(), classes, frame);
    }

    /** Without slots in use and offline trees, the entry of the tree counts the frames of a free block. */
    lemma DrainedServes(frame: nat, order: nat)
      requires Valid() && Drained() && offline == {} && Managed(lower.frames, frame, order)
      requires Block(frame, Pow2(order)) <= Free(lower.frames, lower.Memory())
      ensures !TooFew(TreeOf(frame), Pow2(order))
    {
      hide Account, Inv, Below, Free, ClassesOk, TreeOf, Pow2, Block, Managed;
      ghost var t := TreeOf(frame);
      ValidLayout();
      BlockInTree(lower.frames, frame, order);
      CardSubset(Block(frame, Pow2(order)), Free(lower.frames, lower.Memory()) * TreeFrames(t));
      DrainedExact(t);
    }

    /** Without slots in use, no tree is reserved, and the entries of trees that are not offline are exact. */
    lemma DrainedExact(t: nat)
      requires Valid() && Drained() && t < trees.entries.Length
      ensures !trees.entries[t].reserved
      ensures t !in offline ==> trees.entries[t].free == FreeOfTree(lower.frames, lower.Memory(), t)
    {
      hide Inv, TreeCount, FreeOfTree;
      ghost var below, u := Below(), View();
      BelowIs(lower.frames, lower.Memory(), t);
      assert TreeAccount(below[t], u.trees[t], u.slots, t, Nothing().frames[t], Nothing().tokens[t], t !in offline,
                         classes);
      NothingHeld(u.slots, t);
    }

    /** No slot is in use. */
    ghost predicate Drained()
      reads local.slots
    {
      forall i :: 0 <= i < local.slots.Length ==> !local.slots[i].present
    }

    /** No unreserved tree and no slot counts a free frame. */
    ghost predicate Exhausted()
      reads trees.entries, local.slots
    {
      NoneUnreserved(View()) && forall i :: 0 <= i < local.slots.Length && local.slots[i].present ==>
          local.slots[i].free == 0
    }

    /** Slots hold the same trees, whatever they count. */
    ghost predicate SameHolders(before: seq<Reserved>, after: seq<Reserved>)
    {
      && |before| == |after|
      && forall i :: 0 <= i < |before| ==>
                       before[i].present == after[i].present && before[i].startRow == after[i].startRow
    }

    lemma LocalKeepsHolders(before: Upper, after: Upper, at: nat, sync: bool, frame: Option<nat>, order: nat, m: Mem,
                            r: Result)
      requires at < |before.slots| && r.Err?
      requires var n := Pow2(order);
               var u := if sync && ReservedDec(before.slots[at], FilterOf(frame), n).None? then Synced(before, at, n)
                        else before;
               LocalOutcome(u, after, at, frame, order, m, r)
      ensures SameHolders(before.slots, after.slots)
      ensures !before.slots[at].present ==> after == before
    {
      hide Pow2, TreePut, TreeOfRow, TreeOf, Missing;
    }

    /** A get without a given block goes through a slot of the requested class. */
    predicate UsesSlot(request: Request)
      requires |local.slices| == MAX_CLASSES
    {
      request.local.Some? && request.cls < MAX_CLASSES && local.slices[request.cls].Has(request.local.value) &&
      local.slices[request.cls].len.value < trees.entries.Length
    }

    /** The two searches of `llfree_get` for a block that is not given. `before` is the state in which the search over
        all trees begins, and `tried` the last part of the trace. */
    method GetAny(request: Request)
      returns (r: Result, ghost search: Search, ghost from: nat, ghost log: seq<Visited>, ghost first: seq<Attempt>,
               ghost tried: seq<Attempt>, ghost before: Upper)
      requires Valid() && Acceptable(request, None) && UndoUnused(lower.undo, request.order, false)
      modifies `trace, lower.children, lower.rows, trees.entries, local.slots
      ensures Valid() && Serves(lower.frames, old(lower.Memory()), lower.Memory(), None, request.order, r)
      ensures Ordered(policy) && r.Ok? ==> r.cls <= request.cls
      ensures Sure(request.order) && r.Err? ==> View() == old(View()) && NoneUnreserved(View())
      ensures Placed(r) && (UsesSlot(request) ==> Held(r, request.cls)) && trace == old(trace) + first + tried
      ensures |local.slices| == MAX_CLASSES
      ensures r.Err? ==>
                && SearchedAll(search, from, request.order, request.cls, old(lower.Memory()), log, tried, before,
                               View())
                && SameHolders(old(local.slots[..]), before.slots) && before.slots == local.slots[..]
                && |before.trees| == trees.entries.Length && (old(Drained()) ==> before == old(View()))
    {
      hide Valid, Sure, Ordered, Took, UndoUnused, TreeOf, Logged, Unchanged, Candidates, Ranking, PerfectOnes, Top,
        Visit, Rate, TreeArray.Holds, NoneUnreserved, Layout, Pow2, Inv, Free, SearchedAll, Placed, Held,
        LocalOutcome, Synced, SameHolders, Logs, Tried, Steady;
      ValidLayout();
      AcceptableIs(request, None);
      SureIsOrdered(request.order);
      ghost var u, m := View(), lower.Memory();
      before, first, tried := u, [], [];
      search, from, log := Any, 0, [];
      var count := local.ClassLocals(request.cls);
      var start := 0;
      if count.Some? && count.value != 0 && request.local.Some? {
        start := trees.entries.Length / count.value * request.local.value;
        ShareBelow(trees.entries.Length, count.value, request.local.value);
      }
      if request.local.Some? && count.Some? && count.value != 0 && count.value < trees.entries.Length {
        r, start := GetLocal(request.cls, request.local.value, request.order, None, true, start);
        if r.Ok? {
          SlotPlaced(r, request.cls, request.local.value);
          SlotIsHeld(r, request.cls, request.local.value);
          return;
        }
        ErrKeeps(lower.frames, m, lower.Memory(), None, request.order, r);
        LocalKeepsHolders(u, View(), local.At(request.cls, request.local.value), true, None, request.order, m, r);
        before := View();
        ghost var near;
        r, near, first, log, tried := SearchAndReserve(request.cls, request.local.value, request.order, start);
        search, from := Global, AlignDown(start, NextPow2(2 * NearWindow(trees.entries.Length)));
      } else {
        SameHoldersItself(u.slots);
        r, log, tried := SearchAny(request.cls, request.order, start);
        search, from := Any, start;
      }
      if r.Err? {
        SearchedSame(search, from, request.order, request.cls, m, log, tried, before, View());
      }
    }

    /** No slot counts that many frames, or a tree that a slot held has no free block of that order. */
    ghost predicate SlotsFailed(before: seq<Reserved>, order: nat, m: Mem)
      reads local.slots
    {
      || (forall i :: 0 <= i < local.slots.Length && local.slots[i].present ==> local.slots[i].free < Pow2(order))
      || TreeMissed(before, order, m)
    }

    ghost predicate TreeMissed(before: seq<Reserved>, order: nat, m: Mem)
    {
      exists i :: 0 <= i < |before| && before[i].present &&
                  NoBlock(lower.frames, m, TreeOfRow(before[i].startRow), order)
    }

    lemma TreeMissedAt(before: seq<Reserved>, slots: seq<Reserved>, i: nat, order: nat, m: Mem)
      requires SameHolders(before, slots) && i < |slots| && slots[i].present
      requires Missing(m, None, TreeOfRow(slots[i].startRow), order)
      ensures TreeMissed(before, order, m)
    {
      hide NoBlock, TreeOfRow;
      assert before[i].present;
    }

    lemma SlotsFailedIf(before: seq<Reserved>, order: nat, m: Mem)
      ensures TreeMissed(before, order, m) ==> SlotsFailed(before, order, m)
      ensures (forall i ::
                 0 <= i < local.slots.Length && local.slots[i].present ==> local.slots[i].free < Pow2(order)) ==>
                SlotsFailed(before, order, m)
    {
      hide TreeMissed, Pow2;
    }

    lemma FailedBy(trace0: seq<Attempt>, trace1: seq<Attempt>, order: nat, cls: nat, m: Mem, search: Search, from: nat,
                   log: seq<Visited>, first: seq<Attempt>, tried: seq<Attempt>, before: Upper, after: Upper)
      requires |local.slices| == MAX_CLASSES && trace1 == trace0 + first + tried
      requires SearchedAll(search, from, order, cls, m, log, tried, before, after)
      ensures TraceFailed(trace0, trace1, order, cls, m)
    {
      hide SearchedAll;
    }

    /** Without slots in use and offline trees, all entries are exact. */
    lemma AllExact()
      requires Valid() && Drained() && offline == {}
      ensures forall t :: 0 <= t < trees.entries.Length ==>
                !trees.entries[t].reserved && trees.entries[t].free == FreeOfTree(lower.frames, lower.Memory(), t)
    {
      hide Valid, FreeOfTree, Inv;
      forall t | 0 <= t < trees.entries.Length
        ensures !trees.entries[t].reserved && trees.entries[t].free == FreeOfTree(lower.frames, lower.Memory(), t)
      {
        DrainedExact(t);
      }
    }

    /** After a failed search over at most eight trees whose entries are exact, no tree has a free block. */
    lemma NoBlocks(search: Search, from: nat, order: nat, cls: nat, m: Mem, log: seq<Visited>, tried: seq<Attempt>,
                   before: Upper, after: Upper)
      requires |local.slices| == MAX_CLASSES && SearchedAll(search, from, order, cls, m, log, tried, before, after)
      requires Ordered(policy) && AllHaveSlots() && cls in classes && |before.trees| <= SEARCH_BEST
      requires forall c :: c in classes ==> c < MAX_CLASSES
      requires forall t :: 0 <= t < |before.trees| ==>
                 !before.trees[t].reserved && before.trees[t].free == FreeOfTree(lower.frames, m, t)
      ensures forall t :: 0 <= t < |before.trees| ==> NoBlock(lower.frames, m, t, order)
    {
      hide Logged, ToTry, Tried, Logs, Steady, NoBlock, Pow2, FreeOfTree, Ordered;
      CandidatesFit(log);
      SearchedNone(search, from, order, cls, m, log, tried, before, after);
      forall t | 0 <= t < |before.trees|
        ensures NoBlock(lower.frames, m, t, order)
      {
        TooFewFrames(lower.frames, m, t, order);
      }
    }

    lemma StockedIs()
      requires Layout() && ClassesOk()
      ensures Stocked() ==> AllHaveSlots()
      ensures forall c :: c in classes ==> c < MAX_CLASSES
    {}

    /** The last part of the trace is a search over all trees that failed. */
    ghost predicate TraceFailed(trace0: seq<Attempt>, trace1: seq<Attempt>, order: nat, cls: nat, m: Mem)
      requires |local.slices| == MAX_CLASSES
      reads `classes
    {
      exists search: Search, from: nat, log: seq<Visited>, first: seq<Attempt>, tried: seq<Attempt>, before: Upper,
             after: Upper {:trigger SearchedAll(search, from, order, cls, m, log, tried, before, after),
                           trace0 + first} ::
        trace1 == trace0 + first + tried && SearchedAll(search, from, order, cls, m, log, tried, before, after)
    }

    /** Allocates a block: the given one, or any. What it promises for an answer of MEMORY holds for every order:
        the search over all trees tried what it should, and no slot counts the frames or a tree that a slot held
        has no block; with drained slots and at most eight trees, no tree has a block at all. */
    method Get(frame: Option<nat>, request: Request) returns (r: Result)
      requires Valid() && UndoUnused(lower.undo, request.order, frame.Some?)
      modifies `trace, lower.children, lower.rows, trees.entries, local.slots
      ensures Valid() && |local.slices| == MAX_CLASSES
      ensures !Acceptable(request, frame) ==>
              r == Err(Argument) && View() == old(View()) && lower.Memory() == old(lower.Memory())
      ensures Acceptable(request, frame) ==>
                Serves(lower.frames, old(lower.Memory()), lower.Memory(), frame, request.order, r)
      ensures r.Ok? ==> Block(r.frame, Pow2(request.order)) <= old(Free(lower.frames, lower.Memory()))
                        && Free(lower.frames, lower.Memory()) ==
                           old(Free(lower.frames, lower.Memory())) - Block(r.frame, Pow2(request.order))
      ensures Placed(r) && (Ordered(policy) && r.Ok? ==> r.cls <= request.cls)
      ensures frame.None? && UsesSlot(request) ==> Held(r, request.cls)
      ensures Sure(request.order) && frame.None? && r == Err(Error.Memory) ==> View() == old(View()) && Exhausted()
      ensures Sure(request.order) && frame.None? && Acceptable(request, None) && old(Drained()) && offline == {} ==>
                (r == Err(Error.Memory) <==> old(Free(lower.frames, lower.Memory())) == {})
      ensures frame.None? && r == Err(Error.Memory) ==>
                TraceFailed(old(trace), trace, request.order, request.cls, old(lower.Memory()))
      ensures Ordered(policy) && frame.None? && r == Err(Error.Memory) ==>
                SlotsFailed(old(local.slots[..]), request.order, old(lower.Memory()))
      ensures Ordered(policy) && Stocked() && frame.None? && Acceptable(request, None) && old(Drained()) &&
              offline == {} && trees.entries.Length <= SEARCH_BEST ==>
                (r == Err(Error.Memory) <==>
                 forall t :: 0 <= t < trees.entries.Length ==>
                   NoBlock(lower.frames, old(lower.Memory()), t, request.order))
      ensures Ordered(policy) && frame.Some? && Acceptable(request, frame) && r.Err? &&
              Block(frame.value, Pow2(request.order)) <= old(Free(lower.frames, lower.Memory())) ==>
                TooFew(TreeOf(frame.value), Pow2(request.order))
      ensures Ordered(policy) && frame.Some? && Acceptable(request, frame) && offline == {} &&
              (request.order == 0 || old(Drained())) ==>
                (r.Ok? <==> Block(frame.value, Pow2(request.order)) <= old(Free(lower.frames, lower.Memory())))
    {
      hide Valid, Sure, Ordered, Took, UndoUnused, TreeOf, NoneUnreserved, NoneStolen, NoneDemoted, Acceptable,
        Layout, Pow2, Inv, Free, Drained, Block, Placed, Held, TraceFailed, SlotsFailed, TooFew, NoBlock, Stocked;
      ValidLayout();
      if !Acceptable(request, frame) {
        NothingPlaced();
        return Err(Argument);
      }
      AcceptableIs(request, frame);
      SureIsOrdered(request.order);
      ghost var m := lower.Memory();
      if frame.Some? {
        r := GetAt(frame.value, request);
      } else {
        r := GetAnywhere(request);
        ServedBlock(m, lower.Memory(), request.order, r);
      }
      ServedFree(lower.frames, m, lower.Memory(), frame, request.order, r);
    }

    /** A block that was served was a free block of its tree. */
    lemma ServedBlock(m: Mem, m': Mem, order: nat, r: Result)
      requires Inv(lower.frames, m) && Serves(lower.frames, m, m', None, order, r) &&
               trees.entries.Length == TreeCount(lower.frames)
      ensures r.Ok? ==> TreeOf(r.frame) < trees.entries.Length && !NoBlock(lower.frames, m, TreeOf(r.frame), order)
      ensures r.Err? ==> r == Err(Error.Memory)
    {
      hide Free, Pow2, TreeOf, TreeCount, Inv;
      if r.Ok? {
        BlockInTree(lower.frames, r.frame, order);
      }
    }

    /** The case that no block is given. */
    method GetAnywhere(request: Request) returns (r: Result)
      requires Valid() && Acceptable(request, None) && UndoUnused(lower.undo, request.order, false)
      modifies `trace, lower.children, lower.rows, trees.entries, local.slots
      ensures Valid() && Serves(lower.frames, old(lower.Memory()), lower.Memory(), None, request.order, r)
      ensures |local.slices| == MAX_CLASSES && Placed(r) && (UsesSlot(request) ==> Held(r, request.cls))
      ensures Ordered(policy) && r.Ok? ==> r.cls <= request.cls
      ensures Sure(request.order) && r.Err? ==> View() == old(View()) && Exhausted()
      ensures Sure(request.order) && r.Err? && old(Drained()) && offline == {} ==>
              old(Free(lower.frames, lower.Memory())) == {}
      ensures r.Err? ==> TraceFailed(old(trace), trace, request.order, request.cls, old(lower.Memory()))
      ensures Ordered(policy) && r.Err? ==> SlotsFailed(old(local.slots[..]), request.order, old(lower.Memory()))
      ensures Ordered(policy) && Stocked() && r.Err? && old(Drained()) && offline == {} &&
              trees.entries.Length <= SEARCH_BEST ==>
                forall t :: 0 <= t < trees.entries.Length ==>
                  NoBlock(lower.frames, old(lower.Memory()), t, request.order)
    {
      hide Valid, Sure, Ordered, Took, Serves, UndoUnused, TreeOf, NoneUnreserved, NoneStolen, NoneDemoted,
        Acceptable, Layout, Pow2, Inv, Free, Block, Placed, Held, TraceFailed, SlotsFailed, NoBlock, Stocked,
        SearchedAll, SlotServed, SameHolders, Missing, FreeOfTree, TreeOfRow, TreeMissed, AllHaveSlots;
      ValidLayout();
      AcceptableIs(request, None);
      SureIsOrdered(request.order);
      ghost var u, m, trace0 := View(), lower.Memory(), trace;
      ghost var drained := Drained() && offline == {};
      if drained {
        AllExact();
      }
      ghost var search, from, log, first, tried, before;
      r, search, from, log, first, tried, before := GetAny(request);
      if r.Ok? {
        return;
      }
      ErrKeeps(lower.frames, m, lower.Memory(), None, request.order, r);
      FailedBy(trace0, trace, request.order, request.cls, m, search, from, log, first, tried, before, View());
      StockedIs();
      if drained && Ordered(policy) && Stocked() && trees.entries.Length <= SEARCH_BEST {
        NoBlocks(search, from, request.order, request.cls, m, log, tried, u, View());
      }
      ghost var mid := View();
      r := GetFromSlots(request);
      if r.Err? {
        SlotsFailedSince(u.slots, mid.slots, request.order, m);
      }
    }

    /** The slots of other classes, after both searches failed. */
    method GetFromSlots(request: Request) returns (r: Result)
      requires Valid() && Acceptable(request, None) && UndoUnused(lower.undo, request.order, false)
      modifies lower.children, lower.rows, trees.entries, local.slots
      ensures Valid() && Serves(lower.frames, old(lower.Memory()), lower.Memory(), None, request.order, r)
      ensures Placed(r) && (UsesSlot(request) ==> Held(r, request.cls)) &&
              (Ordered(policy) && r.Ok? ==> r.cls <= request.cls)
      ensures Sure(request.order) && r.Err? && NoneUnreserved(old(View())) ==>
                && View() == old(View()) && Exhausted()
                && (old(Drained()) && offline == {} ==> old(Free(lower.frames, lower.Memory())) == {})
      ensures Ordered(policy) && r.Err? ==> SlotsFailed(old(local.slots[..]), request.order, old(lower.Memory()))
    {
      hide Valid, Sure, Ordered, Took, Serves, UndoUnused, TreeOf, NoneUnreserved, NoneStolen, NoneDemoted,
        Acceptable, Layout, Pow2, Inv, Free, Block, Placed, Held, SlotsFailed, NoBlock, Stocked, SlotServed,
        SameHolders, Missing, TreeOfRow, TreeMissed, ReservedDec;
      ValidLayout();
      AcceptableIs(request, None);
      SureIsOrdered(request.order);
      SmallPow(0);
      ghost var u, m, slot := View(), lower.Memory(), None;
      SameHoldersItself(u.slots);
      r, slot := StealLocal(request, None);
      if r.Ok? {
        return;
      }
      ErrKeeps(lower.frames, m, lower.Memory(), None, request.order, r);
      ghost var last, stolen := View(), slot.Some?;
      if slot.Some? {
        SlotMissed(u, last, slot.value, None, request.order, m, r);
        TreeMissedAt(u.slots, u.slots, slot.value, request.order, m);
      }
      r, slot := DemoteLocal(request, None);
      if r.Err? {
        ErrKeeps(lower.frames, m, lower.Memory(), None, request.order, r);
        if slot.Some? {
          DecPresent(last.slots[slot.value], None, Pow2(request.order));
          TreeMissedAt(u.slots, last.slots, slot.value, request.order, m);
        } else if !stolen && Ordered(policy) {
          NoSlotHas(request, None, Pow2(request.order));
        }
        SlotsFailedIf(u.slots, request.order, m);
        if Sure(request.order) && NoneUnreserved(u) {
          NothingLeft(request);
        }
      }
    }

    lemma SlotsFailedSince(before: seq<Reserved>, slots: seq<Reserved>, order: nat, m: Mem)
      requires SameHolders(before, slots)
      ensures SlotsFailed(slots, order, m) ==> SlotsFailed(before, order, m)
    {
      hide NoBlock, TreeOfRow, Pow2;
      if TreeMissed(slots, order, m) {
        var i :| 0 <= i < |slots| && slots[i].present && NoBlock(lower.frames, m, TreeOfRow(slots[i].startRow), order);
        assert before[i].present;
      }
    }

    lemma DecPresent(r: Reserved, tree: Option<nat>, n: nat)
      ensures ReservedDec(r, tree, n).Some? ==> r.present
    {}

    lemma BelowAre()
      ensures Below() == BelowOf(lower.frames, lower.Memory())
    {}

    /** When neither the trees nor the slots that the policy allows have a frame, no slot has one;
        without slots in use and offline trees, there is no free frame at all. */
    lemma NothingLeft(request: Request)
      requires Valid() && Ordered(policy) && NoneUnreserved(View()) && request.cls < MAX_CLASSES
      requires NoneStolen(local.slices, local.slots[..], request.cls, None, 1, policy)
      requires NoneDemoted(local.slices, local.slots[..], request.cls, None, 1, policy)
      ensures Exhausted()
      ensures Drained() && offline == {} ==> Free(lower.frames, lower.Memory()) == {}
    {
      hide Account, Inv, Below, Free, ClassesOk, Stocked;
      forall i | 0 <= i < local.slots.Length && local.slots[i].present
        ensures local.slots[i].free == 0
      {
        var c, j: nat :| 0 <= c < |local.slices| && local.slices[c].Has(j) && local.slices[c].offset + j == i;
        assert ReservedDec(local.slots[i], None, 1).None?;
      }
      if Drained() && offline == {} {
        BelowAre();
        NothingBelow(lower.frames, lower.Memory(), View(), Nothing(), classes);
      }
    }

    /** Gives a block back: to the slot that the request names if it holds the block's tree, else to
        the entry of the tree. */
    method Put(frame: nat, request: Request) returns (r: Result)
      requires Valid() && UndoUnused(lower.undo, request.order, true)
      modifies lower.children, lower.rows, trees.entries, local.slots
      ensures Valid()
      ensures !Acceptable(request, Some(frame)) ==> r == Err(Argument)
      ensures Acceptable(request, Some(frame)) ==>
              PutMeets(lower.frames, old(lower.Memory()), lower.Memory(), frame, request.order, r)
      ensures r.Err? ==> View() == old(View()) && lower.Memory() == old(lower.Memory())
      ensures r.Ok? ==> Block(frame, Pow2(request.order)) !! old(Free(lower.frames, lower.Memory()))
                        && Free(lower.frames, lower.Memory()) ==
                           old(Free(lower.frames, lower.Memory())) + Block(frame, Pow2(request.order))
      ensures r.Ok? ==> PutCounted(frame, request, old(View()), View())
    {
      hide Valid, Layout, Account, Inv, RowsOk, TreeOf, UndoUnused, Pow2, Acceptable, ClassesOk, Free, Block,
        PutMeets, PutCounted, Managed, Ready;
      ValidLayout();
      if !Acceptable(request, Some(frame)) {
        return Err(Argument);
      }
      AcceptableIs(request, Some(frame));
      r := PutLower(frame, request.order);
      if r.Err? {
        NothingCarried();
        return;
      }
      CountPut(frame, request);
    }

    lemma NothingCarried()
      ensures Ready(Nothing()) ==> Valid()
    {}

    /** The part of `llfree_put` above the lower allocator. */
    method CountPut(frame: nat, request: Request)
      requires TreeOf(frame) < trees.entries.Length && Nothing().For(trees.entries.Length)
      requires Ready(Nothing().Add(TreeOf(frame), Pow2(request.order)))
      requires request.cls < MAX_CLASSES && (request.local.Some? ==> local.slices[request.cls].Has(request.local.value))
      modifies trees.entries, local.slots
      ensures Valid() && PutCounted(frame, request, old(View()), View())
    {
      hide Account, Inv, Below, TreeOf, Pow2, ClassesOk, TreePut;
      var frames, t := Pow2(request.order), TreeOf(frame);
      ghost var carry := Nothing().Add(t, frames);
      AddSub(Nothing(), trees.entries.Length, t, frames);
      PutAdds(trees.entries[t], frames, policy, trees.defaultClass);
      if request.local.Some? {
        var ok := PutSlot(request.cls, request.local.value, t, frames, carry);
        if ok {
          return;
        }
      }
      PutTree(t, frames, carry);
    }

    /** The frames of a put are counted in the slot that the request names if it holds the block's tree, and else
        in the entry of that tree; nothing else changes. */
    ghost predicate PutCounted(frame: nat, request: Request, before: Upper, after: Upper)
      requires |local.slices| == MAX_CLASSES
    {
      var at := if request.local.Some? && request.cls < MAX_CLASSES
                then Some(local.At(request.cls, request.local.value)) else None;
      Counted(before, after, at, TreeOf(frame), Pow2(request.order), policy, trees.defaultClass)
    }

    /** `lower_put`, whose frames are carried until they are counted. */
    method PutLower(frame: nat, order: nat) returns (r: Result)
      requires Valid() && Managed(lower.frames, frame, order) && UndoUnused(lower.undo, order, true)
      modifies lower.children, lower.rows
      ensures PutMeets(lower.frames, old(lower.Memory()), lower.Memory(), frame, order, r)
      ensures TreeOf(frame) < trees.entries.Length && Nothing().For(trees.entries.Length)
      ensures Ready(if r.Ok? then Nothing().Add(TreeOf(frame), Pow2(order)) else Nothing())
      ensures r.Err? ==> lower.Memory() == old(lower.Memory())
      ensures r.Ok? ==> Block(frame, Pow2(order)) !! old(Free(lower.frames, lower.Memory()))
                        && Free(lower.frames, lower.Memory()) ==
                           old(Free(lower.frames, lower.Memory())) + Block(frame, Pow2(order))
    {
      hide Pow2, Block, Free, Padded, ChildCount, TreeCount, TreeOf, Quotient, BelowOf, Account;
      TreeBelow(lower.frames, frame);
      InsideCount(lower.frames, frame);
      PutIsClean(lower.undo, lower.Memory(), frame, order);
      Sizes(Below(), View(), Nothing(), offline, classes);
      ghost var m := lower.Memory();
      assert Inv(lower.frames, m);
      hide Account, Inv, BelowOf, RowsOk, TreeOf, UndoUnused, Pow2, ClassesOk, Free, Block, TreeCount, Managed,
        PutMeets;
      ghost var fired;
      r, fired := lower.Put(frame, order);
      PutGave(lower.frames, m, lower.Memory(), frame, order, r);
      if r.Ok? {
        GainBelow(BelowOf(lower.frames, m), View(), Nothing(), offline, classes, TreeOf(frame), Pow2(order));
      }
    }

    /** `ll_local_put` with carried frames. */
    method PutSlot(cls: nat, index: nat, t: nat, frames: nat, ghost carry: Carry) returns (ok: bool)
      requires Ready(carry) && cls < MAX_CLASSES && local.slices[cls].Has(index)
      requires t < trees.entries.Length && frames <= carry.frames[t]
      modifies local.slots
      ensures Ready(if ok then carry.Sub(t, frames) else carry)
      ensures var at, slot := local.At(cls, index), old(local.slots[local.At(cls, index)]);
              && ok == HoldsTree(slot, t)
              && local.slots[..] == if ok then old(local.slots[..])[at := slot.(free := slot.free + frames)]
                                    else old(local.slots[..])
    {
      Sizes(Below(), View(), carry, offline, classes);
      hide Account, Inv, Below, ClassesOk, TreeOf, TreeOfRow;
      ghost var at := local.At(cls, index);
      if ReservedInc(local.slots[at], t, frames).Some? {
        PutIntoSlot(Below(), View(), carry, offline, classes, at, t, frames);
      }
      ok := local.Put(cls, index, t, frames);
    }

    /** Empties one slot and gives up its tree. */
    method DrainSlot(cls: nat, index: nat)
      requires Valid() && cls < MAX_CLASSES && local.slices[cls].Has(index)
      modifies trees.entries, local.slots
      ensures Valid() && local.slots[..] == old(local.slots[..])[local.At(cls, index) := EMPTY]
      ensures GaveUp(old(trees.entries[..]), trees.entries[..], old(local.slots[local.At(cls, index)]), cls)
    {
      hide Account, Inv, Below, TreeOf, TreeOfRow, TreeUnreserve;
      ghost var at := local.At(cls, index);
      EmptySlot(Below(), View(), Nothing(), offline, classes, at);
      Sizes(Below(), View(), Nothing(), offline, classes);
      var before := local.Drain(cls, index);
      if before.present {
        ghost var slot := old(local.slots[at]);
        Returned(Nothing(), slot, trees.entries.Length);
        UnreserveTree(TreeOfRow(before.startRow), before.free, before.cls, Released(Nothing(), slot));
        UnreserveAdds(old(trees.entries[TreeOfRow(before.startRow)]), before.free, cls, policy, trees.defaultClass);
      }
    }

    /** A slot of class `cls` held this tree: it was given up for that class. */
    ghost predicate GivenUp(before: Upper, after: Upper, slot: Reserved, cls: nat)
    {
      slot.present ==>
        var p := TreeOfRow(slot.startRow);
        && p < |before.trees| == |after.trees|
        && Some(after.trees[p]) == TreeUnreserve(before.trees[p], slot.free, cls, policy, trees.defaultClass)
    }

    predicate Earlier(d: nat, k: nat, c: nat, i: nat)
    {
      d < c || (d == c && k < i)
    }

    /** One of the slots drained so far held the tree. */
    ghost predicate HeldEarlier(before: Upper, t: nat, c: nat, i: nat)
    {
      exists d, k: nat {:trigger local.slices[d].Has(k)} ::
        0 <= d < |local.slices| && local.slices[d].Has(k) && Earlier(d, k, c, i) && local.At(d, k) < |before.slots|
        && HoldsTree(before.slots[local.At(d, k)], t)
    }

    /** The slots of the classes below `c`, and the first `i` of class `c`, were drained, and nothing else changed. */
    ghost predicate DrainedTo(before: Upper, after: Upper, c: nat, i: nat)
    {
      && local.Shape() && |before.slots| == |after.slots| == local.slots.Length && |before.trees| == |after.trees|
      && (forall d, k: nat {:trigger local.slices[d].Has(k)} :: 0 <= d < |local.slices| && local.slices[d].Has(k) ==>
            if Earlier(d, k, c, i) then
              after.slots[local.At(d, k)] == EMPTY && GivenUp(before, after, before.slots[local.At(d, k)], d)
            else
              after.slots[local.At(d, k)] == before.slots[local.At(d, k)])
      && forall t :: 0 <= t < |before.trees| ==> after.trees[t] == before.trees[t] || HeldEarlier(before, t, c, i)
    }

    lemma DrainStep(before: Upper, u: Upper, after: Upper, c: nat, i: nat)
      requires DrainedTo(before, u, c, i) && c < |local.slices| && local.slices[c].Has(i) && |after.trees| == |u.trees|
      requires after.slots == u.slots[local.At(c, i) := EMPTY] &&
               GaveUp(u.trees, after.trees, u.slots[local.At(c, i)], c)
      requires forall i, j :: 0 <= i < j < |before.slots| && before.slots[i].present && before.slots[j].present ==>
                 TreeOfRow(before.slots[i].startRow) != TreeOfRow(before.slots[j].startRow)
      ensures DrainedTo(before, after, c, i + 1)
    {
      hide TreeOfRow, TreeUnreserve;
      ghost var slot, at := before.slots[local.At(c, i)], local.At(c, i);
      assert u.slots[at] == slot;
      forall t | 0 <= t < |before.trees|
        ensures after.trees[t] == before.trees[t] || HeldEarlier(before, t, c, i + 1)
        ensures u.trees[t] == before.trees[t] || HeldEarlier(before, t, c, i)
        ensures HeldEarlier(before, t, c, i) ==> HeldEarlier(before, t, c, i + 1)
      {
        if HoldsTree(slot, t) {
          assert local.slices[c].Has(i) && HeldEarlier(before, t, c, i + 1);
        }
      }
      if slot.present {
        NotEarlier(before, c, i);
      }
      forall d, k: nat {:trigger local.slices[d].Has(k)} | 0 <= d < |local.slices| && local.slices[d].Has(k)
        ensures if Earlier(d, k, c, i + 1) then
                  after.slots[local.At(d, k)] == EMPTY && GivenUp(before, after, before.slots[local.At(d, k)], d)
                else
                  after.slots[local.At(d, k)] == before.slots[local.At(d, k)]
      {
        SlotsApart(d, k, c, i);
      }
    }

    lemma SlotsApart(d: nat, k: nat, c: nat, i: nat)
      requires local.Shape() && d < |local.slices| && c < |local.slices| && local.slices[d].Has(k) &&
               local.slices[c].Has(i)
      ensures local.At(d, k) < local.slots.Length && (local.At(d, k) == local.At(c, i) <==> d == c && k == i)
    {}

    /** No slot drained earlier held the tree of a slot in use. */
    lemma NotEarlier(before: Upper, c: nat, i: nat)
      requires local.Shape() && |before.slots| == local.slots.Length && c < |local.slices| && local.slices[c].Has(i)
      requires forall i, j :: 0 <= i < j < |before.slots| && before.slots[i].present && before.slots[j].present ==>
                 TreeOfRow(before.slots[i].startRow) != TreeOfRow(before.slots[j].startRow)
      requires before.slots[local.At(c, i)].present
      ensures !HeldEarlier(before, TreeOfRow(before.slots[local.At(c, i)].startRow), c, i)
    {
      hide TreeOfRow;
      forall d, k: nat {:trigger local.slices[d].Has(k)} |
        0 <= d < |local.slices| && local.slices[d].Has(k) && Earlier(d, k, c, i) && local.At(d, k) < |before.slots|
        ensures !HoldsTree(before.slots[local.At(d, k)], TreeOfRow(before.slots[local.At(c, i)].startRow))
      {
        SlotsApart(d, k, c, i);
        ghost var x, y := local.At(d, k), local.At(c, i);
        if x < y {
          assert before.slots[x].present && before.slots[y].present ==>
                   TreeOfRow(before.slots[x].startRow) != TreeOfRow(before.slots[y].startRow);
        } else {
          assert before.slots[x].present && before.slots[y].present ==>
                   TreeOfRow(before.slots[y].startRow) != TreeOfRow(before.slots[x].startRow);
        }
      }
    }

    /** Gives up all reservations. */
    method Drain()
      requires Valid()
      modifies trees.entries, local.slots
      ensures Valid() && Drained() && forall t :: 0 <= t < trees.entries.Length ==> !trees.entries[t].reserved
      ensures forall t :: 0 <= t < trees.entries.Length && t !in offline ==>
                trees.entries[t].free == FreeOfTree(lower.frames, lower.Memory(), t)
      ensures forall d, k: nat {:trigger local.slices[d].Has(k)} ::
                0 <= d < MAX_CLASSES && local.slices[d].Has(k) ==>
                  GivenUp(old(View()), View(), old(local.slots[..])[local.At(d, k)], d)
      ensures forall t :: 0 <= t < trees.entries.Length && !old(trees.entries[t]).reserved ==>
                trees.entries[t] == old(trees.entries[t])
      ensures Ordered(policy) ==>
                forall d, k: nat {:trigger local.slices[d].Has(k)} ::
                  0 <= d < MAX_CLASSES && local.slices[d].Has(k) ==>
                    Fallen(View(), old(local.slots[..])[local.At(d, k)], d)
    {
      hide Valid, Inv, Free, Layout, DrainedTo, Fallen;
      ValidLayout();
      ghost var u := View();
      Holders();
      NothingDrained(u);
      for c := 0 to MAX_CLASSES
        invariant Valid() && DrainedTo(u, View(), c, 0)
      {
        var len := local.ClassLocals(c);
        if len.None? {
          ClassDrained(u, View(), c, 0);
          continue;
        }
        for i := 0 to len.value
          invariant Valid() && DrainedTo(u, View(), c, i)
        {
          assert local.slices[c].Has(i);
          ghost var before := View();
          DrainSlot(c, i);
          DrainStep(u, before, View(), c, i);
        }
        ClassDrained(u, View(), c, len.value);
      }
      AllDrained(u, View());
      NothingReserved();
      if Ordered(policy) {
        forall d, k: nat {:trigger local.slices[d].Has(k)} | 0 <= d < MAX_CLASSES && local.slices[d].Has(k)
          ensures Fallen(View(), u.slots[local.At(d, k)], d)
        {
          GivenUpFalls(u, View(), u.slots[local.At(d, k)], d);
        }
      }
    }

    /** The tree of the slot has a class that is not above the one of the slot, unless it is whole. */
    ghost predicate Fallen(after: Upper, slot: Reserved, cls: nat)
    {
      slot.present ==>
        var p := TreeOfRow(slot.startRow);
        p < |after.trees| && (after.trees[p].free == TREE_SIZE || after.trees[p].cls <= cls)
    }

    lemma GivenUpFalls(before: Upper, after: Upper, slot: Reserved, cls: nat)
      requires Valid() && Ordered(policy) && cls < MAX_CLASSES && GivenUp(before, after, slot, cls)
      ensures Fallen(after, slot, cls)
    {
      hide Inv, Account, Ordered, RowsOk;
      if slot.present {
        ClassesAfter(before.trees[TreeOfRow(slot.startRow)], slot.free, cls, policy, trees.defaultClass);
      }
    }

    lemma NothingDrained(u: Upper)
      requires local.Shape() && |u.slots| == local.slots.Length
      ensures DrainedTo(u, u, 0, 0)
    {}

    lemma ClassDrained(before: Upper, u: Upper, c: nat, n: nat)
      requires DrainedTo(before, u, c, n) && c < |local.slices| &&
               (local.slices[c].len.Some? ==> n == local.slices[c].len.value)
      ensures DrainedTo(before, u, c + 1, 0)
    {
      forall t | 0 <= t < |before.trees|
        ensures HeldEarlier(before, t, c, n) ==> HeldEarlier(before, t, c + 1, 0)
      {
      }
    }

    lemma AllDrained(before: Upper, u: Upper)
      requires DrainedTo(before, u, MAX_CLASSES, 0)
      ensures forall d, k: nat {:trigger local.slices[d].Has(k)} :: 0 <= d < MAX_CLASSES && local.slices[d].Has(k) ==>
                && local.At(d, k) < |before.slots| == |u.slots| && u.slots[local.At(d, k)] == EMPTY
                && GivenUp(before, u, before.slots[local.At(d, k)], d)
      ensures |u.trees| == |before.trees|
      ensures forall t :: 0 <= t < |u.trees| ==>
                u.trees[t] == before.trees[t] || exists i :: 0 <= i < |before.slots| && HoldsTree(before.slots[i], t)
    {
      hide GivenUp, TreeOfRow;
      forall t | 0 <= t < |u.trees| && HeldEarlier(before, t, MAX_CLASSES, 0)
        ensures exists i :: 0 <= i < |before.slots| && HoldsTree(before.slots[i], t)
      {
        ghost var d, k: nat :| 0 <= d < |local.slices| && local.slices[d].Has(k) && local.At(d, k) < |before.slots| &&
                               HoldsTree(before.slots[local.At(d, k)], t);
      }
    }

    /** Different slots hold different reserved trees. */
    lemma Holders()
      requires Valid()
      ensures forall i, j :: 0 <= i < j < local.slots.Length && local.slots[i].present && local.slots[j].present ==>
                TreeOfRow(local.slots[i].startRow) != TreeOfRow(local.slots[j].startRow)
      ensures forall i :: 0 <= i < local.slots.Length && local.slots[i].present ==>
                TreeOfRow(local.slots[i].startRow) < trees.entries.Length &&
                trees.entries[TreeOfRow(local.slots[i].startRow)].reserved
    {
      hide Account, Inv, Below, TreeOfRow;
      DistinctHolders(Below(), View(), Nothing(), offline, classes);
    }

    /** When the slots of all classes are empty, no tree is reserved, and every entry that is not
        offline counts all free frames of its tree. */
    lemma NothingReserved()
      requires Valid()
      requires forall d, j: nat {:trigger local.slices[d].Has(j)} ::
                 0 <= d < MAX_CLASSES && local.slices[d].Has(j) ==> local.slots[local.At(d, j)] == EMPTY
      ensures Drained() && forall t :: 0 <= t < trees.entries.Length ==> !trees.entries[t].reserved
      ensures forall t :: 0 <= t < trees.entries.Length && t !in offline ==>
                trees.entries[t].free == FreeOfTree(lower.frames, lower.Memory(), t)
    {
      hide Inv, Free, TreeCount;
      forall i | 0 <= i < local.slots.Length
        ensures !local.slots[i].present
      {
      }
      forall t | 0 <= t < trees.entries.Length
        ensures !trees.entries[t].reserved
        ensures t !in offline ==> trees.entries[t].free == FreeOfTree(lower.frames, lower.Memory(), t)
      {
        NothingHeld(View().slots, t);
        BelowIs(lower.frames, lower.Memory(), t);
        assert TreeAccount(Below()[t], View().trees[t], View().slots, t, Nothing().frames[t], Nothing().tokens[t],
                           t !in offline, classes);
      }
    }

    // ---- changing trees ----

    /** No counter exceeds the tree size, and no entry has a class that trees cannot have. */
    lemma EntriesFit()
      requires Valid()
      ensures forall t :: 0 <= t < trees.entries.Length ==>
              trees.entries[t].free <= TREE_SIZE && trees.entries[t].cls in classes
    {
      hide Inv, BelowOf, TreeCount;
      ghost var below, u := Below(), View();
      forall t | 0 <= t < trees.entries.Length
        ensures trees.entries[t].free <= TREE_SIZE && trees.entries[t].cls in classes
      {
        assert TreeAccount(below[t], u.trees[t], u.slots, t, Nothing().frames[t], Nothing().tokens[t], t !in offline,
                           classes);
      }
    }

    /** `trees_change_at`: the counter for `Online` comes from the lower allocator. */
    method ChangeAt(idx: nat, matcher: Matcher, change: Change) returns (r: Result)
      requires Valid() && idx < trees.entries.Length
      modifies trees.entries, `offline, `classes
      ensures Valid()
      ensures r == if Meets(old(trees.entries[idx]), matcher, change) then Result.Ok(0, 0) else Err(Error.Memory)
      ensures r.Ok? ==> trees.entries[..] == old(trees.entries[..])[idx :=
                          Changed(old(trees.entries[idx]), change, FreeOfTree(lower.frames, lower.Memory(), idx))]
      ensures r.Err? ==> trees.entries[..] == old(trees.entries[..])
      ensures r.Ok? ==> offline == match change.operation { case Offline => old(offline) + {idx}
                                                            case Online => old(offline) - {idx}
                                                            case Keep => old(offline) }
      ensures r.Err? ==> offline == old(offline) && classes == old(classes)
      ensures r.Ok? ==> classes == WithClass(old(classes), change.cls)
    {
      hide Account, Inv, Free, BelowOf, TreeOf, RowsOk, TreeFrame, TreeCount, FreeOfTree;
      ValidLayout();
      Sizes(Below(), View(), Nothing(), offline, classes);
      var onlineFree := 0;
      if change.operation.Online? {
        TreeStart(lower.frames, idx);
        onlineFree := FreeFramesAt(TreeFrame(idx));
      }
      ghost var t := trees.entries[idx];
      ghost var count := FreeOfTree(lower.frames, lower.Memory(), idx);
      ChangeIff(t, matcher, change, if change.operation.Online? then count else 0);
      var cell := new TreeCell(trees.entries[idx]);
      var ok := cell.Change(matcher.cls, matcher.free, change.cls, change.operation, onlineFree);
      if !ok {
        return Err(Error.Memory);
      }
      ChangeAccount(lower.frames, lower.Memory(), View(), Nothing(), offline, classes, idx, matcher, change);
      trees.entries[idx] := Tree(cell.reserved, cell.cls, cell.free);
      offline := AfterChange(offline, idx, change.operation);
      classes := WithClass(classes, change.cls);
      return Result.Ok(0, 0);
    }

    /** `llfree_change_tree` with a tree: that tree is changed exactly if it exists and meets the
        conditions. Without one, the first tree in the order of the visits that meets them. */
    method ChangeTree(matcher: Matcher, change: Change) returns (r: Result)
      requires Valid()
      modifies trees.entries, `offline, `classes
      ensures Valid() && (classes == old(classes) || classes == WithClass(old(classes), change.cls))
      ensures r.Err? ==>
              r == Err(Error.Memory) && trees.entries[..] == old(trees.entries[..]) && offline == old(offline)
      ensures matcher.id.Some? ==>
                var i := matcher.id.value;
                && (r.Ok? <==>
                    matcher.free <= TREE_SIZE && i < trees.entries.Length &&
                    Meets(old(trees.entries[i]), matcher, change))
                && (r.Ok? ==> trees.entries[..] == old(trees.entries[..])[i :=
                                Changed(old(trees.entries[i]), change, FreeOfTree(lower.frames, lower.Memory(), i))])
      ensures matcher.id.None? ==>
                (r.Ok? <==> matcher.free <= TREE_SIZE
                            && exists t ::
                                 0 <= t < trees.entries.Length && Meets(old(trees.entries[t]), matcher, change))
      ensures matcher.id.None? && r.Ok? ==>
                exists k: nat :: k < trees.entries.Length && FirstMeets(old(trees.entries[..]), matcher, change, k) &&
                                 var i := Visit(0, trees.entries.Length, k);
                                 trees.entries[..] == old(trees.entries[..])[i :=
                                   Changed(old(trees.entries[i]), change, FreeOfTree(lower.frames, lower.Memory(), i))]
    {
      hide Valid, Inv, Free, Visit, Meets, Changed, FreeOfTree, FirstMeets;
      ValidLayout();
      if matcher.free > TREE_SIZE {
        EntriesFit();
        NoneMeets(trees.entries[..], matcher, change);
        return Err(Error.Memory);
      }
      if matcher.id.Some? {
        if matcher.id.value >= trees.entries.Length {
          return Err(Error.Memory);
        }
        r := ChangeAt(matcher.id.value, matcher, change);
        return;
      }
      ghost var before := trees.entries[..];
      for i := 0 to trees.entries.Length
        invariant Valid() && trees.entries[..] == before && offline == old(offline) && classes == old(classes)
        invariant forall k: nat :: k < i ==> !Meets(before[Visit(0, |before|, k)], matcher, change)
      {
        var idx := Visit(0, trees.entries.Length, i);
        FirstIs(before, matcher, change, i);
        r := ChangeAt(idx, matcher, change);
        if r.Ok? {
          return;
        }
      }
      NoneMet(before, matcher, change);
      return Err(Error.Memory);
    }

    // ---- statistics and validation ----

    /** Trees that are not offline are counted exactly, and the others as far as their accounts are exact. */
    lemma Retallied()
      requires Valid()
      ensures |View().trees| == TreeCount(lower.frames)
      ensures forall t :: 0 <= t < |View().trees| && t !in offline ==> Exact(lower.frames, lower.Memory(), View(), t)
      ensures Tallied(lower.frames, lower.Memory(), View()) ==> Account(Below(), View(), Nothing(), {}, classes)
    {
      hide Inv, FreeOfTree, TreeCount, SlotFrames, SlotCount;
      ghost var m, u := lower.Memory(), View();
      forall t | 0 <= t < |u.trees|
        ensures t !in offline ==> Exact(lower.frames, m, u, t)
        ensures Exact(lower.frames, m, u, t) ==>
                  TreeAccount(Below()[t], u.trees[t], u.slots, t, Nothing().frames[t], Nothing().tokens[t], true,
                              classes)
      {
        BelowIs(lower.frames, m, t);
        AccountAt(t);
      }
    }

    /** The account of one tree. */
    lemma AccountAt(t: nat)
      requires Valid() && t < trees.entries.Length
      ensures t < |Below()| && t < |Nothing().frames| && t < |Nothing().tokens|
      ensures TreeAccount(Below()[t], View().trees[t], View().slots, t, Nothing().frames[t], Nothing().tokens[t],
                          t !in offline, classes)
    {
      hide Inv, FreeOfTree, TreeCount, TreeAccount;
    }

    /** The frames of `llfree_tree_stats`: never more than are free, and exactly those of
        `llfree_stats` if all trees are counted exactly. */
    method CountFrames() returns (n: nat)
      requires Valid()
      ensures n <= |Free(lower.frames, lower.Memory())|
      ensures Tallied(lower.frames, lower.Memory(), View()) ==> n == |Free(lower.frames, lower.Memory())|
      ensures offline == {} ==> n == |Free(lower.frames, lower.Memory())|
    {
      hide Account, Inv, Free, BelowOf, TreeCount, SlotSum, EntryFrames, Exact;
      ghost var at;
      n, at := local.CountFrames();
      var k := trees.CountFrames();
      n := n + k;
      TotalsAgree(lower.frames, lower.Memory(), View(), Nothing(), offline, classes, at);
      Retallied();
      if Tallied(lower.frames, lower.Memory(), View()) {
        TotalsAgree(lower.frames, lower.Memory(), View(), Nothing(), {}, classes, at);
      }
    }

    /** `llfree_stats_at` for the tree of a frame. */
    method FreeFramesAt(frame: nat) returns (n: nat)
      requires Valid() && frame < lower.frames
      ensures n == FreeOfTree(lower.frames, lower.Memory(), TreeOf(frame))
    {
      hide Account, Inv, Free, BelowOf, TreeCount, FreeOfTree, FreeIn, ClassesOk, RowsOk;
      TreeStats(lower.frames, lower.Memory(), frame);
      var stats := lower.StatisticsAt(frame, TREE_ORDER);
      n := stats.freeFrames;
    }

    /** The checks of `llfree_validate`: none of them fails exactly if all trees have one of the classes and are
        counted exactly, as all are that are not offline. */
    method Validate(numClasses: nat) returns (ok: bool)
      requires Valid()
      ensures ok <==> Sound(lower.frames, lower.Memory(), View(), numClasses)
      ensures forall t :: 0 <= t < |View().trees| && t !in offline ==> Exact(lower.frames, lower.Memory(), View(), t)
    {
      hide Valid, Account, Inv, Free, FreeOfTree, Layout, Exact, EntryChecked, EntriesChecked, SlotsChecked, Sound,
        Tallied;
      ValidLayout();
      Retallied();
      var stats := lower.Statistics();
      var fast := CountFrames();
      ok := stats.freeFrames == fast;
      var entries := ValidateEntries(numClasses);
      var slots, at := ValidateSlots(numClasses);
      AllChecked(numClasses, at);
      ok := ok && entries && slots;
    }

    method ValidateEntries(numClasses: nat) returns (ok: bool)
      requires Valid()
      ensures ok <==> EntriesChecked(lower.frames, lower.Memory(), View(), |View().trees|, numClasses)
    {
      hide Valid, Account, Inv, Free, FreeOfTree, Layout, Exact, EntryChecked;
      ghost var m, u := lower.Memory(), View();
      ok := true;
      for t := 0 to trees.entries.Length
        invariant lower.Memory() == m && View() == u && |u.trees| == trees.entries.Length
        invariant ok <==> EntriesChecked(lower.frames, m, u, t, numClasses)
      {
        var checked := ValidateEntry(t, numClasses);
        ok := ok && checked;
      }
    }

    method ValidateEntry(t: nat, numClasses: nat) returns (ok: bool)
      requires Valid() && t < trees.entries.Length
      ensures ok <==> EntryChecked(lower.frames, lower.Memory(), View(), t, numClasses)
    {
      hide Valid, Account, Inv, Free, FreeOfTree, Layout, Exact;
      ValidLayout();
      EntriesFit();
      var tree := trees.entries[t];
      ok := tree.free <= TREE_SIZE && tree.cls < numClasses;
      if !tree.reserved {
        UnreservedExact(t);
        TreeStart(lower.frames, t);
        var n := FreeFramesAt(TreeFrame(t));
        ok := ok && n == tree.free;
      }
    }

    /** `ll_local_validate`. The slots of all classes are at the places in `at`. */
    method ValidateSlots(numClasses: nat) returns (ok: bool, ghost at: set<nat>)
      requires Valid()
      ensures ok <==> SlotsChecked(lower.frames, lower.Memory(), View(), at, numClasses)
      ensures forall i: nat :: local.InSlice(i) ==> i in at
    {
      hide Valid, Account, Inv, Free, FreeOfTree, Layout, SlotChecked, Locals.Local.Places;
      ValidLayout();
      ghost var m, u := lower.Memory(), View();
      ok, at := true, {};
      local.NoPlaces();
      for c := 0 to MAX_CLASSES
        invariant lower.Memory() == m && View() == u && local.Places(at, c, 0)
        invariant ok <==> SlotsChecked(lower.frames, m, u, at, numClasses)
      {
        var len := local.slices[c].len;
        var j := 0;
        while len.Some? && j < len.value
          invariant len.Some? ==> j <= len.value
          invariant lower.Memory() == m && View() == u && local.Places(at, c, j)
          invariant ok <==> SlotsChecked(lower.frames, m, u, at, numClasses)
        {
          assert local.slices[c].Has(j);
          local.NextPlace(at, c, j);
          var i := local.At(c, j);
          at := at + {i};
          var checked := ValidateSlot(i, numClasses);
          ok := ok && checked;
          j := j + 1;
        }
        local.NextClass(at, c, j);
      }
      local.AllPlaces(at);
    }

    /** `validate_tree`, for a slot in use. */
    method ValidateSlot(i: nat, numClasses: nat) returns (ok: bool)
      requires Valid() && i < local.slots.Length
      ensures ok <==> SlotChecked(lower.frames, lower.Memory(), View(), i, numClasses)
    {
      hide Valid, Account, Inv, Free, FreeOfTree, Layout, Exact;
      ValidLayout();
      var res := local.slots[i];
      ok := !res.present || res.free <= TREE_SIZE;
      if res.present {
        SlotExact(i);
        var tree := trees.entries[TreeOfRow(res.startRow)];
        var n := FreeFramesAt(64 * res.startRow);
        ok := ok && tree.reserved && tree.cls < numClasses && tree.free + res.free <= TREE_SIZE &&
            n == tree.free + res.free;
      }
    }

    /** The checks of all entries and slots cover all trees. */
    lemma AllChecked(numClasses: nat, at: set<nat>)
      requires Valid() && forall i: nat :: local.InSlice(i) ==> i in at
      ensures EntriesChecked(lower.frames, lower.Memory(), View(), |View().trees|, numClasses) &&
              SlotsChecked(lower.frames, lower.Memory(), View(), at, numClasses) <==>
              Sound(lower.frames, lower.Memory(), View(), numClasses)
      ensures Sound(lower.frames, lower.Memory(), View(), numClasses) ==>
                Tallied(lower.frames, lower.Memory(), View())
    {
      hide Inv, Account, FreeOfTree, TreeCount, Exact, BelowOf;
      ghost var m, u := lower.Memory(), View();
      if EntriesChecked(lower.frames, m, u, |u.trees|, numClasses) && SlotsChecked(lower.frames, m, u, at, numClasses) {
        forall t | 0 <= t < |u.trees|
          ensures u.trees[t].cls < numClasses && Exact(lower.frames, m, u, t)
        {
          assert EntryChecked(lower.frames, m, u, t, numClasses);
          if u.trees[t].reserved {
            var i := HolderOf(t);
            assert SlotChecked(lower.frames, m, u, i, numClasses);
          }
        }
      }
      if Sound(lower.frames, m, u, numClasses) {
        forall i | i in at
          ensures SlotChecked(lower.frames, m, u, i, numClasses)
        {
          if i < local.slots.Length && local.slots[i].present {
            SlotExact(i);
          }
        }
      }
    }

    /** The slot that holds a reserved tree. */
    lemma HolderOf(t: nat) returns (i: nat)
      requires Valid() && t < trees.entries.Length && trees.entries[t].reserved
      ensures i < local.slots.Length && HoldsTree(local.slots[i], t) && local.InSlice(i)
    {
      hide Inv, FreeOfTree, TreeCount, Account;
      ghost var slots := View().slots;
      AccountAt(t);
      if forall j :: 0 <= j < |slots| ==> !HoldsTree(slots[j], t) {
        NothingHeld(slots, t);
      }
      i :| 0 <= i < |slots| && HoldsTree(slots[i], t);
    }

    /** An entry that is not reserved is counted alone. */
    lemma UnreservedExact(t: nat)
      requires Valid() && t < trees.entries.Length && !trees.entries[t].reserved
      ensures t < TreeCount(lower.frames)
      ensures Exact(lower.frames, lower.Memory(), View(), t) <==>
                trees.entries[t].free == FreeOfTree(lower.frames, lower.Memory(), t)
    {
      hide Inv, FreeOfTree, TreeCount, Account;
      AccountAt(t);
      UnheldSlots(View().slots, t);
    }

    /** A slot in use is counted together with the entry of its tree. */
    lemma SlotExact(i: nat)
      requires Valid() && i < local.slots.Length && local.slots[i].present
      ensures 64 * local.slots[i].startRow < lower.frames
      ensures var t := TreeOfRow(local.slots[i].startRow);
              && t < trees.entries.Length && trees.entries[t].reserved && TreeOf(64 * local.slots[i].startRow) == t
              && trees.entries[t].free + local.slots[i].free <= TREE_SIZE
              && (Exact(lower.frames, lower.Memory(), View(), t) <==>
                    trees.entries[t].free + local.slots[i].free == FreeOfTree(lower.frames, lower.Memory(), t))
    {
      hide Inv, FreeOfTree, TreeCount;
      ghost var t := TreeOfRow(local.slots[i].startRow);
      AccountAt(t);
      OneHolder(View().slots, i, t);
    }

    /** With the movable policy and without offline trees, a single frame is refused right after the slots were
        drained exactly if no frame is free. */
    method DrainAndGet(cores: nat, request: Request) returns (r: Result)
      requires Valid() && Follows(ClassingMovable(cores)) && cores > 0 && offline == {}
      requires request.order == 0 && request.cls < 3 && (request.local.Some? ==> request.local.value < cores)
      modifies `trace, lower.children, lower.rows, trees.entries, local.slots
      ensures Valid() && Follows(ClassingMovable(cores))
      ensures r == Err(Error.Memory) <==> old(Free(lower.frames, lower.Memory())) == {}
    {
      hide Valid, Follows, Layout, Sure, Acceptable, Drained, Exhausted, Ordered, Inv, Free, Block, Pow2, Serves,
        ClassesOk;
      ValidLayout();
      MovableServes(cores);
      Drain();
      assert Sure(0) && Acceptable(request, None);
      r := Get(None, request);
    }
  }
}
