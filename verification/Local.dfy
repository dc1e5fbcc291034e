/** The slots that hold reserved trees (src/local.c, src/local.h). */
module Locals {
  import opened Base
  import opened Policies

  /** `reserved_t` */
  datatype Reserved = Reserved(present: bool, free: nat, startRow: nat)

  const EMPTY: Reserved := Reserved(false, 0, 0)

  /** The start row has 64 - 28 - 1 bits. */
  const ROW_LIMIT: nat := 0x8_0000_0000

  function TreeOfRow(row: nat): nat
  {
    TreeOf(64 * row)
  }

  /** `row_from_tree` */
  function RowFromTree(t: nat): nat
  {
    Quotient(t * TREE_SIZE, 64)
  }

  function NewReserved(present: bool, free: nat, startRow: nat): Reserved
  {
    Reserved(present, free, startRow % ROW_LIMIT)
  }

  /** Rows are stored unchanged exactly when there are at most 2^41 frames. */
  lemma RowsFit(frames: nat)
    ensures frames <= 64 * ROW_LIMIT <==> forall f: nat :: f < frames ==>
            NewReserved(true, 0, f / 64).startRow == f / 64
  {
    if frames > 64 * ROW_LIMIT {
      var f := 64 * ROW_LIMIT;
      assert NewReserved(true, 0, f / 64).startRow == 0;
    }
  }

  function ReservedDec(r: Reserved, tree: Option<nat>, frames: nat): Option<Reserved>
  {
    if !r.present || (tree.Some? && TreeOfRow(r.startRow) != tree.value) || r.free < frames then None
    else Some(r.(free := r.free - frames))
  }

  function ReservedInc(r: Reserved, tree: nat, frames: nat): Option<Reserved>
  {
    if !r.present || TreeOfRow(r.startRow) != tree then None else Some(r.(free := r.free + frames))
  }

  function ReservedSetStart(r: Reserved, row: nat): Option<Reserved>
  {
    if !r.present || TreeOfRow(r.startRow) != TreeOfRow(row) then None else Some(r.(startRow := row % ROW_LIMIT))
  }

  function ReservedTake(r: Reserved, tree: Option<nat>, frames: nat): Option<Reserved>
  {
    if ReservedDec(r, tree, frames).Some? then Some(EMPTY) else None
  }

  /** The copy of one slot that a callback of `atom_update` works on. */
  class ReservedCell {
    var present: bool
    var free: nat
    var startRow: nat

    constructor (r: Reserved)
      ensures Value() == r
    {
      present, free, startRow := r.present, r.free, r.startRow;
    }

    function Value(): Reserved
      reads this
    {
      Reserved(present, free, startRow)
    }

    method Assign(r: Reserved)
      modifies this
      ensures Value() == r
    {
      present, free, startRow := r.present, r.free, r.startRow;
    }

    method Dec(tree: Option<nat>, frames: nat) returns (ok: bool)
      modifies this
      ensures ok <==> ReservedDec(old(Value()), tree, frames).Some?
      ensures Value() == if ok then ReservedDec(old(Value()), tree, frames).value else old(Value())
    {
      if !present {
        return false;
      }
      if tree.Some? && TreeOfRow(startRow) != tree.value {
        return false;
      }
      if free < frames {
        return false;
      }
      free := free - frames;
      return true;
    }

    /** The source asserts that the counter does not exceed the tree size. */
    method Inc(tree: nat, frames: nat) returns (ok: bool)
      requires ReservedInc(Value(), tree, frames).Some? ==> free + frames <= TREE_SIZE
      modifies this
      ensures ok <==> ReservedInc(old(Value()), tree, frames).Some?
      ensures Value() == if ok then ReservedInc(old(Value()), tree, frames).value else old(Value())
    {
      if !present || TreeOfRow(startRow) != tree {
        return false;
      }
      free := free + frames;
      return true;
    }

    method SetStart(row: nat) returns (ok: bool)
      modifies this
      ensures ok <==> ReservedSetStart(old(Value()), row).Some?
      ensures Value() == if ok then ReservedSetStart(old(Value()), row).value else old(Value())
    {
      if !present || TreeOfRow(startRow) != TreeOfRow(row) {
        return false;
      }
      startRow := row % ROW_LIMIT;
      return true;
    }

    method Take(tree: Option<nat>, frames: nat) returns (ok: bool)
      modifies this
      ensures ok <==> ReservedTake(old(Value()), tree, frames).Some?
      ensures Value() == if ok then EMPTY else old(Value())
    {
      ok := Dec(tree, frames);
      if ok {
        Assign(NewReserved(false, 0, 0));
      }
    }
  }

  /** `local_result_t` */
  datatype LocalResult = LocalResult(success: bool, present: bool, cls: nat, free: nat, startRow: nat)

  function MakeResult(success: bool, cls: nat, before: Reserved): LocalResult
  {
    LocalResult(success, before.present, cls, before.free, before.startRow)
  }

  /** `demote_any_result_t` */
  datatype DemoteResult =
    | NotFound
    | Demoted(row: nat, unreserve: bool, unresRow: nat, unresClass: nat, unresFree: nat)

  /** The slots of one class: where they start and how many there are. */
  datatype Slice = Slice(offset: nat, len: Option<nat>) {
    predicate Has(i: nat) {
      len.Some? && i < len.value
    }
  }

  /** Slices lie inside the slots and do not overlap. */
  ghost predicate Sliced(slices: seq<Slice>, total: nat)
  {
    && |slices| == MAX_CLASSES
    && (forall c :: 0 <= c < |slices| && slices[c].len.Some? ==> slices[c].offset + slices[c].len.value <= total)
    && forall c, d, i, j {:trigger slices[c].Has(i), slices[d].Has(j)} ::
         0 <= c < |slices| && 0 <= d < |slices| && c != d && slices[c].Has(i) && slices[d].Has(j) ==>
           slices[c].offset + i != slices[d].offset + j
  }

  /** No slot of an allowed class meets the test. */
  ghost predicate NoneStolen(slices: seq<Slice>, slots: seq<Reserved>, cls: nat, tree: Option<nat>, frames: nat,
                             policy: PolicyFn)
    requires Sliced(slices, |slots|)
  {
    forall c, j: nat {:trigger slices[c].Has(j)} ::
      0 <= c < |slices| && slices[c].Has(j) &&
      (policy(cls, c, frames).kind == Match || policy(cls, c, frames).kind == Steal) ==>
        ReservedDec(slots[slices[c].offset + j], tree, frames).None?
  }

  ghost predicate NoneDemoted(slices: seq<Slice>, slots: seq<Reserved>, cls: nat, tree: Option<nat>, frames: nat,
                              policy: PolicyFn)
    requires Sliced(slices, |slots|)
  {
    forall c, j: nat {:trigger slices[c].Has(j)} ::
      0 <= c < |slices| && c != cls && slices[c].Has(j) && policy(cls, c, frames).kind == Demote ==>
        ReservedDec(slots[slices[c].offset + j], tree, frames).None?
  }

  /** What is tried in round `k` of `n` rounds: `start`, `start + 1`, ..., wrapping around. */
  function Turn(start: nat, n: nat, k: nat): (x: nat)
    requires n > 0
    ensures x < n
  {
    (start + k) % n
  }

  /** The round in which `x` is tried. */
  function TurnOf(start: nat, n: nat, x: nat): (k: nat)
    requires x < n
    ensures k < n
  {
    (x + n - start % n) % n
  }

  lemma RoundTrip(start: nat, n: nat, x: nat)
    requires x < n
    ensures Turn(start, n, TurnOf(start, n, x)) == x
  {
    var o := start % n;
    ModWrap(x + n - o, n);
    var k := TurnOf(start, n, x);
    ModWrap(o + k, n);
    AddMod(start, n, k);
  }

  lemma OtherClass(cls: nat, i: nat)
    requires cls < MAX_CLASSES && 1 <= i < MAX_CLASSES
    ensures Turn(cls, MAX_CLASSES, i) != cls
  {}

  lemma AddMod(start: nat, n: nat, k: nat)
    requires n > 0
    ensures (start + k) % n == (start % n + k) % n
  {
    var y := start % n + k;
    DivBounds(start, n);
    DivBounds(y, n);
    MulAdd(start / n, y / n, n);
    MulStep(start / n + y / n, n);
    MulStep(y / n, n);
    DivIs(start + k, n, start / n + y / n);
  }

  /** The frames of the slots at the places in `at`. */
  function SlotSum(slots: seq<Reserved>, at: set<nat>): nat
  {
    if slots == [] then 0
    else
      var n := |slots| - 1;
      SlotSum(slots[..n], at) + if n in at && slots[n].present then slots[n].free else 0
  }

  lemma {:induction false} SlotSumMore(slots: seq<Reserved>, at: set<nat>, i: nat)
    requires i < |slots| && i !in at
    ensures SlotSum(slots, at + {i}) == SlotSum(slots, at) + if slots[i].present then slots[i].free else 0
  {
    var n := |slots| - 1;
    if i < n {
      SlotSumMore(slots[..n], at, i);
    } else {
      SlotSumOutside(slots[..n], at, i);
    }
  }

  lemma {:induction false} SlotSumOutside(slots: seq<Reserved>, at: set<nat>, i: nat)
    requires i >= |slots|
    ensures SlotSum(slots, at + {i}) == SlotSum(slots, at)
  {
    if slots != [] {
      SlotSumOutside(slots[..|slots| - 1], at, i);
    }
  }

  lemma {:induction false} SlotSumEmpty(slots: seq<Reserved>)
    ensures SlotSum(slots, {}) == 0
  {
    if slots != [] {
      SlotSumEmpty(slots[..|slots| - 1]);
    }
  }

  function Total(conf: seq<ClassConf>): nat
  {
    if conf == [] then 0 else Total(conf[..|conf| - 1]) + conf[|conf| - 1].count
  }

  /** How many slots a class has: the count of its last entry. */
  function CountOf(conf: seq<ClassConf>, c: nat): Option<nat>
  {
    if conf == [] then None
    else if conf[|conf| - 1].cls == c then Some(conf[|conf| - 1].count)
    else CountOf(conf[..|conf| - 1], c)
  }

  class Local {
    const slots: array<Reserved>
    const slices: seq<Slice>

    ghost predicate Shape()
    {
      Sliced(slices, slots.Length)
    }

    /** `ll_local_init`: a class that is configured twice keeps the slots of its last entry. */
    constructor (conf: seq<ClassConf>)
      requires forall i :: 0 <= i < |conf| ==> conf[i].cls < MAX_CLASSES
      ensures Shape() && fresh(slots) && slots.Length == Total(conf)
      ensures forall i :: 0 <= i < slots.Length ==> slots[i] == EMPTY
      ensures forall c :: 0 <= c < MAX_CLASSES ==> slices[c].len == CountOf(conf, c)
    {
      var total := 0;
      for i := 0 to |conf|
        invariant total == Total(conf[..i])
      {
        assert conf[..i + 1][..i] == conf[..i];
        total := total + conf[i].count;
      }
      assert conf[..|conf|] == conf;
      var all := new Reserved[total](i => EMPTY);
      var offset: nat := 0;
      var made := seq(MAX_CLASSES, i => Slice(0, None));
      for i := 0 to |conf|
        invariant forall k :: 0 <= k < all.Length ==> all[k] == EMPTY
        invariant Sliced(made, offset) && offset == Total(conf[..i])
        invariant forall c :: 0 <= c < MAX_CLASSES ==> made[c].len == CountOf(conf[..i], c)
      {
        assert conf[..i + 1][..i] == conf[..i];
        SliceMore(made, offset, conf[i].cls, conf[i].count);
        made := made[conf[i].cls := Slice(offset, Some(conf[i].count))];
        offset := offset + conf[i].count;
      }
      slots := all;
      slices := made;
    }

    /** `ll_local_class_locals` */
    function ClassLocals(cls: nat): Option<nat>
      requires |slices| == MAX_CLASSES
    {
      if cls >= MAX_CLASSES then None else slices[cls].len
    }

    /** The place of a slot in the array. */
    function At(cls: nat, index: nat): nat
      requires cls < |slices|
    {
      slices[cls].offset + index
    }

    /** The slot belongs to class `c`. */
    ghost predicate InClass(i: nat, c: nat)
    {
      c < |slices| && exists j: nat {:trigger slices[c].Has(j)} :: slices[c].Has(j) && slices[c].offset + j == i
    }

    /** The slot belongs to a class. */
    ghost predicate InSlice(i: nat)
    {
      exists c, j: nat {:trigger slices[c].Has(j)} :: 0 <= c < |slices| && slices[c].Has(j) && slices[c].offset + j == i
    }

    lemma AtInSlice(cls: nat, index: nat)
      requires cls < |slices| && slices[cls].Has(index)
      ensures InSlice(At(cls, index))
    {}

    method Get(cls: nat, index: nat, tree: Option<nat>, frames: nat) returns (r: LocalResult)
      requires Shape() && cls < MAX_CLASSES && slices[cls].Has(index)
      modifies slots
      ensures var s := ReservedDec(old(slots[At(cls, index)]), tree, frames);
              && r == MakeResult(s.Some?, cls, old(slots[At(cls, index)]))
              && slots[..] == if s.Some? then old(slots[..])[At(cls, index) := s.value] else old(slots[..])
    {
      var at := At(cls, index);
      var before := slots[at];
      var cell := new ReservedCell(before);
      var ok := cell.Dec(tree, frames);
      if ok {
        slots[at] := Reserved(cell.present, cell.free, cell.startRow);
      }
      r := MakeResult(ok, cls, before);
    }

    method Put(cls: nat, index: nat, tree: nat, frames: nat) returns (ok: bool)
      requires Shape() && cls < MAX_CLASSES && slices[cls].Has(index)
      requires ReservedInc(slots[At(cls, index)], tree, frames).Some? ==>
               slots[At(cls, index)].free + frames <= TREE_SIZE
      modifies slots
      ensures var s := ReservedInc(old(slots[At(cls, index)]), tree, frames);
              && ok == s.Some?
              && slots[..] == if ok then old(slots[..])[At(cls, index) := s.value] else old(slots[..])
    {
      var at := At(cls, index);
      var cell := new ReservedCell(slots[at]);
      ok := cell.Inc(tree, frames);
      if ok {
        slots[at] := Reserved(cell.present, cell.free, cell.startRow);
      }
    }

    method SetStart(cls: nat, index: nat, row: nat) returns (r: LocalResult)
      requires Shape() && cls < MAX_CLASSES && slices[cls].Has(index)
      modifies slots
      ensures var s := ReservedSetStart(old(slots[At(cls, index)]), row);
              && r == MakeResult(s.Some?, cls, old(slots[At(cls, index)]))
              && slots[..] == if s.Some? then old(slots[..])[At(cls, index) := s.value] else old(slots[..])
    {
      var at := At(cls, index);
      var before := slots[at];
      var cell := new ReservedCell(before);
      var ok := cell.SetStart(row);
      if ok {
        slots[at] := Reserved(cell.present, cell.free, cell.startRow);
      }
      r := MakeResult(ok, cls, before);
    }

    method Swap(cls: nat, index: nat, tree: nat, free: nat) returns (r: LocalResult)
      requires Shape() && cls < MAX_CLASSES && slices[cls].Has(index) && free <= TREE_SIZE
      modifies slots
      ensures r == MakeResult(true, cls, old(slots[At(cls, index)]))
      ensures slots[..] == old(slots[..])[At(cls, index) := NewReserved(true, free, RowFromTree(tree))]
    {
      var at := At(cls, index);
      r := MakeResult(true, cls, slots[at]);
      slots[at] := NewReserved(true, free, RowFromTree(tree));
    }

    method Drain(cls: nat, index: nat) returns (r: LocalResult)
      requires Shape() && cls < MAX_CLASSES && slices[cls].Has(index)
      modifies slots
      ensures r == MakeResult(old(slots[At(cls, index)]).present, cls, old(slots[At(cls, index)]))
      ensures slots[..] == old(slots[..])[At(cls, index) := EMPTY]
    {
      var at := At(cls, index);
      r := MakeResult(slots[at].present, cls, slots[at]);
      slots[at] := NewReserved(false, 0, 0);
    }

    /** Takes frames from the first slot of a class that the policy allows, starting with the
        requested class. `at` is the slot's place. */
    method Steal(cls: nat, index: nat, tree: Option<nat>, frames: nat, policy: PolicyFn)
      returns (r: LocalResult, ghost at: nat)
      requires Shape() && cls < MAX_CLASSES
      modifies slots
      ensures r.success ==>
                && at < slots.Length && ReservedDec(old(slots[at]), tree, frames).Some?
                && slots[..] == old(slots[..])[at := ReservedDec(old(slots[at]), tree, frames).value]
                && r == MakeResult(true, r.cls, old(slots[at])) && r.cls < MAX_CLASSES && InClass(at, r.cls)
                && (policy(cls, r.cls, frames).kind == Match || policy(cls, r.cls, frames).kind == PolicyType.Steal)
      ensures !r.success ==> slots[..] == old(slots[..]) && NoneStolen(slices, slots[..], cls, tree, frames, policy)
    {
      hide ReservedDec, Turn;
      at := 0;
      for i := 0 to MAX_CLASSES
        invariant slots[..] == old(slots[..])
        invariant forall k :: 0 <= k < i ==>
                  NotInClass(slices, slots[..], cls, Turn(cls, MAX_CLASSES, k), tree, frames, policy, false)
      {
        var target := Turn(cls, MAX_CLASSES, i);
        var n := slices[target].len;
        if n.None? || n.value == 0 {
          continue;
        }
        var p := policy(cls, target, frames);
        if p.kind != Match && p.kind != PolicyType.Steal {
          continue;
        }
        for j := 0 to n.value
          invariant slots[..] == old(slots[..])
          invariant forall k :: 0 <= k < j ==>
                      ReservedDec(slots[slices[target].offset + Turn(index, n.value, k)], tree, frames).None?
        {
          var jj := Turn(index, n.value, j);
          assert slices[target].Has(jj);
          var before := slots[At(target, jj)];
          var cell := new ReservedCell(before);
          var ok := cell.Dec(tree, frames);
          if ok {
            slots[At(target, jj)] := Reserved(cell.present, cell.free, cell.startRow);
            return MakeResult(true, target, before), At(target, jj);
          }
        }
        AllTried(slices[target], slots[..], index, tree, frames);
      }
      AllClasses(slices, slots[..], cls, tree, frames, policy, false);
      r := LocalResult(false, false, 0, 0, 0);
    }

    /** The places of the slots of the classes below `c`, and of the first `j` slots of `c`. */
    ghost predicate Places(at: set<nat>, c: nat, j: nat)
    {
      && (forall d, k: nat {:trigger slices[d].Has(k)} ::
            0 <= d < |slices| && slices[d].Has(k) && (d < c || (d == c && k < j)) ==> slices[d].offset + k in at)
      && forall x :: x in at ==> Place(x, c, j)
    }

    ghost predicate Place(x: nat, c: nat, j: nat)
    {
      exists d, k: nat {:trigger slices[d].Has(k)} ::
        0 <= d < |slices| && slices[d].Has(k) && (d < c || (d == c && k < j)) && slices[d].offset + k == x
    }

    lemma NextPlace(at: set<nat>, c: nat, j: nat)
      requires Shape() && c < |slices| && slices[c].Has(j) && Places(at, c, j)
      ensures slices[c].offset + j !in at && Places(at + {slices[c].offset + j}, c, j + 1)
    {
      hide Place, Sliced;
      NewPlace(c, j);
      forall x | x in at
        ensures Place(x, c, j + 1)
      {
        LaterPlace(x, c, j, c, j + 1);
      }
    }

    lemma NewPlace(c: nat, j: nat)
      requires Shape() && c < |slices| && slices[c].Has(j)
      ensures !Place(slices[c].offset + j, c, j) && Place(slices[c].offset + j, c, j + 1)
    {}

    lemma LaterPlace(x: nat, c: nat, j: nat, d: nat, k: nat)
      requires Place(x, c, j) && (c < d || (c == d && j <= k))
      ensures Place(x, d, k)
    {
      var b, i: nat :| 0 <= b < |slices| && slices[b].Has(i) && (b < c || (b == c && i < j)) &&
          slices[b].offset + i == x;
      assert slices[b].Has(i);
    }

    lemma NextClass(at: set<nat>, c: nat, j: nat)
      requires Shape() && c < |slices| && Places(at, c, j) && (slices[c].len.Some? ==> j >= slices[c].len.value)
      ensures Places(at, c + 1, 0)
    {
      hide Place, Sliced;
      forall x | x in at
        ensures Place(x, c + 1, 0)
      {
        LaterPlace(x, c, j, c + 1, 0);
      }
    }

    /** The frames of `ll_local_stats`. The slots of all classes are at the places in `at`. */
    method CountFrames() returns (n: nat, ghost at: set<nat>)
      requires Shape()
      ensures n == SlotSum(slots[..], at) && forall i: nat :: InSlice(i) ==> i in at
    {
      hide Places, SlotSum;
      n, at := 0, {};
      SlotSumEmpty(slots[..]);
      NoPlaces();
      for c := 0 to MAX_CLASSES
        invariant n == SlotSum(slots[..], at) && Places(at, c, 0)
      {
        var len := slices[c].len;
        var j := 0;
        while len.Some? && j < len.value
          invariant len.Some? ==> j <= len.value
          invariant n == SlotSum(slots[..], at) && Places(at, c, j)
        {
          assert slices[c].Has(j);
          NextPlace(at, c, j);
          SlotSumMore(slots[..], at, slices[c].offset + j);
          at := at + {slices[c].offset + j};
          var res := slots[slices[c].offset + j];
          if res.present {
            n := n + res.free;
          }
          j := j + 1;
        }
        NextClass(at, c, j);
      }
      AllPlaces(at);
    }

    lemma NoPlaces()
      ensures Places({}, 0, 0)
    {}

    lemma AllPlaces(at: set<nat>)
      requires |slices| == MAX_CLASSES && Places(at, MAX_CLASSES, 0)
      ensures forall i: nat :: InSlice(i) ==> i in at
    {
      hide Place;
      forall i: nat | InSlice(i)
        ensures i in at
      {
        var c, j: nat :| 0 <= c < |slices| && slices[c].Has(j) && slices[c].offset + j == i;
        assert slices[c].offset + j in at;
      }
    }

    /** `atom_update(slot, old, ll_reserved_take, tree_idx, frames)` */
    method TakeAt(at: nat, tree: Option<nat>, frames: nat) returns (ok: bool, before: Reserved)
      requires at < slots.Length
      modifies slots
      ensures before == old(slots[at]) && ok == ReservedTake(before, tree, frames).Some?
      ensures slots[..] == if ok then old(slots[..])[at := EMPTY] else old(slots[..])
    {
      before := slots[at];
      var cell := new ReservedCell(before);
      ok := cell.Take(tree, frames);
      if ok {
        slots[at] := Reserved(cell.present, cell.free, cell.startRow);
      }
    }

    /** Puts the rest of a taken reservation into the slot of the request, if it names one. */
    method MoveTo(before: Reserved, cls: nat, index: Option<nat>, tree: Option<nat>, frames: nat)
        returns (r: DemoteResult)
      requires Shape() && cls < MAX_CLASSES && ReservedDec(before, tree, frames).Some?
      modifies slots
      ensures var taken := ReservedDec(before, tree, frames).value;
              r.Demoted? && r.row == taken.startRow && r.unresClass == cls &&
              if index.Some? && slices[cls].Has(index.value) then
                var q := At(cls, index.value);
                && slots[..] == old(slots[..])[q := taken]
                && r.unreserve == old(slots[q]).present && r.unresRow == old(slots[q]).startRow &&
                   r.unresFree == old(slots[q]).free
              else
                slots[..] == old(slots[..]) && r.unreserve && r.unresRow == taken.startRow && r.unresFree == taken.free
    {
      var idx := if index.Some? then index.value else 0;
      var rest := new ReservedCell(before);
      var success := rest.Dec(tree, frames);
      assert success;
      var taken := Reserved(rest.present, rest.free, rest.startRow);
      if index.Some? && slices[cls].len.Some? && slices[cls].len.value > 0 && idx < slices[cls].len.value {
        assert slices[cls].Has(idx);
        var prev := slots[At(cls, idx)];
        slots[At(cls, idx)] := taken;
        return Demoted(taken.startRow, prev.present, prev.startRow, cls, prev.free);
      }
      return Demoted(taken.startRow, true, taken.startRow, cls, taken.free);
    }

    /** Takes the tree of the first slot that the policy lets the request demote, and puts it into
        the slot of the request. The tree that the caller must give up is reported. */
    method DemoteAny(cls: nat, index: Option<nat>, tree: Option<nat>, frames: nat, policy: PolicyFn)
      returns (r: DemoteResult, ghost at: nat)
      requires Shape() && cls < MAX_CLASSES
      modifies slots
      ensures r.NotFound? ==> slots[..] == old(slots[..]) && NoneDemoted(slices, slots[..], cls, tree, frames, policy)
      ensures r.Demoted? ==>
                && at < slots.Length && ReservedDec(old(slots[at]), tree, frames).Some?
                && DemoteMoves(old(slots[..]), slots[..], at, ReservedDec(old(slots[at]), tree, frames).value,
                               if index.Some? && slices[cls].Has(index.value) then Some(At(cls, index.value))
                                   else None, cls, r)
      ensures r.Demoted? ==> exists c :: 0 <= c < MAX_CLASSES && InClass(at, c) && policy(cls, c, frames).kind == Demote
    {
      hide ReservedDec, Turn;
      at := 0;
      for i := 1 to MAX_CLASSES
        invariant slots[..] == old(slots[..])
        invariant forall k :: 1 <= k < i ==>
                  NotInClass(slices, slots[..], cls, Turn(cls, MAX_CLASSES, k), tree, frames, policy, true)
      {
        var target := Turn(cls, MAX_CLASSES, i);
        OtherClass(cls, i);
        var n := slices[target].len;
        if n.None? || n.value == 0 {
          continue;
        }
        var p := policy(cls, target, frames);
        if p.kind != Demote {
          continue;
        }
        var idx := if index.Some? then index.value else 0;
        for j := 0 to n.value
          invariant slots[..] == old(slots[..])
          invariant forall k :: 0 <= k < j ==>
                      ReservedDec(slots[slices[target].offset + Turn(idx, n.value, k)], tree, frames).None?
        {
          var jj := Turn(idx, n.value, j);
          assert slices[target].Has(jj);
          var ok, before := TakeAt(At(target, jj), tree, frames);
          if !ok {
            continue;
          }
          r := MoveTo(before, cls, index, tree, frames);
          return r, At(target, jj);
        }
        AllTried(slices[target], slots[..], idx, tree, frames);
      }
      AllClasses(slices, slots[..], cls, tree, frames, policy, true);
      r := NotFound;
    }
  }

  /** No slot of the class meets the test, if the policy allows it at all. */
  ghost predicate NotInClass(slices: seq<Slice>, slots: seq<Reserved>, cls: nat, c: nat, tree: Option<nat>, frames: nat,
                             policy: PolicyFn, demote: bool)
    requires Sliced(slices, |slots|) && c < MAX_CLASSES
  {
    var kind := policy(cls, c, frames).kind;
    (if demote then kind == Demote else kind == Match || kind == Steal) ==>
      forall j: nat :: slices[c].Has(j) ==> ReservedDec(slots[slices[c].offset + j], tree, frames).None?
  }

  /** The slots after a demotion: the slot at `at` is empty, its tree moved to the slot `to` of the
      request if there is one, and the tree given up is the previous one of `to`, or the same. */
  ghost predicate DemoteMoves(before: seq<Reserved>, after: seq<Reserved>, at: nat, taken: Reserved, to: Option<nat>,
                              cls: nat, r: DemoteResult)
    requires at < |before| && r.Demoted?
  {
    && r.row == taken.startRow && r.unresClass == cls
    && match to
       case Some(q) =>
         && q < |before| && q != at && after == before[at := EMPTY][q := taken]
         && r.unreserve == before[q].present && r.unresRow == before[q].startRow && r.unresFree == before[q].free
       case None =>
         && after == before[at := EMPTY]
         && r.unreserve && r.unresRow == taken.startRow && r.unresFree == taken.free
  }

  lemma {:induction false} AllTried(s: Slice, slots: seq<Reserved>, index: nat, tree: Option<nat>, frames: nat)
    requires s.len.Some? && s.len.value > 0 && s.offset + s.len.value <= |slots|
    requires forall k :: 0 <= k < s.len.value ==>
             ReservedDec(slots[s.offset + Turn(index, s.len.value, k)], tree, frames).None?
    ensures forall j: nat :: s.Has(j) ==> ReservedDec(slots[s.offset + j], tree, frames).None?
  {
    hide Turn, TurnOf;
    forall j: nat | s.Has(j)
      ensures ReservedDec(slots[s.offset + j], tree, frames).None?
    {
      RoundTrip(index, s.len.value, j);
      var k := TurnOf(index, s.len.value, j);
      assert ReservedDec(slots[s.offset + Turn(index, s.len.value, k)], tree, frames).None?;
    }
  }

  lemma {:induction false} AllClasses(slices: seq<Slice>, slots: seq<Reserved>, cls: nat, tree: Option<nat>,
                                      frames: nat,
                                      policy: PolicyFn, demote: bool)
    requires Sliced(slices, |slots|) && cls < MAX_CLASSES
    requires forall k :: (if demote then 1 else 0) <= k < MAX_CLASSES ==>
               NotInClass(slices, slots, cls, Turn(cls, MAX_CLASSES, k), tree, frames, policy, demote)
    ensures if demote then NoneDemoted(slices, slots, cls, tree, frames, policy)
            else NoneStolen(slices, slots, cls, tree, frames, policy)
  {
    assert Turn(cls, MAX_CLASSES, 0) == cls;
    hide Turn, TurnOf, ReservedDec;
    forall c, j: nat | 0 <= c < |slices| && slices[c].Has(j) && (demote ==> c != cls)
      ensures NotInClass(slices, slots, cls, c, tree, frames, policy, demote)
    {
      RoundTrip(cls, MAX_CLASSES, c);
      var k := TurnOf(cls, MAX_CLASSES, c);
      assert demote ==> k != 0;
      assert NotInClass(slices, slots, cls, Turn(cls, MAX_CLASSES, k), tree, frames, policy, demote);
    }
  }

  lemma SliceMore(slices: seq<Slice>, total: nat, c: nat, count: nat)
    requires Sliced(slices, total) && c < MAX_CLASSES
    ensures Sliced(slices[c := Slice(total, Some(count))], total + count)
  {}
}
