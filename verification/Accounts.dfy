/** How the free frames of each tree are divided between its entry, the slots, and the calls in
    progress, and who holds the reservation of a tree. Every step of the upper level moves frames
    or a reservation from one place to another. */
module Accounts {
  import opened Base
  import opened Policies
  import opened TreeEntries
  import opened Locals

  /** The state of the upper level. */
  datatype Upper = Upper(trees: seq<Tree>, slots: seq<Reserved>)

  /** What calls in progress carry: frames of each tree, and reservations of each tree. */
  datatype Carry = Carry(frames: seq<nat>, tokens: seq<nat>) {
    predicate For(n: nat) {
      |frames| == n && |tokens| == n
    }

    function Add(t: nat, n: nat): Carry
      requires t < |frames|
    {
      this.(frames := frames[t := frames[t] + n])
    }

    function Sub(t: nat, n: nat): Carry
      requires t < |frames| && n <= frames[t]
    {
      this.(frames := frames[t := frames[t] - n])
    }

    function Grab(t: nat): Carry
      requires t < |tokens|
    {
      this.(tokens := tokens[t := tokens[t] + 1])
    }

    function Drop(t: nat): Carry
      requires t < |tokens| && tokens[t] > 0
    {
      this.(tokens := tokens[t := tokens[t] - 1])
    }
  }

  function NoCarry(n: nat): Carry
  {
    Carry(seq(n, i => 0), seq(n, i => 0))
  }

  predicate HoldsTree(r: Reserved, t: nat)
  {
    r.present && TreeOfRow(r.startRow) == t
  }

  /** The frames of a tree that slots hold. */
  function SlotFrames(slots: seq<Reserved>, t: nat): nat
  {
    if slots == [] then 0
    else SlotFrames(slots[..|slots| - 1], t) + if HoldsTree(slots[|slots| - 1], t) then slots[|slots| - 1].free else 0
  }

  /** How many slots hold a tree. */
  function SlotCount(slots: seq<Reserved>, t: nat): nat
  {
    if slots == [] then 0
    else SlotCount(slots[..|slots| - 1], t) + if HoldsTree(slots[|slots| - 1], t) then 1 else 0
  }

  lemma {:induction false} SlotChange(slots: seq<Reserved>, i: nat, r: Reserved, t: nat)
    requires i < |slots|
    ensures SlotFrames(slots[i := r], t) + (if HoldsTree(slots[i], t) then slots[i].free else 0) ==
            SlotFrames(slots, t) + if HoldsTree(r, t) then r.free else 0
    ensures SlotCount(slots[i := r], t) + (if HoldsTree(slots[i], t) then 1 else 0) ==
            SlotCount(slots, t) + if HoldsTree(r, t) then 1 else 0
  {
    var n := |slots| - 1;
    var after := slots[i := r];
    if i < n {
      SlotChange(slots[..n], i, r, t);
      assert after[..n] == slots[..n][i := r];
    } else {
      assert after[..n] == slots[..n];
    }
  }

  lemma {:induction false} SlotAtMost(slots: seq<Reserved>, i: nat, t: nat)
    requires i < |slots| && HoldsTree(slots[i], t)
    ensures slots[i].free <= SlotFrames(slots, t) && 1 <= SlotCount(slots, t)
  {
    if i < |slots| - 1 {
      SlotAtMost(slots[..|slots| - 1], i, t);
    }
  }

  lemma {:induction false} NothingHeld(slots: seq<Reserved>, t: nat)
    requires forall i :: 0 <= i < |slots| ==> !HoldsTree(slots[i], t)
    ensures SlotFrames(slots, t) == 0 && SlotCount(slots, t) == 0
  {
    if slots != [] {
      NothingHeld(slots[..|slots| - 1], t);
    }
  }

  /** Two slots that hold the same tree are counted twice. */
  lemma {:induction false} TwoHolders(slots: seq<Reserved>, i: nat, j: nat, t: nat)
    requires i < j < |slots| && HoldsTree(slots[i], t) && HoldsTree(slots[j], t)
    ensures SlotCount(slots, t) >= 2
  {
    var n := |slots| - 1;
    if j < n {
      TwoHolders(slots[..n], i, j, t);
    } else {
      SlotAtMost(slots[..n], i, t);
    }
  }

  /** The account of one tree with `below` free frames: exactly one holder of the reservation if it
      is reserved, and no frame counted twice. `exact` means that none is missing either. */
  ghost predicate TreeAccount(below: nat, tree: Tree, slots: seq<Reserved>, t: nat, frames: nat, tokens: nat,
                              exact: bool, classes: set<nat>)
  {
    && tree.cls in classes && below <= TREE_SIZE
    && SlotCount(slots, t) + tokens == (if tree.reserved then 1 else 0)
    && tree.free + SlotFrames(slots, t) + frames <= below
    && (exact ==> tree.free + SlotFrames(slots, t) + frames == below)
  }

  /** Present slots hold trees that exist. */
  ghost predicate SlotsOk(slots: seq<Reserved>, n: nat)
  {
    forall i :: 0 <= i < |slots| && slots[i].present ==> TreeOfRow(slots[i].startRow) < n
  }

  /** All accounts. Trees in `offline` may miss frames, and `classes` are the ones a tree can have. */
  ghost predicate Account(below: seq<nat>, u: Upper, carry: Carry, offline: set<nat>, classes: set<nat>)
  {
    && |u.trees| == |below| && carry.For(|below|) && SlotsOk(u.slots, |below|)
    && forall t :: 0 <= t < |below| ==>
                     TreeAccount(below[t], u.trees[t], u.slots, t, carry.frames[t], carry.tokens[t], t !in offline,
                                 classes)
  }

  /** Different slots hold different trees, and every tree that a slot holds is reserved. */
  lemma DistinctHolders(below: seq<nat>, u: Upper, carry: Carry, offline: set<nat>, classes: set<nat>)
    requires Account(below, u, carry, offline, classes)
    ensures forall i, j :: 0 <= i < j < |u.slots| && u.slots[i].present && u.slots[j].present ==>
              TreeOfRow(u.slots[i].startRow) != TreeOfRow(u.slots[j].startRow)
    ensures forall i :: 0 <= i < |u.slots| && u.slots[i].present ==>
              TreeOfRow(u.slots[i].startRow) < |u.trees| && u.trees[TreeOfRow(u.slots[i].startRow)].reserved
  {
    forall i, j | 0 <= i < j < |u.slots| && u.slots[i].present && u.slots[j].present
      ensures TreeOfRow(u.slots[i].startRow) != TreeOfRow(u.slots[j].startRow)
    {
      var t := TreeOfRow(u.slots[i].startRow);
      assert TreeAccount(below[t], u.trees[t], u.slots, t, carry.frames[t], carry.tokens[t], t !in offline, classes);
      if TreeOfRow(u.slots[j].startRow) == t {
        TwoHolders(u.slots, i, j, t);
      }
    }
    forall i | 0 <= i < |u.slots| && u.slots[i].present
      ensures u.trees[TreeOfRow(u.slots[i].startRow)].reserved
    {
      var t := TreeOfRow(u.slots[i].startRow);
      SlotAtMost(u.slots, i, t);
      assert TreeAccount(below[t], u.trees[t], u.slots, t, carry.frames[t], carry.tokens[t], t !in offline, classes);
    }
  }

  // ---- steps on a slot ----

  /** A slot changes while the tree entries stay: what it no longer holds is carried. */
  lemma SlotStep(below: seq<nat>, u: Upper, carry: Carry, offline: set<nat>, classes: set<nat>, i: nat, r: Reserved,
                 carry': Carry)
    requires Account(below, u, carry, offline, classes) && i < |u.slots| && carry'.For(|below|)
    requires r.present ==> TreeOfRow(r.startRow) < |below|
    requires forall t :: 0 <= t < |below| ==>
               && carry'.frames[t] + (if HoldsTree(r, t) then r.free else 0) ==
                  carry.frames[t] + (if HoldsTree(u.slots[i], t) then u.slots[i].free else 0)
               && carry'.tokens[t] + (if HoldsTree(r, t) then 1 else 0) ==
                  carry.tokens[t] + (if HoldsTree(u.slots[i], t) then 1 else 0)
    ensures Account(below, u.(slots := u.slots[i := r]), carry', offline, classes)
  {
    hide SlotFrames, SlotCount;
    var slots := u.slots[i := r];
    forall t | 0 <= t < |below|
      ensures TreeAccount(below[t], u.trees[t], slots, t, carry'.frames[t], carry'.tokens[t], t !in offline, classes)
    {
      SlotChange(u.slots, i, r, t);
      assert TreeAccount(below[t], u.trees[t], u.slots, t, carry.frames[t], carry.tokens[t], t !in offline, classes);
    }
  }

  /** Frames taken from a slot. */
  lemma TakeFromSlot(below: seq<nat>, u: Upper, carry: Carry, offline: set<nat>, classes: set<nat>, i: nat,
                     tree: Option<nat>, n: nat)
    requires Account(below, u, carry, offline, classes) && i < |u.slots| && ReservedDec(u.slots[i], tree, n).Some?
    ensures var t := TreeOfRow(u.slots[i].startRow);
            t < |below| && Account(below, u.(slots := u.slots[i := ReservedDec(u.slots[i], tree, n).value]),
                                   carry.Add(t, n), offline, classes)
  {
    hide TreeAccount;
    var t := TreeOfRow(u.slots[i].startRow);
    SlotStep(below, u, carry, offline, classes, i, ReservedDec(u.slots[i], tree, n).value, carry.Add(t, n));
  }

  /** Frames put into a slot: its counter stays within the tree size. */
  lemma PutIntoSlot(below: seq<nat>, u: Upper, carry: Carry, offline: set<nat>, classes: set<nat>, i: nat, t: nat,
                    n: nat)
    requires Account(below, u, carry, offline, classes) && i < |u.slots| && t < |below| && n <= carry.frames[t]
    requires ReservedInc(u.slots[i], t, n).Some?
    ensures u.slots[i].free + n <= TREE_SIZE
    ensures Account(below, u.(slots := u.slots[i := ReservedInc(u.slots[i], t, n).value]), carry.Sub(t, n), offline,
                    classes)
  {
    SlotAtMost(u.slots, i, t);
    assert TreeAccount(below[t], u.trees[t], u.slots, t, carry.frames[t], carry.tokens[t], t !in offline, classes);
    hide TreeAccount;
    SlotStep(below, u, carry, offline, classes, i, ReservedInc(u.slots[i], t, n).value, carry.Sub(t, n));
  }

  /** Moving the start row within the tree. */
  lemma MoveStart(below: seq<nat>, u: Upper, carry: Carry, offline: set<nat>, classes: set<nat>, i: nat, r: Reserved)
    requires Account(below, u, carry, offline, classes) && i < |u.slots|
    requires r.present == u.slots[i].present && r.free == u.slots[i].free
    requires TreeOfRow(r.startRow) == TreeOfRow(u.slots[i].startRow)
    ensures Account(below, u.(slots := u.slots[i := r]), carry, offline, classes)
  {
    hide TreeAccount;
    SlotStep(below, u, carry, offline, classes, i, r, carry);
  }

  /** What calls carry after a slot gave up its reservation. */
  function Released(carry: Carry, r: Reserved): Carry
    requires r.present ==> TreeOfRow(r.startRow) < |carry.frames| == |carry.tokens|
  {
    if r.present then carry.Add(TreeOfRow(r.startRow), r.free).Grab(TreeOfRow(r.startRow)) else carry
  }

  /** A slot is emptied. */
  lemma EmptySlot(below: seq<nat>, u: Upper, carry: Carry, offline: set<nat>, classes: set<nat>, i: nat)
    requires Account(below, u, carry, offline, classes) && i < |u.slots|
    ensures u.slots[i].present ==> TreeOfRow(u.slots[i].startRow) < |below|
    ensures Account(below, u.(slots := u.slots[i := EMPTY]), Released(carry, u.slots[i]), offline, classes)
  {
    hide TreeAccount;
    SlotStep(below, u, carry, offline, classes, i, EMPTY, Released(carry, u.slots[i]));
  }

  /** A slot takes over a carried reservation with its frames and gives up what it held. */
  lemma SwapSlot(below: seq<nat>, u: Upper, carry: Carry, offline: set<nat>, classes: set<nat>, i: nat, r: Reserved)
    requires Account(below, u, carry, offline, classes) && i < |u.slots| && r.present && TreeOfRow(r.startRow) < |below|
    requires var t := TreeOfRow(r.startRow); carry.frames[t] >= r.free && carry.tokens[t] > 0
    ensures u.slots[i].present ==> TreeOfRow(u.slots[i].startRow) < |below|
    ensures var t := TreeOfRow(r.startRow);
            Account(below, u.(slots := u.slots[i := r]), Released(carry.Sub(t, r.free).Drop(t), u.slots[i]), offline,
                    classes)
  {
    hide TreeAccount;
    var t := TreeOfRow(r.startRow);
    SlotStep(below, u, carry, offline, classes, i, r, Released(carry.Sub(t, r.free).Drop(t), u.slots[i]));
  }

  // ---- steps on a tree entry ----

  /** The entry of tree `t` changes while the slots stay. */
  lemma TreeStep(below: seq<nat>, u: Upper, carry: Carry, offline: set<nat>, classes: set<nat>, t: nat, tree: Tree,
                 carry': Carry)
    requires Account(below, u, carry, offline, classes) && t < |below| && carry'.For(|below|) && tree.cls in classes
    requires forall i :: 0 <= i < |below| && i != t ==>
             carry'.frames[i] == carry.frames[i] && carry'.tokens[i] == carry.tokens[i]
    requires tree.free + carry'.frames[t] == u.trees[t].free + carry.frames[t]
    requires carry'.tokens[t] + (if u.trees[t].reserved then 1 else 0) == carry.tokens[t] + if tree.reserved then 1
             else 0
    ensures Account(below, u.(trees := u.trees[t := tree]), carry', offline, classes)
  {
    hide SlotFrames, SlotCount;
    assert TreeAccount(below[t], u.trees[t], u.slots, t, carry.frames[t], carry.tokens[t], t !in offline, classes);
  }

  /** Carried frames are added to an entry: its counter stays within the tree size. */
  lemma PutIntoTree(below: seq<nat>, u: Upper, carry: Carry, offline: set<nat>, classes: set<nat>, t: nat, n: nat,
                    policy: PolicyFn, dflt: nat)
    requires Bits3(dflt) in classes
    requires Account(below, u, carry, offline, classes) && t < |below| && n <= carry.frames[t]
    ensures u.trees[t].free + n <= TREE_SIZE
    ensures Account(below, u.(trees := u.trees[t := TreePut(u.trees[t], n, policy, dflt)]), carry.Sub(t, n), offline,
                    classes)
  {
    assert TreeAccount(below[t], u.trees[t], u.slots, t, carry.frames[t], carry.tokens[t], t !in offline, classes);
    TreeStep(below, u, carry, offline, classes, t, TreePut(u.trees[t], n, policy, dflt), carry.Sub(t, n));
  }

  /** Frames stolen from an entry are carried. */
  lemma StealFromTree(below: seq<nat>, u: Upper, carry: Carry, offline: set<nat>, classes: set<nat>, t: nat, n: nat,
                      cls: nat, policy: PolicyFn)
    requires Account(below, u, carry, offline, classes) && t < |below| && Bits3(cls) in classes &&
             TreeSteal(u.trees[t], n, cls, policy).Some?
    ensures Account(below, u.(trees := u.trees[t := TreeSteal(u.trees[t], n, cls, policy).value.tree]),
                    carry.Add(t, n), offline, classes)
  {
    assert TreeAccount(below[t], u.trees[t], u.slots, t, carry.frames[t], carry.tokens[t], t !in offline, classes);
    TreeStep(below, u, carry, offline, classes, t, TreeSteal(u.trees[t], n, cls, policy).value.tree, carry.Add(t, n));
  }

  /** A reservation carries all frames of the entry, a steal the requested ones. */
  lemma AccessTree(below: seq<nat>, u: Upper, carry: Carry, offline: set<nat>, classes: set<nat>, t: nat, n: nat,
                   policy: PolicyFn, cls: nat)
    requires Account(below, u, carry, offline, classes) && t < |below| && Bits3(cls) in classes &&
             TreeReserveOrSteal(u.trees[t], n, policy, cls).Some?
    ensures var a := TreeReserveOrSteal(u.trees[t], n, policy, cls).value;
            Account(below, u.(trees := u.trees[t := a.tree]),
                    if a.reserved then carry.Add(t, u.trees[t].free).Grab(t) else carry.Add(t, n), offline, classes)
  {
    assert TreeAccount(below[t], u.trees[t], u.slots, t, carry.frames[t], carry.tokens[t], t !in offline, classes);
    var a := TreeReserveOrSteal(u.trees[t], n, policy, cls).value;
    TreeStep(below, u, carry, offline, classes, t, a.tree,
             if a.reserved then carry.Add(t, u.trees[t].free).Grab(t) else carry.Add(t, n));
  }

  /** Giving up a carried reservation: the tree is reserved, and its counter stays within the tree
      size. */
  lemma UnreserveTree(below: seq<nat>, u: Upper, carry: Carry, offline: set<nat>, classes: set<nat>, t: nat, n: nat,
                      cls: nat, policy: PolicyFn, dflt: nat)
    requires Bits3(dflt) in classes
    requires Account(below, u, carry, offline, classes) && t < |below| && n <= carry.frames[t] &&
             carry.tokens[t] > 0 && Bits3(cls) in classes
    ensures u.trees[t].reserved && u.trees[t].free + n <= TREE_SIZE
    ensures TreeUnreserve(u.trees[t], n, cls, policy, dflt).Some?
    ensures Account(below, u.(trees := u.trees[t := TreeUnreserve(u.trees[t], n, cls, policy, dflt).value]),
                    carry.Sub(t, n).Drop(t), offline, classes)
  {
    assert TreeAccount(below[t], u.trees[t], u.slots, t, carry.frames[t], carry.tokens[t], t !in offline, classes);
    TreeStep(below, u, carry, offline, classes, t, TreeUnreserve(u.trees[t], n, cls, policy, dflt).value,
             carry.Sub(t, n).Drop(t));
  }

  /** The counter of a reserved entry is carried. */
  lemma SyncTree(below: seq<nat>, u: Upper, carry: Carry, offline: set<nat>, classes: set<nat>, t: nat, min: nat)
    requires Account(below, u, carry, offline, classes) && t < |below| && TreeSyncSteal(u.trees[t], min).Some?
    ensures Account(below, u.(trees := u.trees[t := TreeSyncSteal(u.trees[t], min).value]),
                    carry.Add(t, u.trees[t].free), offline, classes)
  {
    assert TreeAccount(below[t], u.trees[t], u.slots, t, carry.frames[t], carry.tokens[t], t !in offline, classes);
    TreeStep(below, u, carry, offline, classes, t, TreeSyncSteal(u.trees[t], min).value, carry.Add(t, u.trees[t].free));
  }

  // ---- steps below ----

  /** Carried frames are allocated below. */
  lemma SpendBelow(below: seq<nat>, u: Upper, carry: Carry, offline: set<nat>, classes: set<nat>, t: nat, n: nat)
    requires Account(below, u, carry, offline, classes) && t < |below| && n <= carry.frames[t]
    ensures n <= below[t] && Account(below[t := below[t] - n], u, carry.Sub(t, n), offline, classes)
  {
    hide SlotFrames, SlotCount;
    assert TreeAccount(below[t], u.trees[t], u.slots, t, carry.frames[t], carry.tokens[t], t !in offline, classes);
  }

  /** Frames freed below are carried. */
  lemma GainBelow(below: seq<nat>, u: Upper, carry: Carry, offline: set<nat>, classes: set<nat>, t: nat, n: nat)
    requires Account(below, u, carry, offline, classes) && t < |below| && below[t] + n <= TREE_SIZE
    ensures Account(below[t := below[t] + n], u, carry.Add(t, n), offline, classes)
  {
    hide SlotFrames, SlotCount;
    assert TreeAccount(below[t], u.trees[t], u.slots, t, carry.frames[t], carry.tokens[t], t !in offline, classes);
  }
}
