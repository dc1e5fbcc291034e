/** Sums over all trees and slots, for the statistics. */
module Totals {
  import opened Base
  import opened Children
  import opened LowerSpec
  import opened LowerWhole
  import opened Policies
  import opened TreeEntries
  import opened TreeArray
  import opened Locals
  import opened Accounts
  import opened UpperSpec

  /** What the slots hold of the first `n` trees. */
  function HeldFrames(slots: seq<Reserved>, n: nat): nat
  {
    if n == 0 then 0 else HeldFrames(slots, n - 1) + SlotFrames(slots, n - 1)
  }

  lemma {:induction false} HeldStep(slots: seq<Reserved>, n: nat)
    requires slots != []
    ensures var r := slots[|slots| - 1];
            HeldFrames(slots, n) == HeldFrames(slots[..|slots| - 1], n) +
                                    if r.present && TreeOfRow(r.startRow) < n then r.free else 0
  {
    if n > 0 {
      HeldStep(slots, n - 1);
    }
  }

  lemma {:induction false} HeldNothing(n: nat)
    ensures HeldFrames([], n) == 0
  {
    if n > 0 {
      HeldNothing(n - 1);
    }
  }

  /** When every slot in use is at one of the places and holds one of the trees, both sums agree. */
  lemma {:induction false} SlotsByTree(slots: seq<Reserved>, at: set<nat>, n: nat)
    requires SlotsOk(slots, n) && forall i :: 0 <= i < |slots| && slots[i].present ==> i in at
    ensures SlotSum(slots, at) == HeldFrames(slots, n)
  {
    if slots == [] {
      HeldNothing(n);
    } else {
      SlotsByTree(slots[..|slots| - 1], at, n);
      HeldStep(slots, n);
    }
  }

  /** Free frames of the first `n` trees. */
  ghost function FreeBelow(frames: nat, m: Mem, n: nat): nat
  {
    if n == 0 then 0 else FreeBelow(frames, m, n - 1) + FreeOfTree(frames, m, n - 1)
  }

  lemma {:induction false} FreeBelowIs(frames: nat, m: Mem, n: nat)
    ensures FreeBelow(frames, m, n) == FreeIn(frames, m, 0, TreeFrame(n))
  {
    hide Free, FreeIn, FreeOfTree;
    if n == 0 {
      NothingYet(frames, m, 0);
    } else {
      FreeBelowIs(frames, m, n - 1);
      OneTree(frames, m, n - 1);
    }
  }

  lemma OneTree(frames: nat, m: Mem, t: nat)
    ensures FreeIn(frames, m, 0, TreeFrame(t + 1)) == FreeIn(frames, m, 0, TreeFrame(t)) + FreeOfTree(frames, m, t)
  {
    hide FreeIn, FreeOfTree;
    FreeInNext(frames, m, 0, TreeFrame(t), TREE_SIZE);
    FreeOfTreeIs(frames, m, t);
    TreeOfChildren(t);
    MulStep(t, TREE_SIZE);
  }

  lemma FreeBelowAll(frames: nat, m: Mem)
    requires Inv(frames, m)
    ensures FreeBelow(frames, m, TreeCount(frames)) == |Free(frames, m)|
  {
    hide Inv, Free;
    FreeBelowIs(frames, m, TreeCount(frames));
    AllFree(frames, m);
    SizeIs(frames, m);
  }

  lemma SizeIs(frames: nat, m: Mem)
    requires Inv(frames, m)
    ensures TreeFrame(TreeCount(frames)) == 512 * |m.children|
  {
    PaddedIs(frames);
    TreeOfChildren(TreeCount(frames));
  }

  /** The accounts of the first `n` trees, added up. */
  lemma {:induction false} AccountsAddUp(frames: nat, m: Mem, u: Upper, carry: Carry, offline: set<nat>,
                                         classes: set<nat>, n: nat)
    requires Account(BelowOf(frames, m), u, carry, offline, classes) && carry == NoCarry(TreeCount(frames))
    requires n <= |u.trees|
    ensures |u.trees| == TreeCount(frames)
    ensures EntryFrames(u.trees[..n]) + HeldFrames(u.slots, n) <= FreeBelow(frames, m, n)
    ensures offline == {} ==> EntryFrames(u.trees[..n]) + HeldFrames(u.slots, n) == FreeBelow(frames, m, n)
  {
    if n > 0 {
      var t := n - 1;
      AccountsAddUp(frames, m, u, carry, offline, classes, t);
      assert u.trees[..n][..t] == u.trees[..t];
      BelowIs(frames, m, t);
      assert TreeAccount(BelowOf(frames, m)[t], u.trees[t], u.slots, t, carry.frames[t], carry.tokens[t],
                         t !in offline, classes);
    }
  }

  /** The entries and slots never count more frames than are free, and exactly those if no tree is
      offline. */
  lemma TotalsAgree(frames: nat, m: Mem, u: Upper, carry: Carry, offline: set<nat>, classes: set<nat>, at: set<nat>)
    requires Inv(frames, m) && Account(BelowOf(frames, m), u, carry, offline, classes) &&
             carry == NoCarry(TreeCount(frames))
    requires forall i :: 0 <= i < |u.slots| && u.slots[i].present ==> i in at
    ensures EntryFrames(u.trees) + SlotSum(u.slots, at) <= |Free(frames, m)|
    ensures offline == {} ==> EntryFrames(u.trees) + SlotSum(u.slots, at) == |Free(frames, m)|
  {
    hide Inv, Free, TreeAccount, EntryFrames, SlotSum, HeldFrames, FreeBelow;
    AccountsAddUp(frames, m, u, carry, offline, classes, |u.trees|);
    assert u.trees[..|u.trees|] == u.trees;
    SlotsByTree(u.slots, at, |u.trees|);
    FreeBelowAll(frames, m);
  }

  // ---- what the checks of the allocator find ----

  /** The entry of tree `t` and the slot that holds it together count all its free frames. */
  ghost predicate Exact(frames: nat, m: Mem, u: Upper, t: nat)
    requires t < |u.trees|
  {
    u.trees[t].free + SlotFrames(u.slots, t) == FreeOfTree(frames, m, t)
  }

  ghost predicate Tallied(frames: nat, m: Mem, u: Upper)
  {
    forall t :: 0 <= t < |u.trees| ==> Exact(frames, m, u, t)
  }

  /** All trees are counted exactly and have one of the first `numClasses` classes. */
  ghost predicate Sound(frames: nat, m: Mem, u: Upper, numClasses: nat)
  {
    forall t :: 0 <= t < |u.trees| ==> u.trees[t].cls < numClasses && Exact(frames, m, u, t)
  }

  /** What is asked of an entry. */
  ghost predicate EntryChecked(frames: nat, m: Mem, u: Upper, t: nat, numClasses: nat)
    requires t < |u.trees|
  {
    u.trees[t].cls < numClasses && (!u.trees[t].reserved ==> Exact(frames, m, u, t))
  }

  ghost predicate EntriesChecked(frames: nat, m: Mem, u: Upper, n: nat, numClasses: nat)
    requires n <= |u.trees|
  {
    forall t :: 0 <= t < n ==> EntryChecked(frames, m, u, t, numClasses)
  }

  /** What is asked of a slot. */
  ghost predicate SlotChecked(frames: nat, m: Mem, u: Upper, i: nat, numClasses: nat)
  {
    i < |u.slots| && u.slots[i].present ==>
      var t := TreeOfRow(u.slots[i].startRow);
      t < |u.trees| && u.trees[t].cls < numClasses && Exact(frames, m, u, t)
  }

  ghost predicate SlotsChecked(frames: nat, m: Mem, u: Upper, at: set<nat>, numClasses: nat)
  {
    forall i :: i in at ==> SlotChecked(frames, m, u, i, numClasses)
  }
}
