/** The entry of one tree and its transitions (src/tree.c, src/tree.h). */
module TreeEntries {
  import opened Base
  import opened Policies

  datatype Tree = Tree(reserved: bool, cls: nat, free: nat) {
    predicate Ok() {
      cls < MAX_CLASSES && free <= TREE_SIZE
    }
  }

  datatype Operation = Keep | Online | Offline

  /** What `tree_steal` reports: the new entry and the class the frames are taken for. */
  datatype Stolen = Stolen(tree: Tree, cls: nat)

  /** What `tree_reserve_or_steal` reports. */
  datatype Access = Access(tree: Tree, reserved: bool, cls: nat)

  /** The class field has three bits. */
  function Bits3(cls: nat): (c: nat)
    ensures c < MAX_CLASSES
  {
    cls % 8
  }

  function TreePut(t: Tree, frames: nat, policy: PolicyFn, defaultClass: nat): Tree
  {
    var free := t.free + frames;
    var reset := free == TREE_SIZE && policy(t.cls, defaultClass, free).kind != Invalid;
    Tree(t.reserved, if reset then Bits3(defaultClass) else t.cls, free)
  }

  function TreeSteal(t: Tree, frames: nat, cls: nat, policy: PolicyFn): Option<Stolen>
  {
    if t.free < frames then None
    else
      match policy(cls, t.cls, t.free).kind
      case Match => Some(Stolen(Tree(t.reserved, Bits3(cls), t.free - frames), cls))
      case Demote => Some(Stolen(Tree(t.reserved, Bits3(cls), t.free - frames), cls))
      case Steal => Some(Stolen(Tree(t.reserved, t.cls, t.free - frames), t.cls))
      case Invalid => None
  }

  function TreeReserveOrSteal(t: Tree, frames: nat, policy: PolicyFn, cls: nat): Option<Access>
  {
    if t.reserved || t.free < frames then None
    else
      match policy(cls, t.cls, t.free).kind
      case Match => Some(Access(Tree(true, Bits3(cls), 0), true, cls))
      case Demote => Some(Access(Tree(true, Bits3(cls), 0), true, cls))
      case Steal => Some(Access(Tree(false, t.cls, t.free - frames), false, t.cls))
      case Invalid => None
  }

  function TreeUnreserve(t: Tree, frames: nat, cls: nat, policy: PolicyFn, defaultClass: nat): Option<Tree>
  {
    if !t.reserved then None
    else
      var demoted := if policy(cls, t.cls, frames).kind == Demote then Bits3(cls) else t.cls;
      Some(TreePut(Tree(false, demoted, t.free), frames, policy, defaultClass))
  }

  function TreeSyncSteal(t: Tree, min: nat): Option<Tree>
  {
    if t.reserved && t.free > min then Some(t.(free := 0)) else None
  }

  function TreeChange(t: Tree, matchClass: nat, minFree: nat, changeClass: nat, operation: Operation,
                      onlineFree: nat): Option<Tree>
  {
    if t.reserved || (matchClass != CLASS_NONE && t.cls != matchClass) || t.free < minFree then None
    else
      var cls := if changeClass != CLASS_NONE then Bits3(changeClass) else t.cls;
      match operation
      case Keep => Some(Tree(false, cls, t.free))
      case Offline => Some(Tree(false, cls, 0))
      case Online => if t.free != 0 then None else Some(Tree(false, cls, onlineFree))
  }

  /** `llfree_tree_match_t` */
  datatype Matcher = Matcher(id: Option<nat>, cls: nat, free: nat)

  /** `llfree_tree_change_t` */
  datatype Change = Change(cls: nat, operation: Operation)

  /** The conditions under which a tree is changed. */
  predicate Meets(t: Tree, matcher: Matcher, change: Change)
  {
    && !t.reserved && (matcher.cls == CLASS_NONE || matcher.cls == t.cls) && matcher.free <= t.free
    && (change.operation.Online? ==> t.free == 0)
  }

  /** The entry after a change. `count` is the number of frames free below. */
  function Changed(t: Tree, change: Change, count: nat): Tree
  {
    Tree(false, if change.cls == CLASS_NONE then t.cls else Bits3(change.cls),
         match change.operation
         case Keep => t.free
         case Offline => 0
         case Online => count)
  }

  lemma ChangeIff(t: Tree, matcher: Matcher, change: Change, count: nat)
    ensures TreeChange(t, matcher.cls, matcher.free, change.cls, change.operation, count) ==
            if Meets(t, matcher, change) then Some(Changed(t, change, count)) else None
  {}

  /** Bringing a tree offline and online again restores its entry, if it counted all free frames. */
  lemma OfflineOnline(t: Tree, matcher: Matcher, again: Matcher, count: nat)
    requires !t.reserved && t.free == count
    requires again.cls == CLASS_NONE && again.free == 0 && matcher.cls == CLASS_NONE && matcher.free <= t.free
    ensures Meets(t, matcher, Change(CLASS_NONE, Offline))
    ensures var off := Changed(t, Change(CLASS_NONE, Offline), 0);
            Meets(off, again, Change(CLASS_NONE, Online)) && Changed(off, Change(CLASS_NONE, Online), count) == t
  {}

  // ---- what the transitions keep ----

  /** Stealing and putting back the same frames restores the counter, and a reservation that is
      given back with all its frames too. */
  lemma PutUndoes(t: Tree, frames: nat, cls: nat, policy: PolicyFn, defaultClass: nat)
    ensures var s := TreeSteal(t, frames, cls, policy);
            s.Some? ==> TreePut(s.value.tree, frames, policy, defaultClass).free == t.free
                        && TreePut(s.value.tree, frames, policy, defaultClass).reserved == t.reserved
    ensures var a := TreeReserveOrSteal(t, frames, policy, cls);
            a.Some? ==>
              var after := if a.value.reserved then TreeUnreserve(a.value.tree, t.free, a.value.cls, policy,
                                                                  defaultClass)
                           else Some(TreePut(a.value.tree, frames, policy, defaultClass));
              after.Some? && after.value.free == t.free && !after.value.reserved
  {}

  /** Under an ordered policy the class of a tree rises only when its counter reaches the tree size,
      and an access is reported with a class that is not above the requested one. */
  lemma ClassesFall(t: Tree, frames: nat, cls: nat, policy: PolicyFn, defaultClass: nat)
    requires Ordered(policy) && cls < MAX_CLASSES
    ensures TreePut(t, frames, policy, defaultClass).cls > t.cls ==>
            TreePut(t, frames, policy, defaultClass).free == TREE_SIZE
    ensures var s := TreeSteal(t, frames, cls, policy);
            s.Some? ==> s.value.tree.cls <= t.cls && s.value.cls <= cls
    ensures var a := TreeReserveOrSteal(t, frames, policy, cls);
            a.Some? ==> a.value.tree.cls <= t.cls && a.value.cls <= cls
    ensures var u := TreeUnreserve(t, frames, cls, policy, defaultClass);
            u.Some? && u.value.cls > t.cls ==> u.value.free == TREE_SIZE
  {}

  /** The class after each transition under an ordered policy. A tree that is given up takes the lower of its
      class and the slot's, one that is matched or demoted takes the requested class, and one that becomes
      whole takes the default class. */
  lemma ClassesAfter(t: Tree, frames: nat, cls: nat, policy: PolicyFn, defaultClass: nat)
    requires Ordered(policy) && cls < MAX_CLASSES && defaultClass < MAX_CLASSES
    ensures TreePut(t, frames, policy, defaultClass).cls == if t.free + frames == TREE_SIZE then defaultClass else t.cls
    ensures var s := TreeSteal(t, frames, cls, policy);
            s.Some? ==> s.value.tree.cls == s.value.cls == if cls <= t.cls then cls else t.cls
    ensures var a := TreeReserveOrSteal(t, frames, policy, cls);
            a.Some? ==> a.value.reserved == (cls <= t.cls) && a.value.tree.reserved == a.value.reserved
                        && a.value.tree.cls == a.value.cls == if cls <= t.cls then cls else t.cls
    ensures var u := TreeUnreserve(t, frames, cls, policy, defaultClass);
            u.Some? ==> !u.value.reserved && u.value.free == t.free + frames
                        && u.value.cls == if t.free + frames == TREE_SIZE then defaultClass
                                          else if cls <= t.cls then cls else t.cls
  {
    hide Ordered;
    OrderAt(policy, cls, t.cls, t.free);
    OrderAt(policy, cls, t.cls, frames);
    OrderAt(policy, t.cls, defaultClass, t.free + frames);
    OrderAt(policy, cls, defaultClass, t.free + frames);
  }

  lemma OrderAt(policy: PolicyFn, requested: nat, target: nat, free: nat)
    requires Ordered(policy)
    ensures policy(requested, target, free).kind ==
            if requested > target then Steal else if requested < target then Demote else Match
  {}

  /** Under an ordered policy nothing but the reservation and the counter can refuse an access. */
  lemma OrderedNeverRefuses(t: Tree, frames: nat, cls: nat, policy: PolicyFn)
    requires Ordered(policy)
    ensures TreeSteal(t, frames, cls, policy).Some? <==> t.free >= frames
    ensures TreeReserveOrSteal(t, frames, policy, cls).Some? <==> !t.reserved && t.free >= frames
  {}

  /** The copy of one entry that a callback of `atom_update` works on. */
  class TreeCell {
    var reserved: bool
    var cls: nat
    var free: nat

    constructor (t: Tree)
      ensures Value() == t
    {
      reserved, cls, free := t.reserved, t.cls, t.free;
    }

    function Value(): Tree
      reads this
    {
      Tree(reserved, cls, free)
    }

    /** The source asserts that the counter does not exceed the tree size. */
    method Put(frames: nat, policy: PolicyFn, defaultClass: nat)
      requires free + frames <= TREE_SIZE
      modifies this
      ensures Value() == TreePut(old(Value()), frames, policy, defaultClass)
    {
      free := free + frames;
      if free == TREE_SIZE && policy(cls, defaultClass, free).kind != Invalid {
        cls := Bits3(defaultClass);
      }
    }

    method StealFrames(frames: nat, requested: nat, policy: PolicyFn) returns (ok: bool, target: nat)
      modifies this
      ensures ok <==> TreeSteal(old(Value()), frames, requested, policy).Some?
      ensures ok ==> TreeSteal(old(Value()), frames, requested, policy) == Some(Stolen(Value(), target))
      ensures !ok ==> Value() == old(Value())
    {
      target := requested;
      if free < frames {
        return false, target;
      }
      var p := policy(requested, cls, free);
      var newClass;
      match p.kind {
        case Match => newClass := requested;
        case Demote => newClass := requested;
        case Steal =>
          newClass := cls;
          target := cls;
        case Invalid => return false, target;
      }
      free := free - frames;
      cls := if p.kind == Steal then newClass else Bits3(newClass);
      return true, target;
    }

    method ReserveOrSteal(frames: nat, policy: PolicyFn, requested: nat) returns (ok: bool, reserve: bool, target: nat)
      modifies this
      ensures ok <==> TreeReserveOrSteal(old(Value()), frames, policy, requested).Some?
      ensures ok ==>
              TreeReserveOrSteal(old(Value()), frames, policy, requested) == Some(Access(Value(), reserve, target))
      ensures !ok ==> Value() == old(Value())
    {
      if reserved || free < frames {
        return false, false, requested;
      }
      var p := policy(requested, cls, free);
      if p.kind == Match || p.kind == Demote {
        reserved := true;
        free := 0;
        cls := Bits3(requested);
        return true, true, requested;
      } else if p.kind == Steal {
        free := free - frames;
        return true, false, cls;
      }
      return false, false, requested;
    }

    method UnreserveAdd(frames: nat, requested: nat, policy: PolicyFn, defaultClass: nat) returns (ok: bool)
      requires reserved ==> free + frames <= TREE_SIZE
      modifies this
      ensures ok <==> TreeUnreserve(old(Value()), frames, requested, policy, defaultClass).Some?
      ensures Value() == if ok then TreeUnreserve(old(Value()), frames, requested, policy, defaultClass).value
              else old(Value())
    {
      if !reserved {
        return false;
      }
      reserved := false;
      var p := policy(requested, cls, frames);
      if p.kind == Demote {
        cls := Bits3(requested);
      }
      Put(frames, policy, defaultClass);
      return true;
    }

    method SyncSteal(min: nat) returns (ok: bool)
      modifies this
      ensures ok <==> TreeSyncSteal(old(Value()), min).Some?
      ensures Value() == if ok then TreeSyncSteal(old(Value()), min).value else old(Value())
    {
      if reserved && free > min {
        free := 0;
        return true;
      }
      return false;
    }

    /** The counter to set is fetched by the caller only for `Online`. */
    method Change(matchClass: nat, minFree: nat, changeClass: nat, operation: Operation, onlineFree: nat)
        returns (ok: bool)
      modifies this
      ensures ok <==> TreeChange(old(Value()), matchClass, minFree, changeClass, operation, onlineFree).Some?
      ensures ok ==> Value() == TreeChange(old(Value()), matchClass, minFree, changeClass, operation, onlineFree).value
    {
      if reserved {
        return false;
      }
      if matchClass != CLASS_NONE && cls != matchClass {
        return false;
      }
      if free < minFree {
        return false;
      }
      if changeClass != CLASS_NONE {
        cls := Bits3(changeClass);
      }
      match operation {
        case Keep =>
        case Offline => free := 0;
        case Online =>
          if free != 0 {
            return false;
          }
          free := onlineFree;
      }
      return true;
    }
  }
}
