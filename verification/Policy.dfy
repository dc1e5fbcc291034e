/** Requests, classes and the two policies of include/llfree.h. */
module Policies {
  import opened Base

  datatype PolicyType = Match | Steal | Demote | Invalid

  datatype Policy = Policy(kind: PolicyType, priority: byte)

  newtype byte = x: int | 0 <= x < 256

  /** Requested class, class of the target tree, free frames of the target. */
  type PolicyFn = (nat, nat, nat) -> Policy

  datatype Request = Request(order: nat, cls: nat, local: Option<nat>)

  datatype ClassConf = ClassConf(cls: nat, count: nat)

  datatype Classing = Classing(classes: seq<ClassConf>, defaultClass: nat, policy: PolicyFn)

  /** `LLFREE_CLASS_NONE` */
  const CLASS_NONE: nat := 255

  function SimplePolicy(requested: nat, target: nat, free: nat): Policy
  {
    if requested > target then Policy(Steal, 0)
    else if requested < target then Policy(Demote, 0)
    else if free >= TREE_SIZE / 2 then Policy(Match, 1)
    else if free >= TREE_SIZE / 64 then Policy(Match, 255)
    else Policy(Match, 0)
  }

  function MovablePolicy(requested: nat, target: nat, free: nat): Policy
  {
    if requested > target then Policy(Steal, 0)
    else if requested < target then Policy(Demote, 0)
    else if free >= TREE_SIZE / 2 then Policy(Match, 1)
    else if free >= TREE_SIZE / 64 then Policy(Match, 255)
    else Policy(Match, 2)
  }

  function ClassingMovable(cores: nat): Classing
  {
    Classing([ClassConf(0, cores), ClassConf(1, cores), ClassConf(2, cores)], 2, MovablePolicy)
  }

  /** The order of the classes decides alone: lower classes are stolen from, higher ones demoted.
      Only a match can have the highest priority. */
  ghost predicate Ordered(policy: PolicyFn)
  {
    forall requested: nat, target: nat, free: nat {:trigger policy(requested, target, free)} ::
      var p := policy(requested, target, free);
      && p.kind == (if requested > target then Steal else if requested < target then Demote else Match)
      && (p.kind != Match ==> p.priority < 255)
  }

  lemma BothAreOrdered()
    ensures Ordered(SimplePolicy) && Ordered(MovablePolicy)
  {}

  /** A tree of the requested class is a perfect match exactly if at least 1/64 of it and less than half of it is
      free, and no tree of another class is. */
  ghost predicate PerfectInBetween(policy: PolicyFn)
  {
    forall requested: nat, target: nat, free: nat {:trigger policy(requested, target, free)} ::
      policy(requested, target, free).priority == 255 <==>
      requested == target && TREE_SIZE / 64 <= free < TREE_SIZE / 2
  }

  /** The search puts the first tree, of class `t1` with `f1` free frames, before the second one. */
  predicate Prefers(policy: PolicyFn, requested: nat, t1: nat, f1: nat, t2: nat, f2: nat)
  {
    policy(requested, t1, f1).priority > policy(requested, t2, f2).priority
  }

  /** Besides perfect matches, the movable policy prefers nearly full trees to emptier ones, and both to trees of
      another class; the simple policy prefers trees that are at least half free to all others. */
  lemma Preferences(c: nat, d: nat, full: nat, half: nat, any: nat)
    requires full < TREE_SIZE / 64 && half >= TREE_SIZE / 2 && d != c
    ensures PerfectInBetween(SimplePolicy) && PerfectInBetween(MovablePolicy)
    ensures Prefers(MovablePolicy, c, c, full, c, half) && Prefers(MovablePolicy, c, c, half, d, any)
    ensures Prefers(SimplePolicy, c, c, half, c, full) && Prefers(SimplePolicy, c, c, half, d, any)
    ensures !Prefers(SimplePolicy, c, c, full, d, any) && !Prefers(SimplePolicy, c, d, any, c, full)
  {}
}
