/** Every step of every thread keeps the accounts, so no assertion of the upper level fails. */
module ConcUpperProof {
  import opened Base
  import opened Children
  import opened LowerSpec
  import opened LowerWhole
  import opened Policies
  import opened TreeEntries
  import opened Locals
  import opened Accounts
  import opened UpperSpec
  import opened UpperLemmas
  import opened ConcUpper
  import opened ConcCredit
  import CL = ConcLower
  import CP = ConcProof

  // ---- what one call carries ----

  /** A call never carries less than the thread below still owes. */
  lemma {:induction false} CreditOk(config: Config, classes: set<nat>, m: Mem, c: Call, p: CL.Pc, x: nat)
    requires CallOk(config, classes, c) && LowOk(config, c, p) && CL.ThreadOk(config.frames, m, p)
    ensures Credit(c, p, x) >= 0
    decreases c
  {
    hide CL.ThreadOk, TreeCharge, RequestOk, FromOk, Pow2, TreeOf, TreeCount;
    ChargeInTree(config.frames, m, p, x);
    match c
    case PutBack(t, n, next) => CreditOk(config, classes, m, next, p, x);
    case Unreserve(t, n, cls, next) => CreditOk(config, classes, m, next, p, x);
    case Run(req, given, t, n, from) => RunFrames(config, classes, req, given, t, n, from);
    case _ =>
  }

  lemma RunFrames(config: Config, classes: set<nat>, req: Request, given: Option<nat>, t: nat, n: nat, from: From)
    requires FromOk(config, classes, req, given, t, n, from)
    ensures Frames(req) <= n
  {}

  lemma Parts(config: Config, classes: set<nat>, s: System, carry: Carry)
    requires Good(config, classes, s, carry)
    ensures |s.calls| == |s.low.threads| && ConfigOk(config, classes, |s.slots|) && RowsOk(config, s.slots)
    ensures CL.Good(config.frames, s.low) && CalmOk(config, s.low) &&
            |BelowSum(config, s.low.m)| == TreeCount(config.frames)
    ensures carry.For(TreeCount(config.frames)) && |s.trees| == TreeCount(config.frames)
    ensures Account(BelowSum(config, s.low.m), Upper(s.trees, s.slots), carry, {}, classes)
  {
    hide CL.Good, CallOk, LowOk, TreeAccount, TreeCount;
  }

  lemma CallParts(config: Config, classes: set<nat>, s: System, carry: Carry, i: nat)
    requires Good(config, classes, s, carry) && i < |s.calls|
    ensures |s.calls| == |s.low.threads|
    ensures CallOk(config, classes, s.calls[i]) && LowOk(config, s.calls[i], s.low.threads[i])
    ensures CL.ThreadOk(config.frames, s.low.m, s.low.threads[i])
  {
    hide CallOk, LowOk, TreeAccount, TreeCount, CL.ThreadOk, CL.Apart, CL.ChildInv, Padded, ChildCount;
  }

  /** What the accounts hold of one call. */
  lemma CarriedBy(config: Config, classes: set<nat>, s: System, carry: Carry, i: nat, x: nat)
    requires Good(config, classes, s, carry) && i < |s.calls| && x < TreeCount(config.frames)
    ensures |s.calls| == |s.low.threads| && carry.For(TreeCount(config.frames))
    ensures 0 <= Credit(s.calls[i], s.low.threads[i], x) <= carry.frames[x] <= TREE_SIZE
    ensures Tokens(s.calls[i], x) <= carry.tokens[x]
  {
    hide CallOk, LowOk, TreeAccount, TreeCount, CL.Good, Credit, Tokens;
    Parts(config, classes, s, carry);
    forall k | 0 <= k < |s.calls|
      ensures Credit(s.calls[k], s.low.threads[k], x) >= 0
    {
      CallParts(config, classes, s, carry, k);
      CreditOk(config, classes, s.low.m, s.calls[k], s.low.threads[k], x);
    }
    CreditAtMost(s.calls, s.low.threads, i, x);
    TokenAtMost(s.calls, i, x);
    CarriedFits(BelowSum(config, s.low.m), Upper(s.trees, s.slots), carry, {}, classes, x);
  }

  // ---- steps of the upper level ----

  /** A step that leaves the lower level alone keeps the invariant if the accounts follow the call. */
  lemma Finish(config: Config, classes: set<nat>, s: System, carry: Carry, i: nat, s': System, c: Call, carry': Carry)
    requires Good(config, classes, s, carry) && i < |s.calls| && |s.calls| == |s.low.threads|
    requires s'.low == s.low && s'.calls == s.calls[i := c] && |s'.slots| == |s.slots| && RowsOk(config, s'.slots)
    requires carry.For(TreeCount(config.frames)) && carry'.For(TreeCount(config.frames))
    requires Account(BelowSum(config, s.low.m), Upper(s'.trees, s'.slots), carry', {}, classes)
    requires forall x :: 0 <= x < TreeCount(config.frames) ==>
               && carry'.frames[x] + Carries(s.calls[i], x) == carry.frames[x] + Carries(c, x)
               && carry'.tokens[x] + Tokens(s.calls[i], x) == carry.tokens[x] + Tokens(c, x)
    requires CallOk(config, classes, c) && LowOk(config, c, s.low.threads[i])
    ensures Good(config, classes, s', carry')
  {
    hide CallOk, LowOk, Account, TreeCount, CL.Good, Carries, Tokens, TreeCharge, ConfigOk, BelowSum, RowsOk;
    var p := s.low.threads[i];
    assert s.low.threads[i := p] == s.low.threads;
    forall x | 0 <= x < TreeCount(config.frames)
      ensures carry'.frames[x] == CreditSum(s'.calls, s'.low.threads, x) && carry'.tokens[x] == TokenSum(s'.calls, x)
    {
      CreditChange(s.calls, s.low.threads, i, c, p, x);
      TokenChange(s.calls, i, c, x);
    }
  }

  /** A step below, whose thread carries on as `q`. */
  lemma FinishLow(config: Config, classes: set<nat>, s: System, carry: Carry, i: nat, low: CL.State, c: Call, q: CL.Pc)
    returns (carry': Carry)
    requires Good(config, classes, s, carry) && i < |s.calls| && |s.calls| == |s.low.threads|
    requires CL.Good(config.frames, low) && CalmOk(config, low) && low.threads == s.low.threads[i := q]
    requires CallOk(config, classes, c) && LowOk(config, c, q)
    requires forall x: nat :: x < TreeCount(config.frames) ==>
               && Tokens(c, x) == Tokens(s.calls[i], x)
               && SumOf(low.m, x) - SumOf(s.low.m, x) == Credit(c, q, x) - Credit(s.calls[i], s.low.threads[i], x)
    ensures Good(config, classes, s.(low := low, calls := s.calls[i := c]), carry')
  {
    hide CallOk, LowOk, Account, TreeCount, CL.Good, Tokens, Credit, ConfigOk, BelowSum, RowsOk, SumOf;
    var n := TreeCount(config.frames);
    var calls := s.calls[i := c];
    forall k | 0 <= k < |calls|
      ensures CallOk(config, classes, calls[k]) && LowOk(config, calls[k], low.threads[k])
      ensures CL.ThreadOk(config.frames, low.m, low.threads[k])
    {
      CallParts(config, classes, s, carry, k);
      CP.Facts(config.frames, low, k);
    }
    forall x: nat | x < n
      ensures CreditSum(calls, low.threads, x) >= 0
      ensures TokenSum(calls, x) == TokenSum(s.calls, x)
      ensures CreditSum(calls, low.threads, x) ==
              CreditSum(s.calls, s.low.threads, x) - Credit(s.calls[i], s.low.threads[i], x) + Credit(c, q, x)
    {
      AllCredits(config, classes, low.m, calls, low.threads, x);
      CreditChange(s.calls, s.low.threads, i, c, q, x);
      TokenChange(s.calls, i, c, x);
    }
    carry' := Carry(seq(n, x requires 0 <= x < n => CreditSum(calls, low.threads, x)), carry.tokens);
    Rebalance(config, classes, s, carry, low, carry');
  }

  lemma AllCredits(config: Config, classes: set<nat>, m: Mem, calls: seq<Call>, threads: seq<CL.Pc>, x: nat)
    requires |calls| == |threads|
    requires forall k :: 0 <= k < |calls| ==>
               CallOk(config, classes, calls[k]) && LowOk(config, calls[k], threads[k]) &&
                   CL.ThreadOk(config.frames, m, threads[k])
    ensures CreditSum(calls, threads, x) >= 0
  {
    hide CallOk, LowOk, CL.ThreadOk, Credit;
    forall k | 0 <= k < |calls|
      ensures Credit(calls[k], threads[k], x) >= 0
    {
      CreditOk(config, classes, m, calls[k], threads[k], x);
    }
    CreditPositive(calls, threads, x);
  }

  lemma BelowAt(config: Config, m: Mem, x: nat)
    requires x < TreeCount(config.frames)
    ensures |BelowSum(config, m)| == TreeCount(config.frames) && BelowSum(config, m)[x] == SumOf(m, x)
  {
    hide TreeCount;
  }

  lemma BelowLength(config: Config, m: Mem)
    ensures |BelowSum(config, m)| == TreeCount(config.frames)
  {
    hide TreeCount;
  }

  /** The accounts stay balanced when frames move between the counters below and the calls. */
  lemma Rebalance(config: Config, classes: set<nat>, s: System, carry: Carry, low: CL.State, carry': Carry)
    requires Good(config, classes, s, carry) && CL.Good(config.frames, low)
    requires carry.For(TreeCount(config.frames)) && carry'.For(TreeCount(config.frames)) &&
             carry'.tokens == carry.tokens
    requires forall x: nat :: x < TreeCount(config.frames) ==>
               SumOf(low.m, x) + carry.frames[x] == SumOf(s.low.m, x) + carry'.frames[x]
    ensures Account(BelowSum(config, low.m), Upper(s.trees, s.slots), carry', {}, classes)
  {
    hide CallOk, LowOk, TreeCount, CL.Good, ConfigOk, RowsOk, SumOf, BelowSum, SlotFrames, SlotCount, CarryIs;
    Parts(config, classes, s, carry);
    var n := TreeCount(config.frames);
    var below, next := BelowSum(config, s.low.m), BelowSum(config, low.m);
    forall x: nat
      ensures x < n ==> |below| == |next| == n && below[x] == SumOf(s.low.m, x) && next[x] == SumOf(low.m, x)
      ensures SumOf(low.m, x) <= TREE_SIZE
    {
      if x < n {
        BelowAt(config, s.low.m, x);
        BelowAt(config, low.m, x);
      }
      SumFits(config.frames, low, x);
    }
    BelowLength(config, low.m);
    forall x | 0 <= x < n
      ensures TreeAccount(next[x], s.trees[x], s.slots, x, carry'.frames[x], carry'.tokens[x], x !in {}, classes)
    {
      assert TreeAccount(below[x], s.trees[x], s.slots, x, carry.frames[x], carry.tokens[x], x !in {}, classes);
    }
  }

  /** No counter below exceeds the frames of its children. */
  lemma SumFits(frames: nat, low: CL.State, x: nat)
    requires CL.Good(frames, low)
    ensures SumOf(low.m, x) <= TREE_SIZE
  {
    hide CL.Good;
    forall c: nat | c < |low.m.children|
      ensures low.m.children[c].free <= 512
    {
      CounterFits(frames, low, c);
    }
    if x * TREE_CHILDREN + TREE_CHILDREN <= |low.m.children| {
      SumAtMost(low.m.children, x * TREE_CHILDREN, TREE_CHILDREN);
    }
  }

  lemma CounterFits(frames: nat, low: CL.State, c: nat)
    requires CL.Good(frames, low) && c < |low.m.children|
    ensures low.m.children[c].free <= 512
  {
    hide CL.Apart, CL.FrameOk, CL.ThreadOk, ChildCount, Padded, Field, CL.ChargeSum;
    if c < ChildCount(frames) {
      assert CL.ChildInv(frames, low, c);
    }
  }

  lemma {:induction false} SumAtMost(s: seq<Child>, first: nat, n: nat)
    requires first + n <= |s| && forall c: nat :: c < |s| ==> s[c].free <= 512
    ensures SumFree(s, first, n) <= 512 * n
  {
    if n > 0 {
      SumAtMost(s, first, n - 1);
    }
  }
}
