/** Which register an interval gets: the order of preference that the target gives. */
module PoolOrder {
  import opened Wrappers
  import opened Ir
  import opened LiveIntervals
  import opened LinearScan
  import opened ScanInvariants

  /** The first `n` intervals are of class `c`, cross no call, and all reach the start of the last of them. */
  predicate Together(ivs: seq<Interval>, c: RegClass, n: nat) {
    n <= |ivs| && forall j, k :: 0 <= j < n && 0 <= k < n
                                 ==> ivs[j].regClass == c && !ivs[j].crossesCall && ivs[k].start <= ivs[j].end
  }

  /** The registers of a class, the preferred ones first. */
  function Preferred(info: RegisterInfo, c: RegClass): seq<PhysReg> {
    match c
    case Integer => info.gpr
    case Float => info.fpr
  }

  lemma {:induction false} NothingExpires(ivs: seq<Interval>, active: seq<nat>, cur: nat, c: RegClass,
                                          pool: seq<PhysReg>)
    requires Known(ivs, active) && forall k :: 0 <= k < |active| ==> ivs[active[k]].end >= cur
    ensures Keep(ivs, active, cur) == active && Returned(ivs, active, cur, c, pool) == pool
  {
    if active != [] {
      NothingExpires(ivs, active[1..], cur, c, pool);
    }
  }

  /** An interval that crosses no call takes the last register of its pool. */
  lemma {:induction false} PlaceTakesLast(st: Scan, i: nat, info: RegisterInfo, c: RegClass)
    requires ActiveHold(st.ivs, st.active) && i < |st.ivs| && st.ivs[i].regClass == c && !st.ivs[i].crossesCall
    requires Pool(st, c) != []
    ensures var next, pool := Place(st, i, info), Pool(st, c);
      && Pool(next, c) == pool[..|pool| - 1]
      && next.ivs == st.ivs[i := st.ivs[i].(reg := Some(pool[|pool| - 1]))]
  {
    hide Activate;
    var pool := Pool(st, c);
    assert pool[..|pool| - 1] + pool[|pool|..] == pool[..|pool| - 1];
  }

  lemma {:induction false} NoneExpired(st: Scan, cur: nat)
    requires Known(st.ivs, st.active) && forall k :: 0 <= k < |st.active| ==> st.ivs[st.active[k]].end >= cur
    ensures Expire(st, cur) == st
  {
    NothingExpires(st.ivs, st.active, cur, Integer, st.gpr);
    NothingExpires(st.ivs, st.active, cur, Float, st.fpr);
  }

  lemma {:induction false} PreferredAt(regs: seq<PhysReg>, pool: seq<PhysReg>, i: nat)
    requires i < |regs| && pool == Reversed<PhysReg>(regs)[..|regs| - i]
    ensures pool != [] && pool[|pool| - 1] == regs[i] && pool[..|pool| - 1] == Reversed<PhysReg>(regs)[..|regs| - i - 1]
  {
  }

  /** The state before interval `i`: the intervals are as they were, but for registers, and none has ended. */
  lemma {:induction false} BeforeInterval(ivs: seq<Interval>, info: RegisterInfo, c: RegClass, i: nat)
    requires ValidInput(ivs, info) && Together(ivs, c, i + 1)
    ensures var st := Run(ivs, info, i);
      && |st.ivs| == |ivs| && st.ivs[i] == ivs[i] && ActiveHold(st.ivs, st.active)
      && forall k :: 0 <= k < |st.active| ==> st.active[k] < |st.ivs| && st.ivs[st.active[k]].end >= ivs[i].start
  {
    RunKeepsCore(ivs, info, i);
    hide Run, Conserved, InClass, ValidInput;
    var st := Run(ivs, info, i);
    forall k | 0 <= k < |st.active|
      ensures st.active[k] < |st.ivs| && st.ivs[st.active[k]].end >= ivs[i].start
    {
      assert st.active[k] in st.active;
      assert st.ivs[st.active[k]].end == ivs[st.active[k]].end;
    }
  }

  lemma {:induction false} NextRun(ivs: seq<Interval>, info: RegisterInfo, n: nat)
    requires 0 < n <= |ivs| && |Run(ivs, info, n - 1).ivs| == |ivs|
    ensures var st := Run(ivs, info, n - 1);
      ActiveHold(st.ivs, st.active) && Run(ivs, info, n) == Step(st, n - 1, info)
  {
    hide Step;
  }

  lemma {:induction false} StepTakesLast(st: Scan, i: nat, info: RegisterInfo, c: RegClass)
    requires ActiveHold(st.ivs, st.active) && i < |st.ivs| && st.ivs[i].regClass == c && !st.ivs[i].crossesCall
    requires forall k :: 0 <= k < |st.active| ==> st.active[k] < |st.ivs| && st.ivs[st.active[k]].end >= st.ivs[i].start
    requires Pool(st, c) != []
    ensures var next, pool := Step(st, i, info), Pool(st, c);
      && Pool(next, c) == pool[..|pool| - 1]
      && next.ivs == st.ivs[i := st.ivs[i].(reg := Some(pool[|pool| - 1]))]
  {
    NoneExpired(st, st.ivs[i].start);
    hide Place, Expire, Pool;
    PlaceTakesLast(st, i, info, c);
  }

  /** The first `n` registers are with the first `n` intervals, the others in the pool. */
  predicate HandedOut(st: Scan, c: RegClass, regs: seq<PhysReg>, n: nat) {
    && n <= |regs| && n <= |st.ivs| && Pool(st, c) == Reversed<PhysReg>(regs)[..|regs| - n]
    && forall j :: 0 <= j < n ==> st.ivs[j].reg == Some(regs[j])
  }

  lemma {:induction false} NothingTaken(ivs: seq<Interval>, info: RegisterInfo, c: RegClass)
    ensures HandedOut(Run(ivs, info, 0), c, Preferred(info, c), 0)
  {
    var regs := Preferred(info, c);
    assert Reversed<PhysReg>(regs)[..|regs|] == Reversed<PhysReg>(regs);
  }

  lemma {:induction false} OneMoreHandedOut(st: Scan, i: nat, info: RegisterInfo, c: RegClass, regs: seq<PhysReg>)
    requires ActiveHold(st.ivs, st.active) && i < |st.ivs| && st.ivs[i].regClass == c && !st.ivs[i].crossesCall
    requires forall k :: 0 <= k < |st.active| ==> st.active[k] < |st.ivs| && st.ivs[st.active[k]].end >= st.ivs[i].start
    requires HandedOut(st, c, regs, i) && i < |regs|
    ensures HandedOut(Step(st, i, info), c, regs, i + 1)
  {
    hide Step, Pool, ActiveHold;
    PreferredAt(regs, Pool(st, c), i);
    StepTakesLast(st, i, info, c);
  }

  lemma {:induction false} TogetherLess(ivs: seq<Interval>, c: RegClass, n: nat)
    requires 0 < n && Together(ivs, c, n)
    ensures n <= |ivs| && Together(ivs, c, n - 1) && ivs[n - 1].regClass == c && !ivs[n - 1].crossesCall
  {
  }

  /** As long as none ends, the n-th interval of a class that crosses no call takes the n-th of the registers
      that the target prefers for the class. */
  lemma {:induction false} TakesPreferred(ivs: seq<Interval>, info: RegisterInfo, c: RegClass, n: nat)
    requires ValidInput(ivs, info) && Together(ivs, c, n) && n <= |ivs| && n <= |Preferred(info, c)|
    ensures HandedOut(Run(ivs, info, n), c, Preferred(info, c), n)
  {
    hide *;
    if n == 0 {
      NothingTaken(ivs, info, c);
    } else {
      TogetherLess(ivs, c, n);
      TakesPreferred(ivs, info, c, n - 1);
      BeforeInterval(ivs, info, c, n - 1);
      NextRun(ivs, info, n);
      OneMoreHandedOut(Run(ivs, info, n - 1), n - 1, info, c, Preferred(info, c));
    }
  }

  // ---- ties ----

  /** Of the intervals that end last, the one that was activated last is the one to be evicted. */
  lemma {:induction false} FarthestIsLast(ivs: seq<Interval>, active: seq<nat>, c: RegClass) returns (p: nat)
    requires Known(ivs, active) && Farthest(ivs, active, c).Some?
    ensures p < |active| && active[p] == Farthest(ivs, active, c).value && ivs[active[p]].regClass == c
    ensures forall q :: p < q < |active| && ivs[active[q]].regClass == c ==> ivs[active[q]].end < ivs[active[p]].end
  {
    var n := |active| - 1;
    if Farthest(ivs, active, c) == Some(active[n]) {
      p := n;
    } else {
      p := FarthestIsLast(ivs, active[..n], c);
      assert active[..n][p] == active[p];
      forall q | p < q < |active| && ivs[active[q]].regClass == c
        ensures ivs[active[q]].end < ivs[active[p]].end
      {
        assert q < n ==> active[..n][q] == active[q];
      }
    }
  }

  /** Of the registers that are given back together, the one whose interval ended first is taken next. */
  lemma {:induction false} FirstEndedIsOnTop(ivs: seq<Interval>, active: seq<nat>, cur: nat, c: RegClass,
                                             pool: seq<PhysReg>)
    requires Known(ivs, active) && active != [] && ivs[active[0]].end < cur
    requires ivs[active[0]].regClass == c && ivs[active[0]].reg.Some?
    ensures var after := Returned(ivs, active, cur, c, pool);
      after != [] && after[|after| - 1] == ivs[active[0]].reg.value
  {
  }
}
