/** Values that live across calls: when crossing intervals are sure to end in callee-saved registers. */
module CallSafety {
  import opened Wrappers
  import opened Ir
  import opened LiveIntervals
  import opened LinearScan
  import opened ScanInvariants
  import opened ScanResults
  import opened ScanTheorems
  import opened SpillOptimality

  /** Placed intervals that cross a call and hold a register hold a callee-saved one. */
  ghost predicate CallsSafe(st: Scan, info: RegisterInfo, n: nat) {
    n <= |st.ivs| && forall j :: 0 <= j < n && st.ivs[j].crossesCall && st.ivs[j].reg.Some?
                                 ==> st.ivs[j].reg.value in info.calleeSaved
  }

  /** Interval `n` crosses a call and is handed, by eviction, a register that is not callee-saved. */
  ghost predicate UnsafeEviction(ivs: seq<Interval>, info: RegisterInfo, n: nat)
    requires n < |ivs|
  {
    var st := Ready(ivs, info, n);
    var outcome := OutcomeOf(st, n, info);
    && st.ivs[n].crossesCall && outcome.Evicted?
    && outcome.far < |st.ivs| && st.ivs[outcome.far].reg.Some? && st.ivs[outcome.far].reg.value !in info.calleeSaved
  }

  lemma {:induction false} PlaceCalls(ivs: seq<Interval>, info: RegisterInfo, n: nat)
    requires ValidInput(ivs, info) && n < |ivs| && CallsSafe(Ready(ivs, info, n), info, n)
    ensures CallsSafe(Run(ivs, info, n + 1), info, n + 1) <==> !UnsafeEviction(ivs, info, n)
  {
    ReadyCore(ivs, info, n);
    RunByPlace(ivs, info, n);
    var st := Ready(ivs, info, n);
    PlaceByOutcome(st, n, info);
    var r := Run(ivs, info, n + 1);
    CoreForBooks(ivs, info, st, n, ivs[n].start);
    PlacedCalls(st, r, n, info);
  }

  lemma {:induction false} PlacedCalls(st: Scan, r: Scan, n: nat, info: RegisterInfo)
    requires ActiveHold(st.ivs, st.active) && n < |st.ivs| && CallsSafe(st, info, n)
    requires r == Place(st, n, info) && forall a :: a in st.active ==> a < n
    ensures var outcome := OutcomeOf(st, n, info);
      CallsSafe(r, info, n + 1) <==>
        !(st.ivs[n].crossesCall && outcome.Evicted? && outcome.far < |st.ivs|
          && st.ivs[outcome.far].reg.Some? && st.ivs[outcome.far].reg.value !in info.calleeSaved)
  {
    StepChanges(st, n, info);
    OutcomeTaken(st, n, info);
    hide Place, OutcomeOf, ActiveHold;
    if CallsSafe(r, info, n + 1) {
      assert r.ivs[n].crossesCall && r.ivs[n].reg.Some? ==> r.ivs[n].reg.value in info.calleeSaved;
    }
  }

  /** A step gives interval `n` its place and takes the register of at most one earlier interval. */
  lemma {:induction false} StepChanges(st: Scan, n: nat, info: RegisterInfo)
    requires ActiveHold(st.ivs, st.active) && n < |st.ivs| && forall a :: a in st.active ==> a < n
    ensures var r, outcome := Place(st, n, info), OutcomeOf(st, n, info);
      && |r.ivs| == |st.ivs| && r.ivs[n].crossesCall == st.ivs[n].crossesCall
      && (forall j :: 0 <= j < n && r.ivs[j].reg.Some? ==> r.ivs[j] == st.ivs[j])
      && match outcome
         case TookFree(p) =>
           p < |Pool(st, st.ivs[n].regClass)| && r.ivs[n].reg == Some(Pool(st, st.ivs[n].regClass)[p])
         case Evicted(far) => far < n && st.ivs[far].reg.Some? && r.ivs[n].reg == st.ivs[far].reg
         case SpilledSelf => r.ivs[n].reg == None
  {
    PlaceIntervals(st, n, info);
    var r := Place(st, n, info);
    hide Place, Pool;
    match OutcomeOf(st, n, info)
    case TookFree(p) =>
      ChangedAt(st.ivs, r.ivs, n, n);
    case Evicted(far) =>
      ChangedAt(st.ivs, r.ivs, far, n);
    case SpilledSelf =>
      ChangedAt(st.ivs, r.ivs, n, n);
  }

  lemma {:induction false} ChangedAt(was: seq<Interval>, now: seq<Interval>, far: nat, n: nat)
    requires far <= n < |was| && |now| == |was| && now == was[far := now[far]][n := now[n]]
    requires far < n ==> now[far].reg == None
    ensures forall j :: 0 <= j < n && now[j].reg.Some? ==> now[j] == was[j]
  {
  }

  /** A crossing interval takes only a callee-saved register from the pool. */
  lemma {:induction false} OutcomeTaken(st: Scan, i: nat, info: RegisterInfo)
    requires ActiveHold(st.ivs, st.active) && i < |st.ivs|
    ensures var c, outcome := st.ivs[i].regClass, OutcomeOf(st, i, info);
      outcome.TookFree? && st.ivs[i].crossesCall ==>
        outcome.p < |Pool(st, c)| && Pool(st, c)[outcome.p] in info.calleeSaved
  {
  }

  lemma {:induction false} ReadyCalls(ivs: seq<Interval>, info: RegisterInfo, n: nat)
    requires n < |ivs|
    ensures CallsSafe(Ready(ivs, info, n), info, n) <==> CallsSafe(Run(ivs, info, n), info, n)
  {
    hide Run;
  }

  lemma {:induction false} NoneCrossYet(ivs: seq<Interval>, info: RegisterInfo)
    ensures CallsSafe(Run(ivs, info, 0), info, 0)
  {
  }

  /** A crossing interval served from the pool always gets a callee-saved register. */
  lemma {:induction false} PoolServesCalleeSaved(st: Scan, i: nat, info: RegisterInfo)
    requires ActiveHold(st.ivs, st.active) && i < |st.ivs| && OutcomeOf(st, i, info).TookFree?
    requires st.ivs[i].crossesCall
    ensures Place(st, i, info).ivs[i].reg.Some? && Place(st, i, info).ivs[i].reg.value in info.calleeSaved
  {
  }

  // ---- flags that nest ----

  /** An interval that comes before a crossing one of its class and ends after it crosses as well. */
  ghost predicate FlagsNest(ivs: seq<Interval>) {
    forall a, b :: a in ivs && b in ivs && Encloses(a, b) && b.crossesCall ==> a.crossesCall
  }

  predicate Encloses(a: Interval, b: Interval) {
    Before(a, b) && a.regClass == b.regClass && b.end < a.end
  }

  /** An active interval is an earlier one of the input that has not ended. */
  lemma {:induction false} ActiveIsEarlier(ivs: seq<Interval>, info: RegisterInfo, n: nat, a: nat)
    requires ValidInput(ivs, info) && n < |ivs| && a in Ready(ivs, info, n).active
    ensures var st := Ready(ivs, info, n);
      && a < n && Before(ivs[a], ivs[n]) && st.ivs[n] == ivs[n] && st.ivs[a].reg.Some?
      && st.ivs[a].regClass == ivs[a].regClass && st.ivs[a].end == ivs[a].end
      && st.ivs[a].crossesCall == ivs[a].crossesCall
  {
    ReadyCore(ivs, info, n);
  }

  /** If flags nest, the register of an evicted interval is as safe as that of any crossing one. */
  lemma {:induction false} NestedEvictionIsSafe(ivs: seq<Interval>, info: RegisterInfo, n: nat)
    requires ValidInput(ivs, info) && n < |ivs| && FlagsNest(ivs)
    requires CallsSafe(Run(ivs, info, n), info, n)
    ensures !UnsafeEviction(ivs, info, n)
  {
    ReadyCalls(ivs, info, n);
    var st := Ready(ivs, info, n);
    PlaceByOutcome(st, n, info);
    var outcome := OutcomeOf(st, n, info);
    hide Run, Ready, Place, OutcomeOf, ValidInput;
    if outcome.Evicted? {
      ActiveIsEarlier(ivs, info, n, outcome.far);
      assert ivs[n].crossesCall ==> Encloses(ivs[outcome.far], ivs[n]);
    }
  }

  /** If flags nest, crossing intervals hold only callee-saved registers at every step. */
  lemma {:induction false} NestedFlagsKeepCallsSafe(ivs: seq<Interval>, info: RegisterInfo, n: nat)
    requires ValidInput(ivs, info) && n <= |ivs| && FlagsNest(ivs)
    ensures CallsSafe(Run(ivs, info, n), info, n)
  {
    hide Run, Ready, CallsSafe, UnsafeEviction, FlagsNest, ValidInput;
    if n == 0 {
      NoneCrossYet(ivs, info);
    } else {
      NestedFlagsKeepCallsSafe(ivs, info, n - 1);
      NestedEvictionIsSafe(ivs, info, n - 1);
      ReadyCalls(ivs, info, n - 1);
      PlaceCalls(ivs, info, n - 1);
    }
  }

  // ---- and flags that do not ----

  /** More registers of each class than intervals, none callee-saved. */
  ghost function CallerSavedOnly(n: nat): RegisterInfo {
    RegisterInfo(seq(n, k => k), seq(n, k => n + k), {})
  }

  /** A placed interval crosses a call and holds a register. */
  ghost predicate CrossingHolds(st: Scan, n: nat) {
    exists j :: 0 <= j < n && j < |st.ivs| && st.ivs[j].crossesCall && st.ivs[j].reg.Some?
  }

  /** Every placed interval that crosses no call holds a register. */
  ghost predicate OthersHold(st: Scan, n: nat) {
    forall j :: 0 <= j < n && j < |st.ivs| && !st.ivs[j].crossesCall ==> st.ivs[j].reg.Some?
  }

  lemma {:induction false} TooFewActive(st: Scan, info: RegisterInfo, n: nat, cur: nat, c: RegClass)
    requires ActiveExact(st, n, cur) && Conserved(st, info) && n < |Allocatable(info, c)|
    ensures Pool(st, c) != []
  {
    if Pool(st, c) == [] {
      FullWhenPoolEmpty(st, info, n, cur, c);
      var here := ActiveSet(st.ivs, st.active, c);
      assert forall a :: a in here ==> a in st.active;
      hide Conserved, Pool;
      SubsetCount(here, Below(n));
    }
  }

  /** With that many registers no pool runs empty. */
  lemma {:induction false} PoolsLast(ivs: seq<Interval>, n: nat, c: RegClass)
    requires ValidInput(ivs, CallerSavedOnly(|ivs|)) && n < |ivs|
    ensures Pool(Ready(ivs, CallerSavedOnly(|ivs|), n), c) != []
  {
    var info := CallerSavedOnly(|ivs|);
    ReadyCore(ivs, info, n);
    hide Run, Ready, ValidInput;
    TooFewActive(Ready(ivs, info, n), info, n, ivs[n].start, c);
  }

  /** There, only crossing intervals are refused a free register, and all of them are. */
  lemma {:induction false} OnlyCrossingRefused(ivs: seq<Interval>, n: nat)
    requires ValidInput(ivs, CallerSavedOnly(|ivs|)) && n < |ivs|
    ensures var info := CallerSavedOnly(|ivs|); var st := Ready(ivs, info, n);
      st.ivs[n] == ivs[n] && (OutcomeOf(st, n, info).TookFree? <==> !ivs[n].crossesCall)
  {
    var info := CallerSavedOnly(|ivs|);
    PoolsLast(ivs, n, ivs[n].regClass);
    ReadyCore(ivs, info, n);
    var st := Ready(ivs, info, n);
    CoreFacts(ivs, info, st, n, ivs[n].start);
  }

  /** A step keeps either a crossing interval in a register, or all the others in theirs. */
  lemma {:induction false} HoldersStep(ivs: seq<Interval>, n: nat)
    requires ValidInput(ivs, CallerSavedOnly(|ivs|)) && n < |ivs|
    ensures var now, next := Run(ivs, CallerSavedOnly(|ivs|), n), Run(ivs, CallerSavedOnly(|ivs|), n + 1);
      && (CrossingHolds(now, n) ==> CrossingHolds(next, n + 1))
      && (OthersHold(now, n) ==> CrossingHolds(next, n + 1) || OthersHold(next, n + 1))
  {
    var info := CallerSavedOnly(|ivs|);
    OnlyCrossingRefused(ivs, n);
    RunByPlace(ivs, info, n);
    ReadyCore(ivs, info, n);
    var st, now, next := Ready(ivs, info, n), Run(ivs, info, n), Run(ivs, info, n + 1);
    assert st.ivs == now.ivs;
    CoreForBooks(ivs, info, st, n, ivs[n].start);
    PlaceIntervals(st, n, info);
    hide Run, Ready, Place, Core, ValidInput;
    StepHolders(st, next, n, info);
    if CrossingHolds(now, n) {
      assert CrossingHolds(st, n);
    }
  }

  lemma {:induction false} StepHolders(st: Scan, next: Scan, n: nat, info: RegisterInfo)
    requires ActiveHold(st.ivs, st.active) && n < |st.ivs| && forall a :: a in st.active ==> a < n
    requires next == Place(st, n, info)
    requires OutcomeOf(st, n, info).TookFree? <==> !st.ivs[n].crossesCall
    ensures CrossingHolds(st, n) ==> CrossingHolds(next, n + 1)
    ensures OthersHold(st, n) ==> CrossingHolds(next, n + 1) || OthersHold(next, n + 1)
  {
    PlaceIntervals(st, n, info);
    hide Place, Pool;
    match OutcomeOf(st, n, info)
    case TookFree(p) =>
      EarlierKept(st.ivs, next.ivs, n);
    case Evicted(far) =>
      assert st.ivs[far].reg.Some?;
      assert next.ivs[n].crossesCall && next.ivs[n].reg.Some?;
    case SpilledSelf =>
      EarlierKept(st.ivs, next.ivs, n);
  }

  lemma {:induction false} EarlierKept(was: seq<Interval>, now: seq<Interval>, n: nat)
    requires n < |was| == |now| && forall j :: 0 <= j < n ==> now[j] == was[j]
    ensures forall j :: 0 <= j < n && was[j].crossesCall && was[j].reg.Some? ==> now[j].crossesCall && now[j].reg.Some?
  {
  }

  lemma {:induction false} HoldersAlong(ivs: seq<Interval>, n: nat)
    requires ValidInput(ivs, CallerSavedOnly(|ivs|)) && n <= |ivs|
    ensures var st := Run(ivs, CallerSavedOnly(|ivs|), n); CrossingHolds(st, n) || OthersHold(st, n)
  {
    hide Run, ValidInput;
    if n > 0 {
      HoldersAlong(ivs, n - 1);
      HoldersStep(ivs, n - 1);
    }
  }

  lemma {:induction false} CrossingHoldsOn(ivs: seq<Interval>, n: nat, m: nat)
    requires ValidInput(ivs, CallerSavedOnly(|ivs|)) && n <= m <= |ivs|
    requires CrossingHolds(Run(ivs, CallerSavedOnly(|ivs|), n), n)
    ensures CrossingHolds(Run(ivs, CallerSavedOnly(|ivs|), m), m)
    decreases m
  {
    hide Run, ValidInput;
    if n < m {
      CrossingHoldsOn(ivs, n, m - 1);
      HoldersStep(ivs, m - 1);
    }
  }

  /** An interval that finds no free register while a longer one of its class is active evicts one. */
  lemma {:induction false} LongerIsEvicted(st: Scan, n: nat, info: RegisterInfo, i: nat)
    requires ActiveHold(st.ivs, st.active) && n < |st.ivs| && forall a :: a in st.active ==> a < n
    requires i in st.active && st.ivs[i].regClass == st.ivs[n].regClass && st.ivs[n].end < st.ivs[i].end
    requires !OutcomeOf(st, n, info).TookFree?
    ensures var next := Place(st, n, info);
      next.ivs == next.ivs[n := st.ivs[n].(reg := next.ivs[n].reg)] && next.ivs[n].reg.Some?
  {
    var far := Farthest(st.ivs, st.active, st.ivs[n].regClass);
    var k :| 0 <= k < |st.active| && st.active[k] == i;
    assert far.Some? && st.ivs[st.active[k]].end <= st.ivs[far.value].end;
    assert OutcomeOf(st, n, info) == Evicted(far.value);
    PlaceIntervals(st, n, info);
    hide Place, OutcomeOf, Farthest;
  }

  /** A crossing interval inside one that does not cross takes its register. */
  lemma {:induction false} EnclosedTakesRegister(ivs: seq<Interval>, i: nat, n: nat)
    requires ValidInput(ivs, CallerSavedOnly(|ivs|)) && i < n < |ivs|
    requires Encloses(ivs[i], ivs[n]) && ivs[n].crossesCall && !ivs[i].crossesCall
    requires OthersHold(Run(ivs, CallerSavedOnly(|ivs|), n), n)
    ensures CrossingHolds(Run(ivs, CallerSavedOnly(|ivs|), n + 1), n + 1)
  {
    var info := CallerSavedOnly(|ivs|);
    OnlyCrossingRefused(ivs, n);
    RunByPlace(ivs, info, n);
    ReadyCore(ivs, info, n);
    var st := Ready(ivs, info, n);
    assert st.ivs == Run(ivs, info, n).ivs;
    assert i in st.active;
    CoreForBooks(ivs, info, st, n, ivs[n].start);
    hide Run, Ready, Place, ValidInput, OutcomeOf, Conserved, InClass;
    LongerIsEvicted(st, n, info, i);
    assert Place(st, n, info).ivs[n].crossesCall;
  }

  /** Flags that do not nest: with enough caller-saved registers some crossing interval ends in one. */
  lemma {:induction false} UnnestedFlagsBreakCalls(ivs: seq<Interval>, i: nat, n: nat)
    requires ValidInput(ivs, CallerSavedOnly(|ivs|)) && i < n < |ivs|
    requires Encloses(ivs[i], ivs[n]) && ivs[n].crossesCall && !ivs[i].crossesCall
    ensures CrossingHolds(Run(ivs, CallerSavedOnly(|ivs|), |ivs|), |ivs|)
  {
    hide Run, ValidInput;
    HoldersAlong(ivs, n);
    if CrossingHolds(Run(ivs, CallerSavedOnly(|ivs|), n), n) {
      CrossingHoldsOn(ivs, n, |ivs|);
    } else {
      EnclosedTakesRegister(ivs, i, n);
      CrossingHoldsOn(ivs, n + 1, |ivs|);
    }
  }

  // ---- the finished allocation ----

  /** Every crossing interval of the allocation that holds a register holds a callee-saved one. */
  ghost predicate RespectsCalls(ivs: seq<Interval>, info: RegisterInfo) {
    var st := Allocate(ivs, info); CallsSafe(st, info, |st.ivs|)
  }

  lemma {:induction false} NestedFlagsRespectCalls(ivs: seq<Interval>, info: RegisterInfo)
    requires FreshIntervals(ivs) && ValidPools(info) && FlagsNest(ivs)
    ensures RespectsCalls(ivs, info)
  {
    SortedInput(ivs, info);
    hide Run;
    NestedFlagsKeepCallsSafe(SortByStart(ivs), info, |SortByStart(ivs)|);
  }

  /** Whatever the registers, calls are respected: this holds of given intervals exactly if their
      flags nest. */
  lemma {:induction false} CallsRespectedExactly(ivs: seq<Interval>)
    requires FreshIntervals(ivs)
    ensures FlagsNest(ivs) <==> forall info :: ValidPools(info) ==> RespectsCalls(ivs, info)
  {
    if FlagsNest(ivs) {
      forall info | ValidPools(info)
        ensures RespectsCalls(ivs, info)
      {
        NestedFlagsRespectCalls(ivs, info);
      }
    } else {
      var a, b :| a in ivs && b in ivs && Encloses(a, b) && b.crossesCall && !a.crossesCall;
      hide FlagsNest;
      UnnestedNotRespected(ivs, a, b);
    }
  }

  lemma {:induction false} HeldByCrossing(st: Scan, info: RegisterInfo)
    requires CrossingHolds(st, |st.ivs|) && info.calleeSaved == {}
    ensures !CallsSafe(st, info, |st.ivs|)
  {
  }

  lemma {:induction false} SortedPositions(sorted: seq<Interval>, a: Interval, b: Interval) returns (i: nat, n: nat)
    requires SortedIntervals(sorted) && a in sorted && b in sorted && Before(a, b)
    ensures i < n < |sorted| && sorted[i] == a && sorted[n] == b
  {
    i :| 0 <= i < |sorted| && sorted[i] == a;
    n :| 0 <= n < |sorted| && sorted[n] == b;
    assert n < i ==> Before(b, a);
  }

  lemma {:induction false} UnnestedNotRespected(ivs: seq<Interval>, a: Interval, b: Interval)
    requires FreshIntervals(ivs) && a in ivs && b in ivs && Encloses(a, b) && b.crossesCall && !a.crossesCall
    ensures ValidPools(CallerSavedOnly(|ivs|)) && !RespectsCalls(ivs, CallerSavedOnly(|ivs|))
  {
    var info := CallerSavedOnly(|ivs|);
    assert ValidPools(info);
    SortedInput(ivs, info);
    var sorted := SortByStart(ivs);
    hide FreshIntervals, Run, ValidPools, CrossingHolds, CallsSafe;
    assert SortedIntervals(sorted);
    var i, n := SortedPositions(sorted, a, b);
    hide ValidInput, SortByStart, SortedIntervals;
    UnnestedFlagsBreakCalls(sorted, i, n);
    HeldByCrossing(Run(sorted, info, |sorted|), info);
  }

  /** Computed flags nest: a call strictly inside an interval is strictly inside every enclosing one. */
  lemma {:induction false} ComputedFlagsNest(f: Function, order: seq<nat>, ivs: seq<Interval>)
    requires ValidOrder(f, order) && IsIntervalsOf(f, order, ivs)
    ensures FlagsNest(ivs)
  {
    var calls := WalkOf(f, order).calls;
    forall a, b | a in ivs && b in ivs && Encloses(a, b) && b.crossesCall
      ensures a.crossesCall
    {
      assert Crosses(calls, b.start, b.end) && a.crossesCall == Crosses(calls, a.start, a.end);
      var k :| 0 <= k < |calls| && b.start < calls[k] < b.end;
      assert a.start < calls[k] < a.end;
    }
  }
}
