/** Evicting the interval that ends last spills as few intervals as possible: no choice of intervals
    that overlap at most k deep is larger than the set the scan keeps in k registers. */
module SpillOptimality {
  import opened Ir
  import opened LiveIntervals
  import opened LinearScan
  import opened ScanInvariants
  import opened ScanResults
  import opened ScanTheorems

  ghost function OfClass(ivs: seq<Interval>, c: RegClass): set<nat> {
    set j | 0 <= j < |ivs| && ivs[j].regClass == c
  }

  /** The members of `s` that contain the linear index `p`. */
  ghost function At(ivs: seq<Interval>, s: set<nat>, p: nat): set<nat> {
    set j | j in s && j < |ivs| && ivs[j].start <= p <= ivs[j].end
  }

  /** At most `k` closed intervals of `s` overlap at any point. */
  ghost predicate Feasible(ivs: seq<Interval>, s: set<nat>, k: nat) {
    forall p: nat :: |At(ivs, s, p)| <= k
  }

  /** Intervals of class `c` among the first `n` that hold a register. */
  ghost function Kept(st: Scan, n: nat, c: RegClass): set<nat> {
    set j | 0 <= j < n && j < |st.ivs| && st.ivs[j].regClass == c && st.ivs[j].reg.Some?
  }

  // ---- counting ----

  lemma {:induction false} SubsetCount(a: set<nat>, b: set<nat>)
    requires a <= b
    ensures |a| <= |b|
  {
    assert b == a + (b - a);
  }

  ghost function RegSet(ivs: seq<Interval>, s: set<nat>): set<PhysReg> {
    set j | j in s && j < |ivs| && ivs[j].reg.Some? :: ivs[j].reg.value
  }

  /** Intervals with pairwise different registers are as many as their registers. */
  lemma {:induction false} RegsCount(ivs: seq<Interval>, s: set<nat>)
    requires forall j :: j in s ==> j < |ivs| && ivs[j].reg.Some?
    requires forall j, k :: j in s && k in s && j != k ==> ivs[j].reg != ivs[k].reg
    ensures |RegSet(ivs, s)| == |s|
    decreases |s|
  {
    if s != {} {
      var j :| j in s;
      RegsCount(ivs, s - {j});
      assert RegSet(ivs, s) == RegSet(ivs, s - {j}) + {ivs[j].reg.value};
      assert ivs[j].reg.value !in RegSet(ivs, s - {j});
    }
  }

  ghost function SetOf(s: seq<PhysReg>): set<PhysReg> {
    set r | r in s
  }

  lemma {:induction false} SeqCount(s: seq<PhysReg>)
    ensures |SetOf(s)| <= |s|
  {
    if s != [] {
      SeqCount(s[1..]);
      assert s == [s[0]] + s[1..];
      assert SetOf(s) == SetOf(s[1..]) + {s[0]};
    }
  }

  /** What the scan keeps is feasible: its own register assignment is the colouring. */
  lemma {:induction false} KeptIsFeasible(ivs: seq<Interval>, info: RegisterInfo, n: nat, c: RegClass)
    requires ValidInput(ivs, info) && n <= |ivs|
    ensures Feasible(ivs, Kept(Run(ivs, info, n), n, c), |Allocatable(info, c)|)
  {
    RunKeepsCore(ivs, info, n);
    RunKeepsApart(ivs, info, n);
    var st := Run(ivs, info, n);
    hide Run, Conserved, ActiveExact;
    var kept := Kept(st, n, c);
    forall p: nat
      ensures |At(ivs, kept, p)| <= |Allocatable(info, c)|
    {
      ColouredDepth(ivs, info, st, n, c, p);
    }
  }

  lemma {:induction false} ColouredDepth(ivs: seq<Interval>, info: RegisterInfo, st: Scan, n: nat, c: RegClass, p: nat)
    requires Shape(ivs, st, n) && Apart(st, n) && InClass(st, info, n)
    ensures |At(ivs, Kept(st, n, c), p)| <= |Allocatable(info, c)|
  {
    var here := At(ivs, Kept(st, n, c), p);
    forall j, k | j in here && k in here && j != k
      ensures st.ivs[j].reg != st.ivs[k].reg
    {
      assert Meet(st.ivs[j], st.ivs[k]) && Meet(st.ivs[k], st.ivs[j]);
    }
    RegsCount(st.ivs, here);
    var all := SetOf(Allocatable(info, c));
    SeqCount(Allocatable(info, c));
    assert RegSet(st.ivs, here) <= all;
    SubsetCount(RegSet(st.ivs, here), all);
    assert here == At(st.ivs, Kept(st, n, c), p);
  }

  ghost function ActiveSet(ivs: seq<Interval>, active: seq<nat>, c: RegClass): set<nat>
    requires Known(ivs, active)
  {
    set k | 0 <= k < |active| && ivs[active[k]].regClass == c :: active[k]
  }

  lemma {:induction false} ActiveSetStep(ivs: seq<Interval>, active: seq<nat>, c: RegClass)
    requires Known(ivs, active) && active != []
    ensures Known(ivs, active[1..])
    ensures ActiveSet(ivs, active, c)
         == ActiveSet(ivs, active[1..], c) + if ivs[active[0]].regClass == c then {active[0]} else {}
  {
    var rest := active[1..];
    forall a | a in ActiveSet(ivs, active, c)
      ensures a in ActiveSet(ivs, rest, c) || (a == active[0] && ivs[a].regClass == c)
    {
      var k :| 0 <= k < |active| && ivs[active[k]].regClass == c && active[k] == a;
      if k > 0 {
        assert rest[k - 1] == a;
      }
    }
    forall a | a in ActiveSet(ivs, rest, c)
      ensures a in ActiveSet(ivs, active, c)
    {
      var k :| 0 <= k < |rest| && ivs[rest[k]].regClass == c && rest[k] == a;
      assert active[k + 1] == a;
    }
  }

  lemma {:induction false} ActiveCount(ivs: seq<Interval>, active: seq<nat>, c: RegClass)
    requires ActiveHold(ivs, active) && Distinct(active)
    ensures |ActiveSet(ivs, active, c)| == |ActiveRegs(ivs, active, c)|
  {
    if active != [] {
      ActiveSetStep(ivs, active, c);
      ActiveCount(ivs, active[1..], c);
      assert active[0] !in ActiveSet(ivs, active[1..], c);
    }
  }

  /** With an empty pool, the active intervals of the class are as many as its registers. */
  lemma {:induction false} FullWhenPoolEmpty(st: Scan, info: RegisterInfo, i: nat, cur: nat, c: RegClass)
    requires ActiveExact(st, i, cur) && Conserved(st, info) && Pool(st, c) == []
    ensures |ActiveSet(st.ivs, st.active, c)| == |Allocatable(info, c)|
  {
    ActiveCount(st.ivs, st.active, c);
    var regs := ActiveRegs(st.ivs, st.active, c);
    assert multiset(Pool(st, c)) + regs == multiset(Allocatable(info, c));
    assert |multiset(Allocatable(info, c))| == |Allocatable(info, c)|;
  }

  // ---- the exchange ----

  /** Trading `x` for `y`, which ends no later, keeps a choice feasible, given that everything the
      trade touches before index `n` is part of a feasible set. */
  lemma {:induction false} ExchangeIsFeasible(ivs: seq<Interval>, s: set<nat>, kept: set<nat>, x: nat, y: nat,
                                              n: nat, k: nat)
    requires SortedIntervals(ivs) && n < |ivs| && x <= n && y <= n && x in s && y !in s
    requires Feasible(ivs, s, k) && Feasible(ivs, kept, k)
    requires ivs[x].start <= ivs[n].start && ivs[y].end <= ivs[x].end
    requires forall j :: j in s && j < n && j != x ==> j in kept
    requires y < n ==> y in kept
    ensures Feasible(ivs, s - {x} + {y}, k)
  {
    forall p: nat
      ensures |At(ivs, s - {x} + {y}, p)| <= k
    {
      ExchangeDepth(ivs, s, kept, x, y, n, k, p);
    }
  }

  lemma {:induction false} LaterStartsLater(ivs: seq<Interval>, n: nat)
    requires SortedIntervals(ivs) && n < |ivs|
    ensures forall j :: n <= j < |ivs| ==> ivs[n].start <= ivs[j].start
  {
  }

  /** Before the current start only scanned intervals matter. */
  lemma {:induction false} ExchangeBelow(ivs: seq<Interval>, t: set<nat>, kept: set<nat>, n: nat, p: nat)
    requires n < |ivs| && forall j :: n <= j < |ivs| ==> ivs[n].start <= ivs[j].start
    requires p < ivs[n].start
    requires forall j :: j in t && j < n ==> j in kept
    ensures At(ivs, t, p) <= At(ivs, kept, p)
  {
  }

  lemma {:induction false} TradeCount(ivs: seq<Interval>, s: set<nat>, x: nat, y: nat, p: nat)
    requires x in At(ivs, s, p) && y !in s
    ensures |At(ivs, s - {x} + {y}, p)| <= |At(ivs, s, p)|
  {
    SubsetCount(At(ivs, s - {x} + {y}, p), At(ivs, s, p) - {x} + {y});
  }

  lemma {:induction false} ExchangeDepth(ivs: seq<Interval>, s: set<nat>, kept: set<nat>, x: nat, y: nat, n: nat,
                                         k: nat, p: nat)
    requires SortedIntervals(ivs) && n < |ivs| && x <= n && y <= n && x in s && y !in s
    requires |At(ivs, s, p)| <= k && |At(ivs, kept, p)| <= k
    requires ivs[x].start <= ivs[n].start && ivs[y].end <= ivs[x].end
    requires forall j :: j in s && j < n && j != x ==> j in kept
    requires y < n ==> y in kept
    ensures |At(ivs, s - {x} + {y}, p)| <= k
  {
    var t := s - {x} + {y};
    LaterStartsLater(ivs, n);
    hide SortedIntervals;
    if !(ivs[y].start <= p <= ivs[y].end) {
      SubsetCount(At(ivs, t, p), At(ivs, s, p));
    } else if ivs[x].start <= p <= ivs[x].end {
      TradeCount(ivs, s, x, y, p);
    } else {
      ExchangeBelow(ivs, t, kept, n, p);
      SubsetCount(At(ivs, t, p), At(ivs, kept, p));
    }
  }

  /** `s` restricted to what has been scanned is kept by the scan. */
  ghost predicate Agrees(s: set<nat>, kept: set<nat>, n: nat) {
    forall j :: j in s && j < n ==> j in kept
  }

  /** A crowd larger than the depth of a choice has a member outside the choice. */
  lemma {:induction false} SomeoneMissing(ivs: seq<Interval>, crowd: set<nat>, s: set<nat>, p: nat) returns (y: nat)
    requires |crowd| > |At(ivs, s, p)|
    requires forall y :: y in crowd ==> y < |ivs| && ivs[y].start <= p <= ivs[y].end
    ensures y in crowd && y !in s
  {
    SubsetCount(crowd * s, At(ivs, s, p));
    assert crowd - s != {} by {
      assert crowd == crowd * s + (crowd - s);
    }
    y :| y in crowd - s;
  }

  /** One forced spill: among the k + 1 intervals over the current start some `y` is missing from
      any feasible choice, and can replace the interval that ends last. */
  lemma {:induction false} ForcedExchange(ivs: seq<Interval>, crowd: set<nat>, s: set<nat>, was: set<nat>,
                                          kept: set<nat>, x: nat, n: nat, k: nat) returns (t: set<nat>)
    requires SortedIntervals(ivs) && n < |ivs| && x in crowd && |crowd| == k + 1
    requires x <= n
    requires forall y :: y in crowd ==> y <= n && ivs[y].start <= ivs[n].start <= ivs[y].end && ivs[y].end <= ivs[x].end
    requires forall y :: y in crowd && y < n ==> y in was
    requires kept == was + {n} - {x} && n !in was
    requires Feasible(ivs, s, k) && Feasible(ivs, kept, k) && Agrees(s, was, n)
    ensures Feasible(ivs, t, k) && |t| == |s| && Agrees(t, kept, n + 1)
    ensures forall j :: j in t ==> j in s || j in crowd
  {
    hide SortedIntervals;
    if x !in s {
      t := s;
    } else {
      assert |At(ivs, s, ivs[n].start)| <= k;
      var y := SomeoneMissing(ivs, crowd, s, ivs[n].start);
      t := s - {x} + {y};
      ExchangeIsFeasible(ivs, s, kept, x, y, n, k);
    }
  }

  ghost predicate NoneCrosses(ivs: seq<Interval>, c: RegClass) {
    forall j :: 0 <= j < |ivs| && ivs[j].regClass == c ==> !ivs[j].crossesCall
  }

  /** The crowd at a forced spill, the interval given up, and what is kept afterwards. */
  lemma {:induction false} ForcedSpill(ivs: seq<Interval>, info: RegisterInfo, n: nat) returns (crowd: set<nat>, x: nat)
    requires ValidInput(ivs, info) && n < |ivs| && NoneCrosses(ivs, ivs[n].regClass)
    requires ActiveHold(Ready(ivs, info, n).ivs, Ready(ivs, info, n).active) && |Ready(ivs, info, n).ivs| == |ivs|
    requires !OutcomeOf(Ready(ivs, info, n), n, info).TookFree?
    ensures var c := ivs[n].regClass;
      && |crowd| == |Allocatable(info, c)| + 1 && x in crowd
      && (forall y :: y in crowd ==> y <= n && ivs[y].regClass == c)
      && (forall y :: y in crowd ==> ivs[y].start <= ivs[n].start <= ivs[y].end && ivs[y].end <= ivs[x].end)
      && (forall y :: y in crowd && y < n ==> y in Kept(Run(ivs, info, n), n, c))
      && Kept(Run(ivs, info, n + 1), n + 1, c) == Kept(Run(ivs, info, n), n, c) + {n} - {x}
  {
    ReadyCore(ivs, info, n);
    RunByPlace(ivs, info, n);
    var st := Ready(ivs, info, n);
    ReadyKept(ivs, info, n, ivs[n].regClass);
    crowd, x := CrowdOf(ivs, info, st, n);
  }

  lemma {:induction false} ReadyKept(ivs: seq<Interval>, info: RegisterInfo, n: nat, c: RegClass)
    requires n < |ivs|
    ensures Kept(Ready(ivs, info, n), n, c) == Kept(Run(ivs, info, n), n, c)
  {
    hide Run;
  }

  lemma {:induction false} CrowdOf(ivs: seq<Interval>, info: RegisterInfo, st: Scan, n: nat)
    returns (crowd: set<nat>, x: nat)
    requires ValidInput(ivs, info) && n < |ivs| && Core(ivs, info, st, n, ivs[n].start)
    requires NoneCrosses(ivs, ivs[n].regClass) && ActiveHold(st.ivs, st.active) && n < |st.ivs|
    requires !OutcomeOf(st, n, info).TookFree?
    ensures var c := ivs[n].regClass;
      && |crowd| == |Allocatable(info, c)| + 1 && x in crowd
      && (forall y :: y in crowd ==> y <= n && ivs[y].regClass == c)
      && (forall y :: y in crowd ==> ivs[y].start <= ivs[n].start <= ivs[y].end && ivs[y].end <= ivs[x].end)
      && (forall y :: y in crowd && y < n ==> y in Kept(st, n, c))
      && Kept(Place(st, n, info), n + 1, c) == Kept(st, n, c) + {n} - {x}
  {
    hide *;
    var c := ivs[n].regClass;
    CoreForBooks(ivs, info, st, n, ivs[n].start);
    CoreFacts(ivs, info, st, n, ivs[n].start);
    KeptAfter(st, n, info);
    MembersAreKept(ivs, info, st, n, c);
    CrowdIsFull(ivs, info, st, n);
    MembersEndByX(st, n, info);
    crowd := ActiveSet(st.ivs, st.active, c) + {n};
    x := GivenUp(st, n, info);
  }

  lemma {:induction false} CrowdIsFull(ivs: seq<Interval>, info: RegisterInfo, st: Scan, n: nat)
    requires ValidInput(ivs, info) && n < |ivs| && Core(ivs, info, st, n, ivs[n].start)
    requires NoneCrosses(ivs, ivs[n].regClass) && ActiveHold(st.ivs, st.active) && n < |st.ivs|
    requires !OutcomeOf(st, n, info).TookFree?
    ensures |ActiveSet(st.ivs, st.active, ivs[n].regClass)| == |Allocatable(info, ivs[n].regClass)|
  {
    FullWhenPoolEmpty(st, info, n, ivs[n].start, ivs[n].regClass);
  }

  lemma {:induction false} MembersAreKept(ivs: seq<Interval>, info: RegisterInfo, st: Scan, n: nat, c: RegClass)
    requires ValidInput(ivs, info) && n < |ivs| && Core(ivs, info, st, n, ivs[n].start)
    ensures Known(st.ivs, st.active) && |st.ivs| == |ivs|
    ensures forall y :: y in ActiveSet(st.ivs, st.active, c) ==>
      (y < n && ivs[y].start <= ivs[n].start <= ivs[y].end && ivs[y].end == st.ivs[y].end
       && ivs[y].regClass == c && y in Kept(st, n, c))
  {
    forall y | y in ActiveSet(st.ivs, st.active, c)
      ensures y < n && ivs[y].start <= ivs[n].start <= ivs[y].end && ivs[y].end == st.ivs[y].end
      ensures ivs[y].regClass == c && y in Kept(st, n, c)
    {
      var k :| 0 <= k < |st.active| && st.ivs[st.active[k]].regClass == c && st.active[k] == y;
      assert y in st.active;
      assert Before(ivs[y], ivs[n]);
    }
  }

  /** The interval that loses at a forced spill. */
  ghost function GivenUp(st: Scan, n: nat, info: RegisterInfo): nat
    requires ActiveHold(st.ivs, st.active) && n < |st.ivs|
  {
    if OutcomeOf(st, n, info).Evicted? then OutcomeOf(st, n, info).far else n
  }

  lemma {:induction false} MembersEndByX(st: Scan, n: nat, info: RegisterInfo)
    requires ActiveHold(st.ivs, st.active) && n < |st.ivs| && !OutcomeOf(st, n, info).TookFree?
    ensures var c, x := st.ivs[n].regClass, GivenUp(st, n, info);
      && x < |st.ivs| && st.ivs[n].end <= st.ivs[x].end
      && (x == n || x in ActiveSet(st.ivs, st.active, c))
      && forall y :: y in ActiveSet(st.ivs, st.active, c) ==> st.ivs[y].end <= st.ivs[x].end
  {
    var c, x := st.ivs[n].regClass, GivenUp(st, n, info);
    if OutcomeOf(st, n, info).Evicted? {
      assert x in st.active;
      var k :| 0 <= k < |st.active| && st.active[k] == x;
    }
  }

  lemma {:induction false} KeptAfter(st: Scan, n: nat, info: RegisterInfo)
    requires n < |st.ivs| && ActiveHold(st.ivs, st.active) && st.ivs[n].reg.None?
    requires forall a :: a in st.active ==> a < n
    requires !OutcomeOf(st, n, info).TookFree?
    ensures var c := st.ivs[n].regClass;
      Kept(Place(st, n, info), n + 1, c) == Kept(st, n, c) + {n} - {GivenUp(st, n, info)}
  {
    PlaceIntervals(st, n, info);
    hide Place, OutcomeOf;
  }

  lemma {:induction false} KeptOtherwise(ivs: seq<Interval>, info: RegisterInfo, n: nat, c: RegClass)
    requires ValidInput(ivs, info) && n < |ivs|
    requires ActiveHold(Ready(ivs, info, n).ivs, Ready(ivs, info, n).active) && |Ready(ivs, info, n).ivs| == |ivs|
    requires ivs[n].regClass != c || OutcomeOf(Ready(ivs, info, n), n, info).TookFree?
    ensures Kept(Run(ivs, info, n + 1), n + 1, c)
         == Kept(Run(ivs, info, n), n, c) + if ivs[n].regClass == c then {n} else {}
  {
    ReadyCore(ivs, info, n);
    RunByPlace(ivs, info, n);
    ReadyKept(ivs, info, n, c);
    var st := Ready(ivs, info, n);
    PlaceByOutcome(st, n, info);
    CoreForBooks(ivs, info, st, n, ivs[n].start);
    PlacedOtherwise(ivs, info, st, Run(ivs, info, n + 1), n, c);
  }

  lemma {:induction false} PlacedOtherwise(ivs: seq<Interval>, info: RegisterInfo, st: Scan, r: Scan, n: nat,
                                           c: RegClass)
    requires n < |ivs| && |st.ivs| == |ivs| && ActiveHold(st.ivs, st.active) && r == Place(st, n, info)
    requires st.ivs[n].regClass == ivs[n].regClass && st.ivs[n].reg.None?
    requires forall a :: a in st.active ==> a < n
    requires ivs[n].regClass != c || OutcomeOf(st, n, info).TookFree?
    ensures Kept(r, n + 1, c) == Kept(st, n, c) + if ivs[n].regClass == c then {n} else {}
  {
    PlaceIntervals(st, n, info);
    hide Place, OutcomeOf;
    var far := if OutcomeOf(st, n, info).Evicted? then OutcomeOf(st, n, info).far else n;
    assert r.ivs == st.ivs[far := r.ivs[far]][n := r.ivs[n]];
    KeptFrame(st, r, far, n, c);
  }

  lemma {:induction false} KeptFrame(st: Scan, r: Scan, far: nat, n: nat, c: RegClass)
    requires n < |st.ivs| && far <= n && |r.ivs| == |st.ivs| && r.ivs == st.ivs[far := r.ivs[far]][n := r.ivs[n]]
    requires r.ivs[n].regClass == st.ivs[n].regClass && r.ivs[far].regClass == st.ivs[far].regClass
    requires st.ivs[n].regClass == c ==> far == n && r.ivs[n].reg.Some?
    requires st.ivs[far].regClass == st.ivs[n].regClass
    ensures Kept(r, n + 1, c) == Kept(st, n, c) + if st.ivs[n].regClass == c then {n} else {}
  {
  }

  lemma {:induction false} ExchangeStep(ivs: seq<Interval>, info: RegisterInfo, c: RegClass, n: nat, u: set<nat>)
    returns (t: set<nat>)
    requires ValidInput(ivs, info) && n < |ivs| && NoneCrosses(ivs, c)
    requires u <= OfClass(ivs, c) && Feasible(ivs, u, |Allocatable(info, c)|)
    requires Agrees(u, Kept(Run(ivs, info, n), n, c), n)
    ensures t <= OfClass(ivs, c) && Feasible(ivs, t, |Allocatable(info, c)|) && |t| == |u|
    ensures Agrees(t, Kept(Run(ivs, info, n + 1), n + 1, c), n + 1)
  {
    hide Run, Core, Feasible, ValidInput, OutcomeOf;
    ReadyCore(ivs, info, n);
    CoreFacts(ivs, info, Ready(ivs, info, n), n, ivs[n].start);
    if ivs[n].regClass != c || OutcomeOf(Ready(ivs, info, n), n, info).TookFree? {
      KeptOtherwise(ivs, info, n, c);
      t := u;
    } else {
      var crowd, x := ForcedSpill(ivs, info, n);
      KeptIsFeasible(ivs, info, n + 1, c);
      SortedInputFacts(ivs, info);
      t := ForcedExchange(ivs, crowd, u, Kept(Run(ivs, info, n), n, c), Kept(Run(ivs, info, n + 1), n + 1, c),
                          x, n, |Allocatable(info, c)|);
    }
  }

  lemma {:induction false} SortedInputFacts(ivs: seq<Interval>, info: RegisterInfo)
    requires ValidInput(ivs, info)
    ensures SortedIntervals(ivs)
  {
  }

  /** After every step, any feasible choice can be turned into one as large whose scanned part is
      among the intervals the scan keeps. */
  lemma {:induction false} ExchangeAlong(ivs: seq<Interval>, info: RegisterInfo, c: RegClass, n: nat, s: set<nat>)
    returns (t: set<nat>)
    requires ValidInput(ivs, info) && n <= |ivs| && NoneCrosses(ivs, c)
    requires s <= OfClass(ivs, c) && Feasible(ivs, s, |Allocatable(info, c)|)
    ensures t <= OfClass(ivs, c) && Feasible(ivs, t, |Allocatable(info, c)|) && |t| == |s|
    ensures Agrees(t, Kept(Run(ivs, info, n), n, c), n)
  {
    hide Run, Feasible, ValidInput;
    if n == 0 {
      t := s;
    } else {
      var u := ExchangeAlong(ivs, info, c, n - 1, s);
      t := ExchangeStep(ivs, info, c, n - 1, u);
    }
  }

  /** Spilled intervals of a class. */
  ghost function Spilled(st: Scan, c: RegClass): set<nat> {
    set j | 0 <= j < |st.ivs| && st.ivs[j].regClass == c && st.ivs[j].slot.Some?
  }

  lemma {:induction false} SpilledIsRest(ivs: seq<Interval>, info: RegisterInfo, c: RegClass)
    requires ValidInput(ivs, info)
    ensures var st := Run(ivs, info, |ivs|); Spilled(st, c) == OfClass(ivs, c) - Kept(st, |ivs|, c)
  {
    RunKeepsCore(ivs, info, |ivs|);
    hide Run, Conserved, ActiveExact, InClass;
  }

  /** The number of spills is the minimum: the intervals left in registers are a feasible choice, and
      dropping any set of intervals so that at most k overlap anywhere drops at least as many. */
  lemma {:induction false} SpillCountIsMinimal(ivs: seq<Interval>, info: RegisterInfo, c: RegClass, dropped: set<nat>)
    requires FreshIntervals(ivs) && ValidPools(info) && NoneCrosses(SortByStart(ivs), c)
    requires dropped <= OfClass(SortByStart(ivs), c)
    requires Feasible(SortByStart(ivs), OfClass(SortByStart(ivs), c) - dropped, |Allocatable(info, c)|)
    ensures |Spilled(Allocate(ivs, info), c)| <= |dropped|
    ensures Feasible(SortByStart(ivs), OfClass(SortByStart(ivs), c) - Spilled(Allocate(ivs, info), c),
                     |Allocatable(info, c)|)
  {
    SortedInput(ivs, info);
    var sorted := SortByStart(ivs);
    var all, st := OfClass(sorted, c), Run(sorted, info, |sorted|);
    var kept := Kept(st, |sorted|, c);
    var t := ExchangeAlong(sorted, info, c, |sorted|, all - dropped);
    KeptIsFeasible(sorted, info, |sorted|, c);
    SpilledIsRest(sorted, info, c);
    hide Run, Feasible;
    assert t <= kept;
    SubsetCount(t, kept);
    RunKeepsShape(sorted, info);
    assert kept <= all;
    assert all - (all - kept) == kept;
    assert |all - kept| == |all| - |kept| && |all - dropped| == |all| - |dropped|;
  }

  lemma {:induction false} RunKeepsShape(ivs: seq<Interval>, info: RegisterInfo)
    requires ValidInput(ivs, info)
    ensures Shape(ivs, Run(ivs, info, |ivs|), |ivs|)
  {
    RunKeepsCore(ivs, info, |ivs|);
  }
}
