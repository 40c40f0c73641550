/** What every step of the linear scan keeps, and what follows at the end: registers are conserved,
    meeting intervals never share one, and the tables handed to code generation are exact. */
module ScanInvariants {
  import opened Wrappers
  import opened Ir
  import opened LiveIntervals
  import opened LinearScan

  /** What the allocator is given: sorted fresh intervals of distinct values, and pools without
      repetition or overlap. */
  ghost predicate ValidInput(ivs: seq<Interval>, info: RegisterInfo) {
    && SortedIntervals(ivs) && DistinctVregs(ivs)
    && (forall j :: 0 <= j < |ivs| ==> ivs[j].start <= ivs[j].end && ivs[j].reg == None && ivs[j].slot == None)
    && ValidPools(info)
  }

  ghost predicate ValidPools(info: RegisterInfo) {
    Distinct(info.gpr) && Distinct(info.fpr) && forall r :: r in info.gpr ==> r !in info.fpr
  }

  // ---- the invariant ----

  /** Nothing but `reg` and `slot` changes; a placed interval has exactly one of them, an interval
      still to come has neither. */
  ghost predicate Shape(ivs: seq<Interval>, st: Scan, i: nat) {
    && |st.ivs| == |ivs| && i <= |ivs|
    && (forall j :: 0 <= j < |ivs| ==> st.ivs[j] == ivs[j].(reg := st.ivs[j].reg, slot := st.ivs[j].slot))
    && (forall j :: 0 <= j < i ==> (st.ivs[j].reg.Some? <==> st.ivs[j].slot.None?))
    && (forall j :: i <= j < |ivs| ==> st.ivs[j].reg.None? && st.ivs[j].slot.None?)
  }

  ghost predicate SortedByEnd(ivs: seq<Interval>, active: seq<nat>) {
    && Known(ivs, active) && Distinct(active)
    && forall k, l :: 0 <= k < l < |active| ==> ivs[active[k]].end <= ivs[active[l]].end
  }

  /** The active list holds, once each and sorted by end, exactly the placed intervals that hold a
      register and have not ended before `cur`. */
  ghost predicate ActiveExact(st: Scan, i: nat, cur: nat) {
    && i <= |st.ivs| && ActiveHold(st.ivs, st.active) && SortedByEnd(st.ivs, st.active)
    && (forall j {:trigger j in st.active} :: j in st.active
         <==> 0 <= j < i && st.ivs[j].reg.Some? && cur <= st.ivs[j].end)
  }

  ghost function RegOf(iv: Interval, c: RegClass): multiset<PhysReg> {
    if iv.regClass == c && iv.reg.Some? then multiset{iv.reg.value} else multiset{}
  }

  /** Registers of the active intervals of one class. */
  ghost function ActiveRegs(ivs: seq<Interval>, active: seq<nat>, c: RegClass): multiset<PhysReg> {
    if active == [] then multiset{} else RegAt(ivs, active[0], c) + ActiveRegs(ivs, active[1..], c)
  }

  ghost function RegAt(ivs: seq<Interval>, a: nat, c: RegClass): multiset<PhysReg> {
    if a < |ivs| then RegOf(ivs[a], c) else multiset{}
  }

  /** Free registers plus registers of active intervals are exactly the allocatable ones. */
  ghost predicate Conserved(st: Scan, info: RegisterInfo) {
    forall c :: multiset(Pool(st, c)) + ActiveRegs(st.ivs, st.active, c) == multiset(Allocatable(info, c))
  }

  ghost predicate Meet(a: Interval, b: Interval) {
    a.start <= b.end && b.start <= a.end
  }

  /** Placed intervals that meet hold different registers. */
  ghost predicate Apart(st: Scan, i: nat) {
    i <= |st.ivs| &&
    forall j, k :: 0 <= j < k < i && Meet(st.ivs[j], st.ivs[k]) && st.ivs[j].reg.Some?
                   ==> st.ivs[j].reg != st.ivs[k].reg
  }

  /** Every held register belongs to the interval's class. */
  ghost predicate InClass(st: Scan, info: RegisterInfo, i: nat) {
    i <= |st.ivs| &&
    forall j :: 0 <= j < i && st.ivs[j].reg.Some? ==> st.ivs[j].reg.value in Allocatable(info, st.ivs[j].regClass)
  }

  ghost predicate Placed(ivs: seq<Interval>, i: nat, v: Value) {
    exists j :: 0 <= j < i && j < |ivs| && ivs[j].vreg == v
  }

  ghost predicate AssignmentsExact(st: Scan, i: nat) {
    && i <= |st.ivs|
    && (forall j :: 0 <= j < i ==> (st.ivs[j].reg.Some? <==> st.ivs[j].vreg in st.assignments))
    && (forall j :: 0 <= j < i && st.ivs[j].reg.Some? && st.ivs[j].vreg in st.assignments
                    ==> st.assignments[st.ivs[j].vreg] == st.ivs[j].reg.value)
    && (forall v {:trigger Placed(st.ivs, i, v)} :: v in st.assignments ==> Placed(st.ivs, i, v))
  }

  ghost predicate OwnsSlot(ivs: seq<Interval>, i: nat, n: nat) {
    exists j :: 0 <= j < i && j < |ivs| && ivs[j].slot == Some(n)
  }

  /** Values with a slot and slot indices correspond one to one. */
  ghost predicate SlotsExact(st: Scan, i: nat) {
    && i <= |st.ivs|
    && (forall j :: 0 <= j < i ==> (st.ivs[j].slot.Some? <==> st.ivs[j].vreg in st.spillMap))
    && (forall j :: 0 <= j < i && st.ivs[j].slot.Some? && st.ivs[j].vreg in st.spillMap
                    ==> st.spillMap[st.ivs[j].vreg] == st.ivs[j].slot.value)
    && (forall v {:trigger Placed(st.ivs, i, v)} :: v in st.spillMap ==> Placed(st.ivs, i, v))
    && (forall j :: 0 <= j < i && st.ivs[j].slot.Some? ==> FitsSlot(st.slots, st.ivs[j]))
    && (forall j, k :: 0 <= j < k < i && st.ivs[j].slot.Some? ==> st.ivs[j].slot != st.ivs[k].slot)
    && (forall n {:trigger OwnsSlot(st.ivs, i, n)} :: 0 <= n < |st.slots| ==> OwnsSlot(st.ivs, i, n))
  }

  ghost predicate FitsSlot(slots: seq<SpillSlot>, iv: Interval)
    requires iv.slot.Some?
  {
    iv.slot.value < |slots| && slots[iv.slot.value].size == SlotSize(iv.size)
  }

  /** Slots lie end to end below the frame pointer and fill the frame. */
  ghost predicate Tiles(slots: seq<SpillSlot>, frameSize: nat) {
    && (forall n :: 0 <= n < |slots| ==> slots[n].index == n && 0 < slots[n].size)
    && (forall n :: 0 <= n < |slots| ==> slots[n].offset + slots[n].size == Bottom(slots, n))
    && -(frameSize as int) == Bottom(slots, |slots|)
  }

  /** Where the first `n` slots end. */
  ghost function Bottom(slots: seq<SpillSlot>, n: nat): int
    requires n <= |slots|
  {
    if n == 0 then 0 else slots[n - 1].offset
  }

  ghost predicate Holds(ivs: seq<Interval>, i: nat, r: PhysReg) {
    exists j :: 0 <= j < i && j < |ivs| && ivs[j].reg == Some(r)
  }

  ghost predicate CalleeExact(st: Scan, info: RegisterInfo, i: nat) {
    forall r :: r in st.calleeUsed <==> r in info.calleeSaved && Holds(st.ivs, i, r)
  }

  /** The part of the invariant that the others rest on. */
  ghost predicate Core(ivs: seq<Interval>, info: RegisterInfo, st: Scan, i: nat, cur: nat) {
    Shape(ivs, st, i) && ActiveExact(st, i, cur) && Conserved(st, info) && InClass(st, info, i)
  }

  // ---- registers of the active list ----

  lemma {:induction false} Regroup(a: multiset<PhysReg>, b: multiset<PhysReg>, x: multiset<PhysReg>)
    ensures a + b + x == (a + x) + b && a + (b + x) == (a + b) + x
  {
  }

  lemma {:induction false} ActiveRegsAppend(ivs: seq<Interval>, a: seq<nat>, b: seq<nat>, c: RegClass)
    ensures ActiveRegs(ivs, a + b, c) == ActiveRegs(ivs, a, c) + ActiveRegs(ivs, b, c)
  {
    if a == [] {
      assert a + b == b;
    } else {
      var rest := a[1..] + b;
      assert a + b == [a[0]] + rest;
      assert (a + b)[1..] == rest;
      assert ActiveRegs(ivs, a + b, c) == RegAt(ivs, a[0], c) + ActiveRegs(ivs, rest, c);
      ActiveRegsAppend(ivs, a[1..], b, c);
      Regroup(RegAt(ivs, a[0], c), ActiveRegs(ivs, a[1..], c), ActiveRegs(ivs, b, c));
    }
  }

  lemma {:induction false} ActiveRegsFrame(ivs: seq<Interval>, now: seq<Interval>, active: seq<nat>, c: RegClass)
    requires |now| == |ivs|
    requires forall a :: a in active && a < |ivs| ==> now[a] == ivs[a]
    ensures ActiveRegs(now, active, c) == ActiveRegs(ivs, active, c)
  {
    if active != [] {
      ActiveRegsFrame(ivs, now, active[1..], c);
    }
  }

  lemma {:induction false} HeldIsCounted(ivs: seq<Interval>, active: seq<nat>, k: nat)
    requires Known(ivs, active) && k < |active| && ivs[active[k]].reg.Some?
    ensures ivs[active[k]].reg.value in ActiveRegs(ivs, active, ivs[active[k]].regClass)
  {
    if k > 0 {
      HeldIsCounted(ivs, active[1..], k - 1);
    }
  }

  lemma {:induction false} SharedIsCountedTwice(ivs: seq<Interval>, active: seq<nat>, k: nat, l: nat)
    requires Known(ivs, active) && k < l < |active| && ivs[active[k]].reg.Some?
    requires ivs[active[k]].reg == ivs[active[l]].reg && ivs[active[k]].regClass == ivs[active[l]].regClass
    ensures ActiveRegs(ivs, active, ivs[active[k]].regClass)[ivs[active[k]].reg.value] >= 2
  {
    var c := ivs[active[k]].regClass;
    if k > 0 {
      SharedIsCountedTwice(ivs, active[1..], k - 1, l - 1);
    } else {
      HeldIsCounted(ivs, active[1..], l - 1);
    }
  }

  lemma {:induction false} DistinctCount(s: seq<PhysReg>, r: PhysReg)
    requires Distinct(s)
    ensures multiset(s)[r] <= 1
  {
    if s != [] {
      assert s == [s[0]] + s[1..];
      DistinctCount(s[1..], r);
      if r == s[0] {
        assert r !in s[1..];
      }
    }
  }

  lemma {:induction false} AllocatableCount(info: RegisterInfo, c: RegClass, r: PhysReg)
    requires ValidPools(info)
    ensures multiset(Allocatable(info, c))[r] <= 1
  {
    DistinctCount(Allocatable(info, c), r);
  }

  /** An active register is allocatable for the class and not free. */
  lemma {:induction false} ActiveIsTaken(st: Scan, info: RegisterInfo, a: nat)
    requires ValidPools(info) && Conserved(st, info) && ActiveHold(st.ivs, st.active) && a in st.active
    ensures var iv := st.ivs[a];
      iv.reg.value in Allocatable(info, iv.regClass) && iv.reg.value !in Pool(st, iv.regClass)
  {
    var k :| 0 <= k < |st.active| && st.active[k] == a;
    HeldIsCounted(st.ivs, st.active, k);
    var c, r := st.ivs[a].regClass, st.ivs[a].reg.value;
    AllocatableCount(info, c, r);
    assert multiset(Allocatable(info, c))[r] == multiset(Pool(st, c))[r] + ActiveRegs(st.ivs, st.active, c)[r];
    assert r in multiset(Allocatable(info, c));
    assert r !in multiset(Pool(st, c));
  }

  /** Two active intervals never hold the same register. */
  lemma {:induction false} ActiveDiffer(st: Scan, info: RegisterInfo, a: nat, b: nat)
    requires ValidPools(info) && Conserved(st, info) && ActiveHold(st.ivs, st.active)
    requires a in st.active && b in st.active && a != b
    ensures st.ivs[a].reg != st.ivs[b].reg
  {
    if st.ivs[a].reg == st.ivs[b].reg {
      ActiveIsTaken(st, info, a);
      ActiveIsTaken(st, info, b);
      SameRegSameClass(info, st.ivs[a], st.ivs[b]);
      var k :| 0 <= k < |st.active| && st.active[k] == a;
      var l :| 0 <= l < |st.active| && st.active[l] == b;
      SharedIsCountedTwice(st.ivs, st.active, if k < l then k else l, if k < l then l else k);
      var c, r := st.ivs[a].regClass, st.ivs[a].reg.value;
      AllocatableCount(info, c, r);
      assert false;
    }
  }

  lemma {:induction false} SameRegSameClass(info: RegisterInfo, a: Interval, b: Interval)
    requires ValidPools(info) && a.reg.Some? && a.reg == b.reg
    requires a.reg.value in Allocatable(info, a.regClass) && b.reg.value in Allocatable(info, b.regClass)
    ensures a.regClass == b.regClass
  {
  }

  // ---- expiry ----

  lemma {:induction false} AddToBoth(a: multiset<PhysReg>, k: multiset<PhysReg>, h: multiset<PhysReg>,
                  p: multiset<PhysReg>, r: multiset<PhysReg>)
    requires a + k == p + r
    ensures (a + h) + k == p + (h + r) && a + (h + k) == p + (h + r)
  {
    assert (a + h) + k == (a + k) + h && a + (h + k) == (a + k) + h;
    assert p + (h + r) == (p + r) + h;
  }

  lemma {:induction false} ExpireConserves(ivs: seq<Interval>, active: seq<nat>, cur: nat, c: RegClass,
                                           pool: seq<PhysReg>)
    requires Known(ivs, active)
    ensures multiset(Returned(ivs, active, cur, c, pool)) + ActiveRegs(ivs, Keep(ivs, active, cur), c)
         == multiset(pool) + ActiveRegs(ivs, active, c)
  {
    if active != [] {
      ExpireConserves(ivs, active[1..], cur, c, pool);
      var kept, held := Keep(ivs, active[1..], cur), RegOf(ivs[active[0]], c);
      var back, later := Returned(ivs, active[1..], cur, c, pool), ActiveRegs(ivs, active[1..], c);
      AddToBoth(multiset(back), ActiveRegs(ivs, kept, c), held, multiset(pool), later);
      if ivs[active[0]].end < cur {
        assert multiset(Returned(ivs, active, cur, c, pool)) == multiset(back) + held;
        assert Keep(ivs, active, cur) == kept;
      } else {
        assert Keep(ivs, active, cur) == [active[0]] + kept;
        assert ([active[0]] + kept)[1..] == kept;
      }
    }
  }

  lemma {:induction false} PrependKeepsOrder(ivs: seq<Interval>, a: nat, rest: seq<nat>)
    requires a < |ivs| && SortedByEnd(ivs, rest)
    requires forall l :: 0 <= l < |rest| ==> rest[l] != a && ivs[a].end <= ivs[rest[l]].end
    ensures SortedByEnd(ivs, [a] + rest)
  {
  }

  lemma {:induction false} SortedTail(ivs: seq<Interval>, active: seq<nat>)
    requires SortedByEnd(ivs, active) && active != []
    ensures SortedByEnd(ivs, active[1..])
    ensures forall a :: a in active[1..] ==> a < |ivs| && a != active[0] && ivs[active[0]].end <= ivs[a].end
  {
  }

  lemma {:induction false} KeepKeepsOrder(ivs: seq<Interval>, active: seq<nat>, cur: nat)
    requires SortedByEnd(ivs, active)
    ensures SortedByEnd(ivs, Keep(ivs, active, cur))
  {
    if active != [] {
      SortedTail(ivs, active);
      KeepIsFilter(ivs, active[1..], cur);
      KeepKeepsOrder(ivs, active[1..], cur);
      var rest := Keep(ivs, active[1..], cur);
      hide SortedByEnd;
      forall l | 0 <= l < |rest|
        ensures rest[l] != active[0] && ivs[active[0]].end <= ivs[rest[l]].end
      {
        assert rest[l] in active[1..];
      }
      PrependKeepsOrder(ivs, active[0], rest);
      assert Keep(ivs, active, cur) == if ivs[active[0]].end < cur then rest else [active[0]] + rest;
    }
  }

  lemma {:induction false} ExpireKeepsActive(st: Scan, i: nat, was: nat, cur: nat)
    requires ActiveExact(st, i, was) && was <= cur
    ensures ActiveExact(Expire(st, cur), i, cur)
  {
    KeepHolds(st.ivs, st.active, cur);
    KeepIsFilter(st.ivs, st.active, cur);
    KeepKeepsOrder(st.ivs, st.active, cur);
  }

  lemma {:induction false} ExpireKeepsConserved(st: Scan, info: RegisterInfo, cur: nat)
    requires Conserved(st, info) && Known(st.ivs, st.active)
    ensures Conserved(Expire(st, cur), info)
  {
    KeepIsFilter(st.ivs, st.active, cur);
    var r := Expire(st, cur);
    forall c
      ensures multiset(Pool(r, c)) + ActiveRegs(r.ivs, r.active, c) == multiset(Allocatable(info, c))
    {
      ExpireConserves(st.ivs, st.active, cur, c, Pool(st, c));
    }
  }

  lemma {:induction false} ExpireKeepsCore(ivs: seq<Interval>, info: RegisterInfo, st: Scan, i: nat, was: nat, cur: nat)
    requires Core(ivs, info, st, i, was) && was <= cur
    ensures Core(ivs, info, Expire(st, cur), i, cur)
  {
    ExpireKeepsActive(st, i, was, cur);
    ExpireKeepsConserved(st, info, cur);
  }

  // ---- placing one interval: a register leaves the pool or an active interval, then is held ----

  /** Conservation while register `reg` of class `c` is in hand. */
  ghost predicate ConservedBut(st: Scan, info: RegisterInfo, c: RegClass, reg: PhysReg) {
    forall d :: multiset(Pool(st, d)) + ActiveRegs(st.ivs, st.active, d)
                   + (if d == c then multiset{reg} else multiset{}) == multiset(Allocatable(info, d))
  }

  /** The core while `reg` is in hand for interval `i`. */
  ghost predicate CoreBut(ivs: seq<Interval>, info: RegisterInfo, st: Scan, i: nat, cur: nat,
                          c: RegClass, reg: PhysReg) {
    && Shape(ivs, st, i) && ActiveExact(st, i, cur) && ConservedBut(st, info, c, reg) && InClass(st, info, i)
  }

  // ---- taking a free register ----

  ghost function Taken(st: Scan, c: RegClass, p: nat): Scan
    requires p < |Pool(st, c)|
  {
    var rest := Pool(st, c)[..p] + Pool(st, c)[p + 1..];
    if c == Integer then st.(gpr := rest) else st.(fpr := rest)
  }

  lemma {:induction false} TakeConserves(st: Scan, info: RegisterInfo, c: RegClass, p: nat)
    requires Conserved(st, info) && p < |Pool(st, c)|
    ensures ConservedBut(Taken(st, c, p), info, c, Pool(st, c)[p])
  {
    var pool, r := Pool(st, c), Taken(st, c, p);
    RemoveOne(pool, p);
    forall d
      ensures multiset(Pool(r, d)) + ActiveRegs(r.ivs, r.active, d)
              + (if d == c then multiset{pool[p]} else multiset{}) == multiset(Allocatable(info, d))
    {
      assert multiset(Pool(st, d)) + ActiveRegs(st.ivs, st.active, d) == multiset(Allocatable(info, d));
      if d == c {
        Regroup(multiset(Pool(r, c)), ActiveRegs(st.ivs, st.active, c), multiset{pool[p]});
      }
    }
  }

  lemma {:induction false} RemoveOne(pool: seq<PhysReg>, p: nat)
    requires p < |pool|
    ensures multiset(pool[..p] + pool[p + 1..]) + multiset{pool[p]} == multiset(pool)
  {
    assert pool == pool[..p] + [pool[p]] + pool[p + 1..];
  }

  lemma {:induction false} TakeKeepsCore(ivs: seq<Interval>, info: RegisterInfo, st: Scan, i: nat, cur: nat,
                                         c: RegClass, p: nat)
    requires Core(ivs, info, st, i, cur) && p < |Pool(st, c)|
    ensures CoreBut(ivs, info, Taken(st, c, p), i, cur, c, Pool(st, c)[p])
  {
    TakeConserves(st, info, c, p);
  }

  // ---- taking the register of an active interval ----

  ghost function Dropped(st: Scan, far: nat): Scan
    requires far < |st.ivs|
  {
    Spill(st, far).(assignments := st.assignments - {st.ivs[far].vreg}, active := Without(st.active, far))
  }

  lemma {:induction false} WithoutAbsent(active: seq<nat>, far: nat)
    requires far !in active
    ensures Without(active, far) == active
  {
    if active != [] {
      WithoutAbsent(active[1..], far);
    }
  }

  lemma {:induction false} WithoutOnce(ivs: seq<Interval>, active: seq<nat>, far: nat, c: RegClass)
    requires Distinct(active) && far in active
    ensures ActiveRegs(ivs, active, c) == ActiveRegs(ivs, Without(active, far), c) + RegAt(ivs, far, c)
  {
    if active[0] == far {
      WithoutAbsent(active[1..], far);
      assert Without(active, far) == active[1..];
    } else {
      WithoutOnce(ivs, active[1..], far, c);
      var rest := [active[0]] + Without(active[1..], far);
      assert Without(active, far) == rest;
      assert rest[1..] == Without(active[1..], far);
      Regroup(RegAt(ivs, active[0], c), ActiveRegs(ivs, rest[1..], c), RegAt(ivs, far, c));
    }
  }

  lemma {:induction false} WithoutKeepsOrder(ivs: seq<Interval>, active: seq<nat>, far: nat)
    requires SortedByEnd(ivs, active)
    ensures SortedByEnd(ivs, Without(active, far))
  {
    if active != [] {
      SortedTail(ivs, active);
      WithoutKeepsOrder(ivs, active[1..], far);
      var rest := Without(active[1..], far);
      forall l | 0 <= l < |rest|
        ensures rest[l] != active[0] && ivs[active[0]].end <= ivs[rest[l]].end
      {
        assert rest[l] in active[1..];
      }
      hide SortedByEnd;
      PrependKeepsOrder(ivs, active[0], rest);
      assert Without(active, far) == if active[0] == far then rest else [active[0]] + rest;
    }
  }

  lemma {:induction false} DropConserves(st: Scan, info: RegisterInfo, i: nat, cur: nat, far: nat)
    requires ActiveExact(st, i, cur) && Conserved(st, info) && far in st.active
    ensures ConservedBut(Dropped(st, far), info, st.ivs[far].regClass, st.ivs[far].reg.value)
  {
    var r, c, reg := Dropped(st, far), st.ivs[far].regClass, st.ivs[far].reg.value;
    WithoutKnown(st.ivs, st.active, far);
    forall k | 0 <= k < |r.active|
      ensures r.ivs[r.active[k]] == st.ivs[r.active[k]]
    {
      assert r.active[k] in Without(st.active, far);
    }
    forall d
      ensures multiset(Pool(r, d)) + ActiveRegs(r.ivs, r.active, d)
              + (if d == c then multiset{reg} else multiset{}) == multiset(Allocatable(info, d))
    {
      WithoutOnce(st.ivs, st.active, far, d);
      ActiveRegsFrame(st.ivs, r.ivs, r.active, d);
      assert RegOf(st.ivs[far], d) == if d == c then multiset{reg} else multiset{};
      assert multiset(Pool(st, d)) + ActiveRegs(st.ivs, st.active, d) == multiset(Allocatable(info, d));
    }
  }

  lemma {:induction false} DropKeepsActive(st: Scan, i: nat, cur: nat, far: nat)
    requires ActiveExact(st, i, cur) && far in st.active
    ensures ActiveExact(Dropped(st, far), i, cur)
  {
    var r := Dropped(st, far);
    WithoutKeepsOrder(st.ivs, st.active, far);
    forall k | 0 <= k < |r.active|
      ensures r.ivs[r.active[k]] == st.ivs[r.active[k]] && r.active[k] in st.active
    {
      assert r.active[k] in Without(st.active, far);
    }
  }

  lemma {:induction false} DropKeepsCore(ivs: seq<Interval>, info: RegisterInfo, st: Scan, i: nat, cur: nat, far: nat)
    requires Core(ivs, info, st, i, cur) && far in st.active
    ensures CoreBut(ivs, info, Dropped(st, far), i, cur, st.ivs[far].regClass, st.ivs[far].reg.value)
  {
    hide Conserved, ConservedBut;
    DropConserves(st, info, i, cur, far);
    DropKeepsActive(st, i, cur, far);
  }

  // ---- holding the register in hand ----

  lemma {:induction false} HoldKeepsActive(ivs: seq<Interval>, info: RegisterInfo, st: Scan, i: nat, cur: nat,
                                           reg: PhysReg)
    requires Shape(ivs, st, i) && ActiveExact(st, i, cur) && i < |ivs| && cur <= ivs[i].end
    ensures ActiveExact(Hold(st, i, reg, info), i + 1, cur)
  {
    HoldHolds(st, i, reg, info);
    var r := Hold(st, i, reg, info);
    var p := InsertPosition(r.ivs, st.active, r.ivs[i].end);
    assert r.active == st.active[..p] + [i] + st.active[p..];
    forall k | 0 <= k < |st.active|
      ensures st.active[k] < i && r.ivs[st.active[k]].end == st.ivs[st.active[k]].end
    {
      assert st.active[k] in st.active;
    }
    InsertKeepsOrder(r.ivs, st.active, i, p);
  }

  lemma {:induction false} InsertKeepsOrder(ivs: seq<Interval>, active: seq<nat>, i: nat, p: nat)
    requires SortedByEnd(ivs, active) && i < |ivs| && p <= |active|
    requires forall k :: 0 <= k < |active| ==> active[k] < i
    requires p < |active| ==> ivs[active[p]].end > ivs[i].end
    requires forall k :: 0 <= k < p ==> ivs[active[k]].end <= ivs[i].end
    ensures SortedByEnd(ivs, active[..p] + [i] + active[p..])
  {
    var r := active[..p] + [i] + active[p..];
    forall k | 0 <= k < |r|
      ensures r[k] == if k < p then active[k] else if k == p then i else active[k - 1]
    {
    }
    forall k | p <= k < |active|
      ensures ivs[active[k]].end > ivs[i].end
    {
      assert ivs[active[p]].end <= ivs[active[k]].end;
    }
  }

  lemma {:induction false} HoldConserves(ivs: seq<Interval>, info: RegisterInfo, st: Scan, i: nat, cur: nat,
                                         c: RegClass, reg: PhysReg)
    requires Shape(ivs, st, i) && ActiveExact(st, i, cur) && ConservedBut(st, info, c, reg)
    requires i < |ivs| && ivs[i].regClass == c
    ensures Conserved(Hold(st, i, reg, info), info)
  {
    HoldHolds(st, i, reg, info);
    var r := Hold(st, i, reg, info);
    forall d
      ensures multiset(Pool(r, d)) + ActiveRegs(r.ivs, r.active, d) == multiset(Allocatable(info, d))
    {
      ActivateCounts(st, r.ivs, i, d);
      assert RegOf(r.ivs[i], d) == if d == c then multiset{reg} else multiset{};
      assert multiset(Pool(st, d)) + ActiveRegs(st.ivs, st.active, d)
             + (if d == c then multiset{reg} else multiset{}) == multiset(Allocatable(info, d));
    }
  }

  lemma {:induction false} ActivateCounts(st: Scan, now: seq<Interval>, i: nat, d: RegClass)
    requires Known(st.ivs, st.active) && i !in st.active
    requires i < |st.ivs| && |now| == |st.ivs| && now == st.ivs[i := now[i]]
    ensures ActiveRegs(now, Activate(now, st.active, i), d)
         == ActiveRegs(st.ivs, st.active, d) + RegOf(now[i], d)
  {
    ActiveRegsFrame(st.ivs, now, st.active, d);
    InsertCounts(now, st.active, i, InsertPosition(now, st.active, now[i].end), d);
  }

  lemma {:induction false} InsertCounts(ivs: seq<Interval>, active: seq<nat>, i: nat, p: nat, d: RegClass)
    requires i < |ivs| && p <= |active|
    ensures ActiveRegs(ivs, active[..p] + [i] + active[p..], d) == ActiveRegs(ivs, active, d) + RegOf(ivs[i], d)
  {
    hide ActiveRegs, RegOf;
    var a, b := active[..p], active[p..];
    assert active == a + b;
    ActiveRegsAppend(ivs, a, b, d);
    ActiveRegsFirst(ivs, i, b, d);
    ActiveRegsAppend(ivs, a, [i] + b, d);
    Regroup(ActiveRegs(ivs, a, d), ActiveRegs(ivs, b, d), RegOf(ivs[i], d));
    assert active[..p] + [i] + active[p..] == a + ([i] + b);
  }

  lemma {:induction false} ActiveRegsFirst(ivs: seq<Interval>, i: nat, b: seq<nat>, d: RegClass)
    requires i < |ivs|
    ensures ActiveRegs(ivs, [i] + b, d) == RegOf(ivs[i], d) + ActiveRegs(ivs, b, d)
  {
    assert ([i] + b)[1..] == b;
  }

  lemma {:induction false} HoldKeepsCore(ivs: seq<Interval>, info: RegisterInfo, st: Scan, i: nat, cur: nat,
                                         c: RegClass, reg: PhysReg)
    requires CoreBut(ivs, info, st, i, cur, c, reg) && i < |ivs| && ivs[i].regClass == c && cur <= ivs[i].end
    ensures Core(ivs, info, Hold(st, i, reg, info), i + 1, cur)
  {
    HoldKeepsActive(ivs, info, st, i, cur, reg);
    HoldConserves(ivs, info, st, i, cur, c, reg);
    InHandIsAllocatable(st, info, c, reg);
    HoldKeepsShape(ivs, info, st, i, reg);
    hide ActiveExact, Conserved, ConservedBut, Shape, InClass, Hold;
  }

  lemma {:induction false} HoldKeepsShape(ivs: seq<Interval>, info: RegisterInfo, st: Scan, i: nat, reg: PhysReg)
    requires Shape(ivs, st, i) && InClass(st, info, i) && Known(st.ivs, st.active)
    requires i < |ivs| && reg in Allocatable(info, ivs[i].regClass)
    ensures Shape(ivs, Hold(st, i, reg, info), i + 1) && InClass(Hold(st, i, reg, info), info, i + 1)
  {
    assert Hold(st, i, reg, info).ivs == st.ivs[i := st.ivs[i].(reg := Some(reg))];
  }

  lemma {:induction false} InHandIsAllocatable(st: Scan, info: RegisterInfo, c: RegClass, reg: PhysReg)
    requires ConservedBut(st, info, c, reg)
    ensures reg in Allocatable(info, c)
  {
    assert reg in multiset(Allocatable(info, c));
  }

  lemma {:induction false} SpillSelfKeepsCore(ivs: seq<Interval>, info: RegisterInfo, st: Scan, i: nat, cur: nat)
    requires Core(ivs, info, st, i, cur) && i < |ivs|
    ensures Core(ivs, info, Spill(st, i), i + 1, cur)
  {
    var r := Spill(st, i);
    forall k | 0 <= k < |st.active|
      ensures st.active[k] < i && r.ivs[st.active[k]] == st.ivs[st.active[k]]
    {
      assert st.active[k] in st.active;
    }
    forall c
      ensures multiset(Pool(r, c)) + ActiveRegs(r.ivs, r.active, c) == multiset(Allocatable(info, c))
    {
      ActiveRegsFrame(st.ivs, r.ivs, st.active, c);
    }
  }

  // ---- the three outcomes of a step ----

  /** How interval `i` is placed. */
  datatype Outcome = TookFree(p: nat) | Evicted(far: nat) | SpilledSelf

  ghost function OutcomeOf(st: Scan, i: nat, info: RegisterInfo): Outcome
    requires ActiveHold(st.ivs, st.active) && i < |st.ivs|
  {
    var iv := st.ivs[i];
    var pick := PickPosition(Pool(st, iv.regClass), iv.crossesCall, info.calleeSaved);
    var far := Farthest(st.ivs, st.active, iv.regClass);
    if pick.Some? then TookFree(pick.value)
    else if far.Some? && st.ivs[far.value].end > iv.end then Evicted(far.value)
    else SpilledSelf
  }

  lemma {:induction false} PlaceByOutcome(st: Scan, i: nat, info: RegisterInfo)
    requires ActiveHold(st.ivs, st.active) && i < |st.ivs|
    ensures var c := st.ivs[i].regClass;
      match OutcomeOf(st, i, info)
      case TookFree(p) =>
        p < |Pool(st, c)| && Place(st, i, info) == Hold(Taken(st, c, p), i, Pool(st, c)[p], info)
      case Evicted(far) =>
        && far in st.active && st.ivs[far].regClass == c && st.ivs[far].end > st.ivs[i].end
        && Known(Dropped(st, far).ivs, Dropped(st, far).active)
        && Place(st, i, info) == Hold(Dropped(st, far), i, st.ivs[far].reg.value, info)
      case SpilledSelf => Place(st, i, info) == Spill(st, i)
  {
    match OutcomeOf(st, i, info)
    case TookFree(_) =>
    case Evicted(far) => WithoutKnown(st.ivs, st.active, far);
    case SpilledSelf =>
  }

  /** What a step does to the intervals. */
  lemma {:induction false} PlaceIntervals(st: Scan, i: nat, info: RegisterInfo)
    requires ActiveHold(st.ivs, st.active) && i < |st.ivs| && forall a :: a in st.active ==> a < i
    ensures var c, r := st.ivs[i].regClass, Place(st, i, info);
      match OutcomeOf(st, i, info)
      case TookFree(p) =>
        p < |Pool(st, c)| && r.ivs == st.ivs[i := st.ivs[i].(reg := Some(Pool(st, c)[p]))]
      case Evicted(far) =>
        && far < i && far in st.active && st.ivs[far].regClass == c
        && r.ivs == st.ivs[far := st.ivs[far].(reg := None, slot := Some(|st.slots|))]
                          [i := st.ivs[i].(reg := st.ivs[far].reg)]
      case SpilledSelf =>
        r.ivs == st.ivs[i := st.ivs[i].(reg := None, slot := Some(|st.slots|))]
  {
    PlaceByOutcome(st, i, info);
  }

  /** What placing an interval needs from the core. */
  lemma {:induction false} CoreFacts(ivs: seq<Interval>, info: RegisterInfo, st: Scan, i: nat, cur: nat)
    requires ValidInput(ivs, info) && i < |ivs| && Core(ivs, info, st, i, cur)
    ensures ActiveHold(st.ivs, st.active) && |st.ivs| == |ivs| && ivs[i].start <= ivs[i].end
    ensures st.ivs[i] == ivs[i] && Conserved(st, info)
  {
  }

  lemma {:induction false} PlaceKeepsCore(ivs: seq<Interval>, info: RegisterInfo, st: Scan, i: nat)
    requires ValidInput(ivs, info) && i < |ivs| && Core(ivs, info, st, i, ivs[i].start)
    requires i < |st.ivs| && ActiveHold(st.ivs, st.active)
    ensures Core(ivs, info, Place(st, i, info), i + 1, ivs[i].start)
  {
    hide Core, CoreBut, Place, Hold, Spill, Taken, Dropped, OutcomeOf, ValidInput;
    var c, cur := st.ivs[i].regClass, ivs[i].start;
    CoreFacts(ivs, info, st, i, cur);
    PlaceByOutcome(st, i, info);
    match OutcomeOf(st, i, info)
    case TookFree(p) =>
      TakeKeepsCore(ivs, info, st, i, cur, c, p);
      HoldKeepsCore(ivs, info, Taken(st, c, p), i, cur, c, Pool(st, c)[p]);
    case Evicted(far) =>
      DropKeepsCore(ivs, info, st, i, cur, far);
      HoldKeepsCore(ivs, info, Dropped(st, far), i, cur, c, st.ivs[far].reg.value);
    case SpilledSelf =>
      SpillSelfKeepsCore(ivs, info, st, i, cur);
  }

  // ---- whole runs: the core ----

  ghost function LastStart(ivs: seq<Interval>, n: nat): nat
    requires n <= |ivs|
  {
    if n == 0 then 0 else ivs[n - 1].start
  }

  lemma {:induction false} ReversedSame(s: seq<PhysReg>)
    ensures multiset(Reversed(s)) == multiset(s)
  {
    if s != [] {
      ReversedSame(s[1..]);
      assert Reversed(s) == Reversed(s[1..]) + [s[0]];
      assert s == [s[0]] + s[1..];
    }
  }

  /** The state in which interval `n` is placed. */
  ghost function Ready(ivs: seq<Interval>, info: RegisterInfo, n: nat): (st: Scan)
    requires n < |ivs|
    ensures |st.ivs| == |ivs| && ActiveHold(st.ivs, st.active)
  {
    var before := Run(ivs, info, n);
    KeepHolds(before.ivs, before.active, before.ivs[n].start);
    Expire(before, before.ivs[n].start)
  }

  lemma {:induction false} RunByPlace(ivs: seq<Interval>, info: RegisterInfo, n: nat)
    requires n < |ivs|
    ensures Run(ivs, info, n + 1) == Place(Ready(ivs, info, n), n, info)
  {
    RunStep(ivs, info, n);
  }

  lemma {:induction false} InitialCore(ivs: seq<Interval>, info: RegisterInfo)
    requires ValidInput(ivs, info)
    ensures Core(ivs, info, InitialScan(ivs, info), 0, 0)
  {
    ReversedSame(info.gpr);
    ReversedSame(info.fpr);
  }

  /** Shape, exact active list and conservation hold after every step of every run. */
  lemma {:induction false} RunKeepsCore(ivs: seq<Interval>, info: RegisterInfo, n: nat)
    requires ValidInput(ivs, info) && n <= |ivs|
    ensures Core(ivs, info, Run(ivs, info, n), n, LastStart(ivs, n))
    decreases n, 0
  {
    hide Core, Place, ValidInput;
    if n == 0 {
      InitialCore(ivs, info);
    } else {
      ReadyCore(ivs, info, n - 1);
      RunByPlace(ivs, info, n - 1);
      PlaceKeepsCore(ivs, info, Ready(ivs, info, n - 1), n - 1);
    }
  }

  lemma {:induction false} StartsGrow(ivs: seq<Interval>, info: RegisterInfo, n: nat)
    requires ValidInput(ivs, info) && n < |ivs|
    ensures LastStart(ivs, n) <= ivs[n].start
  {
  }

  lemma {:induction false} ReadyCore(ivs: seq<Interval>, info: RegisterInfo, n: nat)
    requires ValidInput(ivs, info) && n < |ivs|
    ensures Core(ivs, info, Ready(ivs, info, n), n, ivs[n].start)
    decreases n, 1
  {
    RunKeepsCore(ivs, info, n);
    StartsGrow(ivs, info, n);
    CoreFacts(ivs, info, Run(ivs, info, n), n, LastStart(ivs, n));
    hide Core, ValidInput, Run;
    ExpireKeepsCore(ivs, info, Run(ivs, info, n), n, LastStart(ivs, n), ivs[n].start);
  }
}
