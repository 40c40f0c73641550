/** The linear scan.  `Step` is one iteration on values; `AllocateRegisters` is the scan itself,
    updating the interval array in place, and is proved to compute `Allocate`. */
module LinearScan {
  import opened Wrappers
  import opened Ir
  import opened LiveIntervals

  datatype RegisterInfo = RegisterInfo(gpr: seq<PhysReg>, fpr: seq<PhysReg>, calleeSaved: set<PhysReg>)

  function Allocatable(info: RegisterInfo, c: RegClass): seq<PhysReg> {
    if c == Integer then info.gpr else info.fpr
  }

  datatype SpillSlot = SpillSlot(index: nat, size: nat, offset: int)

  /** Everything the scan updates; `gpr` and `fpr` are the free pools, used as stacks. */
  datatype Scan = Scan(ivs: seq<Interval>, active: seq<nat>, gpr: seq<PhysReg>, fpr: seq<PhysReg>,
                       assignments: map<Value, PhysReg>, slots: seq<SpillSlot>, spillMap: map<Value, nat>,
                       calleeUsed: set<PhysReg>, frameSize: nat)

  function Pool(st: Scan, c: RegClass): seq<PhysReg> {
    if c == Integer then st.gpr else st.fpr
  }

  function InitialScan(ivs: seq<Interval>, info: RegisterInfo): Scan {
    Scan(ivs, [], Reversed(info.gpr), Reversed(info.fpr), map[], [], map[], {}, 0)
  }

  /** Active intervals are known and hold a register, so taking one's register cannot fail. */
  ghost predicate ActiveHold(ivs: seq<Interval>, active: seq<nat>) {
    forall k :: 0 <= k < |active| ==> active[k] < |ivs| && ivs[active[k]].reg.Some?
  }

  predicate Known(ivs: seq<Interval>, active: seq<nat>) {
    forall k :: 0 <= k < |active| ==> active[k] < |ivs|
  }

  // ---- expiry ----

  /** What stays active: the intervals that have not ended before `cur`. */
  function Keep(ivs: seq<Interval>, active: seq<nat>, cur: nat): seq<nat>
    requires Known(ivs, active)
  {
    if active == [] then []
    else (if ivs[active[0]].end < cur then [] else [active[0]]) + Keep(ivs, active[1..], cur)
  }

  /** A class pool after the ended intervals give their registers back, last one first. */
  function Returned(ivs: seq<Interval>, active: seq<nat>, cur: nat, c: RegClass, pool: seq<PhysReg>): seq<PhysReg>
    requires Known(ivs, active)
  {
    if active == [] then pool
    else
      var rest := Returned(ivs, active[1..], cur, c, pool);
      if ivs[active[0]].end < cur then GiveBack(ivs[active[0]], c, rest) else rest
  }

  function GiveBack(iv: Interval, c: RegClass, pool: seq<PhysReg>): seq<PhysReg> {
    if iv.reg.Some? && iv.regClass == c then pool + [iv.reg.value] else pool
  }

  function Expire(st: Scan, cur: nat): Scan
    requires Known(st.ivs, st.active)
  {
    st.(active := Keep(st.ivs, st.active, cur),
        gpr := Returned(st.ivs, st.active, cur, Integer, st.gpr),
        fpr := Returned(st.ivs, st.active, cur, Float, st.fpr))
  }

  // ---- choosing ----

  /** First position of a callee-saved register in a pool, or its length. */
  function CalleePosition(pool: seq<PhysReg>, calleeSaved: set<PhysReg>): (p: nat)
    ensures p <= |pool|
    ensures p < |pool| ==> pool[p] in calleeSaved
    ensures forall k :: 0 <= k < p ==> pool[k] !in calleeSaved
  {
    if pool == [] then 0
    else if pool[0] in calleeSaved then 0
    else
      var rest := CalleePosition(pool[1..], calleeSaved);
      assert forall k :: 0 < k < rest + 1 ==> pool[k] == pool[1..][k - 1];
      rest + 1
  }

  /** Position taken from the pool: a callee-saved register for an interval that crosses a call,
      else the last entry; `None` if there is no such register. */
  function PickPosition(pool: seq<PhysReg>, crosses: bool, calleeSaved: set<PhysReg>): Option<nat> {
    if crosses then
      var p := CalleePosition(pool, calleeSaved);
      if p < |pool| then Some(p) else None
    else if pool == [] then None
    else Some(|pool| - 1)
  }

  /** First position whose interval ends later than `end`. */
  function InsertPosition(ivs: seq<Interval>, active: seq<nat>, end: nat): (p: nat)
    requires Known(ivs, active)
    ensures p <= |active|
    ensures p < |active| ==> ivs[active[p]].end > end
    ensures forall k :: 0 <= k < p ==> ivs[active[k]].end <= end
  {
    if active == [] then 0
    else if ivs[active[0]].end > end then 0
    else
      var rest := InsertPosition(ivs, active[1..], end);
      assert forall k :: 0 < k < rest + 1 ==> active[k] == active[1..][k - 1];
      rest + 1
  }

  function Activate(ivs: seq<Interval>, active: seq<nat>, i: nat): seq<nat>
    requires Known(ivs, active) && i < |ivs|
  {
    var p := InsertPosition(ivs, active, ivs[i].end);
    active[..p] + [i] + active[p..]
  }

  /** The active interval of class `c` with the greatest end, the last one among equals. */
  function Farthest(ivs: seq<Interval>, active: seq<nat>, c: RegClass): (far: Option<nat>)
    requires Known(ivs, active)
    ensures far.Some? ==> far.value in active && ivs[far.value].regClass == c
    ensures forall k :: 0 <= k < |active| && ivs[active[k]].regClass == c
                        ==> far.Some? && ivs[active[k]].end <= ivs[far.value].end
  {
    if active == [] then None
    else
      var n := |active| - 1;
      var best := Farthest(ivs, active[..n], c);
      if ivs[active[n]].regClass != c then best
      else if best == None || ivs[best.value].end <= ivs[active[n]].end then Some(active[n])
      else best
  }

  // ---- the three outcomes ----

  function Hold(st: Scan, i: nat, reg: PhysReg, info: RegisterInfo): Scan
    requires Known(st.ivs, st.active) && i < |st.ivs|
  {
    var ivs := st.ivs[i := st.ivs[i].(reg := Some(reg))];
    st.(ivs := ivs, assignments := st.assignments[st.ivs[i].vreg := reg],
        calleeUsed := if reg in info.calleeSaved then st.calleeUsed + {reg} else st.calleeUsed,
        active := Activate(ivs, st.active, i))
  }

  function TakeFree(st: Scan, i: nat, p: nat, info: RegisterInfo): Scan
    requires Known(st.ivs, st.active) && i < |st.ivs| && p < |Pool(st, st.ivs[i].regClass)|
  {
    var c := st.ivs[i].regClass;
    var pool := Pool(st, c);
    var rest := pool[..p] + pool[p + 1..];
    Hold(if c == Integer then st.(gpr := rest) else st.(fpr := rest), i, pool[p], info)
  }

  /** Slots are at least one byte wide. */
  function SlotSize(size: nat): nat {
    if size < 1 then 1 else size
  }

  /** A fresh slot below the previous ones. */
  function Spill(st: Scan, i: nat): Scan
    requires i < |st.ivs|
  {
    var n, size := |st.slots|, SlotSize(st.ivs[i].size);
    st.(ivs := st.ivs[i := st.ivs[i].(reg := None, slot := Some(n))],
        slots := st.slots + [SpillSlot(n, size, -(st.frameSize as int) - size)],
        spillMap := st.spillMap[st.ivs[i].vreg := n],
        frameSize := st.frameSize + size)
  }

  /** The positions left when one interval stops being active. */
  function Without(active: seq<nat>, far: nat): (r: seq<nat>)
    ensures forall a :: a in r <==> a in active && a != far
  {
    if active == [] then []
    else (if active[0] == far then [] else [active[0]]) + Without(active[1..], far)
  }

  lemma {:induction false} WithoutKnown(ivs: seq<Interval>, active: seq<nat>, far: nat)
    requires Known(ivs, active)
    ensures Known(ivs, Without(active, far))
  {
    var r := Without(active, far);
    forall k | 0 <= k < |r|
      ensures r[k] < |ivs|
    {
      assert r[k] in active;
    }
  }

  function Evict(st: Scan, i: nat, far: nat, info: RegisterInfo): Scan
    requires ActiveHold(st.ivs, st.active) && i < |st.ivs| && far in st.active
  {
    var reg := st.ivs[far].reg.value;
    var spilled := Spill(st, far);
    WithoutKnown(st.ivs, st.active, far);
    Hold(spilled.(assignments := st.assignments - {st.ivs[far].vreg}, active := Without(st.active, far)),
         i, reg, info)
  }

  /** What the scan does for interval `i` once ended intervals are gone. */
  function Place(st: Scan, i: nat, info: RegisterInfo): Scan
    requires ActiveHold(st.ivs, st.active) && i < |st.ivs|
  {
    var iv := st.ivs[i];
    var pick := PickPosition(Pool(st, iv.regClass), iv.crossesCall, info.calleeSaved);
    if pick.Some? then TakeFree(st, i, pick.value, info)
    else
      var far := Farthest(st.ivs, st.active, iv.regClass);
      if far.Some? && st.ivs[far.value].end > iv.end then Evict(st, i, far.value, info)
      else Spill(st, i)
  }

  lemma {:induction false} KeepIsFilter(ivs: seq<Interval>, active: seq<nat>, cur: nat)
    requires Known(ivs, active)
    ensures forall a :: a in Keep(ivs, active, cur) <==> a in active && ivs[a].end >= cur
    ensures Known(ivs, Keep(ivs, active, cur))
  {
    if active != [] {
      assert forall k :: 0 <= k < |active[1..]| ==> active[1..][k] == active[k + 1];
      KeepIsFilter(ivs, active[1..], cur);
      assert active == [active[0]] + active[1..];
    }
  }

  lemma {:induction false} KeepHolds(ivs: seq<Interval>, active: seq<nat>, cur: nat)
    requires ActiveHold(ivs, active)
    ensures ActiveHold(ivs, Keep(ivs, active, cur))
  {
    KeepIsFilter(ivs, active, cur);
    var kept := Keep(ivs, active, cur);
    forall k | 0 <= k < |kept|
      ensures kept[k] < |ivs| && ivs[kept[k]].reg.Some?
    {
      assert kept[k] in active;
    }
  }

  function Step(st: Scan, i: nat, info: RegisterInfo): Scan
    requires ActiveHold(st.ivs, st.active) && i < |st.ivs|
  {
    KeepHolds(st.ivs, st.active, st.ivs[i].start);
    Place(Expire(st, st.ivs[i].start), i, info)
  }

  lemma {:induction false} HoldHolds(st: Scan, i: nat, reg: PhysReg, info: RegisterInfo)
    requires ActiveHold(st.ivs, st.active) && i < |st.ivs|
    ensures var r := Hold(st, i, reg, info);
      && |r.ivs| == |st.ivs| && ActiveHold(r.ivs, r.active)
      && forall a :: a in r.active <==> a in st.active || a == i
  {
    var ivs := st.ivs[i := st.ivs[i].(reg := Some(reg))];
    var p := InsertPosition(ivs, st.active, ivs[i].end);
    assert st.active == st.active[..p] + st.active[p..];
  }

  lemma {:induction false} EvictHolds(st: Scan, i: nat, far: nat, info: RegisterInfo)
    requires ActiveHold(st.ivs, st.active) && i < |st.ivs| && far in st.active
    ensures var r := Evict(st, i, far, info);
      && |r.ivs| == |st.ivs| && ActiveHold(r.ivs, r.active)
      && forall a :: a in r.active <==> (a in st.active && a != far) || a == i
  {
    var others := Without(st.active, far);
    var spilled := Spill(st, far).(assignments := st.assignments - {st.ivs[far].vreg}, active := others);
    forall k | 0 <= k < |others|
      ensures others[k] < |spilled.ivs| && spilled.ivs[others[k]].reg.Some?
    {
      assert others[k] in st.active && others[k] != far;
    }
    HoldHolds(spilled, i, st.ivs[far].reg.value, info);
  }

  lemma {:induction false} PlaceHolds(st: Scan, i: nat, info: RegisterInfo)
    requires ActiveHold(st.ivs, st.active) && i < |st.ivs| && i !in st.active
    ensures var r := Place(st, i, info); |r.ivs| == |st.ivs| && ActiveHold(r.ivs, r.active)
    ensures forall a :: a in Place(st, i, info).active ==> a in st.active || a == i
  {
    var c := st.ivs[i].regClass;
    var pool := Pool(st, c);
    var pick := PickPosition(pool, st.ivs[i].crossesCall, info.calleeSaved);
    var far := Farthest(st.ivs, st.active, c);
    if pick.Some? {
      var rest := pool[..pick.value] + pool[pick.value + 1..];
      HoldHolds(if c == Integer then st.(gpr := rest) else st.(fpr := rest), i, pool[pick.value], info);
    } else if far.Some? && st.ivs[far.value].end > st.ivs[i].end {
      EvictHolds(st, i, far.value, info);
    }
  }

  lemma {:induction false} StepHolds(st: Scan, i: nat, info: RegisterInfo)
    requires ActiveHold(st.ivs, st.active) && i < |st.ivs| && forall a :: a in st.active ==> a < i
    ensures var r := Step(st, i, info);
      && |r.ivs| == |st.ivs| && ActiveHold(r.ivs, r.active)
      && forall a :: a in r.active ==> a < i + 1
  {
    var cur := st.ivs[i].start;
    KeepHolds(st.ivs, st.active, cur);
    KeepIsFilter(st.ivs, st.active, cur);
    PlaceHolds(Expire(st, cur), i, info);
  }

  lemma {:induction false} InitialHolds(ivs: seq<Interval>, info: RegisterInfo)
    ensures var st := InitialScan(ivs, info); st.ivs == ivs && st.active == [] && ActiveHold(st.ivs, st.active)
  {
  }

  /** The state after the first `n` intervals. */
  function Run(ivs: seq<Interval>, info: RegisterInfo, n: nat): (st: Scan)
    requires n <= |ivs|
    ensures |st.ivs| == |ivs| && ActiveHold(st.ivs, st.active) && forall a :: a in st.active ==> a < n
  {
    hide *;
    if n == 0 then
      InitialHolds(ivs, info);
      InitialScan(ivs, info)
    else
      var before := Run(ivs, info, n - 1);
      StepHolds(before, n - 1, info);
      Step(before, n - 1, info)
  }

  function Allocate(ivs: seq<Interval>, info: RegisterInfo): Scan {
    var sorted := SortByStart(ivs);
    Run(sorted, info, |sorted|)
  }

  // ---- the scan itself ----

  lemma {:induction false} KeepAll(ivs: seq<Interval>, a: seq<nat>, b: seq<nat>, cur: nat)
    requires Known(ivs, a) && Known(ivs, b)
    requires forall k :: 0 <= k < |a| ==> ivs[a[k]].end >= cur
    ensures Keep(ivs, a + b, cur) == a + Keep(ivs, b, cur)
    ensures forall c, pool :: Returned(ivs, a + b, cur, c, pool) == Returned(ivs, b, cur, c, pool)
  {
    if a == [] {
      assert a + b == b;
    } else {
      KeepAll(ivs, a[1..], b, cur);
      assert (a + b)[1..] == a[1..] + b;
    }
  }

  ghost predicate ExpiredPositions(ivs: seq<Interval>, active: seq<nat>, cur: nat, expired: seq<nat>, n: nat)
    requires Known(ivs, active) && n <= |active|
  {
    && (forall k :: 0 <= k < |expired| ==> expired[k] < n && ivs[active[expired[k]]].end < cur)
    && (forall j, k :: 0 <= j < k < |expired| ==> expired[j] < expired[k])
    && (forall q :: 0 <= q < n && ivs[active[q]].end < cur ==> q in expired)
  }

  method FindExpired(ivs: seq<Interval>, active: seq<nat>, cur: nat) returns (expired: seq<nat>)
    requires Known(ivs, active)
    ensures ExpiredPositions(ivs, active, cur, expired, |active|)
  {
    expired := [];
    for pos := 0 to |active|
      invariant ExpiredPositions(ivs, active, cur, expired, pos)
    {
      if ivs[active[pos]].end < cur {
        expired := expired + [pos];
      }
    }
  }

  lemma {:induction false} NoneExpiredBetween(ivs: seq<Interval>, active: seq<nat>, cur: nat, expired: seq<nat>,
                                              k: nat, q: nat)
    requires Known(ivs, active) && ExpiredPositions(ivs, active, cur, expired, |active|)
    requires k <= |expired| && q < |active|
    requires k > 0 ==> expired[k - 1] < q
    requires k < |expired| ==> q < expired[k]
    ensures ivs[active[q]].end >= cur
  {
  }

  lemma {:induction false} NothingToExpire(ivs: seq<Interval>, cur: nat)
    ensures Keep(ivs, [], cur) == [] && forall c, pool :: Returned(ivs, [], cur, c, pool) == pool
  {
  }

  method ExpireOld(ivs: seq<Interval>, active0: seq<nat>, gpr0: seq<PhysReg>, fpr0: seq<PhysReg>, cur: nat)
    returns (active: seq<nat>, gpr: seq<PhysReg>, fpr: seq<PhysReg>)
    requires Known(ivs, active0)
    ensures active == Keep(ivs, active0, cur)
    ensures gpr == Returned(ivs, active0, cur, Integer, gpr0)
    ensures fpr == Returned(ivs, active0, cur, Float, fpr0)
  {
    hide ExpiredPositions, Keep, Returned;
    NothingToExpire(ivs, cur);
    var expired := FindExpired(ivs, active0, cur);
    ExpiredBounds(ivs, active0, cur, expired);
    active, gpr, fpr := active0, gpr0, fpr0;
    var k := |expired|;
    ghost var hi := |active0|;
    assert active0[..hi] == active0 && active0[hi..] == [];
    while k > 0
      invariant 0 <= k <= |expired| && hi == (if k == |expired| then |active0| else expired[k]) <= |active0|
      invariant active == active0[..hi] + Keep(ivs, active0[hi..], cur)
      invariant gpr == Returned(ivs, active0[hi..], cur, Integer, gpr0)
      invariant fpr == Returned(ivs, active0[hi..], cur, Float, fpr0)
    {
      k := k - 1;
      var pos := expired[k];
      NoneExpiredFrom(ivs, active0, cur, expired, k + 1, pos + 1, hi);
      RemoveExpired(ivs, active0, cur, pos, hi);
      DropOne(active0, Keep(ivs, active0[hi..], cur), pos, hi);
      var iv := ivs[active[pos]];
      active := active[..pos] + active[pos + 1..];
      if iv.reg.Some? {
        if iv.regClass == Integer {
          gpr := gpr + [iv.reg.value];
        } else {
          fpr := fpr + [iv.reg.value];
        }
      }
      hi := pos;
    }
    NoneExpiredFrom(ivs, active0, cur, expired, 0, 0, hi);
    KeepAll(ivs, active0[..hi], active0[hi..], cur);
    assert active0 == active0[..hi] + active0[hi..];
  }

  lemma {:induction false} ExpiredBounds(ivs: seq<Interval>, active: seq<nat>, cur: nat, expired: seq<nat>)
    requires Known(ivs, active) && ExpiredPositions(ivs, active, cur, expired, |active|)
    ensures forall k :: 0 <= k < |expired| ==> expired[k] < |active| && ivs[active[expired[k]]].end < cur
    ensures forall j, k :: 0 <= j < k < |expired| ==> expired[j] < expired[k]
  {
  }

  lemma {:induction false} NoneExpiredFrom(ivs: seq<Interval>, active: seq<nat>, cur: nat, expired: seq<nat>, k: nat,
                                           lo: nat, hi: nat)
    requires Known(ivs, active) && ExpiredPositions(ivs, active, cur, expired, |active|)
    requires k <= |expired| && hi == if k == |expired| then |active| else expired[k]
    requires lo == if k == 0 then 0 else expired[k - 1] + 1
    ensures forall q :: lo <= q < hi ==> ivs[active[q]].end >= cur
  {
    forall q | lo <= q < hi
      ensures ivs[active[q]].end >= cur
    {
      NoneExpiredBetween(ivs, active, cur, expired, k, q);
    }
  }

  lemma {:induction false} DropOne(active: seq<nat>, tail: seq<nat>, pos: nat, hi: nat)
    requires pos < hi <= |active|
    ensures var now := active[..hi] + tail;
      now[..pos] + now[pos + 1..] == active[..pos] + (active[pos + 1..hi] + tail)
  {
  }

  /** Between two ended positions nothing has ended. */
  lemma {:induction false} RemoveExpired(ivs: seq<Interval>, active: seq<nat>, cur: nat, pos: nat, hi: nat)
    requires Known(ivs, active) && pos < hi <= |active|
    requires forall q :: pos < q < hi ==> ivs[active[q]].end >= cur
    requires ivs[active[pos]].end < cur
    ensures Keep(ivs, active[pos..], cur) == active[pos + 1..hi] + Keep(ivs, active[hi..], cur)
    ensures forall c, pool ::
      Returned(ivs, active[pos..], cur, c, pool)
          == GiveBack(ivs[active[pos]], c, Returned(ivs, active[hi..], cur, c, pool))
  {
    assert active[pos..][1..] == active[pos + 1..hi] + active[hi..];
    KeepAll(ivs, active[pos + 1..hi], active[hi..], cur);
  }

  method PickRegister(pool: seq<PhysReg>, crosses: bool, calleeSaved: set<PhysReg>)
    returns (reg: Option<PhysReg>, rest: seq<PhysReg>)
    ensures var p := PickPosition(pool, crosses, calleeSaved);
      if p == None then reg == None && rest == pool
      else p.value < |pool| && reg == Some(pool[p.value]) && rest == pool[..p.value] + pool[p.value + 1..]
  {
    if crosses {
      var p := 0;
      while p < |pool| && pool[p] !in calleeSaved
        invariant 0 <= p <= |pool| && forall k :: 0 <= k < p ==> pool[k] !in calleeSaved
      {
        p := p + 1;
      }
      if p < |pool| {
        return Some(pool[p]), pool[..p] + pool[p + 1..];
      }
      return None, pool;
    } else if pool == [] {
      return None, pool;
    } else {
      assert pool[|pool|..] == [];
      return Some(pool[|pool| - 1]), pool[..|pool| - 1];
    }
  }

  method InsertActive(ivs: seq<Interval>, active0: seq<nat>, i: nat) returns (active: seq<nat>)
    requires Known(ivs, active0) && i < |ivs|
    ensures active == Activate(ivs, active0, i)
  {
    var p := 0;
    while p < |active0| && ivs[active0[p]].end <= ivs[i].end
      invariant 0 <= p <= |active0| && forall k :: 0 <= k < p ==> ivs[active0[k]].end <= ivs[i].end
    {
      p := p + 1;
    }
    active := active0[..p] + [i] + active0[p..];
  }

  method FindFarthest(ivs: seq<Interval>, active: seq<nat>, c: RegClass) returns (far: Option<nat>)
    requires Known(ivs, active)
    ensures far == Farthest(ivs, active, c)
  {
    far := None;
    for k := 0 to |active|
      invariant far == Farthest(ivs, active[..k], c)
    {
      assert active[..k + 1][..k] == active[..k];
      var ai := active[k];
      if ivs[ai].regClass == c && (far == None || ivs[far.value].end <= ivs[ai].end) {
        far := Some(ai);
      }
    }
    assert active[..|active|] == active;
  }

  method RetainOthers(active0: seq<nat>, far: nat) returns (active: seq<nat>)
    ensures active == Without(active0, far)
  {
    active := [];
    var k := |active0|;
    assert active0[k..] == [];
    while k > 0
      invariant 0 <= k <= |active0| && active == Without(active0[k..], far)
    {
      k := k - 1;
      assert active0[k..][1..] == active0[k + 1..];
      if active0[k] != far {
        active := [active0[k]] + active;
      }
    }
    assert active0[0..] == active0;
  }

  datatype AllocationResult = AllocationResult(assignments: map<Value, PhysReg>, slots: seq<SpillSlot>,
                                               frameSize: nat, calleeUsed: set<PhysReg>, spillMap: map<Value, nat>)

  function ResultOf(st: Scan): AllocationResult {
    AllocationResult(st.assignments, st.slots, st.frameSize, st.calleeUsed, st.spillMap)
  }

  /** Give interval `i` a fresh slot below the others. */
  method SpillToSlot(intervals: array<Interval>, i: nat, slots0: seq<SpillSlot>, spillMap0: map<Value, nat>,
                     frameSize0: nat, ghost st: Scan)
    returns (slots: seq<SpillSlot>, spillMap: map<Value, nat>, frameSize: nat)
    requires i < intervals.Length && intervals[..] == st.ivs
    requires slots0 == st.slots && spillMap0 == st.spillMap && frameSize0 == st.frameSize
    modifies intervals
    ensures intervals[..] == Spill(st, i).ivs
    ensures slots == Spill(st, i).slots && spillMap == Spill(st, i).spillMap && frameSize == Spill(st, i).frameSize
  {
    var iv := intervals[i];
    intervals[i] := iv.(reg := None, slot := Some(|slots0|));
    spillMap := spillMap0[iv.vreg := |slots0|];
    var size := SlotSize(iv.size);
    slots := slots0 + [SpillSlot(|slots0|, size, -(frameSize0 as int) - size)];
    frameSize := frameSize0 + size;
  }

  /** Record that interval `i` holds `reg`. */
  method HoldRegister(intervals: array<Interval>, i: nat, reg: PhysReg, info: RegisterInfo,
                      active0: seq<nat>, assignments0: map<Value, PhysReg>, calleeUsed0: set<PhysReg>, ghost st: Scan)
    returns (active: seq<nat>, assignments: map<Value, PhysReg>, calleeUsed: set<PhysReg>)
    requires i < intervals.Length && intervals[..] == st.ivs && Known(st.ivs, st.active)
    requires active0 == st.active && assignments0 == st.assignments && calleeUsed0 == st.calleeUsed
    modifies intervals
    ensures intervals[..] == Hold(st, i, reg, info).ivs
    ensures active == Hold(st, i, reg, info).active && assignments == Hold(st, i, reg, info).assignments
    ensures calleeUsed == Hold(st, i, reg, info).calleeUsed
  {
    intervals[i] := intervals[i].(reg := Some(reg));
    assert intervals[..] == st.ivs[i := st.ivs[i].(reg := Some(reg))];
    assignments := assignments0[intervals[i].vreg := reg];
    calleeUsed := calleeUsed0;
    if reg in info.calleeSaved {
      calleeUsed := calleeUsed + {reg};
    }
    active := InsertActive(intervals[..], active0, i);
  }

  /** Spill active interval `far` and give its register to interval `i`. */
  method EvictFor(intervals: array<Interval>, i: nat, far: nat, info: RegisterInfo, active0: seq<nat>,
                  assignments0: map<Value, PhysReg>, slots0: seq<SpillSlot>, spillMap0: map<Value, nat>,
                  calleeUsed0: set<PhysReg>, frameSize0: nat, ghost st: Scan)
    returns (active: seq<nat>, assignments: map<Value, PhysReg>, slots: seq<SpillSlot>, spillMap: map<Value, nat>,
             calleeUsed: set<PhysReg>, frameSize: nat)
    requires i < intervals.Length && far in active0 && ActiveHold(intervals[..], active0)
    requires st == Scan(intervals[..], active0, st.gpr, st.fpr, assignments0, slots0, spillMap0, calleeUsed0,
                        frameSize0)
    modifies intervals
    ensures Scan(intervals[..], active, st.gpr, st.fpr, assignments, slots, spillMap, calleeUsed, frameSize)
         == Evict(st, i, far, info)
  {
    var reg := intervals[far].reg.value;
    WithoutKnown(st.ivs, active0, far);
    assignments := assignments0 - {intervals[far].vreg};
    slots, spillMap, frameSize := SpillToSlot(intervals, far, slots0, spillMap0, frameSize0, st);
    active := RetainOthers(active0, far);
    ghost var spilled := Spill(st, far).(assignments := assignments, active := active);
    active, assignments, calleeUsed :=
      HoldRegister(intervals, i, reg, info, active, assignments, calleeUsed0, spilled);
  }

  lemma {:induction false} RunStep(ivs: seq<Interval>, info: RegisterInfo, i: nat)
    requires i < |ivs|
    ensures var st := Run(ivs, info, i);
      && Known(st.ivs, st.active)
      && var ready := Expire(st, st.ivs[i].start);
      && ActiveHold(ready.ivs, ready.active) && Run(ivs, info, i + 1) == Place(ready, i, info)
  {
    var st := Run(ivs, info, i);
    KeepHolds(st.ivs, st.active, st.ivs[i].start);
  }

  /** Find a register or a slot for interval `i`. */
  method PlaceInterval(intervals: array<Interval>, i: nat, info: RegisterInfo, active0: seq<nat>,
                       gpr0: seq<PhysReg>, fpr0: seq<PhysReg>, assignments0: map<Value, PhysReg>,
                       slots0: seq<SpillSlot>, spillMap0: map<Value, nat>, calleeUsed0: set<PhysReg>, frameSize0: nat)
    returns (active: seq<nat>, gpr: seq<PhysReg>, fpr: seq<PhysReg>, assignments: map<Value, PhysReg>,
             slots: seq<SpillSlot>, spillMap: map<Value, nat>, calleeUsed: set<PhysReg>, frameSize: nat)
    requires i < intervals.Length && ActiveHold(intervals[..], active0)
    modifies intervals
    ensures Scan(intervals[..], active, gpr, fpr, assignments, slots, spillMap, calleeUsed, frameSize)
         == Place(Scan(old(intervals[..]), active0, gpr0, fpr0, assignments0, slots0, spillMap0, calleeUsed0,
                       frameSize0),
                  i, info)
  {
    active, gpr, fpr, assignments := active0, gpr0, fpr0, assignments0;
    slots, spillMap, calleeUsed, frameSize := slots0, spillMap0, calleeUsed0, frameSize0;
    ghost var st := Scan(intervals[..], active, gpr, fpr, assignments, slots, spillMap, calleeUsed, frameSize);
    var c := intervals[i].regClass;
    var chosen, rest := PickRegister(if c == Integer then gpr else fpr, intervals[i].crossesCall, info.calleeSaved);
    if chosen.Some? {
      if c == Integer {
        gpr := rest;
      } else {
        fpr := rest;
      }
      ghost var taken := st.(gpr := gpr, fpr := fpr);
      active, assignments, calleeUsed :=
        HoldRegister(intervals, i, chosen.value, info, active, assignments, calleeUsed, taken);
    } else {
      var candidate := FindFarthest(intervals[..], active, c);
      if candidate.Some? && intervals[candidate.value].end > intervals[i].end {
        active, assignments, slots, spillMap, calleeUsed, frameSize :=
          EvictFor(intervals, i, candidate.value, info, active, assignments, slots, spillMap, calleeUsed, frameSize,
                   st);
      } else {
        slots, spillMap, frameSize := SpillToSlot(intervals, i, slots, spillMap, frameSize, st);
      }
    }
  }

  method AllocateRegisters(intervals: array<Interval>, info: RegisterInfo) returns (result: AllocationResult)
    modifies intervals
    ensures intervals[..] == Allocate(old(intervals[..]), info).ivs
    ensures result == ResultOf(Allocate(old(intervals[..]), info))
  {
    ghost var sorted := SortByStart(intervals[..]);
    SortInPlace(intervals);
    var active: seq<nat> := [];
    var gpr, fpr := Reversed(info.gpr), Reversed(info.fpr);
    var assignments: map<Value, PhysReg>, spillMap: map<Value, nat> := map[], map[];
    var slots: seq<SpillSlot>, calleeUsed: set<PhysReg> := [], {};
    var frameSize: nat := 0;
    for i := 0 to intervals.Length
      invariant |sorted| == intervals.Length
      invariant Scan(intervals[..], active, gpr, fpr, assignments, slots, spillMap, calleeUsed, frameSize)
             == Run(sorted, info, i)
    {
      RunStep(sorted, info, i);
      active, gpr, fpr := ExpireOld(intervals[..], active, gpr, fpr, intervals[i].start);
      active, gpr, fpr, assignments, slots, spillMap, calleeUsed, frameSize :=
        PlaceInterval(intervals, i, info, active, gpr, fpr, assignments, slots, spillMap, calleeUsed, frameSize);
    }
    result := AllocationResult(assignments, slots, frameSize, calleeUsed, spillMap);
  }

  method SortInPlace(a: array<Interval>)
    modifies a
    ensures a[..] == SortByStart(old(a[..]))
  {
    var sorted := SortByStart(a[..]);
    assert |sorted| == |multiset(sorted)| == |multiset(a[..])| == a.Length;
    forall k | 0 <= k < a.Length {
      a[k] := sorted[k];
    }
  }
}
