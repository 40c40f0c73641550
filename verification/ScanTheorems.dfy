/** What an allocation guarantees to code generation. */
module ScanTheorems {
  import opened Wrappers
  import opened Ir
  import opened LiveIntervals
  import opened LinearScan
  import opened ScanInvariants
  import opened ScanResults

  /** Intervals as live-interval computation delivers them, in any order. */
  ghost predicate FreshIntervals(ivs: seq<Interval>) {
    && DistinctVregs(ivs)
    && forall j :: 0 <= j < |ivs| ==> ivs[j].start <= ivs[j].end && ivs[j].reg == None && ivs[j].slot == None
  }

  lemma {:induction false} SortedInput(ivs: seq<Interval>, info: RegisterInfo)
    requires FreshIntervals(ivs) && ValidPools(info)
    ensures ValidInput(SortByStart(ivs), info) && |SortByStart(ivs)| == |ivs|
    ensures forall iv :: iv in SortByStart(ivs) <==> iv in ivs
  {
    SortSorts(ivs);
    var sorted := SortByStart(ivs);
    forall j | 0 <= j < |sorted|
      ensures sorted[j].start <= sorted[j].end && sorted[j].reg == None && sorted[j].slot == None
    {
      assert sorted[j] in ivs;
    }
    forall i, j | 0 <= i < j < |sorted|
      ensures sorted[i].vreg != sorted[j].vreg
    {
      SortedDistinct(ivs, sorted, i, j);
    }
  }

  lemma {:induction false} SortedDistinct(ivs: seq<Interval>, sorted: seq<Interval>, i: nat, j: nat)
    requires DistinctVregs(ivs) && SortedIntervals(sorted) && i < j < |sorted|
    requires forall iv :: iv in sorted <==> iv in ivs
    ensures sorted[i].vreg != sorted[j].vreg
  {
    assert Before(sorted[i], sorted[j]);
    assert sorted[i] in ivs && sorted[j] in ivs;
    var a :| 0 <= a < |ivs| && ivs[a] == sorted[i];
    var b :| 0 <= b < |ivs| && ivs[b] == sorted[j];
    assert a != b;
  }

  // ---- conservation ----

  /** At every step of every run: the free registers of a class together with the registers of its
      active intervals are exactly its allocatable registers, none twice, and the active list is
      sorted by end. */
  lemma {:induction false} RegistersAreConserved(ivs: seq<Interval>, info: RegisterInfo, n: nat, c: RegClass)
    requires ValidInput(ivs, info) && n <= |ivs|
    ensures var st := Run(ivs, info, n);
      && var all := multiset(Pool(st, c)) + ActiveRegs(st.ivs, st.active, c);
      && all == multiset(Allocatable(info, c)) && (forall r :: all[r] <= 1)
      && forall k, l :: 0 <= k < l < |st.active| ==> st.ivs[st.active[k]].end <= st.ivs[st.active[l]].end
  {
    RunKeepsCore(ivs, info, n);
    hide Run;
    forall r
      ensures multiset(Allocatable(info, c))[r] <= 1
    {
      AllocatableCount(info, c, r);
    }
  }

  // ---- non-interference ----

  /** The allocation of one of the given intervals. */
  ghost predicate AllocatedAs(st: Scan, iv: Interval, j: nat) {
    j < |st.ivs| && st.ivs[j] == iv.(reg := st.ivs[j].reg, slot := st.ivs[j].slot)
  }

  lemma {:induction false} EveryIntervalIsAllocated(ivs: seq<Interval>, info: RegisterInfo, iv: Interval)
    returns (j: nat)
    requires FreshIntervals(ivs) && ValidPools(info) && iv in ivs
    ensures AllocatedAs(Allocate(ivs, info), iv, j)
  {
    SortedInput(ivs, info);
    var sorted := SortByStart(ivs);
    RunKeepsCore(sorted, info, |sorted|);
    assert iv in sorted;
    j :| 0 <= j < |sorted| && sorted[j] == iv;
  }

  /** Two different intervals whose closed ranges meet never hold the same register. */
  lemma {:induction false} MeetingIntervalsAreApart(ivs: seq<Interval>, info: RegisterInfo, j: nat, k: nat)
    requires FreshIntervals(ivs) && ValidPools(info)
    requires j < |Allocate(ivs, info).ivs| && k < |Allocate(ivs, info).ivs| && j != k
    requires Meet(Allocate(ivs, info).ivs[j], Allocate(ivs, info).ivs[k])
    ensures var st := Allocate(ivs, info); st.ivs[j].reg.Some? ==> st.ivs[j].reg != st.ivs[k].reg
  {
    SortedInput(ivs, info);
    var sorted := SortByStart(ivs);
    RunKeepsApart(sorted, info, |sorted|);
    var st := Allocate(ivs, info);
    hide Run;
    if k < j {
      assert Meet(st.ivs[k], st.ivs[j]);
    }
  }

  // ---- bookkeeping ----

  /** The byte `b` of the frame belongs to slot `n`. */
  ghost predicate InSlot(slots: seq<SpillSlot>, n: nat, b: int) {
    n < |slots| && slots[n].offset <= b < slots[n].offset + slots[n].size
  }

  /** Going up from the bottom, some slot among the first `n` holds the byte. */
  lemma {:induction false} TilesCover(slots: seq<SpillSlot>, frameSize: nat, n: nat, b: int) returns (m: nat)
    requires Tiles(slots, frameSize) && n <= |slots| && Bottom(slots, n) <= b < 0
    ensures InSlot(slots, m, b)
    decreases n
  {
    var last := slots[n - 1];
    if b < last.offset + last.size {
      m := n - 1;
    } else {
      m := TilesCover(slots, frameSize, n - 1, b);
    }
  }

  lemma {:induction false} TilesBound(slots: seq<SpillSlot>, frameSize: nat, n: nat)
    requires Tiles(slots, frameSize) && n < |slots|
    ensures slots[n].offset + slots[n].size <= 0
  {
    if n > 0 {
      TilesBound(slots, frameSize, n - 1);
    }
  }

  lemma {:induction false} TilesDescend(slots: seq<SpillSlot>, frameSize: nat, m: nat, n: nat)
    requires Tiles(slots, frameSize) && m < n < |slots|
    ensures slots[n].offset + slots[n].size <= slots[m].offset
    decreases n
  {
    if m < n - 1 {
      TilesDescend(slots, frameSize, m, n - 1);
    }
  }

  /** A slot lies within the frame, and no other slot shares a byte with it. */
  lemma {:induction false} TileStands(slots: seq<SpillSlot>, frameSize: nat, m: nat, n: nat, b: int)
    requires Tiles(slots, frameSize) && InSlot(slots, m, b) && InSlot(slots, n, b)
    ensures m == n && -(frameSize as int) <= b < 0
  {
    assert -(frameSize as int) == Bottom(slots, |slots|) == slots[|slots| - 1].offset && slots[n].size > 0
        && slots[m].size > 0;
    hide Tiles;
    TilesBound(slots, frameSize, n);
    if n < |slots| - 1 {
      TilesDescend(slots, frameSize, n, |slots| - 1);
    }
    if m != n {
      TilesDescend(slots, frameSize, if m < n then m else n, if m < n then n else m);
    }
  }

  lemma {:induction false} TilesPartition(slots: seq<SpillSlot>, frameSize: nat, b: int)
    requires Tiles(slots, frameSize)
    ensures -(frameSize as int) <= b < 0 <==> exists n :: InSlot(slots, n, b)
    ensures forall m, n :: InSlot(slots, m, b) && InSlot(slots, n, b) ==> m == n
  {
    if -(frameSize as int) <= b < 0 {
      assert -(frameSize as int) == Bottom(slots, |slots|);
      var n := TilesCover(slots, frameSize, |slots|, b);
    }
    hide Tiles, InSlot;
    forall m: nat, n: nat | InSlot(slots, m, b) && InSlot(slots, n, b)
      ensures m == n && -(frameSize as int) <= b < 0
    {
      TileStands(slots, frameSize, m, n, b);
    }
  }

  /** The slots tile the frame: a byte lies in a slot iff it lies in the frame, and in one only. */
  lemma {:induction false} SlotsTileTheFrame(ivs: seq<Interval>, info: RegisterInfo, b: int)
    requires FreshIntervals(ivs) && ValidPools(info)
    ensures var result := ResultOf(Allocate(ivs, info));
      && (-(result.frameSize as int) <= b < 0 <==> exists n :: InSlot(result.slots, n, b))
      && forall m, n :: InSlot(result.slots, m, b) && InSlot(result.slots, n, b) ==> m == n
  {
    SortedInput(ivs, info);
    var sorted := SortByStart(ivs);
    RunKeepsBooks(sorted, info, |sorted|);
    var st := Allocate(ivs, info);
    hide Run;
    TilesPartition(st.slots, st.frameSize, b);
  }

  /** Every interval ends with exactly one of a register and a slot, and the tables say which. */
  lemma {:induction false} TablesAreExact(ivs: seq<Interval>, info: RegisterInfo, j: nat)
    requires FreshIntervals(ivs) && ValidPools(info) && j < |Allocate(ivs, info).ivs|
    ensures var st := Allocate(ivs, info); var iv := st.ivs[j];
      && (iv.reg.Some? <==> iv.slot.None?)
      && (iv.reg.Some? <==> iv.vreg in st.assignments) && (iv.slot.Some? <==> iv.vreg in st.spillMap)
      && (iv.vreg in st.assignments ==> iv.reg == Some(st.assignments[iv.vreg]))
      && (iv.vreg in st.spillMap ==> iv.slot == Some(st.spillMap[iv.vreg]))
      && (iv.slot.Some? ==> FitsSlot(st.slots, iv))
  {
    SortedInput(ivs, info);
    var sorted := SortByStart(ivs);
    RunKeepsCore(sorted, info, |sorted|);
    RunKeepsBooks(sorted, info, |sorted|);
    var st := Allocate(ivs, info);
    hide Run;
    assert st.ivs[j].slot.Some? ==> FitsSlot(st.slots, st.ivs[j]);
  }

  /** Spilled values and slot indices correspond one to one. */
  lemma {:induction false} SpillMapIsBijection(ivs: seq<Interval>, info: RegisterInfo)
    requires FreshIntervals(ivs) && ValidPools(info)
    ensures var st := Allocate(ivs, info);
      && (forall v :: v in st.spillMap ==> st.spillMap[v] < |st.slots|)
      && (forall v, w :: v in st.spillMap && w in st.spillMap && v != w ==> st.spillMap[v] != st.spillMap[w])
      && (forall n :: 0 <= n < |st.slots| ==> n in st.spillMap.Values)
  {
    SortedInput(ivs, info);
    var sorted := SortByStart(ivs);
    RunKeepsBooks(sorted, info, |sorted|);
    var st := Allocate(ivs, info);
    hide Run;
    forall v | v in st.spillMap
      ensures exists j :: 0 <= j < |st.ivs| && st.ivs[j].vreg == v && st.ivs[j].slot == Some(st.spillMap[v])
    {
      assert Placed(st.ivs, |sorted|, v);
      var j :| 0 <= j < |sorted| && j < |st.ivs| && st.ivs[j].vreg == v;
      assert st.ivs[j].slot.Some?;
    }
    forall v | v in st.spillMap
      ensures st.spillMap[v] < |st.slots|
    {
      var j :| 0 <= j < |st.ivs| && st.ivs[j].vreg == v && st.ivs[j].slot == Some(st.spillMap[v]);
      assert FitsSlot(st.slots, st.ivs[j]);
    }
    forall v, w | v in st.spillMap && w in st.spillMap && v != w
      ensures st.spillMap[v] != st.spillMap[w]
    {
      var j :| 0 <= j < |st.ivs| && st.ivs[j].vreg == v && st.ivs[j].slot == Some(st.spillMap[v]);
      var k :| 0 <= k < |st.ivs| && st.ivs[k].vreg == w && st.ivs[k].slot == Some(st.spillMap[w]);
      assert j != k;
    }
    forall n | 0 <= n < |st.slots|
      ensures n in st.spillMap.Values
    {
      assert OwnsSlot(st.ivs, |sorted|, n);
      var j :| 0 <= j < |sorted| && j < |st.ivs| && st.ivs[j].slot == Some(n);
      assert st.spillMap[st.ivs[j].vreg] == n;
    }
  }

  /** The callee-saved list holds exactly the callee-saved registers in the final assignment,
      evictions notwithstanding. */
  lemma {:induction false} CalleeSavedIsExact(ivs: seq<Interval>, info: RegisterInfo, r: PhysReg)
    requires FreshIntervals(ivs) && ValidPools(info)
    ensures var result := ResultOf(Allocate(ivs, info));
      r in result.calleeUsed <==> r in info.calleeSaved && r in result.assignments.Values
  {
    SortedInput(ivs, info);
    var sorted := SortByStart(ivs);
    RunKeepsBooks(sorted, info, |sorted|);
    var st := Allocate(ivs, info);
    hide Run;
    if Holds(st.ivs, |sorted|, r) {
      var j :| 0 <= j < |sorted| && j < |st.ivs| && st.ivs[j].reg == Some(r);
      assert st.assignments[st.ivs[j].vreg] == r;
    }
    if r in st.assignments.Values {
      var v :| v in st.assignments && st.assignments[v] == r;
      assert Placed(st.ivs, |sorted|, v);
      var j :| 0 <= j < |sorted| && j < |st.ivs| && st.ivs[j].vreg == v;
      assert st.ivs[j].reg == Some(r);
    }
  }
}
