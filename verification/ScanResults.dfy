/** The results of a whole scan: intervals that meet never share a register, and the assignment,
    spill-slot and callee-saved tables are exact, evictions included. */
module ScanResults {
  import opened Wrappers
  import opened Ir
  import opened LiveIntervals
  import opened LinearScan
  import opened ScanInvariants

  // ---- non-interference ----

  /** The register in hand is held by no active interval. */
  lemma {:induction false} InHandIsFree(st: Scan, info: RegisterInfo, i: nat, cur: nat, c: RegClass, reg: PhysReg,
                                        j: nat)
    requires ValidPools(info) && ActiveExact(st, i, cur) && ConservedBut(st, info, c, reg) && InClass(st, info, i)
    requires j in st.active
    ensures st.ivs[j].reg != Some(reg)
  {
    if st.ivs[j].reg == Some(reg) {
      assert reg in multiset(Allocatable(info, c));
      assert st.ivs[j].regClass == c;
      var k :| 0 <= k < |st.active| && st.active[k] == j;
      HeldIsCounted(st.ivs, st.active, k);
      AllocatableCount(info, c, reg);
      assert false;
    }
  }

  lemma {:induction false} HoldKeepsApart(ivs: seq<Interval>, info: RegisterInfo, st: Scan, i: nat, cur: nat,
                                          c: RegClass, reg: PhysReg)
    requires ValidPools(info) && CoreBut(ivs, info, st, i, cur, c, reg) && Apart(st, i)
    requires i < |ivs| && ivs[i].start == cur
    ensures Apart(Hold(st, i, reg, info), i + 1)
  {
    var r := Hold(st, i, reg, info);
    forall j, k | 0 <= j < k < i + 1 && Meet(r.ivs[j], r.ivs[k]) && r.ivs[j].reg.Some?
      ensures r.ivs[j].reg != r.ivs[k].reg
    {
      if k == i {
        assert j in st.active;
        InHandIsFree(st, info, i, cur, c, reg, j);
      }
    }
  }

  lemma {:induction false} DropKeepsApart(st: Scan, i: nat, far: nat)
    requires Apart(st, i) && far < |st.ivs|
    ensures Apart(Dropped(st, far), i)
  {
  }

  lemma {:induction false} TakeKeepsApart(st: Scan, i: nat, c: RegClass, p: nat)
    requires Apart(st, i) && p < |Pool(st, c)|
    ensures Apart(Taken(st, c, p), i)
  {
  }

  lemma {:induction false} SpillSelfKeepsApart(st: Scan, i: nat)
    requires Apart(st, i) && i < |st.ivs|
    ensures Apart(Spill(st, i), i + 1)
  {
  }

  lemma {:induction false} PlaceKeepsApart(ivs: seq<Interval>, info: RegisterInfo, st: Scan, i: nat)
    requires ValidInput(ivs, info) && i < |ivs| && Core(ivs, info, st, i, ivs[i].start) && Apart(st, i)
    requires i < |st.ivs| && ActiveHold(st.ivs, st.active)
    ensures Apart(Place(st, i, info), i + 1)
  {
    hide Core, CoreBut, Place, Hold, Spill, Dropped, OutcomeOf, Apart;
    var c, cur := st.ivs[i].regClass, ivs[i].start;
    CoreFacts(ivs, info, st, i, cur);
    PlaceByOutcome(st, i, info);
    match OutcomeOf(st, i, info)
    case TookFree(p) =>
      TakeKeepsCore(ivs, info, st, i, cur, c, p);
      TakeKeepsApart(st, i, c, p);
      HoldKeepsApart(ivs, info, Taken(st, c, p), i, cur, c, Pool(st, c)[p]);
    case Evicted(far) =>
      DropKeepsCore(ivs, info, st, i, cur, far);
      DropKeepsApart(st, i, far);
      HoldKeepsApart(ivs, info, Dropped(st, far), i, cur, c, st.ivs[far].reg.value);
    case SpilledSelf =>
      SpillSelfKeepsApart(st, i);
  }

  lemma {:induction false} NothingMeets(ivs: seq<Interval>, info: RegisterInfo)
    ensures Apart(InitialScan(ivs, info), 0)
  {
  }

  /** After every step, placed intervals that meet hold different registers. */
  lemma {:induction false} RunKeepsApart(ivs: seq<Interval>, info: RegisterInfo, n: nat)
    requires ValidInput(ivs, info) && n <= |ivs|
    ensures Apart(Run(ivs, info, n), n)
  {
    hide Place, Apart, Core;
    if n == 0 {
      NothingMeets(ivs, info);
    } else {
      ReadyCore(ivs, info, n - 1);
      RunKeepsApart(ivs, info, n - 1);
      ReadyApart(ivs, info, n - 1);
      RunByPlace(ivs, info, n - 1);
      PlaceKeepsApart(ivs, info, Ready(ivs, info, n - 1), n - 1);
    }
  }

  lemma {:induction false} ReadyApart(ivs: seq<Interval>, info: RegisterInfo, n: nat)
    requires n < |ivs| && Apart(Run(ivs, info, n), n)
    ensures Apart(Ready(ivs, info, n), n)
  {
    hide Run;
  }

  // ---- the assignment table ----

  lemma {:induction false} PlacedFrame(ivs: seq<Interval>, now: seq<Interval>, i: nat, n: nat, v: Value)
    requires |now| == |ivs| && i <= n && Placed(ivs, i, v)
    requires forall j :: 0 <= j < |ivs| ==> now[j].vreg == ivs[j].vreg
    ensures Placed(now, n, v)
  {
    var j :| 0 <= j < i && j < |ivs| && ivs[j].vreg == v;
    assert now[j].vreg == v;
  }

  lemma {:induction false} DropKeepsAssignments(st: Scan, i: nat, far: nat)
    requires DistinctVregs(st.ivs) && AssignmentsExact(st, i) && far < i
    ensures AssignmentsExact(Dropped(st, far), i)
  {
    var r := Dropped(st, far);
    forall v | v in r.assignments
      ensures Placed(r.ivs, i, v)
    {
      assert v in st.assignments;
      assert Placed(st.ivs, i, v);
      PlacedFrame(st.ivs, r.ivs, i, i, v);
    }
  }

  /** A value still to be placed is in no table. */
  lemma {:induction false} NotPlaced(ivs: seq<Interval>, i: nat)
    requires DistinctVregs(ivs) && i < |ivs|
    ensures !Placed(ivs, i, ivs[i].vreg)
  {
  }

  lemma {:induction false} HoldKeepsAssignments(st: Scan, i: nat, reg: PhysReg, info: RegisterInfo)
    requires DistinctVregs(st.ivs) && AssignmentsExact(st, i) && i < |st.ivs| && Known(st.ivs, st.active)
    ensures AssignmentsExact(Hold(st, i, reg, info), i + 1)
  {
    var r := Hold(st, i, reg, info);
    forall v | v in r.assignments
      ensures Placed(r.ivs, i + 1, v)
    {
      if v == st.ivs[i].vreg {
        assert r.ivs[i].vreg == v;
      } else {
        assert Placed(st.ivs, i, v);
        PlacedFrame(st.ivs, r.ivs, i, i + 1, v);
      }
    }
  }

  lemma {:induction false} SpillSelfKeepsAssignments(st: Scan, i: nat)
    requires DistinctVregs(st.ivs) && AssignmentsExact(st, i) && i < |st.ivs|
    ensures AssignmentsExact(Spill(st, i), i + 1)
  {
    var r := Spill(st, i);
    NotPlaced(st.ivs, i);
    assert st.ivs[i].vreg !in st.assignments;
    forall v | v in r.assignments
      ensures Placed(r.ivs, i + 1, v)
    {
      assert Placed(st.ivs, i, v);
      PlacedFrame(st.ivs, r.ivs, i, i + 1, v);
    }
  }

  // ---- the slot table ----

  lemma {:induction false} SpillKeepsSlots(st: Scan, i: nat, n: nat, j: nat)
    requires DistinctVregs(st.ivs) && SlotsExact(st, i) && j < |st.ivs|
    requires st.ivs[j].slot.None? && (if j < i then n == i else j == i && n == i + 1)
    ensures SlotsExact(Spill(st, j), n)
  {
    var r := Spill(st, j);
    forall m | 0 <= m < |r.slots|
      ensures OwnsSlot(r.ivs, n, m)
    {
      if m < |st.slots| {
        assert OwnsSlot(st.ivs, i, m);
        var k :| 0 <= k < i && k < |st.ivs| && st.ivs[k].slot == Some(m);
        assert r.ivs[k].slot == Some(m);
      } else {
        assert r.ivs[j].slot == Some(m);
      }
    }
    forall v | v in r.spillMap
      ensures Placed(r.ivs, n, v)
    {
      if v == st.ivs[j].vreg {
        assert r.ivs[j].vreg == v;
      } else {
        assert Placed(st.ivs, i, v);
        PlacedFrame(st.ivs, r.ivs, i, n, v);
      }
    }
    forall k | 0 <= k < i && st.ivs[k].slot.Some?
      ensures FitsSlot(r.slots, st.ivs[k])
    {
      assert FitsSlot(st.slots, st.ivs[k]);
    }
  }

  lemma {:induction false} HoldKeepsSlots(st: Scan, i: nat, reg: PhysReg, info: RegisterInfo)
    requires DistinctVregs(st.ivs) && SlotsExact(st, i) && i < |st.ivs| && Known(st.ivs, st.active)
    requires st.ivs[i].slot.None?
    ensures SlotsExact(Hold(st, i, reg, info), i + 1)
  {
    var r := Hold(st, i, reg, info);
    NotPlaced(st.ivs, i);
    assert st.ivs[i].vreg !in st.spillMap;
    forall v | v in r.spillMap
      ensures Placed(r.ivs, i + 1, v)
    {
      assert Placed(st.ivs, i, v);
      PlacedFrame(st.ivs, r.ivs, i, i + 1, v);
    }
    forall m {:trigger OwnsSlot(r.ivs, i + 1, m)} | 0 <= m < |r.slots|
      ensures OwnsSlot(r.ivs, i + 1, m)
    {
      assert OwnsSlot(st.ivs, i, m);
      var k :| 0 <= k < i && k < |st.ivs| && st.ivs[k].slot == Some(m);
      assert r.ivs[k].slot == Some(m);
    }
    forall k | 0 <= k < i && st.ivs[k].slot.Some?
      ensures FitsSlot(r.slots, r.ivs[k])
    {
      assert FitsSlot(st.slots, st.ivs[k]);
    }
  }

  lemma {:induction false} SpillKeepsTiles(st: Scan, j: nat)
    requires Tiles(st.slots, st.frameSize) && j < |st.ivs|
    ensures Tiles(Spill(st, j).slots, Spill(st, j).frameSize)
  {
  }

  // ---- callee-saved registers ----

  /** Exact except that `reg`, taken from its holder, may be listed without being held. */
  ghost predicate CalleeExactBut(st: Scan, info: RegisterInfo, i: nat, reg: PhysReg) {
    && (forall r :: r != reg ==> (r in st.calleeUsed <==> r in info.calleeSaved && Holds(st.ivs, i, r)))
    && (reg in st.calleeUsed ==> reg in info.calleeSaved)
  }

  lemma {:induction false} HoldsFrame(ivs: seq<Interval>, now: seq<Interval>, i: nat, n: nat, j: nat, r: PhysReg)
    requires |now| == |ivs| && i <= n <= i + 1 && i <= |ivs| && j < |ivs| && now == ivs[j := now[j]]
    requires ivs[j].reg != Some(r) && now[j].reg != Some(r)
    requires n == i + 1 ==> j == i
    ensures Holds(ivs, i, r) <==> Holds(now, n, r)
  {
    if Holds(ivs, i, r) {
      var k :| 0 <= k < i && k < |ivs| && ivs[k].reg == Some(r);
      assert now[k].reg == Some(r);
    }
    if Holds(now, n, r) {
      var k :| 0 <= k < n && k < |now| && now[k].reg == Some(r);
      assert ivs[k].reg == Some(r);
    }
  }

  lemma {:induction false} DropKeepsCallee(st: Scan, info: RegisterInfo, i: nat, far: nat)
    requires CalleeExact(st, info, i) && far < i <= |st.ivs| && st.ivs[far].reg.Some?
    ensures CalleeExactBut(Dropped(st, far), info, i, st.ivs[far].reg.value)
  {
    var r, reg := Dropped(st, far), st.ivs[far].reg.value;
    forall s | s != reg
      ensures s in r.calleeUsed <==> s in info.calleeSaved && Holds(r.ivs, i, s)
    {
      HoldsFrame(st.ivs, r.ivs, i, i, far, s);
    }
  }

  lemma {:induction false} HoldKeepsCallee(st: Scan, info: RegisterInfo, i: nat, reg: PhysReg)
    requires CalleeExactBut(st, info, i, reg) && i < |st.ivs| && st.ivs[i].reg.None? && Known(st.ivs, st.active)
    ensures CalleeExact(Hold(st, i, reg, info), info, i + 1)
  {
    var r := Hold(st, i, reg, info);
    forall s
      ensures s in r.calleeUsed <==> s in info.calleeSaved && Holds(r.ivs, i + 1, s)
    {
      if s == reg {
        assert r.ivs[i].reg == Some(s);
      } else {
        HoldsFrame(st.ivs, r.ivs, i, i + 1, i, s);
      }
    }
  }

  lemma {:induction false} SpillSelfKeepsCallee(st: Scan, info: RegisterInfo, i: nat)
    requires CalleeExact(st, info, i) && i < |st.ivs| && st.ivs[i].reg.None?
    ensures CalleeExact(Spill(st, i), info, i + 1)
  {
    var r := Spill(st, i);
    forall s
      ensures s in r.calleeUsed <==> s in info.calleeSaved && Holds(r.ivs, i + 1, s)
    {
      HoldsFrame(st.ivs, r.ivs, i, i + 1, i, s);
    }
  }

  // ---- all tables together ----

  ghost predicate Books(st: Scan, info: RegisterInfo, i: nat) {
    AssignmentsExact(st, i) && SlotsExact(st, i) && Tiles(st.slots, st.frameSize) && CalleeExact(st, info, i)
  }

  ghost predicate BooksBut(st: Scan, info: RegisterInfo, i: nat, reg: PhysReg) {
    AssignmentsExact(st, i) && SlotsExact(st, i) && Tiles(st.slots, st.frameSize) && CalleeExactBut(st, info, i, reg)
  }

  lemma {:induction false} TakeKeepsBooks(st: Scan, info: RegisterInfo, i: nat, c: RegClass, p: nat)
    requires Books(st, info, i) && p < |Pool(st, c)|
    ensures BooksBut(Taken(st, c, p), info, i, Pool(st, c)[p])
  {
  }

  lemma {:induction false} DropKeepsBooks(st: Scan, info: RegisterInfo, i: nat, far: nat)
    requires DistinctVregs(st.ivs) && Books(st, info, i) && far < i <= |st.ivs|
    requires st.ivs[far].reg.Some? && st.ivs[far].slot.None?
    ensures BooksBut(Dropped(st, far), info, i, st.ivs[far].reg.value)
  {
    hide AssignmentsExact, CalleeExact, CalleeExactBut, Tiles;
    DropKeepsAssignments(st, i, far);
    SpillKeepsSlots(st, i, i, far);
    SpillKeepsTiles(st, far);
    DropKeepsCallee(st, info, i, far);
  }

  lemma {:induction false} HoldKeepsBooks(st: Scan, info: RegisterInfo, i: nat, reg: PhysReg)
    requires DistinctVregs(st.ivs) && BooksBut(st, info, i, reg) && i < |st.ivs| && Known(st.ivs, st.active)
    requires st.ivs[i].reg.None? && st.ivs[i].slot.None?
    ensures Books(Hold(st, i, reg, info), info, i + 1)
  {
    hide AssignmentsExact, SlotsExact, CalleeExact, CalleeExactBut, Tiles;
    HoldKeepsAssignments(st, i, reg, info);
    HoldKeepsSlots(st, i, reg, info);
    HoldKeepsCallee(st, info, i, reg);
  }

  lemma {:induction false} SpillSelfKeepsBooks(st: Scan, info: RegisterInfo, i: nat)
    requires DistinctVregs(st.ivs) && Books(st, info, i) && i < |st.ivs|
    requires st.ivs[i].reg.None? && st.ivs[i].slot.None?
    ensures Books(Spill(st, i), info, i + 1)
  {
    hide AssignmentsExact, SlotsExact, CalleeExact, Tiles;
    SpillSelfKeepsAssignments(st, i);
    SpillKeepsSlots(st, i, i + 1, i);
    SpillKeepsTiles(st, i);
    SpillSelfKeepsCallee(st, info, i);
  }

  /** What the tables need from the core. */
  lemma {:induction false} CoreForBooks(ivs: seq<Interval>, info: RegisterInfo, st: Scan, i: nat, cur: nat)
    requires ValidInput(ivs, info) && i < |ivs| && Core(ivs, info, st, i, cur)
    ensures DistinctVregs(st.ivs) && |st.ivs| == |ivs| && st.ivs[i].reg.None? && st.ivs[i].slot.None?
    ensures forall a :: a in st.active ==> a < i && st.ivs[a].reg.Some? && st.ivs[a].slot.None?
  {
  }

  lemma {:induction false} DroppedFacts(st: Scan, i: nat, far: nat)
    requires DistinctVregs(st.ivs) && far < i < |st.ivs|
    ensures var r := Dropped(st, far);
      DistinctVregs(r.ivs) && |r.ivs| == |st.ivs| && r.ivs[i] == st.ivs[i]
  {
  }

  lemma {:induction false} PlaceKeepsBooks(ivs: seq<Interval>, info: RegisterInfo, st: Scan, i: nat)
    requires ValidInput(ivs, info) && i < |ivs| && Core(ivs, info, st, i, ivs[i].start) && Books(st, info, i)
    requires i < |st.ivs| && ActiveHold(st.ivs, st.active)
    ensures Books(Place(st, i, info), info, i + 1)
  {
    hide Core, Place, Hold, Spill, Books, BooksBut, OutcomeOf, ValidInput;
    CoreForBooks(ivs, info, st, i, ivs[i].start);
    PlaceByOutcome(st, i, info);
    var c := st.ivs[i].regClass;
    match OutcomeOf(st, i, info)
    case TookFree(p) =>
      TakeKeepsBooks(st, info, i, c, p);
      HoldKeepsBooks(Taken(st, c, p), info, i, Pool(st, c)[p]);
    case Evicted(far) =>
      DropKeepsBooks(st, info, i, far);
      DroppedFacts(st, i, far);
      HoldKeepsBooks(Dropped(st, far), info, i, st.ivs[far].reg.value);
    case SpilledSelf =>
      SpillSelfKeepsBooks(st, info, i);
  }

  lemma {:induction false} InitialBooks(ivs: seq<Interval>, info: RegisterInfo)
    ensures Books(InitialScan(ivs, info), info, 0)
  {
  }

  lemma {:induction false} ReadyBooks(ivs: seq<Interval>, info: RegisterInfo, n: nat)
    requires n < |ivs| && Books(Run(ivs, info, n), info, n)
    ensures Books(Ready(ivs, info, n), info, n)
  {
    hide Run;
  }

  /** The tables are exact after every step. */
  lemma {:induction false} RunKeepsBooks(ivs: seq<Interval>, info: RegisterInfo, n: nat)
    requires ValidInput(ivs, info) && n <= |ivs|
    ensures Books(Run(ivs, info, n), info, n)
  {
    hide Place, Books, Core;
    if n == 0 {
      InitialBooks(ivs, info);
    } else {
      ReadyCore(ivs, info, n - 1);
      RunKeepsBooks(ivs, info, n - 1);
      ReadyBooks(ivs, info, n - 1);
      RunByPlace(ivs, info, n - 1);
      PlaceKeepsBooks(ivs, info, Ready(ivs, info, n - 1), n - 1);
    }
  }
}
