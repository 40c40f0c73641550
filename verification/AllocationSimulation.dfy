/** Running a function with every value kept in its assigned register or spill slot agrees, step for
    step, with running it on virtual registers. */
module AllocationSimulation {
  import opened Wrappers
  import opened Ir
  import opened LiveIntervals
  import opened Liveness
  import opened LinearScan
  import opened ScanInvariants
  import opened ScanTheorems
  import opened CallSafety

  datatype Location = InReg(reg: PhysReg) | OnStack(slot: nat)

  /** Where the allocation keeps a value. */
  function LocationOf(alloc: AllocationResult, v: Value): Option<Location> {
    if v in alloc.assignments then Some(InReg(alloc.assignments[v]))
    else if v in alloc.spillMap then Some(OnStack(alloc.spillMap[v]))
    else None
  }

  /** An arbitrary meaning of the instructions: the result, the effect on memory, the successor taken
      at the end of a block, the value of the undefined operand, and what the instruction executed at
      a given step leaves in a register that it clobbers. */
  datatype Semantics<!M> = Semantics(result: (Point, seq<int>, M) -> int,
                                     effect: (Point, seq<int>, M) -> M,
                                     branch: (Point, seq<int>, M) -> nat,
                                     undef: int,
                                     clobber: (nat, PhysReg) -> int)

  /** `pc` is `None` once control has left the function. */
  datatype VirtualState<!M> = VirtualState(pc: Option<Point>, env: Value -> int, mem: M)

  datatype MachineState<!M> = MachineState(pc: Option<Point>, locs: Location -> int, mem: M)

  ghost function NextPoint<M>(f: Function, order: seq<nat>, sem: Semantics<M>, pt: Point, vals: seq<int>, mem: M)
    : (next: Option<Point>)
    requires ValidOrder(f, order) && ValidPoint(f, order, pt)
    ensures next.Some? ==> Flow(f, order, pt, next.value)
  {
    var block := BlockAt(f, order, pt.pos);
    if pt.off + 1 < |block.instrs| then Some(Point(pt.pos, pt.off + 1))
    else
      var k := sem.branch(pt, vals, mem);
      if k < |block.succs| && block.succs[k] < |f.blocks| then
        var p := Position(order, block.succs[k]);
        assert block.succs[k] in order;
        assert WellFormedBlock(f.blocks[order[p]]);
        Some(Point(p, 0))
      else None
  }

  ghost function ReadVirtual<M>(sem: Semantics<M>, env: Value -> int, v: Value): int {
    if v == UNDEF then sem.undef else env(v)
  }

  ghost function VirtualOperands<M>(sem: Semantics<M>, env: Value -> int, operands: seq<Value>): seq<int> {
    seq(|operands|, k requires 0 <= k < |operands| => ReadVirtual(sem, env, operands[k]))
  }

  ghost function VirtualStep<M>(f: Function, order: seq<nat>, sem: Semantics<M>, st: VirtualState<M>)
    : (r: VirtualState<M>)
    requires ValidOrder(f, order) && (st.pc.Some? ==> ValidPoint(f, order, st.pc.value))
    ensures r.pc.Some? ==> ValidPoint(f, order, r.pc.value)
  {
    if st.pc.None? then st
    else
      var pt := st.pc.value;
      var ins := InstrAt(f, order, pt);
      var vals := VirtualOperands(sem, st.env, ins.operands);
      var out := sem.result(pt, vals, st.mem);
      VirtualState(NextPoint(f, order, sem, pt, vals, st.mem),
                   (v: Value) => if Defines(ins, v) then out else st.env(v),
                   sem.effect(pt, vals, st.mem))
  }

  ghost function ReadMachine<M>(sem: Semantics<M>, alloc: AllocationResult, locs: Location -> int, v: Value): int {
    if v == UNDEF then sem.undef
    else
      var l := LocationOf(alloc, v);
      if l.Some? then locs(l.value) else sem.undef
  }

  ghost function MachineOperands<M>(sem: Semantics<M>, alloc: AllocationResult, locs: Location -> int,
                                    operands: seq<Value>): seq<int> {
    seq(|operands|, k requires 0 <= k < |operands| => ReadMachine(sem, alloc, locs, operands[k]))
  }

  /** The location an instruction writes. */
  ghost predicate Writes(alloc: AllocationResult, ins: Instr, l: Location) {
    ins.result.Some? && ins.result.value != UNDEF && LocationOf(alloc, ins.result.value) == Some(l)
  }

  /** A call and each of the four divisions may change any register that is not callee-saved. */
  ghost predicate IsClobbered(info: RegisterInfo, ins: Instr, l: Location) {
    ins.op in {Call, SDiv, UDiv, SRem, URem} && l.InReg? && l.reg !in info.calleeSaved
  }

  ghost function MachineStep<M>(f: Function, order: seq<nat>, sem: Semantics<M>, info: RegisterInfo,
                                alloc: AllocationResult, st: MachineState<M>, t: nat): (r: MachineState<M>)
    requires ValidOrder(f, order) && (st.pc.Some? ==> ValidPoint(f, order, st.pc.value))
    ensures r.pc.Some? ==> ValidPoint(f, order, r.pc.value)
  {
    if st.pc.None? then st
    else
      var pt := st.pc.value;
      var ins := InstrAt(f, order, pt);
      var vals := MachineOperands(sem, alloc, st.locs, ins.operands);
      var out := sem.result(pt, vals, st.mem);
      MachineState(NextPoint(f, order, sem, pt, vals, st.mem),
                   l => if Writes(alloc, ins, l) then out
                        else if IsClobbered(info, ins, l) then sem.clobber(t, l.reg)
                        else st.locs(l),
                   sem.effect(pt, vals, st.mem))
  }

  ghost function VirtualRun<M>(f: Function, order: seq<nat>, sem: Semantics<M>, st: VirtualState<M>, n: nat)
    : (r: VirtualState<M>)
    requires ValidOrder(f, order) && (st.pc.Some? ==> ValidPoint(f, order, st.pc.value))
    ensures r.pc.Some? ==> ValidPoint(f, order, r.pc.value)
  {
    if n == 0 then st else VirtualStep(f, order, sem, VirtualRun(f, order, sem, st, n - 1))
  }

  ghost function MachineRun<M>(f: Function, order: seq<nat>, sem: Semantics<M>, info: RegisterInfo,
                               alloc: AllocationResult, st: MachineState<M>, n: nat): (r: MachineState<M>)
    requires ValidOrder(f, order) && (st.pc.Some? ==> ValidPoint(f, order, st.pc.value))
    ensures r.pc.Some? ==> ValidPoint(f, order, r.pc.value)
  {
    if n == 0 then st else MachineStep(f, order, sem, info, alloc, MachineRun(f, order, sem, info, alloc, st, n - 1),
                                       n - 1)
  }

  /** Same point, same memory, and every live value is found where the allocation says. */
  ghost predicate Agree<M>(f: Function, order: seq<nat>, alloc: AllocationResult, vs: VirtualState<M>,
                           ms: MachineState<M>)
    requires ValidOrder(f, order)
  {
    && vs.pc == ms.pc && vs.mem == ms.mem
    && (vs.pc.Some? ==> ValidPoint(f, order, vs.pc.value))
    && (vs.pc.Some? ==> forall v :: LiveIn(f, order, v, vs.pc.value) ==> Found(alloc, vs.env, ms.locs, v))
  }

  ghost predicate Found(alloc: AllocationResult, env: Value -> int, locs: Location -> int, v: Value) {
    var l := LocationOf(alloc, v);
    l.Some? && locs(l.value) == env(v)
  }

  // ---- the intervals of a function are proper input for the scan ----

  lemma {:induction false} IntervalsAreFresh(f: Function, order: seq<nat>, ivs: seq<Interval>)
    requires ValidOrder(f, order) && IsIntervalsOf(f, order, ivs)
    ensures FreshIntervals(ivs)
  {
    forall j | 0 <= j < |ivs|
      ensures ivs[j].start <= ivs[j].end
    {
      var v, w := ivs[j].vreg, WalkOf(f, order);
      WalkIsExact(f, order, v);
      BlocksClosed(f, order, w.starts, w.ends, |order|, v);
      StartBeforeEnd(f, order, v);
    }
    forall i, j | 0 <= i < j < |ivs|
      ensures ivs[i].vreg != ivs[j].vreg
    {
      assert Before(ivs[i], ivs[j]);
    }
  }

  lemma {:induction false} StartBeforeEnd(f: Function, order: seq<nat>, v: Value)
    requires ValidOrder(f, order) && v in WalkOf(f, order).starts
    ensures v in WalkOf(f, order).ends && WalkOf(f, order).starts[v] <= WalkOf(f, order).ends[v]
  {
    WalkIsExact(f, order, v);
    var w := WalkOf(f, order);
    if !(IsParam(f, v) && w.ends[v] == 0) {
      var pt :| EndsAt(f, order, v, pt, w.ends[v]);
      assert Occurs(f, order, pt, v);
    }
  }

  // ---- locations ----

  /** Interval `j` of the allocation belongs to `v` and has the computed bounds. */
  ghost predicate AllocatedFor(f: Function, order: seq<nat>, st: Scan, v: Value, j: nat)
    requires ValidOrder(f, order)
  {
    && v in FinalEnds(f, order) && v in WalkOf(f, order).starts
    && j < |st.ivs| && st.ivs[j].vreg == v
    && st.ivs[j].start == WalkOf(f, order).starts[v] && st.ivs[j].end == FinalEnds(f, order)[v]
  }

  lemma {:induction false} AllocatedInterval(f: Function, order: seq<nat>, ivs: seq<Interval>, info: RegisterInfo,
                                             v: Value) returns (j: nat)
    requires ValidOrder(f, order) && IsIntervalsOf(f, order, ivs) && ValidPools(info) && v in FinalEnds(f, order)
    ensures AllocatedFor(f, order, Allocate(ivs, info), v, j)
  {
    IntervalsAreFresh(f, order, ivs);
    var i := IntervalIndex(f, order, ivs, v);
    assert ivs[i] in ivs;
    j := EveryIntervalIsAllocated(ivs, info, ivs[i]);
  }

  /** The location of a value is the register or slot of its interval. */
  lemma {:induction false} LocationOfInterval(ivs: seq<Interval>, info: RegisterInfo, j: nat)
    requires FreshIntervals(ivs) && ValidPools(info) && j < |Allocate(ivs, info).ivs|
    ensures var st := Allocate(ivs, info); var iv := st.ivs[j];
      && LocationOf(ResultOf(st), iv.vreg).Some?
      && LocationOf(ResultOf(st), iv.vreg) ==
           (if iv.reg.Some? then Some(InReg(iv.reg.value))
            else if iv.slot.Some? then Some(OnStack(iv.slot.value)) else None)
  {
    TablesAreExact(ivs, info, j);
  }

  /** Two different values whose intervals share a point live in different locations. */
  lemma {:induction false} SharedPointApart(f: Function, order: seq<nat>, ivs: seq<Interval>, info: RegisterInfo,
                                            v: Value, w: Value, p: nat)
    requires ValidOrder(f, order) && IsIntervalsOf(f, order, ivs) && ValidPools(info) && v != w
    requires v in WalkOf(f, order).starts && v in FinalEnds(f, order)
    requires w in WalkOf(f, order).starts && w in FinalEnds(f, order)
    requires WalkOf(f, order).starts[v] <= p <= FinalEnds(f, order)[v]
    requires WalkOf(f, order).starts[w] <= p <= FinalEnds(f, order)[w]
    ensures var alloc := ResultOf(Allocate(ivs, info));
      LocationOf(alloc, v).Some? && LocationOf(alloc, w).Some? && LocationOf(alloc, v) != LocationOf(alloc, w)
  {
    IntervalsAreFresh(f, order, ivs);
    var j := AllocatedInterval(f, order, ivs, info, v);
    var k := AllocatedInterval(f, order, ivs, info, w);
    LocationOfInterval(ivs, info, j);
    LocationOfInterval(ivs, info, k);
    hide Allocate;
    MeetingIntervalsAreApart(ivs, info, j, k);
    SpillMapIsBijection(ivs, info);
  }

  lemma {:induction false} LiveHasLocation(f: Function, order: seq<nat>, ivs: seq<Interval>, info: RegisterInfo,
                                           v: Value)
    requires ValidOrder(f, order) && IsIntervalsOf(f, order, ivs) && ValidPools(info) && v in FinalEnds(f, order)
    ensures LocationOf(ResultOf(Allocate(ivs, info)), v).Some?
  {
    IntervalsAreFresh(f, order, ivs);
    var j := AllocatedInterval(f, order, ivs, info, v);
    LocationOfInterval(ivs, info, j);
  }

  /** No function is allocated so that a call destroys a live value: whatever its control flow, calls
      and divisions, every crossing interval in a register is in a callee-saved one. */
  lemma {:induction false} EveryFunctionRespectsCalls(f: Function, order: seq<nat>, ivs: seq<Interval>,
                                                      info: RegisterInfo)
    requires ValidOrder(f, order) && IsIntervalsOf(f, order, ivs) && ValidPools(info)
    ensures RespectsCalls(ivs, info)
  {
    IntervalsAreFresh(f, order, ivs);
    ComputedFlagsNest(f, order, ivs);
    hide IsIntervalsOf;
    NestedFlagsRespectCalls(ivs, info);
  }

  /** A value live across a call is not in a clobbered register. */
  lemma {:induction false} SurvivesCall(f: Function, order: seq<nat>, ivs: seq<Interval>, info: RegisterInfo,
                                        v: Value, pt: Point)
    requires ValidOrder(f, order) && Strict(f, order) && IsIntervalsOf(f, order, ivs) && ValidPools(info)
    requires ClobbersAt(f, order, pt) && LiveAcross(f, order, v, pt)
    ensures var l := LocationOf(ResultOf(Allocate(ivs, info)), v);
      l.Some? && !IsClobbered(info, InstrAt(f, order, pt), l.value)
  {
    IntervalsAreFresh(f, order, ivs);
    EveryFunctionRespectsCalls(f, order, ivs, info);
    var i := LiveAcrossCallIsFlagged(f, order, ivs, v, pt);
    assert ivs[i] in ivs;
    var j := EveryIntervalIsAllocated(ivs, info, ivs[i]);
    LocationOfInterval(ivs, info, j);
  }

  // ---- one step ----

  lemma {:induction false} SameOperands<M>(f: Function, order: seq<nat>, sem: Semantics<M>, alloc: AllocationResult,
                        vs: VirtualState<M>, ms: MachineState<M>)
    requires ValidOrder(f, order) && Agree(f, order, alloc, vs, ms) && vs.pc.Some?
    ensures var ops := InstrAt(f, order, vs.pc.value).operands;
      VirtualOperands(sem, vs.env, ops) == MachineOperands(sem, alloc, ms.locs, ops)
  {
    var pt := vs.pc.value;
    var ops := InstrAt(f, order, pt).operands;
    forall k | 0 <= k < |ops|
      ensures ReadVirtual(sem, vs.env, ops[k]) == ReadMachine(sem, alloc, ms.locs, ops[k])
    {
      if ops[k] != UNDEF {
        UseIsLive(f, order, ops[k], pt);
        assert Found(alloc, vs.env, ms.locs, ops[k]);
      }
    }
  }

  /** The location of a value that stays live is neither written nor clobbered. */
  lemma {:induction false} Undisturbed(f: Function, order: seq<nat>, ivs: seq<Interval>, info: RegisterInfo,
                                       pt: Point, next: Point, w: Value)
    requires ValidOrder(f, order) && Strict(f, order) && IsIntervalsOf(f, order, ivs) && ValidPools(info)
    requires Flow(f, order, pt, next) && LiveIn(f, order, w, next) && !Defines(InstrAt(f, order, pt), w)
    ensures LiveIn(f, order, w, pt)
    ensures var alloc := ResultOf(Allocate(ivs, info)); var ins := InstrAt(f, order, pt);
      var l := LocationOf(alloc, w);
      l.Some? && !Writes(alloc, ins, l.value) && !IsClobbered(info, ins, l.value)
  {
    LiveBackward(f, order, w, pt, next);
    LiveInsideInterval(f, order, w, pt);
    hide IsIntervalsOf, Strict, ValidPools, Allocate, ResultOf, LocationOf, Writes, LiveIn;
    LiveHasLocation(f, order, ivs, info, w);
    NotWritten(f, order, ivs, info, pt, w);
    var ins := InstrAt(f, order, pt);
    if Clobbers(ins.op) {
      assert LiveAcross(f, order, w, pt);
      SurvivesCall(f, order, ivs, info, w, pt);
    }
  }

  lemma {:induction false} NotWritten(f: Function, order: seq<nat>, ivs: seq<Interval>, info: RegisterInfo,
                                      pt: Point, w: Value)
    requires ValidOrder(f, order) && Strict(f, order) && IsIntervalsOf(f, order, ivs) && ValidPools(info)
    requires ValidPoint(f, order, pt) && LiveIn(f, order, w, pt) && !Defines(InstrAt(f, order, pt), w)
    ensures var alloc := ResultOf(Allocate(ivs, info)); var l := LocationOf(alloc, w);
      l.Some? ==> !Writes(alloc, InstrAt(f, order, pt), l.value)
  {
    hide IsIntervalsOf, Strict, ValidPools, Allocate, ResultOf, LocationOf, LiveIn;
    LiveInsideInterval(f, order, w, pt);
    var ins := InstrAt(f, order, pt);
    if ins.result.Some? && ins.result.value != UNDEF {
      var v := ins.result.value;
      DefInsideInterval(f, order, v, pt);
      SharedPointApart(f, order, ivs, info, v, w, Index(f, order, pt));
    }
  }

  lemma {:induction false} DefinedHasLocation(f: Function, order: seq<nat>, ivs: seq<Interval>, info: RegisterInfo,
                                              pt: Point, v: Value)
    requires ValidOrder(f, order) && IsIntervalsOf(f, order, ivs) && ValidPools(info)
    requires ValidPoint(f, order, pt) && Defines(InstrAt(f, order, pt), v)
    ensures var alloc := ResultOf(Allocate(ivs, info)); var l := LocationOf(alloc, v);
      l.Some? && Writes(alloc, InstrAt(f, order, pt), l.value)
  {
    DefInsideInterval(f, order, v, pt);
    LiveHasLocation(f, order, ivs, info, v);
  }

  lemma {:induction false} StepAgrees<M>(f: Function, order: seq<nat>, ivs: seq<Interval>, info: RegisterInfo,
                                         sem: Semantics<M>, vs: VirtualState<M>, ms: MachineState<M>, t: nat)
    requires ValidOrder(f, order) && Strict(f, order) && IsIntervalsOf(f, order, ivs) && ValidPools(info)
    requires Agree(f, order, ResultOf(Allocate(ivs, info)), vs, ms)
    ensures Agree(f, order, ResultOf(Allocate(ivs, info)),
                  VirtualStep(f, order, sem, vs),
                      MachineStep(f, order, sem, info, ResultOf(Allocate(ivs, info)), ms, t))
  {
    hide Allocate, ResultOf, Strict, IsIntervalsOf, ValidPools;
    if vs.pc.Some? {
      var alloc, pt := ResultOf(Allocate(ivs, info)), vs.pc.value;
      var ins := InstrAt(f, order, pt);
      SameOperands(f, order, sem, alloc, vs, ms);
      var vs', ms' := VirtualStep(f, order, sem, vs), MachineStep(f, order, sem, info, alloc, ms, t);
      if vs'.pc.Some? {
        var next := vs'.pc.value;
        forall w | LiveIn(f, order, w, next)
          ensures Found(alloc, vs'.env, ms'.locs, w)
        {
          if Defines(ins, w) {
            DefinedHasLocation(f, order, ivs, info, pt, w);
          } else {
            Undisturbed(f, order, ivs, info, pt, next, w);
            assert Found(alloc, vs.env, ms.locs, w);
          }
        }
      }
    }
  }

  // ---- whole runs ----

  /** At the start control is at the entry, memory is the same, and the parameters are in place. */
  ghost predicate Start<M>(f: Function, order: seq<nat>, alloc: AllocationResult, vs: VirtualState<M>,
                           ms: MachineState<M>)
    requires ValidOrder(f, order)
  {
    && vs.pc == ms.pc == Some(Point(0, 0)) && vs.mem == ms.mem
    && forall v :: IsParam(f, v) ==> Found(alloc, vs.env, ms.locs, v)
  }

  lemma {:induction false} StartAgrees<M>(f: Function, order: seq<nat>, alloc: AllocationResult, vs: VirtualState<M>,
                                          ms: MachineState<M>)
    requires ValidOrder(f, order) && Strict(f, order) && Start(f, order, alloc, vs, ms)
    ensures Agree(f, order, alloc, vs, ms)
  {
    assert WellFormedBlock(f.blocks[order[0]]);
    forall v | LiveIn(f, order, v, Point(0, 0))
      ensures IsParam(f, v)
    {
      var path :| LivePath(f, order, path, Point(0, 0), v);
      assert EntryUsePath(f, order, path, v);
    }
  }

  /** Parameters can be put in place: different parameters have different locations. */
  lemma {:induction false} ParametersApart(f: Function, order: seq<nat>, ivs: seq<Interval>, info: RegisterInfo,
                                           v: Value, w: Value)
    requires ValidOrder(f, order) && IsIntervalsOf(f, order, ivs) && ValidPools(info)
    requires IsParam(f, v) && IsParam(f, w) && v != w
    ensures var alloc := ResultOf(Allocate(ivs, info));
      LocationOf(alloc, v).Some? && LocationOf(alloc, w).Some? && LocationOf(alloc, v) != LocationOf(alloc, w)
  {
    var walk := WalkOf(f, order);
    WalkIsExact(f, order, v);
    WalkIsExact(f, order, w);
    BlocksClosed(f, order, walk.starts, walk.ends, |order|, v);
    BlocksClosed(f, order, walk.starts, walk.ends, |order|, w);
    SharedPointApart(f, order, ivs, info, v, w, 0);
  }

  /** Allocation preserves meaning: for every strict function, calls and divisions included, every
      meaning of its instructions and every number of steps, the machine that keeps each value in its
      register or slot agrees with the virtual-register machine on every live value. */
  lemma {:induction false} AllocationPreservesMeaning<M>(
      f: Function, order: seq<nat>, ivs: seq<Interval>, info: RegisterInfo, sem: Semantics<M>,
      vs: VirtualState<M>, ms: MachineState<M>, n: nat)
    requires ValidOrder(f, order) && Strict(f, order) && IsIntervalsOf(f, order, ivs) && ValidPools(info)
    requires Start(f, order, ResultOf(Allocate(ivs, info)), vs, ms) && ValidPoint(f, order, Point(0, 0))
    ensures Agree(f, order, ResultOf(Allocate(ivs, info)), VirtualRun(f, order, sem, vs, n),
                  MachineRun(f, order, sem, info, ResultOf(Allocate(ivs, info)), ms, n))
  {
    hide Allocate, ResultOf, Strict, IsIntervalsOf, ValidPools, Agree, VirtualStep, MachineStep;
    var alloc := ResultOf(Allocate(ivs, info));
    if n == 0 {
      StartAgrees(f, order, alloc, vs, ms);
    } else {
      AllocationPreservesMeaning(f, order, ivs, info, sem, vs, ms, n - 1);
      StepAgrees(f, order, ivs, info, sem, VirtualRun(f, order, sem, vs, n - 1),
                 MachineRun(f, order, sem, info, alloc, ms, n - 1), n - 1);
    }
  }
}
