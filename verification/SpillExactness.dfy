/** Exactly when the rewritten code does what the block meant: a meaning that tells registers from cells
    exposes every instruction that reads a scratch which the rewriting has overwritten. */
module SpillExactness {
  import opened Wrappers
  import opened LiveIntervals
  import opened AllocationSimulation
  import opened SpillRewriting

  /** The inputs of every instruction executed so far. */
  type Log = seq<seq<int>>

  /** If the states agree before, they agree after. */
  ghost predicate Simulates<M>(plan: Plan, n: nat, clean: set<PhysReg>, insts: seq<MachineInst>, sem: Meaning<M>,
                               s: Ideal<M>, m: Machine<M>)
    requires forall i :: i in insts ==> Mapped(plan, i)
  {
    Related(plan, n, clean, s, m)
    ==> Related(plan, n, CleanAfterAll(plan, insts, clean), IdealRun(plan, sem, s, insts),
                CodeRun(sem, m, RewrittenAll(plan, insts)))
  }

  function Sum(vals: seq<int>): int {
    if vals == [] then 0 else Sum(vals[..|vals| - 1]) + vals[|vals| - 1]
  }

  /** Registers get 0, cells get 1, and memory is the log. */
  ghost function Tracer(plan: Plan, insts: seq<MachineInst>): Meaning<Log> {
    Meaning((op: nat, ins: seq<int>, mem: Log) =>
              if |mem| < |insts| && SpilledResult(plan, insts[|mem|]).Some? then 1 else 0,
            (op: nat, ins: seq<int>, mem: Log) => mem + [ins],
            (op: nat, r: PhysReg, ins: seq<int>, mem: Log) => 0,
            (key: nat, vals: seq<int>, mem: Log) => Sum(vals),
            (x: int, offset: int, value: int, was: int) => 1)
  }

  /** Ideal registers hold 0 and cells 1; the machine agrees, but for scratches that are not clean. */
  ghost predicate Marked(clean: set<PhysReg>, k: nat, s: Ideal<Log>, m: Machine<Log>) {
    && |s.mem| == k && |m.mem| == k
    && (forall l :: s.locs(l) == if l.OnStack? then 1 else 0)
    && MarkedRegs(clean, m.regs) && (forall x :: m.frame(x) == 1)
  }

  ghost predicate MarkedRegs(clean: set<PhysReg>, regs: PhysReg -> int) {
    forall r: PhysReg :: regs(r) == if IsScratch(r) && r !in clean then 1 else 0
  }

  lemma {:induction false} MarkedIsRelated(plan: Plan, n: nat, clean: set<PhysReg>, s: Ideal<Log>, m: Machine<Log>)
    requires Marked(clean, 0, s, m)
    ensures Related(plan, n, clean, s, m)
  {
  }

  // ---- one instruction ----

  ghost function Reloads<M>(plan: Plan, sem: Meaning<M>, inst: MachineInst, k: nat, m: Machine<M>): Machine<M>
    requires Mapped(plan, inst) && k <= |inst.operands|
  {
    CodeRun(sem, m, RewriteUpTo(plan, inst, k).code)
  }

  /** Clean scratches that the code so far has not loaded. */
  function Kept(p: Progress, clean: set<PhysReg>): set<PhysReg> {
    clean - (if p.intUsed then {INT_SCRATCH} else {}) - (if p.floatUsed then {FLOAT_SCRATCH} else {})
  }

  lemma {:induction false} ReloadMarks<M>(plan: Plan, sem: Meaning<M>, v: VReg, p: Progress, next: Progress,
                                          clean: set<PhysReg>, m: Machine<M>)
    requires v in plan.slotOf && MarkedRegs(Kept(p, clean), m.regs) && m.frame(OffsetFor(plan, v)) == 1
    requires next.intUsed == (p.intUsed || v !in plan.floats) && next.floatUsed == (p.floatUsed || v in plan.floats)
    ensures var m' := CodeStep(sem, m, ReloadOf(plan, v));
      MarkedRegs(Kept(next, clean), m'.regs) && m'.frame == m.frame && m'.mem == m.mem
  {
  }

  lemma {:induction false} NothingRun<M>(sem: Meaning<M>, m: Machine<M>)
    ensures CodeRun(sem, m, []) == m
  {
  }

  /** The reloads leave 1 in every scratch that they use. */
  lemma {:induction false} ReloadsMark<M>(plan: Plan, sem: Meaning<M>, inst: MachineInst, k: nat, clean: set<PhysReg>,
                                          m: Machine<M>)
    requires Mapped(plan, inst) && k <= |inst.operands| && MarkedRegs(clean, m.regs) && forall x :: m.frame(x) == 1
    ensures var m' := Reloads(plan, sem, inst, k, m);
      MarkedRegs(Kept(RewriteUpTo(plan, inst, k), clean), m'.regs) && m'.frame == m.frame && m'.mem == m.mem
  {
    NothingRun(sem, m);
    var res := SpilledResult(plan, inst);
    if k == 0 {
      if res.Some? {
        ReloadMarks(plan, sem, res.value, Progress([], [], false, false), Preload(plan, inst), clean, m);
        RunSnoc(sem, m, [], ReloadOf(plan, res.value));
        assert [] + [ReloadOf(plan, res.value)] == [ReloadOf(plan, res.value)];
      }
    } else {
      ReloadsMark(plan, sem, inst, k - 1, clean, m);
      var p, op := RewriteUpTo(plan, inst, k - 1), inst.operands[k - 1];
      LoadedIsRun(plan, sem, p, res, op, m);
      hide RewriteUpTo, CodeRun, MarkedRegs, Kept, CodeStep, ReloadOf, PlaceOf;
      assert RewriteUpTo(plan, inst, k) == RewriteOperand(p, plan, res, op) by { RewriteStep(plan, inst, k); }
      if TakesScratch(p, plan, res, op) {
        ReloadMarks(plan, sem, op.v, p, RewriteOperand(p, plan, res, op), clean, Reloads(plan, sem, inst, k - 1, m));
      } else {
        SameKept(p, RewriteOperand(p, plan, res, op), clean);
      }
    }
  }

  lemma {:induction false} SameKept(p: Progress, next: Progress, clean: set<PhysReg>)
    requires p.intUsed == next.intUsed && p.floatUsed == next.floatUsed
    ensures Kept(p, clean) == Kept(next, clean)
  {
  }

  lemma {:induction false} RewriteStep(plan: Plan, inst: MachineInst, k: nat)
    requires Mapped(plan, inst) && 0 < k <= |inst.operands|
    ensures RewriteUpTo(plan, inst, k)
         == RewriteOperand(RewriteUpTo(plan, inst, k - 1), plan, SpilledResult(plan, inst), inst.operands[k - 1])
  {
  }

  /** Of registers that hold marks, the sum is 0 exactly if no scratch among them has lost its value. */
  lemma {:induction false} SumOfMarks(regs: PhysReg -> int, kept: set<PhysReg>, rs: seq<PhysReg>)
    requires MarkedRegs(kept, regs)
    ensures Sum(Values(regs, rs)) >= 0 && (Sum(Values(regs, rs)) == 0 <==> OnlyKept(rs, kept))
  {
    if rs != [] {
      var front, last := rs[..|rs| - 1], rs[|rs| - 1];
      SumOfMarks(regs, kept, front);
      assert Values(regs, rs)[..|rs| - 1] == Values(regs, front);
      assert rs == front + [last];
    }
  }

  lemma {:induction false} SumOfZeros(vals: seq<int>)
    requires forall k :: 0 <= k < |vals| ==> vals[k] == 0
    ensures Sum(vals) == 0
  {
    if vals != [] {
      SumOfZeros(vals[..|vals| - 1]);
    }
  }

  /** Read in place, a register or an address gives 0. */
  lemma {:induction false} IdealMark(plan: Plan, insts: seq<MachineInst>, s: Ideal<Log>, op: Operand)
    requires MappedOperand(plan, op) && !op.Virtual? && forall l :: s.locs(l) == if l.OnStack? then 1 else 0
    ensures ReadIdeal(plan, Tracer(plan, insts), s, op) == 0
  {
    if op.Other? {
      SumOfZeros(Values(RegsOf(s.locs), op.regs));
    }
  }

  /** The place of an operand that reads a lost scratch gives something else. */
  lemma {:induction false} PlaceMark(plan: Plan, insts: seq<MachineInst>, kept: set<PhysReg>, op: Operand, place: Place,
                                     m: Machine<Log>)
    requires !op.Virtual? && MarkedRegs(kept, m.regs) && !AvoidsScratch(op, kept)
    requires place == if op.Physical? then Reg(op.r) else Elsewhere(op.regs, op.key)
    ensures ReadPlace(Tracer(plan, insts), m, place) != 0
  {
    if op.Other? {
      SumOfMarks(m.regs, kept, op.regs);
    }
  }

  lemma {:induction false} PlaceKept(plan: Plan, inst: MachineInst, k: nat, l: nat)
    requires Mapped(plan, inst) && k < l <= |inst.operands|
    ensures |RewriteUpTo(plan, inst, l).places| == l
    ensures RewriteUpTo(plan, inst, l).places[k]
         == PlaceOf(RewriteUpTo(plan, inst, k), plan, SpilledResult(plan, inst), inst.operands[k])
    decreases l
  {
    PlaceCount(plan, inst, l - 1);
    hide PlaceOf, TakesScratch;
    if k < l - 1 {
      PlaceKept(plan, inst, k, l - 1);
    }
  }

  lemma {:induction false} PlaceCount(plan: Plan, inst: MachineInst, k: nat)
    requires Mapped(plan, inst) && k <= |inst.operands|
    ensures |RewriteUpTo(plan, inst, k).places| == k
  {
    hide PlaceOf, TakesScratch;
    if k > 0 {
      PlaceCount(plan, inst, k - 1);
    }
  }

  lemma {:induction false} PartsDiffer(a: seq<int>, b: seq<int>, c: seq<int>, a': seq<int>, b': seq<int>, c': seq<int>)
    requires |a| == |a'| && |b| == |b'| && |c| == |c'| && (a != a' || b != b' || c != c')
    ensures a + b + c != a' + b' + c'
  {
    assert a == (a + b + c)[..|a|] && a' == (a' + b' + c')[..|a|];
    assert b == (a + b + c)[|a|..|a| + |b|] && b' == (a' + b' + c')[|a|..|a| + |b|];
    assert c == (a + b + c)[|a| + |b|..] && c' == (a' + b' + c')[|a| + |b|..];
  }

  ghost function OldResult<M>(sem: Meaning<M>, m: Machine<M>, c: Code): seq<int>
    requires c.Body?
  {
    if c.result.Some? && (c.readsOld || c.result.value.Elsewhere?) then [ReadPlace(sem, m, c.result.value)] else []
  }

  ghost function OperandValues<M>(sem: Meaning<M>, m: Machine<M>, places: seq<Place>): seq<int> {
    seq(|places|, k requires 0 <= k < |places| => ReadPlace(sem, m, places[k]))
  }

  ghost function OldIdeal<M>(plan: Plan, sem: Meaning<M>, s: Ideal<M>, inst: MachineInst): seq<int>
    requires Mapped(plan, inst)
  {
    if ReadsResult(inst) then [ReadIdeal(plan, sem, s, inst.result.value)] else []
  }

  ghost function IdealValues<M>(plan: Plan, sem: Meaning<M>, s: Ideal<M>, inst: MachineInst): seq<int>
    requires Mapped(plan, inst)
  {
    seq(|inst.operands|, k requires 0 <= k < |inst.operands| => ReadIdeal(plan, sem, s, inst.operands[k]))
  }

  lemma {:induction false} InputParts<M>(plan: Plan, sem: Meaning<M>, s: Ideal<M>, m: Machine<M>, inst: MachineInst)
    requires Mapped(plan, inst)
    ensures var body := BodyOf(plan, inst);
      && body.Body?
      && BodyInputs(sem, m, body)
          == OldResult(sem, m, body) + OperandValues(sem, m, body.operands) + Values(m.regs, inst.uses)
      && IdealInputs(plan, sem, s, inst)
         == OldIdeal(plan, sem, s, inst) + IdealValues(plan, sem, s, inst) + Values(RegsOf(s.locs), inst.uses)
      && |OldResult(sem, m, body)| == |OldIdeal(plan, sem, s, inst)| && |body.operands| == |inst.operands|
  {
    PlaceCount(plan, inst, |inst.operands|);
    hide RewriteUpTo, ReadPlace, ReadIdeal, Values;
  }

  lemma {:induction false} OldResultDiffers(plan: Plan, insts: seq<MachineInst>, inst: MachineInst, kept: set<PhysReg>,
                                            s: Ideal<Log>, m: Machine<Log>)
    requires Mapped(plan, inst) && MarkedRegs(kept, m.regs)
    requires forall l :: s.locs(l) == if l.OnStack? then 1 else 0
    requires ReadsResult(inst) && !AvoidsScratch(inst.result.value, kept)
    ensures OldResult(Tracer(plan, insts), m, BodyOf(plan, inst)) != OldIdeal(plan, Tracer(plan, insts), s, inst)
  {
    IdealMark(plan, insts, s, inst.result.value);
    var place := ResultPlace(plan, inst).value;
    PlaceMark(plan, insts, kept, inst.result.value, place, m);
    hide ReadPlace, ReadIdeal, RewriteUpTo, AvoidsScratch, MarkedRegs, Tracer;
    assert OldResult(Tracer(plan, insts), m, BodyOf(plan, inst)) == [ReadPlace(Tracer(plan, insts), m, place)];
  }

  lemma {:induction false} OperandDiffers(plan: Plan, insts: seq<MachineInst>, inst: MachineInst, kept: set<PhysReg>,
                                          s: Ideal<Log>, m: Machine<Log>, k: nat)
    requires Mapped(plan, inst) && MarkedRegs(kept, m.regs) && k < |inst.operands|
    requires !AvoidsScratch(inst.operands[k], kept)
    requires forall l :: s.locs(l) == if l.OnStack? then 1 else 0
    ensures OperandValues(Tracer(plan, insts), m, BodyOf(plan, inst).operands)
         != IdealValues(plan, Tracer(plan, insts), s, inst)
  {
    var places, n := BodyOf(plan, inst).operands, |inst.operands|;
    PlaceKept(plan, inst, k, n);
    IdealMark(plan, insts, s, inst.operands[k]);
    PlaceMark(plan, insts, kept, inst.operands[k], places[k], m);
    hide ReadPlace, ReadIdeal, RewriteUpTo, AvoidsScratch, MarkedRegs, Tracer;
    assert OperandValues(Tracer(plan, insts), m, places)[k] != IdealValues(plan, Tracer(plan, insts), s, inst)[k];
  }

  lemma {:induction false} UseDiffers(uses: seq<PhysReg>, kept: set<PhysReg>, s: Ideal<Log>, m: Machine<Log>)
    requires MarkedRegs(kept, m.regs) && !OnlyKept(uses, kept)
    requires forall l :: s.locs(l) == if l.OnStack? then 1 else 0
    ensures Values(m.regs, uses) != Values(RegsOf(s.locs), uses)
  {
    var r :| r in uses && IsScratch(r) && r !in kept;
    var k :| 0 <= k < |uses| && uses[k] == r;
    assert Values(m.regs, uses)[k] == 1 && Values(RegsOf(s.locs), uses)[k] == 0;
  }

  /** An instruction that reads a lost scratch gets other inputs than it should. */
  lemma {:induction false} InputsDiffer(plan: Plan, insts: seq<MachineInst>, inst: MachineInst, kept: set<PhysReg>,
                                        s: Ideal<Log>, m: Machine<Log>)
    requires Mapped(plan, inst) && !ReadsOnlyKept(inst, kept) && MarkedRegs(kept, m.regs)
    requires forall l :: s.locs(l) == if l.OnStack? then 1 else 0
    ensures BodyInputs(Tracer(plan, insts), m, BodyOf(plan, inst)) != IdealInputs(plan, Tracer(plan, insts), s, inst)
  {
    hide Tracer, OldResult, OldIdeal, OperandValues, IdealValues, Values, BodyOf, BodyInputs, IdealInputs,
      AvoidsScratch, OnlyKept, MarkedRegs, Mapped;
    var sem, body := Tracer(plan, insts), BodyOf(plan, inst);
    InputParts(plan, sem, s, m, inst);
    if ReadsResult(inst) && !AvoidsScratch(inst.result.value, kept) {
      OldResultDiffers(plan, insts, inst, kept, s, m);
    } else if !OnlyKept(inst.uses, kept) {
      UseDiffers(inst.uses, kept, s, m);
    } else {
      var k :| 0 <= k < |inst.operands| && !AvoidsScratch(inst.operands[k], kept);
      OperandDiffers(plan, insts, inst, kept, s, m, k);
    }
    SameLengths(plan, sem, s, m, inst);
    PartsDiffer(OldResult(sem, m, body), OperandValues(sem, m, body.operands), Values(m.regs, inst.uses),
                OldIdeal(plan, sem, s, inst), IdealValues(plan, sem, s, inst), Values(RegsOf(s.locs), inst.uses));
  }

  lemma {:induction false} SameLengths<M>(plan: Plan, sem: Meaning<M>, s: Ideal<M>, m: Machine<M>, inst: MachineInst)
    requires Mapped(plan, inst)
    ensures |OperandValues(sem, m, BodyOf(plan, inst).operands)| == |IdealValues(plan, sem, s, inst)|
    ensures |Values(m.regs, inst.uses)| == |Values(RegsOf(s.locs), inst.uses)|
  {
    PlaceCount(plan, inst, |inst.operands|);
    hide RewriteUpTo, ReadPlace, ReadIdeal;
  }

  // ---- one step of the marked run ----

  /** The marks after the instruction itself. */
  lemma {:induction false} BodyMarks(plan: Plan, n: nat, insts: seq<MachineInst>, k: nat, clean: set<PhysReg>,
                                     s: Ideal<Log>, m: Machine<Log>)
    requires k < |insts| && Mapped(plan, insts[k]) && SoundPlan(plan, n) && |m.mem| == k && |s.mem| == k
    requires MarkedRegs(clean - Touched(plan, insts[k]), m.regs)
    requires (forall l :: s.locs(l) == if l.OnStack? then 1 else 0)
    ensures var sem, inst := Tracer(plan, insts), insts[k];
      var m', s' := CodeStep(sem, m, BodyOf(plan, inst)), IdealStep(plan, sem, s, inst);
      && MarkedRegs(CleanAfter(plan, inst, clean), m'.regs) && (forall l :: s'.locs(l) == if l.OnStack? then 1 else 0)
      && m'.frame == m.frame && m'.mem == m.mem + [BodyInputs(sem, m, BodyOf(plan, inst))]
      && s'.mem == s.mem + [IdealInputs(plan, sem, s, inst)]
      && (SpilledResult(plan, inst).Some? ==> m'.regs(ScratchFor(plan, SpilledResult(plan, inst).value)) == 1)
  {
    PreloadIsTouched(plan, insts[k]);
    hide Touched, RewriteUpTo, BodyInputs, IdealInputs;
  }

  lemma {:induction false} StoreMarks(plan: Plan, insts: seq<MachineInst>, inst: MachineInst, m: Machine<Log>)
    requires Mapped(plan, inst) && forall x :: m.frame(x) == 1
    requires SpilledResult(plan, inst).Some? ==> m.regs(ScratchFor(plan, SpilledResult(plan, inst).value)) == 1
    ensures var m' := CodeRun(Tracer(plan, insts), m, StoreBack(plan, inst));
      m'.regs == m.regs && m'.mem == m.mem && forall x :: m'.frame(x) == 1
  {
    var sem, back := Tracer(plan, insts), StoreBack(plan, inst);
    NothingRun(sem, m);
    if back != [] {
      RunSnoc(sem, m, [], back[0]);
      assert back == [] + [back[0]];
    }
  }

  /** After the reloads the clean scratches that the instruction does not touch are left. */
  lemma {:induction false} ReadyMarks<M>(plan: Plan, sem: Meaning<M>, inst: MachineInst, clean: set<PhysReg>,
                                         m: Machine<M>)
    requires Mapped(plan, inst) && MarkedRegs(clean, m.regs) && forall x :: m.frame(x) == 1
    ensures var m' := Reloads(plan, sem, inst, |inst.operands|, m);
      MarkedRegs(clean - Touched(plan, inst), m'.regs) && m'.frame == m.frame && m'.mem == m.mem
  {
    ReloadsMark(plan, sem, inst, |inst.operands|, clean, m);
    assert Kept(RewriteUpTo(plan, inst, |inst.operands|), clean) == clean - Touched(plan, inst);
  }

  /** One instruction keeps the marks, and logs what it should exactly if it is safe. */
  lemma {:induction false} MarkedStep(plan: Plan, n: nat, insts: seq<MachineInst>, k: nat, clean: set<PhysReg>,
                                      s: Ideal<Log>, m: Machine<Log>)
    requires k < |insts| && Mapped(plan, insts[k]) && SoundPlan(plan, n) && Marked(clean, k, s, m)
    ensures var sem, inst := Tracer(plan, insts), insts[k];
      var s', m' := IdealStep(plan, sem, s, inst), CodeRun(sem, m, Rewritten(plan, inst));
      && Marked(CleanAfter(plan, inst, clean), k + 1, s', m')
      && s'.mem[..k] == s.mem && m'.mem[..k] == m.mem
      && (!ScratchSafe(plan, inst, clean) ==> s'.mem[k] != m'.mem[k])
  {
    hide BodyInputs, IdealInputs, RewriteUpTo, Touched, CleanAfter, CodeStep, IdealStep, ReadsOnlyKept, BodyOf,
      StoreBack, CodeRun, Tracer, MarkedRegs;
    var sem, inst := Tracer(plan, insts), insts[k];
    var code := RewriteUpTo(plan, inst, |inst.operands|).code;
    var ready := CodeRun(sem, m, code);
    ReadyMarks(plan, sem, inst, clean, m);
    assert ready == Reloads(plan, sem, inst, |inst.operands|, m);
    BodyMarks(plan, n, insts, k, clean, s, ready);
    StoreMarks(plan, insts, inst, CodeStep(sem, ready, BodyOf(plan, inst)));
    RunSnoc(sem, m, code, BodyOf(plan, inst));
    RunAppend(sem, m, code + [BodyOf(plan, inst)], StoreBack(plan, inst));
    if !ScratchSafe(plan, inst, clean) {
      InputsDiffer(plan, insts, inst, clean - Touched(plan, inst), s, ready);
    }
  }

  // ---- the marked run ----

  ghost function MarkedIdeal(): Ideal<Log> {
    Ideal((l: Location) => if l.OnStack? then 1 else 0, [])
  }

  ghost function MarkedMachine(clean: set<PhysReg>): Machine<Log> {
    Machine((r: PhysReg) => if IsScratch(r) && r !in clean then 1 else 0, (x: int) => 1, [])
  }

  /** The logs of the first `k` instructions differ wherever one of them is unsafe. */
  ghost predicate LogsTell(plan: Plan, insts: seq<MachineInst>, clean: set<PhysReg>, k: nat, a: Log, b: Log)
    requires k <= |insts| && forall i :: i in insts ==> Mapped(plan, i)
  {
    && |a| == k && |b| == k
    && forall i :: 0 <= i < k && !ScratchSafe(plan, insts[i], CleanAfterAll(plan, insts[..i], clean)) ==> a[i] != b[i]
  }

  lemma {:induction false} MarkedRun(plan: Plan, n: nat, insts: seq<MachineInst>, clean: set<PhysReg>, k: nat)
    requires (forall i :: i in insts ==> Mapped(plan, i)) && SoundPlan(plan, n) && k <= |insts|
    ensures var sem := Tracer(plan, insts);
      var s, m := IdealRun(plan, sem, MarkedIdeal(), insts[..k]),
          CodeRun(sem, MarkedMachine(clean), RewrittenAll(plan, insts[..k]));
      && Marked(CleanAfterAll(plan, insts[..k], clean), k, s, m)
      && LogsTell(plan, insts, clean, k, s.mem, m.mem)
  {
    hide Mapped, SoundPlan, IdealStep, Rewritten, CleanAfter, ScratchSafe, Tracer;
    var sem := Tracer(plan, insts);
    if k == 0 {
      NothingRun(sem, MarkedMachine(clean));
    } else {
      MarkedRun(plan, n, insts, clean, k - 1);
      hide Marked, CodeRun;
      assert insts[..k][..k - 1] == insts[..k - 1];
      var s := IdealRun(plan, sem, MarkedIdeal(), insts[..k - 1]);
      var m := CodeRun(sem, MarkedMachine(clean), RewrittenAll(plan, insts[..k - 1]));
      MarkedStep(plan, n, insts, k - 1, CleanAfterAll(plan, insts[..k - 1], clean), s, m);
      RunAppend(sem, MarkedMachine(clean), RewrittenAll(plan, insts[..k - 1]), Rewritten(plan, insts[k - 1]));
      LogsGrow(plan, insts, clean, k - 1, s.mem, m.mem, IdealStep(plan, sem, s, insts[k - 1]).mem,
               CodeRun(sem, m, Rewritten(plan, insts[k - 1])).mem);
    }
  }

  lemma {:induction false} LogsGrow(plan: Plan, insts: seq<MachineInst>, clean: set<PhysReg>, k: nat, a: Log, b: Log,
                                    a': Log, b': Log)
    requires k < |insts| && (forall i :: i in insts ==> Mapped(plan, i)) && LogsTell(plan, insts, clean, k, a, b)
    requires |a'| == k + 1 && |b'| == k + 1 && a'[..k] == a && b'[..k] == b
    requires !ScratchSafe(plan, insts[k], CleanAfterAll(plan, insts[..k], clean)) ==> a'[k] != b'[k]
    ensures LogsTell(plan, insts, clean, k + 1, a', b')
  {
    hide Mapped, ScratchSafe, CleanAfterAll;
    forall i | 0 <= i < k
      ensures a'[i] == a[i] && b'[i] == b[i]
    {
      assert a'[..k][i] == a'[i] && b'[..k][i] == b'[i];
    }
  }

  /** A block that is not safe has an instruction that is not, where it stands. */
  lemma {:induction false} UnsafeInstruction(plan: Plan, insts: seq<MachineInst>, clean: set<PhysReg>) returns (k: nat)
    requires (forall i :: i in insts ==> Mapped(plan, i)) && !SafeBlock(plan, insts, clean)
    ensures k < |insts| && !ScratchSafe(plan, insts[k], CleanAfterAll(plan, insts[..k], clean))
    decreases |insts|
  {
    hide Mapped, ScratchSafe, CleanAfterAll;
    var front := insts[..|insts| - 1];
    if SafeBlock(plan, front, clean) {
      k := |insts| - 1;
    } else {
      k := UnsafeInstruction(plan, front, clean);
      assert front[..k] == insts[..k];
    }
  }

  /** The traced run of an unsafe block does not end where it should. */
  lemma {:induction false} UnsafeBlockFails(plan: Plan, n: nat, insts: seq<MachineInst>, clean: set<PhysReg>)
    requires (forall i :: i in insts ==> Mapped(plan, i)) && SoundPlan(plan, n) && !SafeBlock(plan, insts, clean)
    ensures !Simulates(plan, n, clean, insts, Tracer(plan, insts), MarkedIdeal(), MarkedMachine(clean))
  {
    var k := UnsafeInstruction(plan, insts, clean);
    MarkedRun(plan, n, insts, clean, |insts|);
    assert insts[..|insts|] == insts;
    hide Mapped, SafeBlock, ScratchSafe, Tracer, CleanAfterAll, IdealRun, CodeRun, RewrittenAll;
    MarkedIsRelated(plan, n, clean, MarkedIdeal(), MarkedMachine(clean));
  }

  /** The rewritten block does what the block meant, for every meaning and every state, exactly if every
      instruction reads only scratches that are clean where it stands and that it does not need itself. */
  lemma {:induction false} BlockSimulatesExactly(plan: Plan, n: nat, clean: set<PhysReg>, insts: seq<MachineInst>)
    requires (forall i :: i in insts ==> Mapped(plan, i)) && SoundPlan(plan, n)
    ensures SafeBlock(plan, insts, clean)
       <==> forall sem: Meaning<Log>, s, m :: Simulates(plan, n, clean, insts, sem, s, m)
  {
    hide Mapped, SoundPlan, SafeBlock, Tracer, CleanAfterAll, IdealRun, CodeRun, RewrittenAll, Related;
    if SafeBlock(plan, insts, clean) {
      forall sem: Meaning<Log>, s, m
        ensures Simulates(plan, n, clean, insts, sem, s, m)
      {
        if Related(plan, n, clean, s, m) {
          BlockSimulates(plan, n, clean, sem, s, insts, m);
        }
      }
    } else {
      UnsafeBlockFails(plan, n, insts, clean);
    }
  }

  ghost predicate SimulatesOne<M>(plan: Plan, n: nat, clean: set<PhysReg>, inst: MachineInst, sem: Meaning<M>,
                                  s: Ideal<M>, m: Machine<M>)
    requires Mapped(plan, inst)
  {
    Related(plan, n, clean, s, m)
    ==> Related(plan, n, CleanAfter(plan, inst, clean), IdealStep(plan, sem, s, inst),
                CodeRun(sem, m, Rewritten(plan, inst)))
  }

  /** The same of one instruction: exactly if it is safe. */
  lemma {:induction false} InstructionSimulatesExactly(plan: Plan, n: nat, clean: set<PhysReg>, inst: MachineInst)
    requires Mapped(plan, inst) && SoundPlan(plan, n)
    ensures ScratchSafe(plan, inst, clean)
       <==> forall sem: Meaning<Log>, s, m :: SimulatesOne(plan, n, clean, inst, sem, s, m)
  {
    BlockSimulatesExactly(plan, n, clean, [inst]);
    SingleBlock(plan, inst, clean);
    forall sem: Meaning<Log>, s, m
      ensures Simulates(plan, n, clean, [inst], sem, s, m) <==> SimulatesOne(plan, n, clean, inst, sem, s, m)
    {
      SameSimulation(plan, n, clean, inst, sem, s, m);
    }
    hide *;
  }

  lemma {:induction false} SingleBlock(plan: Plan, inst: MachineInst, clean: set<PhysReg>)
    requires Mapped(plan, inst)
    ensures SafeBlock(plan, [inst], clean) <==> ScratchSafe(plan, inst, clean)
  {
    hide Mapped, ScratchSafe;
    assert [inst][..0] == [];
  }

  lemma {:induction false} SameSimulation<M>(plan: Plan, n: nat, clean: set<PhysReg>, inst: MachineInst,
                                             sem: Meaning<M>, s: Ideal<M>, m: Machine<M>)
    requires Mapped(plan, inst)
    ensures Simulates(plan, n, clean, [inst], sem, s, m) <==> SimulatesOne(plan, n, clean, inst, sem, s, m)
  {
    SingleRun(plan, sem, s, m, inst, clean);
    hide Mapped, CleanAfterAll, CleanAfter, IdealRun, IdealStep, RewrittenAll, Rewritten, CodeRun, Related;
  }

  lemma {:induction false} SingleRun<M>(plan: Plan, sem: Meaning<M>, s: Ideal<M>, m: Machine<M>, inst: MachineInst,
                                        clean: set<PhysReg>)
    requires Mapped(plan, inst)
    ensures CleanAfterAll(plan, [inst], clean) == CleanAfter(plan, inst, clean)
    ensures IdealRun(plan, sem, s, [inst]) == IdealStep(plan, sem, s, inst)
    ensures RewrittenAll(plan, [inst]) == Rewritten(plan, inst)
  {
    hide Mapped, CleanAfter, IdealStep, Rewritten;
    assert [inst][..0] == [];
  }

  // ---- where the code generator meets it ----

  const LOAD_IND: nat := 7
  const STORE_IND: nat := 8

  /** Position-independent code puts the address of a global in R11, ... */
  function GlobalAddress(key: nat): MachineInst {
    MachineInst(MOV, Some(Physical(INT_SCRATCH)), false, [Other([], key)], [], {})
  }

  /** ... and loads the global from there, ... */
  function LoadThrough(dst: VReg): MachineInst {
    MachineInst(LOAD_IND, Some(Virtual(dst)), false, [Physical(INT_SCRATCH)], [], {})
  }

  /** ... or stores a value to it. */
  function StoreThrough(src: VReg): MachineInst {
    MachineInst(STORE_IND, None, false, [Physical(INT_SCRATCH), Virtual(src)], [], {})
  }

  /** The value loaded or stored has a spill cell and is no float. */
  predicate SpilledInt(plan: Plan, v: VReg) {
    v in plan.slotOf && v !in plan.floats
  }

  /** Loading a global in position-independent code: the address is lost exactly if the destination is a
      spilled integer, whose old value is loaded over it. */
  lemma {:induction false} GlobalLoadExactly(plan: Plan, n: nat, clean: set<PhysReg>, key: nat, dst: VReg)
    requires SoundPlan(plan, n) && MappedOperand(plan, Virtual(dst))
    ensures !SpilledInt(plan, dst)
       <==> forall sem: Meaning<Log>, s, m ::
              Simulates(plan, n, clean, [GlobalAddress(key), LoadThrough(dst)], sem, s, m)
  {
    ThroughIsSafe(plan, clean, key, LoadThrough(dst), SpilledInt(plan, dst)) by { TouchedByLoad(plan, dst); }
    BlockSimulatesExactly(plan, n, clean, [GlobalAddress(key), LoadThrough(dst)]);
  }

  /** Storing to one: exactly if the source is. */
  lemma {:induction false} GlobalStoreExactly(plan: Plan, n: nat, clean: set<PhysReg>, key: nat, src: VReg)
    requires SoundPlan(plan, n) && MappedOperand(plan, Virtual(src))
    ensures !SpilledInt(plan, src)
       <==> forall sem: Meaning<Log>, s, m ::
              Simulates(plan, n, clean, [GlobalAddress(key), StoreThrough(src)], sem, s, m)
  {
    ThroughIsSafe(plan, clean, key, StoreThrough(src), SpilledInt(plan, src)) by { TouchedByStore(plan, src); }
    BlockSimulatesExactly(plan, n, clean, [GlobalAddress(key), StoreThrough(src)]);
  }

  lemma {:induction false} TouchedByLoad(plan: Plan, dst: VReg)
    requires MappedOperand(plan, Virtual(dst))
    ensures Mapped(plan, LoadThrough(dst))
    ensures (INT_SCRATCH in Touched(plan, LoadThrough(dst)) <==> SpilledInt(plan, dst))
  {
    var inst := LoadThrough(dst);
    assert RewriteUpTo(plan, inst, 1)
        == RewriteOperand(Preload(plan, inst), plan, SpilledResult(plan, inst), inst.operands[0]);
  }

  lemma {:induction false} TouchedByStore(plan: Plan, src: VReg)
    requires MappedOperand(plan, Virtual(src))
    ensures Mapped(plan, StoreThrough(src))
    ensures (INT_SCRATCH in Touched(plan, StoreThrough(src)) <==> SpilledInt(plan, src))
  {
    var inst := StoreThrough(src);
    var p := RewriteOperand(Preload(plan, inst), plan, None, inst.operands[0]);
    assert RewriteUpTo(plan, inst, 1) == p;
    assert RewriteUpTo(plan, inst, 2) == RewriteOperand(p, plan, None, inst.operands[1]);
  }

  /** An instruction that reads R11 among its operands, after the address was put there. */
  lemma {:induction false} ThroughIsSafe(plan: Plan, clean: set<PhysReg>, key: nat, inst: MachineInst, lost: bool)
    requires Mapped(plan, inst) && (INT_SCRATCH in Touched(plan, inst) <==> lost)
    requires !ReadsResult(inst) && inst.uses == [] && |inst.operands| > 0 && inst.operands[0] == Physical(INT_SCRATCH)
    requires forall k :: 1 <= k < |inst.operands| ==> inst.operands[k].Virtual?
    ensures SafeBlock(plan, [GlobalAddress(key), inst], clean) <==> !lost
  {
    var first := GlobalAddress(key);
    var insts := [first, inst];
    assert insts[..1] == [first] && insts[..1][..0] == [] && [first][..0] == [];
    assert ScratchSafe(plan, first, clean);
    assert INT_SCRATCH in SetsScratch(plan, first);
    hide Touched, SetsScratch, Mapped;
    assert SafeBlock(plan, insts[..1], clean);
    assert CleanAfterAll(plan, insts[..1], clean) == CleanAfter(plan, first, clean);
    var kept := CleanAfter(plan, first, clean) - Touched(plan, inst);
    assert INT_SCRATCH in kept <==> !lost;
    assert INT_SCRATCH in kept ==> OnlyKept([INT_SCRATCH], kept);
    assert OnlyKept([INT_SCRATCH], kept) ==> INT_SCRATCH in kept by { assert INT_SCRATCH in [INT_SCRATCH]; }
  }
}
