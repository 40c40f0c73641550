/** Putting allocated locations into machine code: spilled values are reloaded into a scratch register
    or read in place, and spilled results are stored back. */
module SpillRewriting {
  import opened Wrappers
  import opened LiveIntervals
  import opened LinearScan
  import opened ScanInvariants
  import opened ScanResults
  import opened ScanTheorems
  import opened AllocationSimulation

  type VReg = nat

  const INT_SCRATCH: PhysReg := 11
  const FLOAT_SCRATCH: PhysReg := 31
  const MOV: nat := 0
  const MOVSD: nat := 86

  /** `Other` reads the listed registers (an address), or none (a constant or a global). */
  datatype Operand = Virtual(v: VReg) | Physical(r: PhysReg) | Other(regs: seq<PhysReg>, key: nat)

  /** `readsOld` says that the old result is an input, as in destructive form.  `uses` and `sets` are the
      registers the instruction uses without naming them. */
  datatype MachineInst = MachineInst(opcode: nat, result: Option<Operand>, readsOld: bool, operands: seq<Operand>,
                                     uses: seq<PhysReg>, sets: set<PhysReg>)

  datatype Place = Reg(r: PhysReg) | Cell(offset: int) | Elsewhere(regs: seq<PhysReg>, key: nat)

  datatype Code = Reload(opcode: nat, reg: PhysReg, offset: int)
                | Body(opcode: nat, result: Option<Place>, readsOld: bool, operands: seq<Place>, uses: seq<PhysReg>,
                       sets: set<PhysReg>)
                | Store(opcode: nat, offset: int, reg: PhysReg)

  /** `base` is the frame size before the spill area was added. */
  datatype Plan = Plan(base: nat, slotOf: map<VReg, nat>, regOf: map<VReg, PhysReg>, floats: set<VReg>)

  function Offset(base: nat, k: nat): int {
    -(base + 8 * (k + 1))
  }

  predicate IsScratch(r: PhysReg) {
    r == INT_SCRATCH || r == FLOAT_SCRATCH
  }

  function Where(plan: Plan, v: VReg): Location
    requires v in plan.slotOf || v in plan.regOf
  {
    if v in plan.slotOf then OnStack(plan.slotOf[v]) else InReg(plan.regOf[v])
  }

  // ---- rewriting one instruction ----

  predicate MappedOperand(plan: Plan, op: Operand) {
    op.Virtual? ==> op.v in plan.slotOf || op.v in plan.regOf
  }

  predicate Mapped(plan: Plan, inst: MachineInst) {
    && (inst.result.Some? ==> MappedOperand(plan, inst.result.value))
    && (forall k :: 0 <= k < |inst.operands| ==> MappedOperand(plan, inst.operands[k]))
  }

  /** The spilled virtual register the instruction writes, if any. */
  function SpilledResult(plan: Plan, inst: MachineInst): Option<VReg> {
    if inst.result.Some? && inst.result.value.Virtual? && inst.result.value.v in plan.slotOf
    then Some(inst.result.value.v)
    else None
  }

  function ScratchFor(plan: Plan, v: VReg): PhysReg {
    if v in plan.floats then FLOAT_SCRATCH else INT_SCRATCH
  }

  function OpcodeFor(plan: Plan, v: VReg): nat {
    if v in plan.floats then MOVSD else MOV
  }

  function OffsetFor(plan: Plan, v: VReg): int
    requires v in plan.slotOf
  {
    Offset(plan.base, plan.slotOf[v])
  }

  function ReloadOf(plan: Plan, v: VReg): Code
    requires v in plan.slotOf
  {
    Reload(OpcodeFor(plan, v), ScratchFor(plan, v), OffsetFor(plan, v))
  }

  datatype Progress = Progress(code: seq<Code>, places: seq<Place>, intUsed: bool, floatUsed: bool)

  predicate Used(p: Progress, plan: Plan, v: VReg) {
    if v in plan.floats then p.floatUsed else p.intUsed
  }

  /** The old value of a spilled result is loaded first. */
  function Preload(plan: Plan, inst: MachineInst): Progress {
    var res := SpilledResult(plan, inst);
    if res.None? then Progress([], [], false, false)
    else Progress([ReloadOf(plan, res.value)], [],
                  res.value !in plan.floats, res.value in plan.floats)
  }

  /** The spilled operand that gets its class's scratch, which must be free. */
  predicate TakesScratch(p: Progress, plan: Plan, res: Option<VReg>, op: Operand) {
    op.Virtual? && op.v in plan.slotOf && res != Some(op.v) && !Used(p, plan, op.v)
  }

  function PlaceOf(p: Progress, plan: Plan, res: Option<VReg>, op: Operand): Place
    requires MappedOperand(plan, op)
  {
    match op
    case Physical(r) => Reg(r)
    case Other(regs, key) => Elsewhere(regs, key)
    case Virtual(v) =>
      if v !in plan.slotOf then Reg(plan.regOf[v])
      else if res == Some(v) || !Used(p, plan, v) then Reg(ScratchFor(plan, v))
      else Cell(OffsetFor(plan, v))
  }

  function RewriteOperand(p: Progress, plan: Plan, res: Option<VReg>, op: Operand): Progress
    requires MappedOperand(plan, op)
  {
    var place := PlaceOf(p, plan, res, op);
    if TakesScratch(p, plan, res, op) then
      Progress(p.code + [ReloadOf(plan, op.v)], p.places + [place],
               p.intUsed || op.v !in plan.floats, p.floatUsed || op.v in plan.floats)
    else p.(places := p.places + [place])
  }

  function RewriteUpTo(plan: Plan, inst: MachineInst, k: nat): Progress
    requires Mapped(plan, inst) && k <= |inst.operands|
  {
    if k == 0 then Preload(plan, inst)
    else RewriteOperand(RewriteUpTo(plan, inst, k - 1), plan, SpilledResult(plan, inst), inst.operands[k - 1])
  }

  function ResultPlace(plan: Plan, inst: MachineInst): Option<Place>
    requires Mapped(plan, inst)
  {
    match inst.result
    case None => None
    case Some(Physical(r)) => Some(Reg(r))
    case Some(Other(regs, key)) => Some(Elsewhere(regs, key))
    case Some(Virtual(v)) => Some(Reg(if v in plan.slotOf then ScratchFor(plan, v) else plan.regOf[v]))
  }

  function BodyOf(plan: Plan, inst: MachineInst): Code
    requires Mapped(plan, inst)
  {
    Body(inst.opcode, ResultPlace(plan, inst), inst.readsOld, RewriteUpTo(plan, inst, |inst.operands|).places,
         inst.uses, inst.sets)
  }

  function StoreBack(plan: Plan, inst: MachineInst): seq<Code> {
    var res := SpilledResult(plan, inst);
    if res.None? then []
    else [Store(OpcodeFor(plan, res.value), OffsetFor(plan, res.value), ScratchFor(plan, res.value))]
  }

  function Rewritten(plan: Plan, inst: MachineInst): seq<Code>
    requires Mapped(plan, inst)
  {
    RewriteUpTo(plan, inst, |inst.operands|).code + [BodyOf(plan, inst)] + StoreBack(plan, inst)
  }

  function RewrittenAll(plan: Plan, insts: seq<MachineInst>): seq<Code>
    requires forall i :: i in insts ==> Mapped(plan, i)
  {
    if insts == [] then [] else RewrittenAll(plan, insts[..|insts| - 1]) + Rewritten(plan, insts[|insts| - 1])
  }

  method RewriteInstruction(plan: Plan, inst: MachineInst, before: seq<Code>) returns (code: seq<Code>)
    requires Mapped(plan, inst)
    ensures code == before + Rewritten(plan, inst)
    ensures forall c :: c in Rewritten(plan, inst) ==> WellMoved(plan, c)
  {
    InstructionWellMoved(plan, inst);
    code := before;
    var res := SpilledResult(plan, inst);
    if res.Some? {
      code := code + [ReloadOf(plan, res.value)];
    }
    var intUsed, floatUsed := res.Some? && res.value !in plan.floats, res.Some? && res.value in plan.floats;
    var places := [];
    for i := 0 to |inst.operands|
      invariant var p := RewriteUpTo(plan, inst, i);
        code == before + p.code && places == p.places && intUsed == p.intUsed && floatUsed == p.floatUsed
    {
      var op := inst.operands[i];
      ghost var p := RewriteUpTo(plan, inst, i);
      assert RewriteUpTo(plan, inst, i + 1) == RewriteOperand(p, plan, res, op);
      match op {
        case Physical(r) => places := places + [Reg(r)];
        case Other(regs, key) => places := places + [Elsewhere(regs, key)];
        case Virtual(v) =>
          if v in plan.slotOf {
            var offset := OffsetFor(plan, v);
            if v in plan.floats {
              if res == Some(v) {
                places := places + [Reg(FLOAT_SCRATCH)];
              } else if !floatUsed {
                code := code + [Reload(MOVSD, FLOAT_SCRATCH, offset)];
                places := places + [Reg(FLOAT_SCRATCH)];
                floatUsed := true;
              } else {
                places := places + [Cell(offset)];
              }
            } else {
              if res == Some(v) {
                places := places + [Reg(INT_SCRATCH)];
              } else if !intUsed {
                code := code + [Reload(MOV, INT_SCRATCH, offset)];
                places := places + [Reg(INT_SCRATCH)];
                intUsed := true;
              } else {
                places := places + [Cell(offset)];
              }
            }
          } else {
            places := places + [Reg(plan.regOf[v])];
          }
      }
    }
    code := code + [Body(inst.opcode, ResultPlace(plan, inst), inst.readsOld, places, inst.uses, inst.sets)];
    if res.Some? {
      code := code + [Store(OpcodeFor(plan, res.value), OffsetFor(plan, res.value), ScratchFor(plan, res.value))];
    }
  }

  method RewriteBlock(plan: Plan, insts: seq<MachineInst>) returns (code: seq<Code>)
    requires forall i :: i in insts ==> Mapped(plan, i)
    ensures code == RewrittenAll(plan, insts) && forall c :: c in code ==> WellMoved(plan, c)
  {
    AllWellMoved(plan, insts);
    hide Mapped, Rewritten, WellMoved;
    code := [];
    for i := 0 to |insts|
      invariant code == RewrittenAll(plan, insts[..i])
    {
      assert insts[..i + 1][..i] == insts[..i];
      code := RewriteInstruction(plan, insts[i], code);
    }
    assert insts[..|insts|] == insts;
  }

  // ---- reloads and stores ----

  /** Moves between a cell and a scratch are of the cell's class: a float goes through the float scratch with
      the float move, anything else through the integer scratch with the integer move. */
  ghost predicate WellMoved(plan: Plan, c: Code) {
    c.Body? || exists v :: v in plan.slotOf && c.offset == Offset(plan.base, plan.slotOf[v])
                           && MovesValue(c.opcode, c.reg, v in plan.floats)
  }

  predicate MovesValue(opcode: nat, reg: PhysReg, isFloat: bool) {
    if isFloat then reg == FLOAT_SCRATCH && opcode == MOVSD else reg == INT_SCRATCH && opcode == MOV
  }

  lemma {:induction false} ReloadsWellMoved(plan: Plan, inst: MachineInst, k: nat)
    requires Mapped(plan, inst) && k <= |inst.operands|
    ensures forall c :: c in RewriteUpTo(plan, inst, k).code ==> WellMoved(plan, c)
  {
    if k > 0 {
      ReloadsWellMoved(plan, inst, k - 1);
      var op := inst.operands[k - 1];
      if op.Virtual? && op.v in plan.slotOf {
        ReloadWellMoved(plan, op.v);
      }
    } else if SpilledResult(plan, inst).Some? {
      ReloadWellMoved(plan, SpilledResult(plan, inst).value);
    }
  }

  lemma {:induction false} ReloadWellMoved(plan: Plan, v: VReg)
    requires v in plan.slotOf
    ensures WellMoved(plan, ReloadOf(plan, v))
    ensures WellMoved(plan, Store(OpcodeFor(plan, v), OffsetFor(plan, v), ScratchFor(plan, v)))
  {
  }

  lemma {:induction false} InstructionWellMoved(plan: Plan, inst: MachineInst)
    requires Mapped(plan, inst)
    ensures forall c :: c in Rewritten(plan, inst) ==> WellMoved(plan, c)
  {
    ReloadsWellMoved(plan, inst, |inst.operands|);
    if SpilledResult(plan, inst).Some? {
      ReloadWellMoved(plan, SpilledResult(plan, inst).value);
    }
    hide RewriteUpTo;
  }

  /** Every reload and store of rewritten code. */
  lemma {:induction false} AllWellMoved(plan: Plan, insts: seq<MachineInst>)
    requires forall i :: i in insts ==> Mapped(plan, i)
    ensures forall c :: c in RewrittenAll(plan, insts) ==> WellMoved(plan, c)
  {
    if insts != [] {
      var front, last := insts[..|insts| - 1], insts[|insts| - 1];
      AllWellMoved(plan, front);
      InstructionWellMoved(plan, last);
      hide Mapped, Rewritten, WellMoved;
    }
  }

  /** A spilled value of the given class is the result or among the first `k` operands. */
  predicate ClassTaken(plan: Plan, inst: MachineInst, k: nat, isFloat: bool)
    requires k <= |inst.operands|
  {
    || (SpilledResult(plan, inst).Some? && (SpilledResult(plan, inst).value in plan.floats <==> isFloat))
    || exists j :: 0 <= j < k && inst.operands[j].Virtual? && inst.operands[j].v in plan.slotOf
                   && (inst.operands[j].v in plan.floats <==> isFloat)
  }

  lemma {:induction false} UsedExactly(plan: Plan, inst: MachineInst, k: nat)
    requires Mapped(plan, inst) && k <= |inst.operands|
    ensures RewriteUpTo(plan, inst, k).intUsed <==> ClassTaken(plan, inst, k, false)
    ensures RewriteUpTo(plan, inst, k).floatUsed <==> ClassTaken(plan, inst, k, true)
    ensures |RewriteUpTo(plan, inst, k).places| == k
  {
    if k > 0 {
      UsedExactly(plan, inst, k - 1);
      var op := inst.operands[k - 1];
      assert op.Virtual? && op.v in plan.slotOf ==> ClassTaken(plan, inst, k, op.v in plan.floats);
    }
  }

  /** An operand is read from its cell exactly if it is spilled, is not the result, and another spilled value
      of its class has been met; so an instruction reads at most one of two spilled values from memory. */
  lemma {:induction false} CellExactly(plan: Plan, inst: MachineInst, k: nat, n: nat)
    requires Mapped(plan, inst) && k < n <= |inst.operands|
    ensures var op, places := inst.operands[k], RewriteUpTo(plan, inst, n).places;
      && |places| == n
      && (places[k].Cell? <==> && op.Virtual? && op.v in plan.slotOf && SpilledResult(plan, inst) != Some(op.v)
                               && ClassTaken(plan, inst, k, op.v in plan.floats))
    decreases n
  {
    UsedExactly(plan, inst, n - 1);
    UsedExactly(plan, inst, n);
    hide ClassTaken, SpilledResult;
    if k < n - 1 {
      CellExactly(plan, inst, k, n - 1);
    }
  }

  // ---- meaning ----

  /** An arbitrary meaning of the instructions.  `torn` is what becomes of a cell that a store at a
      different but overlapping offset hits. */
  datatype Meaning<!M> = Meaning(result: (nat, seq<int>, M) -> int,
                                 memory: (nat, seq<int>, M) -> M,
                                 side: (nat, PhysReg, seq<int>, M) -> int,
                                 other: (nat, seq<int>, M) -> int,
                                 torn: (int, int, int, int) -> int)

  /** Before the rewriting: every location can be read and written in place. */
  datatype Ideal<!M> = Ideal(locs: Location -> int, mem: M)

  datatype Machine<!M> = Machine(regs: PhysReg -> int, frame: int -> int, mem: M)

  ghost function Values(regs: PhysReg -> int, rs: seq<PhysReg>): seq<int> {
    seq(|rs|, k requires 0 <= k < |rs| => regs(rs[k]))
  }

  ghost function RegsOf(locs: Location -> int): PhysReg -> int {
    (r: PhysReg) => locs(InReg(r))
  }

  ghost function ReadIdeal<M>(plan: Plan, sem: Meaning<M>, s: Ideal<M>, op: Operand): int
    requires MappedOperand(plan, op)
  {
    match op
    case Virtual(v) => s.locs(Where(plan, v))
    case Physical(r) => s.locs(InReg(r))
    case Other(regs, key) => sem.other(key, Values(RegsOf(s.locs), regs), s.mem)
  }

  ghost function ReadPlace<M>(sem: Meaning<M>, m: Machine<M>, p: Place): int {
    match p
    case Reg(r) => m.regs(r)
    case Cell(offset) => m.frame(offset)
    case Elsewhere(regs, key) => sem.other(key, Values(m.regs, regs), m.mem)
  }

  /** The address of a result in memory is always an input. */
  predicate ReadsResult(inst: MachineInst) {
    inst.result.Some? && (inst.readsOld || inst.result.value.Other?)
  }

  /** The old result, the operands, the unnamed inputs. */
  ghost function IdealInputs<M>(plan: Plan, sem: Meaning<M>, s: Ideal<M>, inst: MachineInst): seq<int>
    requires Mapped(plan, inst)
  {
    (if ReadsResult(inst) then [ReadIdeal(plan, sem, s, inst.result.value)] else [])
    + seq(|inst.operands|, k requires 0 <= k < |inst.operands| => ReadIdeal(plan, sem, s, inst.operands[k]))
    + Values(RegsOf(s.locs), inst.uses)
  }

  ghost function IdealStep<M>(plan: Plan, sem: Meaning<M>, s: Ideal<M>, inst: MachineInst): Ideal<M>
    requires Mapped(plan, inst)
  {
    var ins, op := IdealInputs(plan, sem, s, inst), inst.opcode;
    Ideal((l: Location) =>
            if inst.result.Some? && inst.result.value.Virtual? && l == Where(plan, inst.result.value.v)
            then sem.result(op, ins, s.mem)
            else if inst.result.Some? && inst.result.value.Physical? && l == InReg(inst.result.value.r)
            then sem.result(op, ins, s.mem)
            else if l.InReg? && l.reg in inst.sets then sem.side(op, l.reg, ins, s.mem)
            else s.locs(l),
          sem.memory(op, ins, s.mem))
  }

  ghost function BodyInputs<M>(sem: Meaning<M>, m: Machine<M>, c: Code): seq<int>
    requires c.Body?
  {
    (if c.result.Some? && (c.readsOld || c.result.value.Elsewhere?) then [ReadPlace(sem, m, c.result.value)] else [])
    + seq(|c.operands|, k requires 0 <= k < |c.operands| => ReadPlace(sem, m, c.operands[k]))
    + Values(m.regs, c.uses)
  }

  ghost function Stored<M>(sem: Meaning<M>, frame: int -> int, offset: int, value: int): int -> int {
    (x: int) => if x == offset then value
                else if offset - 8 < x < offset + 8 then sem.torn(x, offset, value, frame(x))
                else frame(x)
  }

  ghost function CodeStep<M>(sem: Meaning<M>, m: Machine<M>, c: Code): Machine<M> {
    match c
    case Reload(_, reg, offset) => m.(regs := (r: PhysReg) => if r == reg then m.frame(offset) else m.regs(r))
    case Store(_, offset, reg) => m.(frame := Stored(sem, m.frame, offset, m.regs(reg)))
    case Body(op, result, _, _, _, sets) =>
      var ins := BodyInputs(sem, m, c);
      Machine((r: PhysReg) =>
                if result == Some(Reg(r)) then sem.result(op, ins, m.mem)
                else if r in sets then sem.side(op, r, ins, m.mem)
                else m.regs(r),
              m.frame,
              sem.memory(op, ins, m.mem))
  }

  ghost function CodeRun<M>(sem: Meaning<M>, m: Machine<M>, code: seq<Code>): Machine<M> {
    if code == [] then m else CodeStep(sem, CodeRun(sem, m, code[..|code| - 1]), code[|code| - 1])
  }

  ghost function IdealRun<M>(plan: Plan, sem: Meaning<M>, s: Ideal<M>, insts: seq<MachineInst>): Ideal<M>
    requires forall i :: i in insts ==> Mapped(plan, i)
  {
    if insts == [] then s
    else IdealStep(plan, sem, IdealRun(plan, sem, s, insts[..|insts| - 1]), insts[|insts| - 1])
  }

  lemma {:induction false} RunSnoc<M>(sem: Meaning<M>, m: Machine<M>, code: seq<Code>, c: Code)
    ensures CodeRun(sem, m, code + [c]) == CodeStep(sem, CodeRun(sem, m, code), c)
  {
    assert (code + [c])[..|code + [c]| - 1] == code;
  }

  lemma {:induction false} RunAppend<M>(sem: Meaning<M>, m: Machine<M>, a: seq<Code>, b: seq<Code>)
    ensures CodeRun(sem, m, a + b) == CodeRun(sem, CodeRun(sem, m, a), b)
    decreases |b|
  {
    if b == [] {
      assert a + b == a;
    } else {
      var front, last := b[..|b| - 1], b[|b| - 1];
      assert a + b == (a + front) + [last];
      RunAppend(sem, m, a, front);
      RunSnoc(sem, m, a + front, last);
    }
  }

  // ---- the rewritten code does what the instruction meant ----

  /** The scratches that the rewriting of the instruction loads or puts the result in. */
  function Touched(plan: Plan, inst: MachineInst): set<PhysReg>
    requires Mapped(plan, inst)
  {
    var p := RewriteUpTo(plan, inst, |inst.operands|);
    (if p.intUsed then {INT_SCRATCH} else {}) + if p.floatUsed then {FLOAT_SCRATCH} else {}
  }

  /** Every scratch among the registers is one of `kept`. */
  ghost predicate OnlyKept(regs: seq<PhysReg>, kept: set<PhysReg>) {
    forall r :: r in regs && IsScratch(r) ==> r in kept
  }

  ghost predicate AvoidsScratch(op: Operand, kept: set<PhysReg>) {
    match op
    case Virtual(_) => true
    case Physical(r) => OnlyKept([r], kept)
    case Other(regs, _) => OnlyKept(regs, kept)
  }

  /** The instruction reads a scratch only if that still holds what it should, being one of `clean`, and
      is not needed for a spilled value of the same instruction. */
  ghost predicate ScratchSafe(plan: Plan, inst: MachineInst, clean: set<PhysReg>)
    requires Mapped(plan, inst)
  {
    ReadsOnlyKept(inst, clean - Touched(plan, inst))
  }

  ghost predicate ReadsOnlyKept(inst: MachineInst, kept: set<PhysReg>) {
    && (ReadsResult(inst) ==> AvoidsScratch(inst.result.value, kept))
    && (forall k :: 0 <= k < |inst.operands| ==> AvoidsScratch(inst.operands[k], kept))
    && OnlyKept(inst.uses, kept)
  }

  /** Scratches that the instruction itself sets, spilled results apart. */
  function SetsScratch(plan: Plan, inst: MachineInst): set<PhysReg> {
    var res := SpilledResult(plan, inst);
    set r | r in {INT_SCRATCH, FLOAT_SCRATCH} && (inst.result == Some(Physical(r)) || r in inst.sets)
            && (res.Some? ==> r != ScratchFor(plan, res.value))
  }

  /** The scratches that hold what they should after the instruction. */
  function CleanAfter(plan: Plan, inst: MachineInst, clean: set<PhysReg>): set<PhysReg>
    requires Mapped(plan, inst)
  {
    (clean - Touched(plan, inst)) + SetsScratch(plan, inst)
  }

  function CleanAfterAll(plan: Plan, insts: seq<MachineInst>, clean: set<PhysReg>): set<PhysReg>
    requires forall i :: i in insts ==> Mapped(plan, i)
  {
    if insts == [] then clean
    else CleanAfter(plan, insts[|insts| - 1], CleanAfterAll(plan, insts[..|insts| - 1], clean))
  }

  /** Every instruction of the block is safe where it stands. */
  ghost predicate SafeBlock(plan: Plan, insts: seq<MachineInst>, clean: set<PhysReg>)
    requires forall i :: i in insts ==> Mapped(plan, i)
  {
    insts != [] ==>
      && SafeBlock(plan, insts[..|insts| - 1], clean)
      && ScratchSafe(plan, insts[|insts| - 1], CleanAfterAll(plan, insts[..|insts| - 1], clean))
  }

  /** Slots within the spill area, and no value kept in a scratch. */
  ghost predicate SoundPlan(plan: Plan, n: nat) {
    && (forall v :: v in plan.slotOf ==> plan.slotOf[v] < n)
    && (forall v :: v in plan.regOf ==> !IsScratch(plan.regOf[v]))
  }

  /** Registers other than the scratches, the `clean` ones among these, and the `n` cells of the spill
      area hold the locations. */
  ghost predicate Related<M>(plan: Plan, n: nat, clean: set<PhysReg>, s: Ideal<M>, m: Machine<M>) {
    && s.mem == m.mem
    && (forall r: PhysReg :: !IsScratch(r) || r in clean ==> m.regs(r) == s.locs(InReg(r)))
    && (forall k: nat :: k < n ==> m.frame(Offset(plan.base, k)) == s.locs(OnStack(k)))
  }

  lemma {:induction false} SameValues<M>(plan: Plan, n: nat, kept: set<PhysReg>, s: Ideal<M>, m: Machine<M>,
                                         rs: seq<PhysReg>)
    requires Related(plan, n, kept, s, m) && OnlyKept(rs, kept)
    ensures Values(RegsOf(s.locs), rs) == Values(m.regs, rs)
  {
  }

  /** A place already resolved keeps its value when a scratch that it does not use is loaded. */
  ghost predicate Stable(p: Progress, kept: set<PhysReg>, place: Place) {
    match place
    case Reg(r) => (r == INT_SCRATCH ==> p.intUsed || r in kept) && (r == FLOAT_SCRATCH ==> p.floatUsed || r in kept)
    case Cell(_) => true
    case Elsewhere(regs, _) => OnlyKept(regs, kept)
  }

  ghost predicate Holds<M>(plan: Plan, sem: Meaning<M>, kept: set<PhysReg>, s: Ideal<M>, op: Operand, p: Progress,
                           place: Place, m: Machine<M>)
    requires MappedOperand(plan, op)
  {
    Stable(p, kept, place) && ReadPlace(sem, m, place) == ReadIdeal(plan, sem, s, op)
  }

  ghost predicate ResultLoaded<M>(plan: Plan, s: Ideal<M>, res: Option<VReg>, p: Progress, m: Machine<M>) {
    res.Some? && res.value in plan.slotOf ==>
      Used(p, plan, res.value) && m.regs(ScratchFor(plan, res.value)) == s.locs(Where(plan, res.value))
  }

  /** After the reloads for the first `k` operands. */
  ghost predicate Resolved<M>(plan: Plan, n: nat, kept: set<PhysReg>, sem: Meaning<M>, s: Ideal<M>,
                              inst: MachineInst, k: nat, p: Progress, m: Machine<M>)
    requires Mapped(plan, inst) && k <= |inst.operands|
  {
    && Related(plan, n, kept, s, m)
    && ResultLoaded(plan, s, SpilledResult(plan, inst), p, m)
    && |p.places| == k
    && forall j :: 0 <= j < k ==> Holds(plan, sem, kept, s, inst.operands[j], p, p.places[j], m)
  }

  lemma {:induction false} ReloadKeepsPlace<M>(plan: Plan, sem: Meaning<M>, kept: set<PhysReg>, s: Ideal<M>,
                                               m: Machine<M>, v: VReg, p: Progress, op: Operand, place: Place)
    requires v in plan.slotOf && !Used(p, plan, v) && MappedOperand(plan, op)
    requires Holds(plan, sem, kept, s, op, p, place, m)
    requires ScratchFor(plan, v) !in kept
    ensures ReadPlace(sem, CodeStep(sem, m, ReloadOf(plan, v)), place) == ReadIdeal(plan, sem, s, op)
  {
    if place.Elsewhere? {
      var m' := CodeStep(sem, m, ReloadOf(plan, v));
      forall k | 0 <= k < |place.regs|
        ensures m'.regs(place.regs[k]) == m.regs(place.regs[k])
      {
        assert place.regs[k] in place.regs;
      }
      assert Values(m'.regs, place.regs) == Values(m.regs, place.regs);
    }
  }

  /** The machine after what `op` adds to the code. */
  ghost function Loaded<M>(plan: Plan, sem: Meaning<M>, p: Progress, res: Option<VReg>, op: Operand, m: Machine<M>)
    : Machine<M> {
    if TakesScratch(p, plan, res, op) then CodeStep(sem, m, ReloadOf(plan, op.v)) else m
  }

  /** The registers kept are none that the operand's reload goes to. */
  ghost predicate LeavesKept(plan: Plan, p: Progress, res: Option<VReg>, op: Operand, kept: set<PhysReg>) {
    TakesScratch(p, plan, res, op) ==> ScratchFor(plan, op.v) !in kept
  }

  lemma {:induction false} LoadedRelated<M>(plan: Plan, n: nat, kept: set<PhysReg>, sem: Meaning<M>, s: Ideal<M>,
                                            p: Progress, res: Option<VReg>, op: Operand, m: Machine<M>)
    requires MappedOperand(plan, op) && Related(plan, n, kept, s, m) && ResultLoaded(plan, s, res, p, m)
    requires LeavesKept(plan, p, res, op, kept)
    ensures var next, m' := RewriteOperand(p, plan, res, op), Loaded(plan, sem, p, res, op, m);
      Related(plan, n, kept, s, m') && ResultLoaded(plan, s, res, next, m')
  {
  }

  lemma {:induction false} OldPlaceHolds<M>(plan: Plan, sem: Meaning<M>, kept: set<PhysReg>, s: Ideal<M>,
                                            p: Progress, res: Option<VReg>, op: Operand, m: Machine<M>,
                                            prev: Operand, place: Place)
    requires MappedOperand(plan, op) && MappedOperand(plan, prev) && Holds(plan, sem, kept, s, prev, p, place, m)
    requires LeavesKept(plan, p, res, op, kept)
    ensures var next, m' := RewriteOperand(p, plan, res, op), Loaded(plan, sem, p, res, op, m);
      Holds(plan, sem, kept, s, prev, next, place, m')
  {
    hide OnlyKept;
    if TakesScratch(p, plan, res, op) {
      ReloadKeepsPlace(plan, sem, kept, s, m, op.v, p, prev, place);
    }
  }

  lemma {:induction false} NewPlaceHolds<M>(plan: Plan, n: nat, kept: set<PhysReg>, sem: Meaning<M>, s: Ideal<M>,
                                            p: Progress, res: Option<VReg>, op: Operand, m: Machine<M>)
    requires MappedOperand(plan, op) && AvoidsScratch(op, kept) && SoundPlan(plan, n)
    requires Related(plan, n, kept, s, m) && ResultLoaded(plan, s, res, p, m)
    ensures var next, m' := RewriteOperand(p, plan, res, op), Loaded(plan, sem, p, res, op, m);
      Holds(plan, sem, kept, s, op, next, PlaceOf(p, plan, res, op), m')
  {
    if op.Other? {
      SameValues(plan, n, kept, s, m, op.regs);
    } else if op.Physical? {
      assert op.r in [op.r];
    }
  }

  lemma {:induction false} OperandResolves<M>(plan: Plan, n: nat, kept: set<PhysReg>, sem: Meaning<M>, s: Ideal<M>,
                                              inst: MachineInst, k: nat, p: Progress, m: Machine<M>)
    requires Mapped(plan, inst) && ReadsOnlyKept(inst, kept) && SoundPlan(plan, n) && k < |inst.operands|
    requires Resolved(plan, n, kept, sem, s, inst, k, p, m)
    requires LeavesKept(plan, p, SpilledResult(plan, inst), inst.operands[k], kept)
    ensures var op, res := inst.operands[k], SpilledResult(plan, inst);
      Resolved(plan, n, kept, sem, s, inst, k + 1, RewriteOperand(p, plan, res, op), Loaded(plan, sem, p, res, op, m))
  {
    hide Loaded, TakesScratch, Holds, SoundPlan, PlaceOf, Related, ResultLoaded, MappedOperand, AvoidsScratch,
      LeavesKept, OnlyKept;
    var op, res := inst.operands[k], SpilledResult(plan, inst);
    LoadedRelated(plan, n, kept, sem, s, p, res, op, m);
    NewPlaceHolds(plan, n, kept, sem, s, p, res, op, m);
    forall j | 0 <= j < k
      ensures Holds(plan, sem, kept, s, inst.operands[j], RewriteOperand(p, plan, res, op), p.places[j],
                    Loaded(plan, sem, p, res, op, m))
    {
      OldPlaceHolds(plan, sem, kept, s, p, res, op, m, inst.operands[j], p.places[j]);
    }
  }

  lemma {:induction false} LoadedIsRun<M>(plan: Plan, sem: Meaning<M>, p: Progress, res: Option<VReg>, op: Operand,
                                          m: Machine<M>)
    requires MappedOperand(plan, op)
    ensures CodeRun(sem, m, RewriteOperand(p, plan, res, op).code)
         == Loaded(plan, sem, p, res, op, CodeRun(sem, m, p.code))
  {
    if TakesScratch(p, plan, res, op) {
      RunSnoc(sem, m, p.code, ReloadOf(plan, op.v));
    }
  }

  /** A scratch once taken stays taken. */
  lemma {:induction false} FlagsGrow(plan: Plan, inst: MachineInst, k: nat, l: nat)
    requires Mapped(plan, inst) && k <= l <= |inst.operands|
    ensures RewriteUpTo(plan, inst, k).intUsed ==> RewriteUpTo(plan, inst, l).intUsed
    ensures RewriteUpTo(plan, inst, k).floatUsed ==> RewriteUpTo(plan, inst, l).floatUsed
    decreases l
  {
    hide PlaceOf, ReloadOf, Preload;
    if k < l {
      FlagsGrow(plan, inst, k, l - 1);
    }
  }

  /** A reload goes to a touched scratch. */
  lemma {:induction false} ReloadIsTouched(plan: Plan, inst: MachineInst, k: nat)
    requires Mapped(plan, inst) && k < |inst.operands|
    ensures var p, res, op := RewriteUpTo(plan, inst, k), SpilledResult(plan, inst), inst.operands[k];
      TakesScratch(p, plan, res, op) ==> ScratchFor(plan, op.v) in Touched(plan, inst)
  {
    FlagsGrow(plan, inst, k + 1, |inst.operands|);
    hide PlaceOf, ReloadOf, Preload;
  }

  lemma {:induction false} PreloadIsTouched(plan: Plan, inst: MachineInst)
    requires Mapped(plan, inst)
    ensures var res := SpilledResult(plan, inst); res.Some? ==> ScratchFor(plan, res.value) in Touched(plan, inst)
  {
    FlagsGrow(plan, inst, 0, |inst.operands|);
  }

  lemma {:induction false} PreloadResolves<M>(plan: Plan, n: nat, kept: set<PhysReg>, sem: Meaning<M>, s: Ideal<M>,
                           inst: MachineInst, m: Machine<M>)
    requires Mapped(plan, inst) && SoundPlan(plan, n) && Related(plan, n, kept, s, m) && kept !! Touched(plan, inst)
    ensures Resolved(plan, n, kept, sem, s, inst, 0, Preload(plan, inst), CodeRun(sem, m, Preload(plan, inst).code))
  {
    PreloadIsTouched(plan, inst);
    hide Touched;
    var code := Preload(plan, inst).code;
    if code != [] {
      RunSnoc(sem, m, [], code[0]);
      assert [] + [code[0]] == code;
    }
  }

  lemma {:induction false} OperandsResolve<M>(plan: Plan, n: nat, kept: set<PhysReg>, sem: Meaning<M>, s: Ideal<M>,
                           inst: MachineInst, m: Machine<M>, k: nat)
    requires Mapped(plan, inst) && ReadsOnlyKept(inst, kept) && SoundPlan(plan, n) && Related(plan, n, kept, s, m)
    requires k <= |inst.operands| && kept !! Touched(plan, inst)
    ensures Resolved(plan, n, kept, sem, s, inst, k, RewriteUpTo(plan, inst, k),
                     CodeRun(sem, m, RewriteUpTo(plan, inst, k).code))
  {
    hide Touched, Resolved, ReadsOnlyKept, SoundPlan, Related, RewriteOperand, Preload, CodeRun, Loaded,
      MappedOperand, TakesScratch;
    if k == 0 {
      PreloadResolves(plan, n, kept, sem, s, inst, m);
    } else {
      OperandsResolve(plan, n, kept, sem, s, inst, m, k - 1);
      var p := RewriteUpTo(plan, inst, k - 1);
      ReloadIsTouched(plan, inst, k - 1);
      OperandResolves(plan, n, kept, sem, s, inst, k - 1, p, CodeRun(sem, m, p.code));
      LoadedIsRun(plan, sem, p, SpilledResult(plan, inst), inst.operands[k - 1], m);
    }
  }

  lemma {:induction false} SameResult<M>(plan: Plan, n: nat, kept: set<PhysReg>, sem: Meaning<M>, s: Ideal<M>,
                           inst: MachineInst, p: Progress, m: Machine<M>)
    requires Mapped(plan, inst) && SoundPlan(plan, n) && Related(plan, n, kept, s, m)
    requires ReadsResult(inst) && AvoidsScratch(inst.result.value, kept)
    requires ResultLoaded(plan, s, SpilledResult(plan, inst), p, m)
    ensures ReadPlace(sem, m, ResultPlace(plan, inst).value) == ReadIdeal(plan, sem, s, inst.result.value)
  {
    var r := inst.result.value;
    if r.Other? {
      SameValues(plan, n, kept, s, m, r.regs);
    } else if r.Physical? {
      assert r.r in [r.r];
    }
  }

  lemma {:induction false} SameInputs<M>(plan: Plan, n: nat, kept: set<PhysReg>, sem: Meaning<M>, s: Ideal<M>,
                           inst: MachineInst, m: Machine<M>)
    requires Mapped(plan, inst) && ReadsOnlyKept(inst, kept) && SoundPlan(plan, n)
    requires Resolved(plan, n, kept, sem, s, inst, |inst.operands|, RewriteUpTo(plan, inst, |inst.operands|), m)
    ensures BodyInputs(sem, m, BodyOf(plan, inst)) == IdealInputs(plan, sem, s, inst)
  {
    hide RewriteUpTo, OnlyKept, AvoidsScratch, Related, SoundPlan, ResultLoaded;
    SameValues(plan, n, kept, s, m, inst.uses);
    if ReadsResult(inst) {
      SameResult(plan, n, kept, sem, s, inst, RewriteUpTo(plan, inst, |inst.operands|), m);
    }
    var places := BodyOf(plan, inst).operands;
    assert forall j :: 0 <= j < |places|
            ==> Holds(plan, sem, kept, s, inst.operands[j], RewriteUpTo(plan, inst, |inst.operands|), places[j], m);
    assert seq(|places|, k requires 0 <= k < |places| => ReadPlace(sem, m, places[k]))
        == seq(|inst.operands|, k requires 0 <= k < |inst.operands| => ReadIdeal(plan, sem, s, inst.operands[k]));
  }

  /** What is left to do once the instruction itself has run: the result is where it belongs, or still
      in its scratch. */
  ghost predicate AfterBody<M>(plan: Plan, n: nat, clean: set<PhysReg>, inst: MachineInst, s: Ideal<M>, m: Machine<M>)
    requires Mapped(plan, inst)
  {
    var res := SpilledResult(plan, inst);
    && s.mem == m.mem
    && (forall r: PhysReg :: !IsScratch(r) || r in clean ==> m.regs(r) == s.locs(InReg(r)))
    && (forall k: nat :: k < n && (res.Some? ==> k != plan.slotOf[res.value])
                         ==> m.frame(Offset(plan.base, k)) == s.locs(OnStack(k)))
    && (res.Some? ==> m.regs(ScratchFor(plan, res.value)) == s.locs(OnStack(plan.slotOf[res.value])))
  }

  lemma {:induction false} BodySimulates<M>(plan: Plan, n: nat, kept: set<PhysReg>, sem: Meaning<M>, s: Ideal<M>,
                           inst: MachineInst, m: Machine<M>)
    requires Mapped(plan, inst) && ReadsOnlyKept(inst, kept) && SoundPlan(plan, n) && kept !! Touched(plan, inst)
    requires Resolved(plan, n, kept, sem, s, inst, |inst.operands|, RewriteUpTo(plan, inst, |inst.operands|), m)
    ensures AfterBody(plan, n, kept + SetsScratch(plan, inst), inst, IdealStep(plan, sem, s, inst),
                      CodeStep(sem, m, BodyOf(plan, inst)))
  {
    SameInputs(plan, n, kept, sem, s, inst, m);
    PreloadIsTouched(plan, inst);
    hide RewriteUpTo, BodyInputs, IdealInputs, Holds, Touched, ReadsOnlyKept;
  }

  lemma {:induction false} StoreSettles<M>(plan: Plan, n: nat, clean: set<PhysReg>, sem: Meaning<M>, inst: MachineInst,
                           s: Ideal<M>, m: Machine<M>)
    requires Mapped(plan, inst) && AfterBody(plan, n, clean, inst, s, m)
    ensures Related(plan, n, clean, s, CodeRun(sem, m, StoreBack(plan, inst)))
  {
    var back := StoreBack(plan, inst);
    if back != [] {
      assert back == [] + [back[0]];
      RunSnoc(sem, m, [], back[0]);
    }
  }

  lemma {:induction false} RelatedLess<M>(plan: Plan, n: nat, clean: set<PhysReg>, kept: set<PhysReg>, s: Ideal<M>,
                                          m: Machine<M>)
    requires Related(plan, n, clean, s, m) && kept <= clean
    ensures Related(plan, n, kept, s, m)
  {
  }

  /** Reload, instruction, store: together they do to the locations what the instruction was meant to
      do with every value in place, and the scratches named by instructions are accounted for. */
  lemma {:induction false} InstructionSimulates<M>(plan: Plan, n: nat, clean: set<PhysReg>, sem: Meaning<M>,
                           s: Ideal<M>, inst: MachineInst, m: Machine<M>)
    requires Mapped(plan, inst) && ScratchSafe(plan, inst, clean) && SoundPlan(plan, n) && Related(plan, n, clean, s, m)
    ensures Related(plan, n, CleanAfter(plan, inst, clean), IdealStep(plan, sem, s, inst),
                    CodeRun(sem, m, Rewritten(plan, inst)))
  {
    hide RewriteUpTo, Resolved, SoundPlan, ReadsOnlyKept, AfterBody, CodeRun, Related, BodyOf, StoreBack, IdealStep,
      Touched, SetsScratch;
    var kept := clean - Touched(plan, inst);
    RelatedLess(plan, n, clean, kept, s, m);
    var reloads := RewriteUpTo(plan, inst, |inst.operands|).code;
    OperandsResolve(plan, n, kept, sem, s, inst, m, |inst.operands|);
    var ready := CodeRun(sem, m, reloads);
    BodySimulates(plan, n, kept, sem, s, inst, ready);
    RunSnoc(sem, m, reloads, BodyOf(plan, inst));
    RunAppend(sem, m, reloads + [BodyOf(plan, inst)], StoreBack(plan, inst));
    StoreSettles(plan, n, kept + SetsScratch(plan, inst), sem, inst, IdealStep(plan, sem, s, inst),
                 CodeStep(sem, ready, BodyOf(plan, inst)));
  }

  lemma {:induction false} BlockSimulates<M>(plan: Plan, n: nat, clean: set<PhysReg>, sem: Meaning<M>, s: Ideal<M>,
                           insts: seq<MachineInst>, m: Machine<M>)
    requires (forall i :: i in insts ==> Mapped(plan, i)) && SafeBlock(plan, insts, clean)
    requires SoundPlan(plan, n) && Related(plan, n, clean, s, m)
    ensures Related(plan, n, CleanAfterAll(plan, insts, clean), IdealRun(plan, sem, s, insts),
                    CodeRun(sem, m, RewrittenAll(plan, insts)))
  {
    hide Mapped, ScratchSafe, SoundPlan, Related, Rewritten, CodeStep, IdealStep, CleanAfter;
    if insts != [] {
      var front, last := insts[..|insts| - 1], insts[|insts| - 1];
      BlockSimulates(plan, n, clean, sem, s, front, m);
      InstructionSimulates(plan, n, CleanAfterAll(plan, front, clean), sem, IdealRun(plan, sem, s, front), last,
                           CodeRun(sem, m, RewrittenAll(plan, front)));
      RunAppend(sem, m, RewrittenAll(plan, front), Rewritten(plan, last));
    }
  }

  /** Blocks whose instructions read no scratch are safe whatever the scratches hold. */
  lemma {:induction false} ScratchFreeIsSafe(plan: Plan, insts: seq<MachineInst>, clean: set<PhysReg>)
    requires forall i :: i in insts ==> Mapped(plan, i) && ReadsOnlyKept(i, {})
    ensures SafeBlock(plan, insts, clean)
  {
    if insts != [] {
      var front, last := insts[..|insts| - 1], insts[|insts| - 1];
      assert last in insts && forall i :: i in front ==> i in insts;
      ScratchFreeIsSafe(plan, front, clean);
      hide Mapped, Touched, CleanAfterAll, OnlyKept;
      KeepsMore(last, CleanAfterAll(plan, front, clean) - Touched(plan, last));
    }
  }

  /** Setting up a stack argument through the scratch is safe, spilled or not: a load of R11, whatever its
      operand, and a push of R11. */
  lemma {:induction false} LoadThenPushIsSafe(plan: Plan, load: MachineInst, push: MachineInst, clean: set<PhysReg>)
    requires Mapped(plan, load) && load.result == Some(Physical(INT_SCRATCH)) && ReadsOnlyKept(load, {})
    requires Mapped(plan, push) && push.result == None && push.operands == [Physical(INT_SCRATCH)]
    requires OnlyKept(push.uses, {})
    ensures SafeBlock(plan, [load, push], clean)
  {
    var insts := [load, push];
    assert insts[..1] == [load] && insts[..1][..0] == [];
    assert RewriteUpTo(plan, push, 1) == RewriteOperand(RewriteUpTo(plan, push, 0), plan, None, push.operands[0]);
    assert Touched(plan, push) == {} && INT_SCRATCH in SetsScratch(plan, load);
    hide RewriteUpTo, Touched, OnlyKept, SetsScratch, Mapped;
    KeepsMore(load, clean - Touched(plan, load));
    KeepsMore(load, CleanAfterAll(plan, [], clean) - Touched(plan, load));
    assert SafeBlock(plan, insts[..1], clean);
    OneKept(INT_SCRATCH, CleanAfter(plan, load, clean));
    OnlyKeptMore(push.uses, CleanAfter(plan, load, clean));
    assert CleanAfterAll(plan, insts[..1], clean) == CleanAfter(plan, load, clean);
  }

  lemma {:induction false} OneKept(r: PhysReg, kept: set<PhysReg>)
    requires r in kept
    ensures OnlyKept([r], kept)
  {
  }

  lemma {:induction false} OnlyKeptMore(regs: seq<PhysReg>, kept: set<PhysReg>)
    requires OnlyKept(regs, {})
    ensures OnlyKept(regs, kept)
  {
  }

  lemma {:induction false} KeepsMore(inst: MachineInst, kept: set<PhysReg>)
    requires ReadsOnlyKept(inst, {})
    ensures ReadsOnlyKept(inst, kept)
  {
  }

  // ---- the spill area ----

  /** The cell at `x` lies wholly above or wholly below the spill area. */
  predicate Outside(base: nat, n: nat, x: int) {
    x >= -(base as int) || x + 8 <= -(base + 8 * n)
  }

  /** Every store goes to a cell of the spill area. */
  ghost predicate StoresInside(base: nat, n: nat, code: seq<Code>) {
    forall c :: c in code && c.Store? ==> exists k: nat :: k < n && c.offset == Offset(base, k)
  }

  lemma {:induction false} RunKeepsOutside<M>(base: nat, n: nat, sem: Meaning<M>, m: Machine<M>, code: seq<Code>,
                                              x: int)
    requires StoresInside(base, n, code) && Outside(base, n, x)
    ensures CodeRun(sem, m, code).frame(x) == m.frame(x)
  {
    if code != [] {
      var front, last := code[..|code| - 1], code[|code| - 1];
      assert last in code && forall c :: c in front ==> c in code;
      RunKeepsOutside(base, n, sem, m, front, x);
    }
  }

  lemma {:induction false} ReloadsOnly(plan: Plan, inst: MachineInst, k: nat)
    requires Mapped(plan, inst) && k <= |inst.operands|
    ensures forall c :: c in RewriteUpTo(plan, inst, k).code ==> c.Reload?
  {
    if k > 0 {
      ReloadsOnly(plan, inst, k - 1);
    }
  }

  lemma {:induction false} RewrittenStoresInside(plan: Plan, n: nat, insts: seq<MachineInst>)
    requires SoundPlan(plan, n) && forall i :: i in insts ==> Mapped(plan, i)
    ensures StoresInside(plan.base, n, RewrittenAll(plan, insts))
  {
    if insts != [] {
      var front, last := insts[..|insts| - 1], insts[|insts| - 1];
      RewrittenStoresInside(plan, n, front);
      ReloadsOnly(plan, last, |last.operands|);
      hide Mapped, RewriteUpTo;
      forall c | c in Rewritten(plan, last) && c.Store?
        ensures exists k: nat :: k < n && c.offset == Offset(plan.base, k)
      {
        assert c.offset == Offset(plan.base, plan.slotOf[SpilledResult(plan, last).value]);
      }
    }
  }

  /** Neither the locals above the spill area nor anything below it is written. */
  lemma {:induction false} LocalsUntouched<M>(plan: Plan, n: nat, sem: Meaning<M>, m: Machine<M>,
                                              insts: seq<MachineInst>, x: int)
    requires SoundPlan(plan, n) && (forall i :: i in insts ==> Mapped(plan, i)) && Outside(plan.base, n, x)
    ensures CodeRun(sem, m, RewrittenAll(plan, insts)).frame(x) == m.frame(x)
  {
    hide Mapped, RewrittenAll, CodeRun;
    RewrittenStoresInside(plan, n, insts);
    RunKeepsOutside(plan.base, n, sem, m, RewrittenAll(plan, insts), x);
  }

  // ---- the plan of an allocation ----

  /** Where everything is.  Virtual registers are named by the values they hold. */
  function PlanOf(frame0: nat, alloc: AllocationResult, floats: set<VReg>): Plan {
    Plan(if frame0 > alloc.frameSize then frame0 else alloc.frameSize, alloc.spillMap, alloc.assignments, floats)
  }

  lemma {:induction false} OwnerOf(ivs: seq<Interval>, info: RegisterInfo, v: VReg) returns (j: nat)
    requires FreshIntervals(ivs) && ValidPools(info)
    requires v in Allocate(ivs, info).assignments || v in Allocate(ivs, info).spillMap
    ensures var st := Allocate(ivs, info);
      && j < |st.ivs| && st.ivs[j].vreg == v
      && (st.ivs[j].reg.Some? ==> st.ivs[j].reg.value in info.gpr + info.fpr)
  {
    SortedInput(ivs, info);
    var sorted := SortByStart(ivs);
    RunKeepsCore(sorted, info, |sorted|);
    RunKeepsBooks(sorted, info, |sorted|);
    var st := Allocate(ivs, info);
    hide Run;
    assert Placed(st.ivs, |sorted|, v);
    j :| 0 <= j < |sorted| && j < |st.ivs| && st.ivs[j].vreg == v;
  }

  lemma {:induction false} AllocatedOutsideScratch(ivs: seq<Interval>, info: RegisterInfo, v: VReg)
    requires FreshIntervals(ivs) && ValidPools(info)
    requires forall r :: r in info.gpr + info.fpr ==> !IsScratch(r)
    ensures var st := Allocate(ivs, info);
      && (v in st.assignments ==> !IsScratch(st.assignments[v]) && v !in st.spillMap)
      && (v in st.spillMap ==> st.spillMap[v] < |st.slots|)
  {
    if v in Allocate(ivs, info).assignments || v in Allocate(ivs, info).spillMap {
      var j := OwnerOf(ivs, info, v);
      TablesAreExact(ivs, info, j);
    }
  }

  /** With scratches outside the pools the plan is sound, and the locations of the plan are those of the
      allocation. */
  lemma {:induction false} PlanIsSound(frame0: nat, ivs: seq<Interval>, info: RegisterInfo, floats: set<VReg>)
    requires FreshIntervals(ivs) && ValidPools(info)
    requires forall r :: r in info.gpr + info.fpr ==> !IsScratch(r)
    ensures var alloc := ResultOf(Allocate(ivs, info));
      && SoundPlan(PlanOf(frame0, alloc, floats), |alloc.slots|)
      && (alloc.spillMap == map[] ==> alloc.slots == [])
      && forall v :: LocationOf(alloc, v).Some?
          ==> Where(PlanOf(frame0, alloc, floats), v) == LocationOf(alloc, v).value
  {
    SpillMapIsBijection(ivs, info);
    hide Allocate;
    var alloc := ResultOf(Allocate(ivs, info));
    assert |alloc.slots| > 0 ==> 0 in alloc.spillMap.Values;
    forall v: VReg {
      AllocatedOutsideScratch(ivs, info, v);
    }
  }

  /** Byte `x` belongs to the cell of slot `k`. */
  predicate InCell(base: nat, k: nat, x: int) {
    Offset(base, k) <= x < Offset(base, k) + 8
  }

  /** The spill cells of an allocation are disjoint, lie below the locals and below everything the
      allocator itself laid out, and fill the enlarged frame exactly. */
  lemma {:induction false} CellsTileTheFrame(frame0: nat, alloc: AllocationResult, floats: set<VReg>, x: int)
    ensures var base := PlanOf(frame0, alloc, floats).base; var frame := base + 8 * |alloc.slots|;
      && base >= frame0 && base >= alloc.frameSize && (base == frame0 || base == alloc.frameSize)
      && (-(frame as int) <= x < -(base as int) <==> exists k: nat :: k < |alloc.slots| && InCell(base, k, x))
      && (forall j: nat, k: nat :: InCell(base, j, x) && InCell(base, k, x) ==> j == k)
  {
    var base := PlanOf(frame0, alloc, floats).base;
    if -(base + 8 * |alloc.slots|) <= x < -(base as int) {
      assert InCell(base, (-x - base - 1) / 8, x);
    }
  }

  /** The whole rewriting, for an allocation as `PlanIsSound` describes it: every block as it should be, no
      store outside the spill cells, and a frame that grows by exactly these. */
  method ApplyAllocation(frame0: nat, alloc: AllocationResult, floats: set<VReg>, blocks: seq<seq<MachineInst>>)
    returns (code: seq<seq<Code>>, frame: nat)
    requires SoundPlan(PlanOf(frame0, alloc, floats), |alloc.slots|) && (alloc.spillMap == map[] ==> alloc.slots == [])
    requires forall b, i :: 0 <= b < |blocks| && i in blocks[b] ==> Mapped(PlanOf(frame0, alloc, floats), i)
    ensures var plan := PlanOf(frame0, alloc, floats);
      && frame == plan.base + 8 * |alloc.slots|
      && |code| == |blocks|
      && forall b :: 0 <= b < |blocks| ==>
           && code[b] == RewrittenAll(plan, blocks[b]) && StoresInside(plan.base, |alloc.slots|, code[b])
           && forall c :: c in code[b] ==> WellMoved(plan, c)
  {
    hide Mapped, RewrittenAll, SoundPlan, StoresInside, WellMoved;
    frame := if frame0 > alloc.frameSize then frame0 else alloc.frameSize;
    var plan := Plan(frame, alloc.spillMap, alloc.assignments, floats);
    if |plan.slotOf| != 0 {
      frame := frame + |alloc.slots| * 8;
    }
    code := [];
    for b := 0 to |blocks|
      invariant |code| == b
      invariant forall k :: 0 <= k < b ==>
        && code[k] == RewrittenAll(plan, blocks[k]) && StoresInside(plan.base, |alloc.slots|, code[k])
        && forall c :: c in code[k] ==> WellMoved(plan, c)
    {
      var rewritten := RewriteBlock(plan, blocks[b]);
      RewrittenStoresInside(plan, |alloc.slots|, blocks[b]);
      code := code + [rewritten];
    }
  }
}
