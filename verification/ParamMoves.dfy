/** Function entry: the moves that put incoming parameters into their allocated registers. */
module ParamMoves {
  import opened ParallelMoves

  const R10: Reg := 10
  const R11: Reg := 11
  const XMM15: Reg := 31

  /** First candidate that is nobody's destination. */
  function IntScratch(dsts: set<Reg>): Reg {
    if R10 !in dsts then R10
    else if R11 !in dsts then R11
    else if 3 !in dsts then 3
    else if 5 !in dsts then 5
    else R10
  }

  /** First move that does not load. */
  function FirstRegMove(pending: seq<Move>): (k: nat)
    requires pending != []
    ensures k < |pending|
    ensures forall i :: 0 <= i < k ==> pending[i].src == MEMORY
    ensures pending[k].src != MEMORY || (k == 0 && forall i :: 0 <= i < |pending| ==> pending[i].src == MEMORY)
  {
    FirstRegMoveFrom(pending, 0)
  }

  function FirstRegMoveFrom(pending: seq<Move>, from: nat): (k: nat)
    requires from <= |pending| && pending != []
    requires forall i :: 0 <= i < from ==> pending[i].src == MEMORY
    ensures k < |pending|
    ensures forall i :: 0 <= i < k ==> pending[i].src == MEMORY
    ensures pending[k].src != MEMORY || (k == 0 && forall i :: 0 <= i < |pending| ==> pending[i].src == MEMORY)
    decreases |pending| - from
  {
    if from == |pending| then 0
    else if pending[from].src != MEMORY then from
    else FirstRegMoveFrom(pending, from + 1)
  }

  /** R11 and XMM15 are kept from allocation, so no parameter goes there. */
  ghost predicate ProperMoves(moves: seq<Move>) {
    && DistinctDsts(moves)
    && forall m :: m in moves ==> m.dst != R11 && m.dst != XMM15 && m.dst != MEMORY
  }

  /** Every parameter register gets what its move promises; others keep their value, the scratches excepted. */
  ghost predicate Simultaneous(moves: seq<Move>, code: seq<Inst>) {
    && (forall m, regs: Regs, mem: Memory :: m in moves ==> Exec(code, regs, mem)(m.dst) == Delivers(m, regs, mem))
    && (forall r: Reg, regs: Regs, mem: Memory :: r !in Dsts(moves) && r != R10 && r != R11 && r != XMM15
         ==> Exec(code, regs, mem)(r) == regs(r))
  }

  /** What holds between iterations: all debts are covered, and nothing else has changed. */
  ghost predicate Covered(moves: seq<Move>, pending: seq<Move>, code: seq<Inst>) {
    && (forall m, regs: Regs, mem: Memory :: m in moves
         ==> Owed(pending, m.dst, Delivers(m, regs, mem), Exec(code, regs, mem), mem))
    && (forall r: Reg, regs: Regs, mem: Memory :: r !in Dsts(moves) && r != R10 && r != R11 && r != XMM15
         ==> Exec(code, regs, mem)(r) == regs(r))
  }

  /** The load instruction kept for each destination is the one of its move. */
  ghost predicate LoadsKnown(pending: seq<Move>, loads: map<Reg, nat>) {
    forall m :: m in pending && m.src == MEMORY ==> m.dst in loads && loads[m.dst] == m.inst
  }

  const BANK := Bank(MOV, MOVSD, 16, 32)

  /** Copies stay within the integer or within the float registers, with opcodes that suit them. */
  ghost predicate ClassyMoves(moves: seq<Move>) {
    forall m :: m in moves && m.src != MEMORY ==> Suits(BANK, m.opcode, m.dst, m.src)
  }

  ghost predicate ClassyCode(code: seq<Inst>) {
    forall i :: i in code && i.Copy? ==> Suits(BANK, i.opcode, i.dst, i.src)
  }

  /** Every copy has the opcode of a move to the same place, or saves a register in a scratch. */
  ghost predicate OwnOpcodes(moves: seq<Move>, code: seq<Inst>) {
    forall i :: i in code && i.Copy? ==> i.dst in {R10, R11, XMM15} || HasMove(moves, i.dst, i.opcode)
  }

  ghost predicate HasMove(moves: seq<Move>, dst: Reg, opcode: nat) {
    exists m :: m in moves && m.dst == dst && m.opcode == opcode
  }

  ghost predicate OwnMoves(moves: seq<Move>, pending: seq<Move>) {
    forall m :: m in pending ==> HasMove(moves, m.dst, m.opcode)
  }

  /** The iterations still allowed suffice: two per move, one less when a move is safe. */
  ghost predicate EnoughLeft(pending: seq<Move>, limit: nat) {
    limit >= 2 * |pending| - (if SafeIndex(pending).Some? then 1 else 0)
  }

  method CollectLoads(moves: seq<Move>) returns (loads: map<Reg, nat>)
    requires DistinctDsts(moves)
    ensures LoadsKnown(moves, loads)
  {
    loads := map[];
    for k := 0 to |moves|
      invariant forall i :: 0 <= i < k && moves[i].src == MEMORY
                 ==> moves[i].dst in loads && loads[moves[i].dst] == moves[i].inst
    {
      if moves[k].src == MEMORY {
        loads := loads[moves[k].dst := moves[k].inst];
      }
    }
  }

  /** What holds whenever the loop looks for a safe move. */
  ghost predicate LoopInvariant(moves: seq<Move>, pending: seq<Move>, resolved: seq<Inst>, loads: map<Reg, nat>) {
    && DistinctDsts(pending) && Dsts(pending) <= Dsts(moves)
    && LoadsKnown(pending, loads) && Covered(moves, pending, resolved)
    && (ClassyMoves(moves) ==> ClassyMoves(pending) && ClassyCode(resolved))
    && OwnMoves(moves, pending) && OwnOpcodes(moves, resolved)
  }

  /** Emit the safe move at `idx`. */
  method EmitSafe(ghost moves: seq<Move>, pending0: seq<Move>, resolved0: seq<Inst>, loads: map<Reg, nat>, idx: nat)
    returns (pending: seq<Move>, resolved: seq<Inst>)
    requires LoopInvariant(moves, pending0, resolved0, loads)
    requires idx < |pending0| && pending0[idx].dst !in NeededSrcs(pending0)
    ensures LoopInvariant(moves, pending, resolved, loads) && |pending| == |pending0| - 1
  {
    hide Covered, LoadsKnown, ClassyMoves, ClassyCode, OwnOpcodes, OwnMoves, DistinctDsts, Dsts, NeededSrcs;
    var m := pending0[idx];
    pending := pending0[..idx] + pending0[idx + 1..];
    if m.src == MEMORY {
      LoadIsKnown(pending0, loads, m);
    }
    var inst := if m.src == MEMORY then Load(m.dst, loads[m.dst]) else Copy(m.opcode, m.dst, m.src);
    resolved := resolved0 + [inst];
    SafeStep(moves, pending0, resolved0, idx, inst);
    SafeKeepsRest(pending0, resolved0, idx, inst, loads);
    SafeKeepsOpcodes(moves, pending0, resolved0, idx, inst);
  }

  /** Save the source of the first pending copy in a scratch and redirect its readers. */
  method BreakCycle(moves: seq<Move>, pending0: seq<Move>, resolved0: seq<Inst>, ghost loads: map<Reg, nat>)
    returns (pending: seq<Move>, resolved: seq<Inst>)
    requires ProperMoves(moves) && LoopInvariant(moves, pending0, resolved0, loads) && pending0 != [] && Stuck(pending0)
    ensures LoopInvariant(moves, pending, resolved, loads) && |pending| == |pending0| && SafeIndex(pending).Some?
  {
    hide Covered, LoadsKnown, ClassyMoves, ClassyCode, OwnOpcodes, OwnMoves, ProperMoves;
    var cycle := pending0[FirstRegMove(pending0)];
    StuckIsPermutation(pending0);
    assert cycle in pending0;
    hide DistinctDsts, Stuck, Dsts;
    var isFloat := cycle.opcode == MOVSD || 16 <= cycle.src < 32;
    var scratch := if isFloat then XMM15 else IntScratch(Dsts(moves) + Dsts(pending0));
    resolved := resolved0 + [Copy(if isFloat then MOVSD else MOV, scratch, cycle.src)];
    pending := Redirect(pending0, cycle.src, scratch);
    BreakStep(moves, pending0, resolved0, cycle, scratch, if isFloat then MOVSD else MOV);
    BreakKeepsRest(pending0, resolved0, cycle, scratch, loads);
    BreakKeepsOpcodes(moves, pending0, resolved0, cycle.src, scratch, if isFloat then MOVSD else MOV);
  }

  /** The resolved sequence performs all moves at once; the iteration cap never ends the loop. */
  method ResolveParamMoves(moves: seq<Move>) returns (resolved: seq<Inst>)
    requires ProperMoves(moves)
    ensures Simultaneous(moves, resolved)
    ensures OwnOpcodes(moves, resolved) && (ClassyMoves(moves) ==> ClassyCode(resolved))
  {
    var loads := CollectLoads(moves);
    resolved := [];
    var pending := DropSelfMoves(moves);
    StartsCovered(moves, loads);
    hide LoopInvariant, Simultaneous, ProperMoves;
    var limit: nat := |pending| * |pending| + 10;
    while pending != [] && limit > 0
      invariant LoopInvariant(moves, pending, resolved, loads) && EnoughLeft(pending, limit)
      decreases limit
    {
      limit := limit - 1;
      var safe := SafeIndex(pending);
      if safe.Some? {
        pending, resolved := EmitSafe(moves, pending, resolved, loads, safe.value);
      } else {
        pending, resolved := BreakCycle(moves, pending, resolved, loads);
      }
    }
    EndsSettled(moves, resolved, loads);
  }

  lemma {:induction false} StartsCovered(moves: seq<Move>, loads: map<Reg, nat>)
    requires ProperMoves(moves) && LoadsKnown(moves, loads)
    ensures var pending := DropSelfMoves(moves);
      LoopInvariant(moves, pending, [], loads) && EnoughLeft(pending, |pending| * |pending| + 10)
  {
    StartClassy(moves, loads);
    DropSelfKeepsDistinct(moves);
    StartCovered(moves);
  }

  lemma {:induction false} EndsSettled(moves: seq<Move>, resolved: seq<Inst>, loads: map<Reg, nat>)
    requires LoopInvariant(moves, [], resolved, loads)
    ensures Simultaneous(moves, resolved) && OwnOpcodes(moves, resolved)
    ensures ClassyMoves(moves) ==> ClassyCode(resolved)
  {
    hide Covered, Simultaneous;
    AllSettled(moves, resolved);
  }

  lemma {:induction false} LoadIsKnown(pending: seq<Move>, loads: map<Reg, nat>, m: Move)
    requires LoadsKnown(pending, loads) && m in pending && m.src == MEMORY
    ensures m.dst in loads && loads[m.dst] == m.inst
  {
  }

  lemma {:induction false} StartClassy(moves: seq<Move>, loads: map<Reg, nat>)
    requires LoadsKnown(moves, loads)
    ensures LoadsKnown(DropSelfMoves(moves), loads)
    ensures ClassyMoves(moves) ==> ClassyMoves(DropSelfMoves(moves))
    ensures ClassyCode([]) && OwnMoves(moves, DropSelfMoves(moves)) && OwnOpcodes(moves, [])
  {
  }

  lemma {:induction false} SafeKeepsRest(pending: seq<Move>, code: seq<Inst>, idx: nat, inst: Inst,
                                         loads: map<Reg, nat>)
    requires idx < |pending| && LoadsKnown(pending, loads)
    requires inst.Copy? ==> pending[idx].src != MEMORY
                            && inst == Copy(pending[idx].opcode, pending[idx].dst, pending[idx].src)
    ensures LoadsKnown(Without(pending, idx), loads)
    ensures ClassyMoves(pending) ==> ClassyMoves(Without(pending, idx))
    ensures ClassyMoves(pending) && ClassyCode(code) ==> ClassyCode(code + [inst])
  {
    assert forall m :: m in Without(pending, idx) ==> m in pending;
    assert pending[idx] in pending;
  }

  lemma {:induction false} SafeKeepsOpcodes(moves: seq<Move>, pending: seq<Move>, code: seq<Inst>, idx: nat, inst: Inst)
    requires OwnMoves(moves, pending) && OwnOpcodes(moves, code) && idx < |pending|
    requires inst.Copy? ==> inst == Copy(pending[idx].opcode, pending[idx].dst, pending[idx].src)
    ensures OwnMoves(moves, Without(pending, idx)) && OwnOpcodes(moves, code + [inst])
  {
    hide HasMove;
    assert forall m :: m in Without(pending, idx) ==> m in pending;
    assert pending[idx] in pending;
  }

  lemma {:induction false} BreakKeepsOpcodes(moves: seq<Move>, pending: seq<Move>, code: seq<Inst>, src: Reg,
                                             scratch: Reg, opcode: nat)
    requires OwnMoves(moves, pending) && OwnOpcodes(moves, code) && scratch in {R10, R11, XMM15}
    ensures OwnMoves(moves, Redirect(pending, src, scratch)) && OwnOpcodes(moves, code + [Copy(opcode, scratch, src)])
  {
    hide HasMove;
    var after := Redirect(pending, src, scratch);
    forall m | m in after
      ensures HasMove(moves, m.dst, m.opcode)
    {
      var k :| 0 <= k < |after| && after[k] == m;
      assert pending[k] in pending;
    }
  }

  lemma {:induction false} BreakKeepsRest(pending: seq<Move>, code: seq<Inst>, cycle: Move, scratch: Reg,
                                          loads: map<Reg, nat>)
    requires LoadsKnown(pending, loads) && cycle in pending && cycle.src != MEMORY
    requires forall k :: 0 <= k < |pending| ==> pending[k].src != MEMORY
    requires scratch in {R10, R11, XMM15} && (scratch == XMM15 <==> cycle.opcode == MOVSD || InFloats(BANK, cycle.src))
    ensures LoadsKnown(Redirect(pending, cycle.src, scratch), loads)
    ensures ClassyMoves(pending) ==> ClassyMoves(Redirect(pending, cycle.src, scratch))
    ensures ClassyMoves(pending) && ClassyCode(code)
        ==> ClassyCode(code + [Copy(if scratch == XMM15 then MOVSD else MOV, scratch, cycle.src)])
  {
    var after := Redirect(pending, cycle.src, scratch);
    forall m | m in after
      ensures m.src == scratch || m in pending
      ensures m.src == scratch ==> m in pending || m.(src := cycle.src) in pending
    {
      var k :| 0 <= k < |after| && after[k] == m;
      assert pending[k] in pending;
    }
  }

  lemma {:induction false} StartCovered(moves: seq<Move>)
    requires ProperMoves(moves)
    ensures Covered(moves, DropSelfMoves(moves), [])
    ensures Dsts(DropSelfMoves(moves)) <= Dsts(moves)
    ensures EnoughLeft(DropSelfMoves(moves), |DropSelfMoves(moves)| * |DropSelfMoves(moves)| + 10)
  {
    var pending := DropSelfMoves(moves);
    DropSelfDsts(moves);
    forall m, regs: Regs, mem: Memory | m in moves
      ensures Owed(pending, m.dst, Delivers(m, regs, mem), Exec([], regs, mem), mem)
    {
      DropSelfKeepsOwed(moves, m, regs, mem);
    }
    forall r: Reg, regs: Regs, mem: Memory
      ensures Exec([], regs, mem)(r) == regs(r)
    {
    }
    CapIsAmple(|pending|);
  }

  lemma {:induction false} SafeStep(moves: seq<Move>, pending: seq<Move>, code: seq<Inst>, idx: nat, inst: Inst)
    requires DistinctDsts(pending) && Dsts(pending) <= Dsts(moves) && Covered(moves, pending, code)
    requires idx < |pending| && pending[idx].dst !in NeededSrcs(pending)
    requires inst == if pending[idx].src == MEMORY then Load(pending[idx].dst, pending[idx].inst)
                     else Copy(pending[idx].opcode, pending[idx].dst, pending[idx].src)
    ensures Covered(moves, Without(pending, idx), code + [inst])
    ensures DistinctDsts(Without(pending, idx)) && Dsts(Without(pending, idx)) <= Dsts(moves)
  {
    WithoutDistinct(pending, idx);
    DstsWithout(pending, idx);
    assert pending[idx].dst in Dsts(pending);
    forall m, regs: Regs, mem: Memory | m in moves
      ensures Owed(Without(pending, idx), m.dst, Delivers(m, regs, mem), Exec(code + [inst], regs, mem), mem)
    {
      ExecSnoc(code, inst, regs, mem);
      SafeMoveKeepsOwed(pending, idx, m.dst, Delivers(m, regs, mem), Exec(code, regs, mem),
                        Exec(code + [inst], regs, mem), mem);
    }
    forall r: Reg, regs: Regs, mem: Memory | r !in Dsts(moves) && r != R10 && r != R11 && r != XMM15
      ensures Exec(code + [inst], regs, mem)(r) == regs(r)
    {
      ExecSnoc(code, inst, regs, mem);
    }
  }

  lemma {:induction false} BreakStep(moves: seq<Move>, pending: seq<Move>, code: seq<Inst>, cycle: Move,
                                     scratch: Reg, opcode: nat)
    requires ProperMoves(moves) && DistinctDsts(pending) && Dsts(pending) <= Dsts(moves)
    requires Covered(moves, pending, code)
    requires Stuck(pending) && cycle in pending && cycle.src != MEMORY
    requires scratch == XMM15 || scratch == IntScratch(Dsts(moves) + Dsts(pending))
    ensures Covered(moves, Redirect(pending, cycle.src, scratch), code + [Copy(opcode, scratch, cycle.src)])
    ensures DistinctDsts(Redirect(pending, cycle.src, scratch))
    ensures Dsts(Redirect(pending, cycle.src, scratch)) <= Dsts(moves)
    ensures SafeIndex(Redirect(pending, cycle.src, scratch)).Some?
    ensures scratch in {R10, R11, XMM15} && scratch !in Dsts(moves)
  {
    ScratchIsFree(moves, pending, scratch);
    RedirectDsts(pending, cycle.src, scratch);
    CycleIsNeeded(pending, cycle);
    var k := BreakingFrees(pending, cycle.src, scratch);
    hide ProperMoves, Stuck, IntScratch;
    BreakCovers(moves, pending, code, cycle.src, scratch, opcode);
  }

  lemma {:induction false} CycleIsNeeded(pending: seq<Move>, cycle: Move)
    requires cycle in pending && cycle.src != MEMORY
    ensures cycle.src in NeededSrcs(pending)
  {
  }

  lemma {:induction false} BreakCovers(moves: seq<Move>, pending: seq<Move>, code: seq<Inst>, src: Reg, scratch: Reg,
                                       opcode: nat)
    requires DistinctDsts(pending) && Dsts(pending) <= Dsts(moves) && Covered(moves, pending, code)
    requires Stuck(pending) && src in NeededSrcs(pending)
    requires scratch in {R10, R11, XMM15} && scratch !in Dsts(moves)
    ensures Covered(moves, Redirect(pending, src, scratch), code + [Copy(opcode, scratch, src)])
  {
    var inst := Copy(opcode, scratch, src);
    forall m, regs: Regs, mem: Memory | m in moves
      ensures Owed(Redirect(pending, src, scratch), m.dst, Delivers(m, regs, mem), Exec(code + [inst], regs, mem), mem)
    {
      ExecSnoc(code, inst, regs, mem);
      BreakKeepsOwed(pending, src, scratch, m.dst, Delivers(m, regs, mem), Exec(code, regs, mem),
                     Exec(code + [inst], regs, mem), mem);
    }
    forall r: Reg, regs: Regs, mem: Memory | r !in Dsts(moves) && r != R10 && r != R11 && r != XMM15
      ensures Exec(code + [inst], regs, mem)(r) == regs(r)
    {
      ExecSnoc(code, inst, regs, mem);
    }
  }

  /** The scratch is never a destination: R11 is always left over for integers, XMM15 for floats. */
  lemma {:induction false} ScratchIsFree(moves: seq<Move>, pending: seq<Move>, scratch: Reg)
    requires ProperMoves(moves) && Dsts(pending) <= Dsts(moves)
    requires scratch == XMM15 || scratch == IntScratch(Dsts(moves) + Dsts(pending))
    ensures scratch in {R10, R11, XMM15} && scratch !in Dsts(moves)
    ensures scratch != XMM15 ==> (scratch == R11 <==> R10 in Dsts(moves))
    ensures DistinctDsts(pending) && Stuck(pending) ==> scratch !in NeededSrcs(pending)
  {
    if DistinctDsts(pending) && Stuck(pending) {
      StuckIsPermutation(pending);
    }
    if R11 in Dsts(moves) {
      var i := FindDst(moves, R11);
    }
    if XMM15 in Dsts(moves) {
      var i := FindDst(moves, XMM15);
    }
  }

  lemma {:induction false} AllSettled(moves: seq<Move>, code: seq<Inst>)
    requires Covered(moves, [], code)
    ensures Simultaneous(moves, code)
  {
    forall m, regs: Regs, mem: Memory | m in moves
      ensures Exec(code, regs, mem)(m.dst) == Delivers(m, regs, mem)
    {
      assert Owed([], m.dst, Delivers(m, regs, mem), Exec(code, regs, mem), mem);
    }
  }
}
