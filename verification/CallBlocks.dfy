/** Where the resolver looks for the set-up of a call: the marked instructions right before it.  Reloads are
    marked like the instruction they serve, and a call is not. */
module CallBlocks {
  import opened Wrappers
  import opened SpillRewriting
  import opened CallArguments

  /** `marks` says which instructions of a block are set-up; the search goes back from the call. */
  function SetupStart(marks: seq<bool>, call: nat): nat
    requires call <= |marks|
  {
    if call == 0 || !marks[call - 1] then call else SetupStart(marks, call - 1)
  }

  /** All from the start found to the call is marked, and what is before is not. */
  lemma {:induction false} SetupIsMaximal(marks: seq<bool>, call: nat, start: nat)
    requires start <= call <= |marks|
    ensures start == SetupStart(marks, call)
       <==> (forall k :: start <= k < call ==> marks[k]) && (start > 0 ==> !marks[start - 1])
    decreases call
  {
    if call > 0 && marks[call - 1] {
      if start < call {
        SetupIsMaximal(marks, call - 1, start);
      }
    }
    StartIsBefore(marks, call);
  }

  lemma {:induction false} StartIsBefore(marks: seq<bool>, call: nat)
    requires call <= |marks|
    ensures SetupStart(marks, call) <= call
    ensures SetupStart(marks, call) == call <==> call == 0 || !marks[call - 1]
    decreases call
  {
    if call > 0 && marks[call - 1] {
      StartIsBefore(marks, call - 1);
    }
  }

  method FindSetup(marks: seq<bool>, call: nat) returns (start: nat)
    requires call <= |marks|
    ensures start <= call && (forall k :: start <= k < call ==> marks[k]) && (start > 0 ==> !marks[start - 1])
    ensures start == SetupStart(marks, call)
  {
    start := call;
    while start > 0
      invariant start <= call && SetupStart(marks, start) == SetupStart(marks, call)
      invariant forall k :: start <= k < call ==> marks[k]
    {
      if !marks[start - 1] {
        break;
      }
      start := start - 1;
    }
  }

  // ---- marks of rewritten code ----

  function Same(mark: bool, n: nat): (marks: seq<bool>)
    ensures |marks| == n && forall k :: 0 <= k < n ==> marks[k] == mark
  {
    seq(n, k requires 0 <= k < n => mark)
  }

  function Reloads(plan: Plan, inst: MachineInst): nat
    requires Mapped(plan, inst)
  {
    |RewriteUpTo(plan, inst, |inst.operands|).code|
  }

  /** Reloads and the instruction bear its mark, the store of a spilled result bears none. */
  function Marks(plan: Plan, inst: MachineInst, mark: bool): (marks: seq<bool>)
    requires Mapped(plan, inst)
    ensures |marks| == |Rewritten(plan, inst)| && Reloads(plan, inst) < |marks|
    ensures forall k :: 0 <= k < Reloads(plan, inst) ==> marks[k] == mark
  {
    Same(mark, Reloads(plan, inst) + 1) + Same(false, |StoreBack(plan, inst)|)
  }

  function SetupMarks(plan: Plan, setup: seq<MachineInst>): seq<bool>
    requires forall i :: i in setup ==> Mapped(plan, i)
  {
    if setup == [] then [] else SetupMarks(plan, setup[..|setup| - 1]) + Marks(plan, setup[|setup| - 1], true)
  }

  /** One mark for every instruction of the rewritten set-up. */
  lemma {:induction false} MarksMatch(plan: Plan, setup: seq<MachineInst>)
    requires forall i :: i in setup ==> Mapped(plan, i)
    ensures |SetupMarks(plan, setup)| == |RewrittenAll(plan, setup)|
  {
    hide Mapped, Rewritten, Marks;
    if setup != [] {
      MarksMatch(plan, setup[..|setup| - 1]);
    }
  }

  lemma {:induction false} SetupIsMarked(plan: Plan, setup: seq<MachineInst>)
    requires forall i :: i in setup ==> Mapped(plan, i) && SpilledResult(plan, i).None?
    ensures forall k :: 0 <= k < |SetupMarks(plan, setup)| ==> SetupMarks(plan, setup)[k]
  {
    hide Mapped, SpilledResult;
    if setup != [] {
      SetupIsMarked(plan, setup[..|setup| - 1]);
      assert StoreBack(plan, setup[|setup| - 1]) == [];
    }
  }

  /** Marked instructions behind unmarked ones are found as a whole exactly if nothing unmarked comes
      between them and the call. */
  lemma {:induction false} FoundUnlessCutOff(before: seq<bool>, inner: seq<bool>, last: seq<bool>, n: nat)
    requires n < |last| && inner != [] && forall k :: 0 <= k < |inner| ==> inner[k]
    requires forall k :: 0 <= k < n ==> !last[k]
    requires before == [] || !before[|before| - 1]
    ensures SetupStart(before + inner + last, |before| + |inner| + n)
         == if n == 0 then |before| else |before| + |inner| + n
  {
    hide SetupStart;
    var marks, position := before + inner + last, |before| + |inner| + n;
    if n > 0 {
      StartIsBefore(marks, position);
      assert marks[position - 1] == last[n - 1];
    } else {
      SetupIsMaximal(marks, position, |before|);
      assert forall k :: |before| <= k < position ==> marks[k] == inner[k - |before|];
      assert before != [] ==> marks[|before| - 1] == before[|before| - 1];
    }
  }

  /** Set-up that writes no spilled value is found as a whole exactly if the call needs no reload;
      otherwise none of it is found. */
  lemma {:induction false} SetupFoundExactly(plan: Plan, before: seq<bool>, setup: seq<MachineInst>, call: MachineInst)
    requires Mapped(plan, call) && setup != []
    requires forall i :: i in setup ==> Mapped(plan, i) && SpilledResult(plan, i).None?
    requires before == [] || !before[|before| - 1]
    ensures var marks := before + SetupMarks(plan, setup) + Marks(plan, call, false);
      var position := |before| + |SetupMarks(plan, setup)| + Reloads(plan, call);
      SetupStart(marks, position) == if Reloads(plan, call) == 0 then |before| else position
  {
    SetupIsMarked(plan, setup);
    SomeMarks(plan, setup);
    hide *;
    FoundUnlessCutOff(before, SetupMarks(plan, setup), Marks(plan, call, false), Reloads(plan, call));
  }

  lemma {:induction false} SomeMarks(plan: Plan, setup: seq<MachineInst>)
    requires setup != [] && forall i :: i in setup ==> Mapped(plan, i)
    ensures |SetupMarks(plan, setup)| > 0
  {
    hide Mapped;
  }

  /** Calls name no result. */
  lemma {:induction false} ReloadsExactly(plan: Plan, call: MachineInst, k: nat)
    requires Mapped(plan, call) && call.result == None && k <= |call.operands|
    ensures RewriteUpTo(plan, call, k).code == []
       <==> forall i :: 0 <= i < k ==> !(call.operands[i].Virtual? && call.operands[i].v in plan.slotOf)
    ensures RewriteUpTo(plan, call, k).code == []
            ==> !RewriteUpTo(plan, call, k).intUsed && !RewriteUpTo(plan, call, k).floatUsed
  {
    if k > 0 {
      ReloadsExactly(plan, call, k - 1);
      assert RewriteUpTo(plan, call, k)
          == RewriteOperand(RewriteUpTo(plan, call, k - 1), plan, None, call.operands[k - 1]);
    }
  }

  const CALL: nat := 1

  function ThroughValue(callee: Operand): MachineInst {
    MachineInst(CALL, None, false, [callee], [], {})
  }

  /** The set-up of a call through a value is found exactly if the value is not spilled. */
  lemma {:induction false} SpilledCalleeExactly(plan: Plan, before: seq<bool>, setup: seq<MachineInst>, callee: VReg)
    requires MappedOperand(plan, Virtual(callee)) && setup != []
    requires forall i :: i in setup ==> Mapped(plan, i) && SpilledResult(plan, i).None?
    requires before == [] || !before[|before| - 1]
    ensures var call := ThroughValue(Virtual(callee));
      var marks := before + SetupMarks(plan, setup) + Marks(plan, call, false);
      var position := |before| + |SetupMarks(plan, setup)| + Reloads(plan, call);
      SetupStart(marks, position) == if callee in plan.slotOf then position else |before|
  {
    var call := ThroughValue(Virtual(callee));
    assert call.operands[0] == Virtual(callee);
    ReloadsExactly(plan, call, 1);
    assert Reloads(plan, call) == 0 <==> callee !in plan.slotOf;
    hide *;
    SetupFoundExactly(plan, before, setup, call);
  }

  // ---- what set-up that is not found loses ----

  const SWAP: seq<Setup> := [RegMove(7, 6, 0), RegMove(6, 7, 0)]

  /** Two arguments that change places: resolved they arrive, left as they are they do not. */
  lemma {:induction false} SwapNeedsResolving()
    ensures ProperSetup(SWAP, X86_64) && Arrives(SWAP, None, X86_64) && !Delivered(SWAP, Flatten(SWAP))
  {
    assert SWAP[0].dst == SWAP[1].src;
    assert !InOrder(SWAP, 2);
    assert Arrives(SWAP, None, X86_64);
    hide Delivered, Flatten, InOrder;
    OriginalOrderExactly(SWAP, X86_64);
  }
}
