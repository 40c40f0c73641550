/** Turning register copies that are meant to happen at once into a sequence.  What the parameter
    and the call-argument resolver share: pending moves, the meaning of emitted instructions, and
    the counting argument that a stuck set of moves is a permutation. */
module ParallelMoves {
  import opened Wrappers

  type Reg = nat

  /** Register contents. */
  type Regs = Reg -> int

  /** The source number that stands for "loaded from memory". */
  const MEMORY: Reg := 0xFFFF

  const MOV: nat := 0
  const MOVSD: nat := 86

  /** `dst` is to receive the old value of `src`, or what load instruction `inst` reads. */
  datatype Move = Move(dst: Reg, src: Reg, opcode: nat, inst: nat)

  /** Emitted code: a register copy, a load that reads no register, and an instruction that turns the
      value of one register into that of another (a copy, or a load through an address). */
  datatype Inst = Copy(opcode: nat, dst: Reg, src: Reg)
                | Load(dst: Reg, key: nat)
                | Through(dst: Reg, src: Reg, key: nat)

  /** What the instructions read besides registers. */
  datatype Memory = Memory(loaded: nat -> int, through: (nat, int) -> int)

  ghost function Exec1(i: Inst, regs: Regs, mem: Memory): Regs {
    match i
    case Copy(_, dst, src) => ((r: Reg) => if r == dst then regs(src) else regs(r))
    case Load(dst, key) => ((r: Reg) => if r == dst then mem.loaded(key) else regs(r))
    case Through(dst, src, key) => ((r: Reg) => if r == dst then mem.through(key, regs(src)) else regs(r))
  }

  /** Register contents after a straight-line sequence. */
  ghost function Exec(code: seq<Inst>, regs: Regs, mem: Memory): Regs {
    if code == [] then regs else Exec1(code[|code| - 1], Exec(code[..|code| - 1], regs, mem), mem)
  }

  lemma {:induction false} ExecSnoc(code: seq<Inst>, i: Inst, regs: Regs, mem: Memory)
    ensures Exec(code + [i], regs, mem) == Exec1(i, Exec(code, regs, mem), mem)
  {
    assert (code + [i])[..|code + [i]| - 1] == code;
  }

  // ---- opcodes ----

  /** The opcodes for integers and for floats, and the range of the float registers. */
  datatype Bank = Bank(mov: nat, movfp: nat, from: Reg, to: Reg)

  predicate InFloats(b: Bank, r: Reg) {
    b.from <= r < b.to
  }

  /** The copy stays within the integer or within the float registers, and its opcode is not one that is
      meant for the others. */
  predicate Suits(b: Bank, opcode: nat, dst: Reg, src: Reg) {
    && (InFloats(b, dst) <==> InFloats(b, src))
    && (opcode == b.movfp ==> InFloats(b, src)) && (opcode == b.mov ==> !InFloats(b, src))
  }

  // ---- pending moves ----

  ghost predicate DistinctDsts(moves: seq<Move>) {
    forall i, j :: 0 <= i < j < |moves| ==> moves[i].dst != moves[j].dst
  }

  function Dsts(moves: seq<Move>): (dsts: set<Reg>)
    ensures forall i :: 0 <= i < |moves| ==> moves[i].dst in dsts
  {
    if moves == [] then {} else Dsts(moves[..|moves| - 1]) + {moves[|moves| - 1].dst}
  }

  /** The registers some pending move still has to read. */
  function NeededSrcs(moves: seq<Move>): (srcs: set<Reg>)
    ensures forall i :: 0 <= i < |moves| && moves[i].src != MEMORY ==> moves[i].src in srcs
    ensures MEMORY !in srcs
  {
    if moves == [] then {}
    else
      var last := moves[|moves| - 1];
      NeededSrcs(moves[..|moves| - 1]) + if last.src != MEMORY then {last.src} else {}
  }

  lemma {:induction false} FindDst(moves: seq<Move>, r: Reg) returns (i: nat)
    requires r in Dsts(moves)
    ensures i < |moves| && moves[i].dst == r
  {
    if moves[|moves| - 1].dst == r {
      i := |moves| - 1;
    } else {
      i := FindDst(moves[..|moves| - 1], r);
    }
  }

  lemma {:induction false} FindSrc(moves: seq<Move>, r: Reg) returns (i: nat)
    requires r in NeededSrcs(moves)
    ensures i < |moves| && moves[i].src == r
  {
    if moves[|moves| - 1].src == r {
      i := |moves| - 1;
    } else {
      i := FindSrc(moves[..|moves| - 1], r);
    }
  }

  /** First move whose destination nobody needs. */
  function SafeIndex(moves: seq<Move>): (idx: Option<nat>)
    ensures idx.Some? ==> idx.value < |moves| && moves[idx.value].dst !in NeededSrcs(moves)
    ensures idx.Some? ==> forall i :: 0 <= i < idx.value ==> moves[i].dst in NeededSrcs(moves)
    ensures idx.None? ==> forall i :: 0 <= i < |moves| ==> moves[i].dst in NeededSrcs(moves)
  {
    FirstOutside(moves, NeededSrcs(moves), 0)
  }

  function FirstOutside(moves: seq<Move>, needed: set<Reg>, from: nat): (idx: Option<nat>)
    requires from <= |moves|
    ensures idx.Some? ==> from <= idx.value < |moves| && moves[idx.value].dst !in needed
    ensures idx.Some? ==> forall i :: from <= i < idx.value ==> moves[i].dst in needed
    ensures idx.None? ==> forall i :: from <= i < |moves| ==> moves[i].dst in needed
    decreases |moves| - from
  {
    if from == |moves| then None
    else if moves[from].dst !in needed then Some(from)
    else FirstOutside(moves, needed, from + 1)
  }

  function Without(moves: seq<Move>, idx: nat): seq<Move>
    requires idx < |moves|
  {
    moves[..idx] + moves[idx + 1..]
  }

  /** Redirect every read of `from` to `to`. */
  function Redirect(moves: seq<Move>, from: Reg, to: Reg): (r: seq<Move>)
    ensures |r| == |moves|
    ensures forall i :: 0 <= i < |moves| ==>
      r[i] == if moves[i].src == from then moves[i].(src := to) else moves[i]
  {
    seq(|moves|, i requires 0 <= i < |moves| => if moves[i].src == from then moves[i].(src := to) else moves[i])
  }

  function DropSelfMoves(moves: seq<Move>): (r: seq<Move>)
    ensures forall m :: m in r <==> m in moves && m.dst != m.src
    ensures |r| <= |moves|
  {
    if moves == [] then []
    else
      var front := DropSelfMoves(moves[..|moves| - 1]);
      var last := moves[|moves| - 1];
      assert moves == moves[..|moves| - 1] + [last];
      if last.dst == last.src then front else front + [last]
  }

  lemma {:induction false} DropSelfKeepsDistinct(moves: seq<Move>)
    requires DistinctDsts(moves)
    ensures DistinctDsts(DropSelfMoves(moves))
  {
    if moves != [] {
      var front, last := moves[..|moves| - 1], moves[|moves| - 1];
      DropSelfKeepsDistinct(front);
      forall i | 0 <= i < |DropSelfMoves(front)|
        ensures DropSelfMoves(front)[i].dst != last.dst
      {
        assert DropSelfMoves(front)[i] in front;
      }
    }
  }

  // ---- the counting argument ----

  lemma {:induction false} DstsCount(moves: seq<Move>)
    requires DistinctDsts(moves)
    ensures |Dsts(moves)| == |moves|
  {
    if moves != [] {
      var front, last := moves[..|moves| - 1], moves[|moves| - 1];
      DstsCount(front);
      if last.dst in Dsts(front) {
        var i := FindDst(front, last.dst);
      }
    }
  }

  lemma {:induction false} SrcsCount(moves: seq<Move>)
    ensures |NeededSrcs(moves)| <= |moves|
  {
    if moves != [] {
      SrcsCount(moves[..|moves| - 1]);
    }
  }

  /** Every other move survives a removal, and nothing else does. */
  lemma {:induction false} WithoutAt(moves: seq<Move>, k: nat, i: nat)
    requires k < |moves| && i < |moves| && i != k
    ensures moves[i] in Without(moves, k)
  {
    assert Without(moves, k)[if i < k then i else i - 1] == moves[i];
  }

  lemma {:induction false} WithoutFrom(moves: seq<Move>, k: nat, i: nat) returns (j: nat)
    requires k < |moves| && i < |Without(moves, k)|
    ensures j < |moves| && j != k && Without(moves, k)[i] == moves[j]
  {
    j := if i < k then i else i + 1;
  }

  lemma {:induction false} SrcsWithout(moves: seq<Move>, k: nat)
    requires k < |moves|
    ensures NeededSrcs(moves) == NeededSrcs(Without(moves, k)) + if moves[k].src == MEMORY then {} else {moves[k].src}
  {
    forall r
      ensures r in NeededSrcs(moves) <==> r in NeededSrcs(Without(moves, k)) || (r == moves[k].src && r != MEMORY)
    {
      SrcWithout(moves, k, r);
    }
  }

  lemma {:induction false} SrcWithout(moves: seq<Move>, k: nat, r: Reg)
    requires k < |moves|
    ensures r in NeededSrcs(moves) <==> r in NeededSrcs(Without(moves, k)) || (r == moves[k].src && r != MEMORY)
  {
    var rest := Without(moves, k);
    if r in NeededSrcs(moves) {
      var i := FindSrc(moves, r);
      if i != k {
        WithoutAt(moves, k, i);
      }
    }
    if r in NeededSrcs(rest) {
      var i := FindSrc(rest, r);
      var j := WithoutFrom(moves, k, i);
    }
  }

  lemma {:induction false} DstsWithout(moves: seq<Move>, k: nat)
    requires k < |moves| && DistinctDsts(moves)
    ensures Dsts(Without(moves, k)) == Dsts(moves) - {moves[k].dst}
  {
    forall r
      ensures r in Dsts(Without(moves, k)) <==> r in Dsts(moves) && r != moves[k].dst
    {
      DstWithout(moves, k, r);
    }
  }

  lemma {:induction false} DstWithout(moves: seq<Move>, k: nat, r: Reg)
    requires k < |moves| && DistinctDsts(moves)
    ensures r in Dsts(Without(moves, k)) <==> r in Dsts(moves) && r != moves[k].dst
  {
    var rest := Without(moves, k);
    if r in Dsts(moves) && r != moves[k].dst {
      var i := FindDst(moves, r);
      WithoutAt(moves, k, i);
    }
    if r in Dsts(rest) {
      var i := FindDst(rest, r);
      var j := WithoutFrom(moves, k, i);
    }
  }

  lemma {:induction false} WithoutDistinct(moves: seq<Move>, k: nat)
    requires k < |moves| && DistinctDsts(moves)
    ensures DistinctDsts(Without(moves, k))
  {
  }

  lemma {:induction false} RedirectDsts(moves: seq<Move>, from: Reg, to: Reg)
    ensures Dsts(Redirect(moves, from, to)) == Dsts(moves)
    ensures DistinctDsts(moves) ==> DistinctDsts(Redirect(moves, from, to))
  {
    var after := Redirect(moves, from, to);
    forall r | r in Dsts(moves)
      ensures r in Dsts(after)
    {
      var i := FindDst(moves, r);
      assert after[i].dst == r;
    }
    forall r | r in Dsts(after)
      ensures r in Dsts(moves)
    {
      var i := FindDst(after, r);
      assert moves[i].dst == r;
    }
  }

  lemma {:induction false} SubsetEqual(a: set<Reg>, b: set<Reg>)
    requires a <= b && |b| <= |a|
    ensures a == b
  {
    assert b == a + (b - a);
    assert |b| == |a| + |b - a|;
  }

  ghost predicate Stuck(moves: seq<Move>) {
    forall i :: 0 <= i < |moves| ==> moves[i].dst in NeededSrcs(moves)
  }

  /** When no move is safe the pending moves are a permutation: sources and destinations are the same
      registers, each read exactly once, and no load is among them. */
  lemma {:induction false} StuckIsPermutation(moves: seq<Move>)
    requires DistinctDsts(moves) && Stuck(moves)
    ensures NeededSrcs(moves) == Dsts(moves)
    ensures forall k :: 0 <= k < |moves| ==> moves[k].src != MEMORY
    ensures forall i, j :: 0 <= i < j < |moves| ==> moves[i].src != moves[j].src
  {
    DstsCount(moves);
    SrcsCount(moves);
    forall r | r in Dsts(moves)
      ensures r in NeededSrcs(moves)
    {
      var i := FindDst(moves, r);
    }
    SubsetEqual(Dsts(moves), NeededSrcs(moves));
    forall k | 0 <= k < |moves|
      ensures moves[k].src != MEMORY && moves[k].src !in NeededSrcs(Without(moves, k))
    {
      StuckNeedsEach(moves, k);
    }
    forall i, j | 0 <= i < j < |moves|
      ensures moves[i].src != moves[j].src
    {
      assert Without(moves, j)[i] == moves[i];
    }
  }

  lemma {:induction false} StuckNeedsEach(moves: seq<Move>, k: nat)
    requires k < |moves| && |NeededSrcs(moves)| == |moves|
    ensures moves[k].src != MEMORY && moves[k].src !in NeededSrcs(Without(moves, k))
  {
    SrcsWithout(moves, k);
    SrcsCount(Without(moves, k));
  }

  /** Saving one source of a stuck set to a register outside it frees that source. */
  lemma {:induction false} BreakingFrees(moves: seq<Move>, src: Reg, scratch: Reg) returns (k: nat)
    requires DistinctDsts(moves) && Stuck(moves) && src in NeededSrcs(moves) && scratch !in Dsts(moves)
    ensures var after := Redirect(moves, src, scratch);
      k < |after| && after[k].dst == src && src !in NeededSrcs(after)
  {
    StuckIsPermutation(moves);
    var after := Redirect(moves, src, scratch);
    k := FindDst(moves, src);
    if src in NeededSrcs(after) {
      var i := FindSrc(after, src);
    }
  }

  /** The cap on the rounds of a resolver is no less than two rounds a move. */
  lemma {:induction false} CapIsAmple(n: nat)
    ensures n * n + 10 >= 2 * n
  {
    assert (n - 1) * (n - 1) >= 0;
  }

  // ---- what is still owed ----

  /** The value a move delivers if executed now. */
  ghost function Delivers(m: Move, regs: Regs, mem: Memory): int {
    if m.src == MEMORY then mem.loaded(m.inst) else regs(m.src)
  }

  /** Register `dst` either has a pending move that will deliver `value`, or holds it already. */
  ghost predicate Owed(pending: seq<Move>, dst: Reg, value: int, regs: Regs, mem: Memory) {
    && (forall k :: 0 <= k < |pending| && pending[k].dst == dst ==> Delivers(pending[k], regs, mem) == value)
    && (dst !in Dsts(pending) ==> regs(dst) == value)
  }

  /** Executing a safe move settles its destination and leaves every other debt as it was. */
  lemma {:induction false} SafeMoveKeepsOwed(pending: seq<Move>, idx: nat, dst: Reg, value: int, before: Regs,
                                             after: Regs, mem: Memory)
    requires DistinctDsts(pending) && idx < |pending| && pending[idx].dst !in NeededSrcs(pending)
    requires Owed(pending, dst, value, before, mem)
    requires forall r :: after(r) == if r == pending[idx].dst then Delivers(pending[idx], before, mem) else before(r)
    ensures Owed(Without(pending, idx), dst, value, after, mem)
  {
    var rest := Without(pending, idx);
    forall k | 0 <= k < |rest| && rest[k].dst == dst
      ensures Delivers(rest[k], after, mem) == value
    {
      assert rest[k] == pending[if k < idx then k else k + 1];
    }
    DstsWithout(pending, idx);
  }

  /** Saving a source to a register outside a stuck set leaves every debt as it was. */
  lemma {:induction false} BreakKeepsOwed(pending: seq<Move>, src: Reg, scratch: Reg, dst: Reg, value: int,
                       before: Regs, after: Regs, mem: Memory)
    requires DistinctDsts(pending) && Stuck(pending) && src in NeededSrcs(pending)
    requires scratch !in Dsts(pending) && scratch != MEMORY && dst != scratch
    requires Owed(pending, dst, value, before, mem)
    requires forall r :: after(r) == if r == scratch then before(src) else before(r)
    ensures Owed(Redirect(pending, src, scratch), dst, value, after, mem)
  {
    StuckIsPermutation(pending);
    RedirectDsts(pending, src, scratch);
    var redirected := Redirect(pending, src, scratch);
    forall k | 0 <= k < |redirected| && redirected[k].dst == dst
      ensures Delivers(redirected[k], after, mem) == value
    {
      assert pending[k].src in NeededSrcs(pending);
      assert Delivers(pending[k], before, mem) == value;
    }
  }

  lemma {:induction false} DropSelfKeepsOwed(moves: seq<Move>, m: Move, regs: Regs, mem: Memory)
    requires DistinctDsts(moves) && m in moves && m.dst != MEMORY
    ensures Owed(DropSelfMoves(moves), m.dst, Delivers(m, regs, mem), regs, mem)
  {
    var pending := DropSelfMoves(moves);
    var i :| 0 <= i < |moves| && moves[i] == m;
    forall k | 0 <= k < |pending| && pending[k].dst == m.dst
      ensures pending[k] == m
    {
      assert pending[k] in moves;
    }
    if m.dst != m.src {
      assert m in pending;
    }
  }

  lemma {:induction false} DropSelfDsts(moves: seq<Move>)
    ensures Dsts(DropSelfMoves(moves)) <= Dsts(moves)
  {
    forall r | r in Dsts(DropSelfMoves(moves))
      ensures r in Dsts(moves)
    {
      var i := FindDst(DropSelfMoves(moves), r);
      assert DropSelfMoves(moves)[i] in moves;
    }
  }
}
