/** Recognising the units of a call set-up in the instruction stream: which instructions are register
    moves, and which load of a scratch register belongs with the move that follows it. */
module SetupPartition {
  import opened Wrappers
  import opened ParallelMoves
  import opened CallArguments

  datatype Operand = RegOp(reg: Reg) | MemOp(base: Option<Reg>) | OtherOp

  /** `key` names what the instruction reads or computes besides registers. */
  datatype RawInst = RawInst(opcode: nat, result: Option<Reg>, operands: seq<Operand>, key: nat)

  datatype Piece = Moved(inst: RawInst) | Single(inst: RawInst) | Pair(first: RawInst, second: RawInst)

  predicate IsRegMove(i: RawInst) {
    i.result.Some? && i.operands != [] && i.operands[0].RegOp?
  }

  predicate HasMemory(i: RawInst) {
    exists k :: 0 <= k < |i.operands| && i.operands[k].MemOp?
  }

  /** The register a load writes: its result, or on x86-64 its first operand. */
  function LoadDst(i: RawInst): Option<Reg> {
    if i.result.Some? then i.result
    else if |i.operands| >= 2 && i.operands[0].RegOp? then Some(i.operands[0].reg)
    else None
  }

  predicate ReadsOperand(i: RawInst, r: Reg) {
    exists k :: 0 <= k < |i.operands| && (i.operands[k] == RegOp(r) || i.operands[k] == MemOp(Some(r)))
  }

  /** A load of a spill scratch followed at once by an instruction that reads the scratch. */
  predicate FormsPair(a: RawInst, b: RawInst, abi: Abi) {
    && !IsRegMove(a) && HasMemory(a) && LoadDst(a).Some?
    && ReadsOperand(b, LoadDst(a).value) && b.result.Some?
    && LoadDst(a).value in Scratches(abi)
  }

  /** What the piece at `i` is and where the next one starts. */
  function NextPiece(raw: seq<RawInst>, i: nat, abi: Abi): (r: (Piece, nat))
    requires i < |raw|
    ensures i < r.1 <= |raw|
  {
    if IsRegMove(raw[i]) then (Moved(raw[i]), i + 1)
    else if i + 1 < |raw| && FormsPair(raw[i], raw[i + 1], abi) then (Pair(raw[i], raw[i + 1]), i + 2)
    else (Single(raw[i]), i + 1)
  }

  /** The pieces from position `i` on. */
  function PiecesFrom(raw: seq<RawInst>, i: nat, abi: Abi): seq<Piece>
    requires i <= |raw|
    decreases |raw| - i
  {
    if i == |raw| then [] else
      var (p, next) := NextPiece(raw, i, abi);
      [p] + PiecesFrom(raw, next, abi)
  }

  lemma {:induction false} Appended(raw: seq<RawInst>, i: nat, abi: Abi, pieces: seq<Piece>, whole: seq<Piece>)
    requires i < |raw| && pieces + PiecesFrom(raw, i, abi) == whole
    ensures var (p, next) := NextPiece(raw, i, abi); (pieces + [p]) + PiecesFrom(raw, next, abi) == whole
  {
    hide FormsPair, IsRegMove, NextPiece;
    var (p, next) := NextPiece(raw, i, abi);
    assert (pieces + [p]) + PiecesFrom(raw, next, abi) == pieces + ([p] + PiecesFrom(raw, next, abi));
  }

  /** The scan over the set-up, marking consumed instructions. */
  method Partition(raw: seq<RawInst>, abi: Abi) returns (pieces: seq<Piece>)
    ensures pieces == PiecesFrom(raw, 0, abi)
  {
    hide PiecesFrom, FormsPair, IsRegMove;
    pieces := [];
    var consumed: set<nat> := {};
    for idx := 0 to |raw|
      invariant forall c :: c in consumed ==> c <= idx && c < |raw|
      invariant pieces + PiecesFrom(raw, if idx in consumed then idx + 1 else idx, abi) == PiecesFrom(raw, 0, abi)
    {
      if idx in consumed {
        continue;
      }
      Appended(raw, idx, abi, pieces, PiecesFrom(raw, 0, abi));
      var inst := raw[idx];
      if IsRegMove(inst) {
        pieces := pieces + [Moved(inst)];
      } else {
        var next := NearestFree(consumed, idx + 1, |raw|);
        if next.Some? && FormsPair(inst, raw[next.value], abi) {
          consumed := consumed + {next.value};
          pieces := pieces + [Pair(inst, raw[next.value])];
        } else {
          pieces := pieces + [Single(inst)];
        }
      }
    }
    PiecesEnd(raw, abi);
    assert pieces + [] == pieces;
  }

  lemma {:induction false} PiecesEnd(raw: seq<RawInst>, abi: Abi)
    ensures PiecesFrom(raw, |raw|, abi) == []
  {
  }

  /** First position from `i` on that is not consumed. */
  function NearestFree(consumed: set<nat>, i: nat, n: nat): (j: Option<nat>)
    ensures j.Some? ==> i <= j.value < n && j.value !in consumed
    ensures i < n && i !in consumed ==> j == Some(i)
    decreases n - i
  {
    if i >= n then None else if i !in consumed then Some(i) else NearestFree(consumed, i + 1, n)
  }

  // ---- units as instructions ----

  /** The instruction reads no register as its first operand, so it is not taken for a move. */
  predicate NotFromRegister(i: RawInst) {
    i.operands == [] || !i.operands[0].RegOp?
  }

  /** Ways in which a scratch is loaded: named as the result, or as the first of two operands. */
  predicate LoadsScratch(i: RawInst, scratch: Reg) {
    && HasMemory(i)
    && if i.result.Some? then i.result.value == scratch && NotFromRegister(i)
       else |i.operands| >= 2 && i.operands[0] == RegOp(scratch)
  }

  /** What is pushed may also be the address of a symbol, which no load reads. */
  predicate FillsScratch(i: RawInst, scratch: Reg) {
    LoadsScratch(i, scratch) || (i.result == Some(scratch) && NotFromRegister(i))
  }

  /** The instructions by which the code generator may write a unit: a load of any kind, immediate,
      address or memory, is one that names its result and does not start with a register; a push names
      no result. */
  predicate Writes(u: Setup, raw: seq<RawInst>) {
    match u
    case RegMove(dst, src, opcode) =>
      && |raw| == 1 && raw[0].opcode == opcode && raw[0].result == Some(dst) && raw[0].operands != []
      && raw[0].operands[0] == RegOp(src)
    case Direct(dst, key) =>
      && |raw| == 1 && raw[0].key == key && NotFromRegister(raw[0])
      && raw[0].result == if IsPush(u) then None else Some(dst)
    case Indirect(dst, base, key) =>
      && |raw| == 1 && raw[0].key == key && NotFromRegister(raw[0]) && ReadsOperand(raw[0], base)
      && raw[0].result == if IsPush(u) then None else Some(dst)
    case Reload(dst, scratch, key, via) =>
      && |raw| == 2 && LoadsScratch(raw[0], scratch) && raw[0].key == key
      && raw[1].result == Some(dst) && ReadsOperand(raw[1], scratch) && raw[1].key == via
    case Push(dst, src) => |raw| == 1 && raw[0].result == None && raw[0].operands == [RegOp(src)]
    case PushLoaded(dst, scratch, key) =>
      && |raw| == 2 && FillsScratch(raw[0], scratch) && raw[0].key == key
      && raw[1].result == None && raw[1].operands == [RegOp(scratch)]
    case PushThrough(dst, scratch, base, key) =>
      && |raw| == 2 && LoadsScratch(raw[0], scratch) && raw[0].key == key && MemOp(Some(base)) in raw[0].operands
      && raw[1].result == None && raw[1].operands == [RegOp(scratch)]
  }

  /** How the scan ought to read a unit. */
  function PiecesOf(u: Setup, raw: seq<RawInst>): seq<Piece>
    requires Writes(u, raw)
  {
    match u
    case RegMove(_, _, _) => [Moved(raw[0])]
    case Direct(_, _) => [Single(raw[0])]
    case Indirect(_, _, _) => [Single(raw[0])]
    case Reload(_, _, _, _) => [Pair(raw[0], raw[1])]
    case Push(_, _) => [Single(raw[0])]
    case PushLoaded(_, _, _) => [Single(raw[0]), Single(raw[1])]
    case PushThrough(_, _, _, _) => [Single(raw[0]), Single(raw[1])]
  }

  ghost predicate AllWrite(us: seq<Setup>, parts: seq<seq<RawInst>>) {
    |parts| == |us| && forall k :: 0 <= k < |us| ==> Writes(us[k], parts[k])
  }

  /** The instruction stream from unit `i` on. */
  function Stream(parts: seq<seq<RawInst>>, i: nat): seq<RawInst>
    requires i <= |parts|
    decreases |parts| - i
  {
    if i == |parts| then [] else parts[i] + Stream(parts, i + 1)
  }

  function AllPieces(us: seq<Setup>, parts: seq<seq<RawInst>>, i: nat): seq<Piece>
    requires AllWrite(us, parts) && i <= |us|
    decreases |us| - i
  {
    if i == |us| then [] else PiecesOf(us[i], parts[i]) + AllPieces(us, parts, i + 1)
  }

  lemma {:induction false} ShiftPiece(front: seq<RawInst>, raw: seq<RawInst>, i: nat, abi: Abi)
    requires i < |raw|
    ensures var (p, next) := NextPiece(raw, i, abi); NextPiece(front + raw, |front| + i, abi) == (p, |front| + next)
  {
    hide FormsPair, IsRegMove;
    assert (front + raw)[|front| + i] == raw[i];
    if i + 1 < |raw| {
      assert (front + raw)[|front| + i + 1] == raw[i + 1];
    }
  }

  lemma {:induction false} ShiftPieces(front: seq<RawInst>, raw: seq<RawInst>, i: nat, abi: Abi)
    requires i <= |raw|
    ensures PiecesFrom(front + raw, |front| + i, abi) == PiecesFrom(raw, i, abi)
    decreases |raw| - i
  {
    hide NextPiece;
    if i < |raw| {
      ShiftPiece(front, raw, i, abi);
      ShiftPieces(front, raw, NextPiece(raw, i, abi).1, abi);
    }
  }

  lemma {:induction false} ScratchLoadDst(i: RawInst, scratch: Reg)
    requires FillsScratch(i, scratch)
    ensures !IsRegMove(i) && LoadDst(i) == Some(scratch)
  {
  }

  /** A load of an argument register never pairs with what follows it. */
  lemma {:induction false} LoadStandsAlone(u: Setup, raw: seq<RawInst>, next: RawInst, abi: Abi)
    requires ProperUnit(u, abi) && (IsLoad(u) || u.Push?) && Writes(u, raw)
    ensures !IsRegMove(raw[0]) && !FormsPair(raw[0], next, abi)
  {
    hide HasMemory, ReadsOperand;
    if u.Push? {
      NoMemory(raw[0], u.src);
    }
  }

  lemma {:induction false} NoMemory(i: RawInst, r: Reg)
    requires i.operands == [RegOp(r)]
    ensures !HasMemory(i)
  {
  }

  /** The scan reads a unit, followed by anything, as it ought to. */
  lemma {:induction false} FirstPieces(u: Setup, raw: seq<RawInst>, rest: seq<RawInst>, abi: Abi)
    requires ProperUnit(u, abi) && Writes(u, raw)
    ensures PiecesFrom(raw + rest, 0, abi) == PiecesOf(u, raw) + PiecesFrom(raw + rest, |raw|, abi)
  {
    var all := raw + rest;
    assert all[0] == raw[0] && (|raw| == 2 ==> all[1] == raw[1]);
    assert PiecesFrom(all, 0, abi) == [NextPiece(all, 0, abi).0] + PiecesFrom(all, NextPiece(all, 0, abi).1, abi);
    if UsesScratch(u) {
      ScratchLoadDst(raw[0], u.scratch);
      PairOrNot(u, raw, abi);
      hide FormsPair, IsRegMove, PiecesFrom, FillsScratch, LoadsScratch, ReadsOperand;
      if !u.Reload? {
        SecondPiece(all, u.scratch, abi);
      }
    } else {
      if IsLoad(u) || u.Push? {
        LoadStandsAlone(u, raw, if |all| > 1 then all[1] else all[0], abi);
      }
      hide FormsPair, PiecesFrom, HasMemory, ReadsOperand;
    }
  }

  /** A reload pairs with the move behind it; a loaded push does not, because a push names no result. */
  lemma {:induction false} PairOrNot(u: Setup, raw: seq<RawInst>, abi: Abi)
    requires ProperUnit(u, abi) && UsesScratch(u) && Writes(u, raw)
    ensures FormsPair(raw[0], raw[1], abi) <==> u.Reload?
  {
    ScratchLoadDst(raw[0], u.scratch);
    hide IsRegMove, LoadDst, ReadsOperand;
  }

  lemma {:induction false} SecondPiece(all: seq<RawInst>, scratch: Reg, abi: Abi)
    requires |all| >= 2 && all[1].result == None && all[1].operands == [RegOp(scratch)]
    ensures PiecesFrom(all, 1, abi) == [Single(all[1])] + PiecesFrom(all, 2, abi)
  {
    NoMemory(all[1], scratch);
    hide HasMemory, ReadsOperand;
  }

  /** Partitioning reads every unit as it ought to: no pair is split, and nothing else is taken for a
      pair or for a move. */
  lemma {:induction false} PartitionRecovers(us: seq<Setup>, parts: seq<seq<RawInst>>, i: nat, abi: Abi)
    requires ProperSetup(us, abi) && AllWrite(us, parts) && i <= |us|
    ensures PiecesFrom(Stream(parts, i), 0, abi) == AllPieces(us, parts, i)
    decreases |us| - i
  {
    hide NextPiece, Writes, PiecesOf, ProperUnit, PiecesFrom;
    if i < |us| {
      PartitionRecovers(us, parts, i + 1, abi);
      assert us[i] in us && ProperUnit(us[i], abi);
      FirstPieces(us[i], parts[i], Stream(parts, i + 1), abi);
      ShiftPieces(parts[i], Stream(parts, i + 1), 0, abi);
    } else {
      PiecesEnd([], abi);
    }
  }

  /** Only what comes from memory is paired: an address computed into the scratch and the move behind it
      are taken apart. */
  lemma {:induction false} AddressIsTakenApart(address: RawInst, move: RawInst, abi: Abi)
    requires address.result == Some(abi.scratch)
    requires forall k :: 0 <= k < |address.operands| ==> address.operands[k].OtherOp?
    requires move.result.Some? && move.operands == [RegOp(abi.scratch)]
    ensures PiecesFrom([address, move], 0, abi) == [Single(address), Moved(move)]
  {
    var raw := [address, move];
    assert NextPiece(raw, 0, abi) == (Single(address), 1) && NextPiece(raw, 1, abi) == (Moved(move), 2);
    assert PiecesFrom(raw, 2, abi) == [];
    assert PiecesFrom(raw, 1, abi) == [Moved(move)] + PiecesFrom(raw, 2, abi);
  }
}
