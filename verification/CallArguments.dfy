/** Call set-up: register copies, direct loads, reload-then-move pairs and pushes that must together put
    every argument in its register or stack cell, as if they all happened at once. */
module CallArguments {
  import opened Wrappers
  import opened ParallelMoves

  /** Per-target constants.  `save` keeps an indirect call target through the set-up. */
  datatype Abi = Abi(mov: nat, movfp: nat, scratch: Reg, floatScratch: Reg, save: Reg, floatFrom: Reg, floatTo: Reg)

  const X86_64 := Abi(0, 86, 11, 31, 10, 16, 32)

  function Scratches(abi: Abi): set<Reg> {
    {abi.scratch, abi.floatScratch}
  }

  const PUSH: nat := 4

  /** Register numbers are below this; the numbers from here on stand for the stack cells that pushes
      fill, one after the other. */
  const CELLS: Reg := 0x1_0000

  /** One unit of the set-up.  `Direct` reads no register; `Indirect` loads through one; `Reload` loads a
      scratch register and moves it on at once; `PushLoaded` loads one and pushes it; `PushThrough` does so
      through an address that the set-up itself may have put in `base`, as for a struct on the stack. */
  datatype Setup = RegMove(dst: Reg, src: Reg, opcode: nat)
                 | Direct(dst: Reg, key: nat)
                 | Indirect(dst: Reg, base: Reg, key: nat)
                 | Reload(dst: Reg, scratch: Reg, key: nat, via: nat)
                 | Push(dst: Reg, src: Reg)
                 | PushLoaded(dst: Reg, scratch: Reg, key: nat)
                 | PushThrough(dst: Reg, scratch: Reg, base: Reg, key: nat)

  /** The unit fills a stack cell; a `Direct` that does so pushes a constant or a memory word. */
  predicate IsPush(u: Setup) {
    u.dst >= CELLS
  }

  predicate IsLoad(u: Setup) {
    u.Direct? || u.Indirect?
  }

  predicate UsesScratch(u: Setup) {
    u.Reload? || u.PushLoaded? || u.PushThrough?
  }

  /** The register the unit reads. */
  predicate Reads(u: Setup, r: Reg) {
    ((u.RegMove? || u.Push?) && u.src == r) || ((u.Indirect? || u.PushThrough?) && u.base == r)
  }

  /** What the unit delivers from the given registers. */
  ghost function Expected(u: Setup, regs: Regs, mem: Memory): int {
    match u
    case RegMove(_, src, _) => regs(src)
    case Direct(_, key) => mem.loaded(key)
    case Indirect(_, base, key) => mem.through(key, regs(base))
    case Reload(_, _, key, via) => mem.through(via, mem.loaded(key))
    case Push(_, src) => regs(src)
    case PushLoaded(_, _, key) => mem.loaded(key)
    case PushThrough(_, _, base, key) => mem.through(key, regs(base))
  }

  function UnitCode(u: Setup): seq<Inst> {
    match u
    case RegMove(dst, src, opcode) => [Copy(opcode, dst, src)]
    case Direct(dst, key) => [Load(dst, key)]
    case Indirect(dst, base, key) => [Through(dst, base, key)]
    case Reload(dst, scratch, key, via) => [Load(scratch, key), Through(dst, scratch, via)]
    case Push(dst, src) => [Copy(PUSH, dst, src)]
    case PushLoaded(dst, scratch, key) => [Load(scratch, key), Copy(PUSH, dst, scratch)]
    case PushThrough(dst, scratch, base, key) => [Through(scratch, base, key), Copy(PUSH, dst, scratch)]
  }

  function Flatten(us: seq<Setup>): seq<Inst> {
    if us == [] then [] else Flatten(us[..|us| - 1]) + UnitCode(us[|us| - 1])
  }

  function UnitDsts(us: seq<Setup>): (dsts: set<Reg>)
    ensures forall i :: 0 <= i < |us| ==> us[i].dst in dsts
  {
    if us == [] then {} else UnitDsts(us[..|us| - 1]) + {us[|us| - 1].dst}
  }

  ghost predicate DistinctUnits(us: seq<Setup>) {
    forall i, j :: 0 <= i < j < |us| ==> us[i].dst != us[j].dst
  }

  /** Distinct destinations, pushes and only they filling stack cells, the scratches used only inside
      pairs, no push of a register that a load before it has written, and addresses of register arguments
      in registers that the set-up leaves alone. */
  ghost predicate ProperSetup(us: seq<Setup>, abi: Abi) {
    && DistinctUnits(us) && PushesComeFirst(us) && BasesStand(us) && (forall r :: r in Scratches(abi) ==> r < CELLS)
    && forall u :: u in us ==> ProperUnit(u, abi)
  }

  ghost predicate ProperUnit(u: Setup, abi: Abi) {
    && u.dst !in Scratches(abi)
    && (u.RegMove? ==> u.dst < CELLS && u.src < CELLS && u.src !in Scratches(abi) && u.src != MEMORY)
    && (u.Indirect? ==> u.base < CELLS && u.base !in Scratches(abi))
    && (u.Reload? ==> u.dst < CELLS && u.scratch in Scratches(abi))
    && (u.Push? ==> u.dst >= CELLS && u.src < CELLS && u.src !in Scratches(abi))
    && (u.PushLoaded? ==> u.dst >= CELLS && u.scratch in Scratches(abi))
    && (u.PushThrough? ==> u.dst >= CELLS && u.scratch in Scratches(abi) && u.base < CELLS && u.base !in Scratches(abi))
  }

  /** Stack arguments are set up before register arguments are loaded. */
  ghost predicate PushesComeFirst(us: seq<Setup>) {
    forall i, j :: 0 <= i < j < |us| && us[j].Push? && !us[i].RegMove? ==> us[i].dst != us[j].src
  }

  ghost predicate BasesStand(us: seq<Setup>) {
    forall u, w :: u in us && w in us && u.Indirect? ==> w.dst != u.base
  }

  // ---- what a set-up means ----

  /** The unit before `j` that writes `r`, if any. */
  function Writer(us: seq<Setup>, j: nat, r: Reg): (i: Option<nat>)
    requires j <= |us|
    ensures i.Some? ==> i.value < j && us[i.value].dst == r
    ensures i.None? ==> forall k :: 0 <= k < j ==> us[k].dst != r
  {
    if j == 0 then None else if us[j - 1].dst == r then Some(j - 1) else Writer(us, j - 1, r)
  }

  /** In the first round the resolver emits unit `i`: it is no move and no pair, and no move reads what it
      writes. */
  predicate GoesFirst(us: seq<Setup>, i: nat)
    requires i < |us|
  {
    !us[i].RegMove? && !us[i].Reload? && us[i].dst !in NeededSrcs(DropSelfMoves(RegMovesOf(us)))
  }

  /** Unit `j` is pushed through an address that the unit `i` before it provides. */
  function Provider(us: seq<Setup>, j: nat): Option<nat>
    requires j < |us|
  {
    if us[j].PushThrough? then Writer(us, j, us[j].base) else None
  }

  /** The address that `PushThrough` unit `j` finds: what its provider delivers, unless moves are put in
      order and the provider is not emitted in the first round. */
  ghost function Address(us: seq<Setup>, j: nat, ordered: bool, regs: Regs, mem: Memory): int
    requires j < |us| && us[j].PushThrough?
  {
    var i := Provider(us, j);
    if i.Some? && (!ordered || GoesFirst(us, i.value)) then Expected(us[i.value], regs, mem) else regs(us[j].base)
  }

  /** What unit `j` delivers, given the registers before the whole set-up: as if all set-up happened at
      once, but for addresses. */
  ghost function Value(us: seq<Setup>, j: nat, ordered: bool, regs: Regs, mem: Memory): int
    requires j < |us|
  {
    if us[j].PushThrough? then mem.through(us[j].key, Address(us, j, ordered, regs, mem))
    else Expected(us[j], regs, mem)
  }

  ghost predicate Obeys(us: seq<Setup>, ordered: bool, code: seq<Inst>) {
    forall j, regs: Regs, mem: Memory :: 0 <= j < |us|
        ==> Exec(code, regs, mem)(us[j].dst) == Value(us, j, ordered, regs, mem)
  }

  /** Every argument is where it should be. */
  ghost predicate Delivered(us: seq<Setup>, code: seq<Inst>) {
    Obeys(us, false, code)
  }

  /** Only destinations and scratches change. */
  ghost predicate Contained(us: seq<Setup>, abi: Abi, code: seq<Inst>) {
    forall r: Reg, regs: Regs, mem: Memory :: r !in UnitDsts(us) && r !in Scratches(abi)
                                              ==> Exec(code, regs, mem)(r) == regs(r)
  }

  lemma {:induction false} ExecAppend(a: seq<Inst>, b: seq<Inst>, regs: Regs, mem: Memory)
    ensures Exec(a + b, regs, mem) == Exec(b, Exec(a, regs, mem), mem)
    decreases |b|
  {
    if b == [] {
      assert a + b == a;
    } else {
      var front, last := b[..|b| - 1], b[|b| - 1];
      ExecAppend(a, front, regs, mem);
      assert a + b == (a + front) + [last];
      ExecSnoc(a + front, last, regs, mem);
      assert b == front + [last];
      ExecSnoc(front, last, Exec(a, regs, mem), mem);
    }
  }

  lemma {:induction false} UnitEffect(u: Setup, code: seq<Inst>, regs: Regs, mem: Memory, r: Reg)
    requires UsesScratch(u) ==> u.dst != u.scratch
    ensures var before, after := Exec(code, regs, mem), Exec(code + UnitCode(u), regs, mem);
      && after(u.dst) == Expected(u, before, mem)
      && (r != u.dst && (UsesScratch(u) ==> r != u.scratch) ==> after(r) == before(r))
  {
    hide Exec;
    match u
    case RegMove(dst, src, opcode) => ExecSnoc(code, Copy(opcode, dst, src), regs, mem);
    case Direct(dst, key) => ExecSnoc(code, Load(dst, key), regs, mem);
    case Indirect(dst, base, key) => ExecSnoc(code, Through(dst, base, key), regs, mem);
    case Reload(dst, scratch, key, via) => ExecTwo(code, Load(scratch, key), Through(dst, scratch, via), regs, mem);
    case Push(dst, src) => ExecSnoc(code, Copy(PUSH, dst, src), regs, mem);
    case PushLoaded(dst, scratch, key) => ExecTwo(code, Load(scratch, key), Copy(PUSH, dst, scratch), regs, mem);
    case PushThrough(dst, scratch, base, key) => ExecTwo(code, Through(scratch, base, key), Copy(PUSH, dst, scratch),
                                                         regs, mem);
  }

  lemma {:induction false} ExecTwo(code: seq<Inst>, a: Inst, b: Inst, regs: Regs, mem: Memory)
    ensures Exec(code + [a, b], regs, mem) == Exec1(b, Exec1(a, Exec(code, regs, mem), mem), mem)
  {
    hide Exec1;
    ExecSnoc(code, a, regs, mem);
    ExecSnoc(code + [a], b, regs, mem);
    assert code + [a, b] == code + [a] + [b];
  }

  // ---- when nothing conflicts, the original order will do ----

  function RegMovesOf(us: seq<Setup>): seq<Move> {
    if us == [] then []
    else
      var u := us[|us| - 1];
      RegMovesOf(us[..|us| - 1]) + if u.RegMove? then [Move(u.dst, u.src, u.opcode, 0)] else []
  }

  /** Some register read by a move is written by another unit, or a pair or a push reads a register that
      a move writes. */
  predicate HasConflict(us: seq<Setup>) {
    var dsts, srcs := Dsts(RegMovesOf(us)), NeededSrcs(RegMovesOf(us));
    || (exists u :: u in us && u.RegMove? && u.src in dsts)
    || (exists u :: u in us && !u.RegMove? && u.dst in srcs)
    || (exists u :: u in us && UsesScratch(u) && u.scratch in dsts)
    || (exists u :: u in us && u.Push? && u.src in dsts)
  }

  lemma {:induction false} RegMoveListed(us: seq<Setup>, i: nat)
    requires i < |us| && us[i].RegMove?
    ensures us[i].dst in Dsts(RegMovesOf(us))
    ensures us[i].src != MEMORY ==> us[i].src in NeededSrcs(RegMovesOf(us))
    ensures Move(us[i].dst, us[i].src, us[i].opcode, 0) in RegMovesOf(us)
  {
    var moves, m := RegMovesOf(us), Move(us[i].dst, us[i].src, us[i].opcode, 0);
    if i < |us| - 1 {
      RegMoveListed(us[..|us| - 1], i);
    }
    assert m in moves;
    var k :| 0 <= k < |moves| && moves[k] == m;
  }

  lemma {:induction false} RegMoveFrom(us: seq<Setup>, m: Move) returns (i: nat)
    requires m in RegMovesOf(us)
    ensures i < |us| && us[i] == RegMove(m.dst, m.src, m.opcode)
  {
    var u := us[|us| - 1];
    if u == RegMove(m.dst, m.src, m.opcode) {
      i := |us| - 1;
    } else {
      i := RegMoveFrom(us[..|us| - 1], m);
    }
  }

  /** Some move reads what a unit writes, or some push what a move writes. */
  ghost predicate Clashes(us: seq<Setup>) {
    exists i, j :: 0 <= i < |us| && 0 <= j < |us| && ReadsWritten(us[i], us[j])
  }

  predicate ReadsWritten(u: Setup, w: Setup) {
    (u.RegMove? || (u.Push? && w.RegMove?)) && u.src == w.dst
  }

  /** That is what the conflict check looks for, scratches being no destinations. */
  lemma {:induction false} ConflictExactly(us: seq<Setup>, abi: Abi)
    requires ProperSetup(us, abi)
    ensures HasConflict(us) <==> Clashes(us)
  {
    if i, j :| 0 <= i < |us| && 0 <= j < |us| && ReadsWritten(us[i], us[j]) {
      ClashConflicts(us, abi, i, j);
    }
    if HasConflict(us) {
      ConflictClashes(us, abi);
    }
  }

  lemma {:induction false} ClashConflicts(us: seq<Setup>, abi: Abi, i: nat, j: nat)
    requires ProperSetup(us, abi) && i < |us| && j < |us| && ReadsWritten(us[i], us[j])
    ensures HasConflict(us)
  {
    assert us[i] in us && us[j] in us;
    assert ProperUnit(us[i], abi);
    if us[i].RegMove? {
      RegMoveListed(us, i);
    }
    if us[j].RegMove? {
      RegMoveListed(us, j);
    }
  }

  lemma {:induction false} ConflictClashes(us: seq<Setup>, abi: Abi)
    requires ProperSetup(us, abi) && HasConflict(us)
    ensures Clashes(us)
  {
    var dsts, srcs := Dsts(RegMovesOf(us)), NeededSrcs(RegMovesOf(us));
    if u :| u in us && ((u.RegMove? && u.src in dsts) || (u.Push? && u.src in dsts)) {
      var i :| 0 <= i < |us| && us[i] == u;
      var j := MoveTo(us, u.src);
      assert ReadsWritten(us[i], us[j]);
    } else {
      ScratchesNotMoved(us, abi);
      var u :| u in us && !u.RegMove? && u.dst in srcs;
      var j :| 0 <= j < |us| && us[j] == u;
      var k := FindSrc(RegMovesOf(us), u.dst);
      var i := RegMoveFrom(us, RegMovesOf(us)[k]);
      assert ReadsWritten(us[i], us[j]);
    }
  }

  lemma {:induction false} ScratchesNotMoved(us: seq<Setup>, abi: Abi)
    requires ProperSetup(us, abi)
    ensures forall u :: u in us && UsesScratch(u) ==> u.scratch !in Dsts(RegMovesOf(us))
  {
    forall r | r in Dsts(RegMovesOf(us))
      ensures r !in Scratches(abi)
    {
      var j := MoveTo(us, r);
      assert us[j] in us && ProperUnit(us[j], abi);
    }
    forall u | u in us && UsesScratch(u)
      ensures u.scratch in Scratches(abi)
    {
      assert ProperUnit(u, abi);
    }
  }

  lemma {:induction false} MoveTo(us: seq<Setup>, r: Reg) returns (j: nat)
    requires r in Dsts(RegMovesOf(us))
    ensures j < |us| && us[j].RegMove? && us[j].dst == r
  {
    var k := FindDst(RegMovesOf(us), r);
    j := RegMoveFrom(us, RegMovesOf(us)[k]);
  }

  /** Without conflict no unit writes what another one, or a push behind it, reads. */
  lemma {:induction false} NoConflictApart(us: seq<Setup>, abi: Abi, i: nat, j: nat)
    requires ProperSetup(us, abi) && !HasConflict(us) && i < |us| && j < |us|
    requires us[j].RegMove? || (us[j].Push? && i < j)
    ensures us[i].dst != us[j].src
  {
    assert us[i] in us && us[j] in us;
    assert ProperUnit(us[i], abi) && ProperUnit(us[j], abi);
    hide ProperUnit;
    if us[j].RegMove? {
      RegMoveListed(us, j);
    }
    if us[i].RegMove? {
      RegMoveListed(us, i);
    }
  }

  lemma {:induction false} FindUnit(us: seq<Setup>, r: Reg) returns (i: nat)
    requires r in UnitDsts(us)
    ensures i < |us| && us[i].dst == r
  {
    if us[|us| - 1].dst == r {
      i := |us| - 1;
    } else {
      i := FindUnit(us[..|us| - 1], r);
    }
  }

  /** Among the first `n` units no move and no push reads a register that an earlier unit has changed. */
  predicate InOrder(us: seq<Setup>, n: nat)
    requires n <= |us|
  {
    forall i, j :: 0 <= i < j < n && (us[j].RegMove? || us[j].Push?) && us[i].dst == us[j].src
                   ==> us[i].RegMove? && us[i].src == us[i].dst
  }

  lemma {:induction false} NoConflictInOrder(us: seq<Setup>, abi: Abi)
    requires ProperSetup(us, abi) && !HasConflict(us)
    ensures InOrder(us, |us|)
  {
    hide HasConflict, ProperSetup;
    forall i, j | 0 <= i < j < |us| && (us[j].RegMove? || us[j].Push?)
      ensures us[i].dst != us[j].src
    {
      NoConflictApart(us, abi, i, j);
    }
  }

  /** The source of a move or push still holds its first value. */
  lemma {:induction false} SourceUntouched(us: seq<Setup>, abi: Abi, n: nat, now: Regs, regs: Regs, mem: Memory)
    requires ProperSetup(us, abi) && n < |us| && InOrder(us, n + 1) && (us[n].RegMove? || us[n].Push?)
    requires forall i :: 0 <= i < n ==> now(us[i].dst) == Value(us, i, false, regs, mem)
    requires forall r: Reg :: r !in UnitDsts(us[..n]) && r !in Scratches(abi) ==> now(r) == regs(r)
    ensures now(us[n].src) == regs(us[n].src)
  {
    assert us[n] in us;
    if us[n].src in UnitDsts(us[..n]) {
      var i := FindUnit(us[..n], us[n].src);
      assert us[i].RegMove? && us[i].src == us[i].dst;
    }
  }

  lemma {:induction false} BaseUntouched(us: seq<Setup>, abi: Abi, n: nat)
    requires ProperSetup(us, abi) && n < |us| && us[n].Indirect?
    ensures us[n].base !in UnitDsts(us[..n]) && us[n].base !in Scratches(abi)
  {
    assert us[n] in us && ProperUnit(us[n], abi);
    if us[n].base in UnitDsts(us[..n]) {
      var i := FindUnit(us[..n], us[n].base);
    }
  }

  /** A unit whose source still holds its first value delivers what is expected. */
  lemma {:induction false} UnitDelivers(u: Setup, abi: Abi, code: seq<Inst>, regs: Regs, mem: Memory)
    requires ProperUnit(u, abi) && (u.RegMove? || u.Push? ==> Exec(code, regs, mem)(u.src) == regs(u.src))
    requires u.Indirect? ==> Exec(code, regs, mem)(u.base) == regs(u.base)
    ensures Exec(code + UnitCode(u), regs, mem)(u.dst)
         == if u.PushThrough? then mem.through(u.key, Exec(code, regs, mem)(u.base)) else Expected(u, regs, mem)
    ensures forall r: Reg :: r != u.dst && r !in Scratches(abi)
             ==> Exec(code + UnitCode(u), regs, mem)(r) == Exec(code, regs, mem)(r)
  {
    hide UnitCode, Exec;
    UnitEffect(u, code, regs, mem, u.dst);
    forall r: Reg | r != u.dst && r !in Scratches(abi)
      ensures Exec(code + UnitCode(u), regs, mem)(r) == Exec(code, regs, mem)(r)
    {
      UnitEffect(u, code, regs, mem, r);
    }
  }

  lemma {:induction false} FlattenInOrder(us: seq<Setup>, abi: Abi, n: nat, regs: Regs, mem: Memory)
    requires ProperSetup(us, abi) && n <= |us| && InOrder(us, n)
    ensures forall i :: 0 <= i < n ==> Exec(Flatten(us[..n]), regs, mem)(us[i].dst) == Value(us, i, false, regs, mem)
    ensures forall r: Reg :: r !in UnitDsts(us[..n]) && r !in Scratches(abi)
             ==> Exec(Flatten(us[..n]), regs, mem)(r) == regs(r)
  {
    hide ProperSetup, ProperUnit, UnitCode, Expected, Scratches, Exec, Value;
    if n == 0 {
      ExecNothing(regs, mem);
    } else {
      FlattenInOrder(us, abi, n - 1, regs, mem);
      assert us[..n][..n - 1] == us[..n - 1];
      if us[n - 1].RegMove? || us[n - 1].Push? {
        SourceUntouched(us, abi, n - 1, Exec(Flatten(us[..n - 1]), regs, mem), regs, mem);
      }
      if us[n - 1].Indirect? {
        BaseUntouched(us, abi, n - 1);
      }
      DstsApart(us, abi, n - 1);
      UnitDelivers(us[n - 1], abi, Flatten(us[..n - 1]), regs, mem);
      AddressInOrder(us, abi, n - 1, Exec(Flatten(us[..n - 1]), regs, mem), regs, mem);
      assert Flatten(us[..n]) == Flatten(us[..n - 1]) + UnitCode(us[n - 1]);
      hide Flatten;
    }
  }

  /** A push through an address finds what its provider delivered. */
  lemma {:induction false} AddressInOrder(us: seq<Setup>, abi: Abi, n: nat, now: Regs, regs: Regs, mem: Memory)
    requires ProperSetup(us, abi) && n < |us|
    requires forall i :: 0 <= i < n ==> now(us[i].dst) == Value(us, i, false, regs, mem)
    requires forall r: Reg :: r !in UnitDsts(us[..n]) && r !in Scratches(abi) ==> now(r) == regs(r)
    ensures Value(us, n, false, regs, mem)
         == if us[n].PushThrough? then mem.through(us[n].key, now(us[n].base)) else Expected(us[n], regs, mem)
  {
    if us[n].PushThrough? {
      assert us[n] in us && ProperUnit(us[n], abi);
      var i := Provider(us, n);
      if i.Some? {
        assert us[i.value] in us && ProperUnit(us[i.value], abi);
      } else if us[n].base in UnitDsts(us[..n]) {
        var k := FindUnit(us[..n], us[n].base);
      }
    }
  }

  lemma {:induction false} ExecNothing(regs: Regs, mem: Memory)
    ensures Flatten([]) == [] && Exec([], regs, mem) == regs
  {
  }

  lemma {:induction false} DstsApart(us: seq<Setup>, abi: Abi, n: nat)
    requires ProperSetup(us, abi) && n < |us|
    ensures ProperUnit(us[n], abi) && forall i :: 0 <= i < n ==> us[i].dst != us[n].dst && us[i].dst !in Scratches(abi)
  {
    assert us[n] in us;
    forall i | 0 <= i < n
      ensures us[i].dst != us[n].dst && us[i].dst !in Scratches(abi)
    {
      assert us[i] in us;
    }
  }

  lemma {:induction false} OriginalOrderWorks(us: seq<Setup>, abi: Abi)
    requires ProperSetup(us, abi) && !HasConflict(us)
    ensures Delivered(us, Flatten(us)) && Contained(us, abi, Flatten(us)) && KeepsPushes(us, Flatten(us))
  {
    NoConflictInOrder(us, abi);
    InOrderDelivers(us, abi);
  }

  lemma {:induction false} InOrderDelivers(us: seq<Setup>, abi: Abi)
    requires ProperSetup(us, abi) && InOrder(us, |us|)
    ensures Delivered(us, Flatten(us)) && Contained(us, abi, Flatten(us))
  {
    hide InOrder, ProperSetup;
    assert us[..|us|] == us;
    forall j, regs: Regs, mem: Memory | 0 <= j < |us|
      ensures Exec(Flatten(us), regs, mem)(us[j].dst) == Value(us, j, false, regs, mem)
    {
      FlattenInOrder(us, abi, |us|, regs, mem);
    }
    forall r: Reg, regs: Regs, mem: Memory | r !in UnitDsts(us) && r !in Scratches(abi)
      ensures Exec(Flatten(us), regs, mem)(r) == regs(r)
    {
      FlattenInOrder(us, abi, |us|, regs, mem);
    }
  }

  /** What a unit has delivered stays. */
  lemma {:induction false} StaysDelivered(us: seq<Setup>, abi: Abi, j: nat, n: nat, regs: Regs, mem: Memory)
    requires ProperSetup(us, abi) && j < n <= |us|
    ensures Exec(Flatten(us[..n]), regs, mem)(us[j].dst) == Exec(Flatten(us[..j + 1]), regs, mem)(us[j].dst)
    decreases n
  {
    hide ProperSetup, ProperUnit, Scratches, Exec, UnitCode;
    if j + 1 < n {
      StaysDelivered(us, abi, j, n - 1, regs, mem);
      DstsApart(us, abi, n - 1);
      DstsApart(us, abi, j);
      assert us[..n][..n - 1] == us[..n - 1];
      ScratchesApart(us[n - 1], abi, us[j].dst);
      UnitEffect(us[n - 1], Flatten(us[..n - 1]), regs, mem, us[j].dst);
      assert Flatten(us[..n]) == Flatten(us[..n - 1]) + UnitCode(us[n - 1]);
    }
  }

  lemma {:induction false} ScratchesApart(u: Setup, abi: Abi, r: Reg)
    requires ProperUnit(u, abi) && r !in Scratches(abi)
    ensures UsesScratch(u) ==> u.dst != u.scratch && r != u.scratch
  {
  }

  /** A unit that is no move of a register to itself can change the register. */
  lemma {:induction false} ChangesRegister(us: seq<Setup>, abi: Abi, i: nat) returns (regs: Regs, mem: Memory)
    requires ProperSetup(us, abi) && i < |us| && us[i].dst < CELLS && !(us[i].RegMove? && us[i].src == us[i].dst)
    ensures Value(us, i, false, regs, mem) != regs(us[i].dst)
  {
    var u := us[i];
    assert u in us && ProperUnit(u, abi);
    regs := (r: Reg) => if u.RegMove? && r == u.src then 1 else 0;
    mem := Memory(k => 1, (k, x) => x + 1);
  }

  lemma {:induction false} DeliversWhatItReads(us: seq<Setup>, abi: Abi, j: nat, regs: Regs, mem: Memory)
    requires ProperSetup(us, abi) && j < |us| && (us[j].RegMove? || us[j].Push?)
    ensures Exec(Flatten(us), regs, mem)(us[j].dst) == Exec(Flatten(us[..j]), regs, mem)(us[j].src)
  {
    hide ProperSetup, Exec, UnitCode;
    StaysDelivered(us, abi, j, |us|, regs, mem);
    assert us[..|us|] == us && us[..j + 1][..j] == us[..j];
    assert Flatten(us[..j + 1]) == Flatten(us[..j]) + UnitCode(us[j]);
    hide Flatten;
    UnitEffect(us[j], Flatten(us[..j]), regs, mem, us[j].dst);
  }

  /** A unit that reads what an earlier one has changed delivers the wrong thing. */
  lemma {:induction false} OutOfOrderFails(us: seq<Setup>, abi: Abi, i: nat, j: nat)
    requires ProperSetup(us, abi) && i < j < |us| && InOrder(us, j) && (us[j].RegMove? || us[j].Push?)
    requires us[i].dst == us[j].src && !(us[i].RegMove? && us[i].src == us[i].dst)
    ensures !Delivered(us, Flatten(us))
  {
    SourceIsRegister(us, abi, j);
    hide *;
    var regs, mem := ChangesRegister(us, abi, i);
    FlattenInOrder(us, abi, j, regs, mem);
    DeliversWhatItReads(us, abi, j, regs, mem);
    NotAsExpected(us, j, Flatten(us), regs, mem);
  }

  lemma {:induction false} SourceIsRegister(us: seq<Setup>, abi: Abi, j: nat)
    requires ProperSetup(us, abi) && j < |us| && (us[j].RegMove? || us[j].Push?)
    ensures us[j].src < CELLS
  {
    assert us[j] in us && ProperUnit(us[j], abi);
  }

  lemma {:induction false} NotAsExpected(us: seq<Setup>, j: nat, code: seq<Inst>, regs: Regs, mem: Memory)
    requires j < |us| && (us[j].RegMove? || us[j].Push?) && Exec(code, regs, mem)(us[j].dst) != regs(us[j].src)
    ensures !Delivered(us, code)
  {
    hide Exec;
  }

  /** The first place where the order is wrong. */
  lemma {:induction false} FirstOutOfOrder(us: seq<Setup>, n: nat) returns (i: nat, j: nat)
    requires n <= |us| && !InOrder(us, n)
    ensures i < j < n && InOrder(us, j) && (us[j].RegMove? || us[j].Push?) && us[i].dst == us[j].src
    ensures !(us[i].RegMove? && us[i].src == us[i].dst)
    decreases n
  {
    if n > 0 && !InOrder(us, n - 1) {
      i, j := FirstOutOfOrder(us, n - 1);
    } else {
      i, j :| 0 <= i < j < n && (us[j].RegMove? || us[j].Push?) && us[i].dst == us[j].src
        && !(us[i].RegMove? && us[i].src == us[i].dst);
      assert j == n - 1;
    }
  }

  /** Left as it is, a set-up delivers every argument exactly if nothing reads what was changed before. */
  lemma {:induction false} OriginalOrderExactly(us: seq<Setup>, abi: Abi)
    requires ProperSetup(us, abi)
    ensures Delivered(us, Flatten(us)) <==> InOrder(us, |us|)
  {
    hide ProperSetup, InOrder, Delivered, Flatten;
    if InOrder(us, |us|) {
      InOrderDelivers(us, abi);
    } else {
      var i, j := FirstOutOfOrder(us, |us|);
      OutOfOrderFails(us, abi, i, j);
    }
  }

  // ---- deferring loads ----

  /** The units whose destination is still needed, and the others. */
  function StillNeeded(us: seq<Setup>, needed: set<Reg>): seq<Setup> {
    if us == [] then []
    else StillNeeded(us[..|us| - 1], needed) + if us[|us| - 1].dst in needed then [us[|us| - 1]] else []
  }

  function NotNeeded(us: seq<Setup>, needed: set<Reg>): seq<Setup> {
    if us == [] then []
    else NotNeeded(us[..|us| - 1], needed) + if us[|us| - 1].dst in needed then [] else [us[|us| - 1]]
  }

  lemma {:induction false} FlushMembers(us: seq<Setup>, needed: set<Reg>)
    ensures forall u :: u in StillNeeded(us, needed) <==> u in us && u.dst in needed
    ensures forall u :: u in NotNeeded(us, needed) <==> u in us && u.dst !in needed
  {
    if us != [] {
      FlushMembers(us[..|us| - 1], needed);
      assert us == us[..|us| - 1] + [us[|us| - 1]];
    }
  }

  lemma {:induction false} FlattenSnoc(us: seq<Setup>, u: Setup)
    ensures Flatten(us + [u]) == Flatten(us) + UnitCode(u)
  {
    assert (us + [u])[..|us + [u]| - 1] == us;
  }

  lemma {:induction false} FlushStep(us: seq<Setup>, needed: set<Reg>, k: nat)
    requires k < |us|
    ensures StillNeeded(us[..k + 1], needed)
         == StillNeeded(us[..k], needed) + if us[k].dst in needed then [us[k]] else []
    ensures Flatten(NotNeeded(us[..k + 1], needed))
         == Flatten(NotNeeded(us[..k], needed)) + if us[k].dst in needed then [] else UnitCode(us[k])
  {
    assert us[..k + 1][..k] == us[..k];
    if us[k].dst !in needed {
      FlattenSnoc(NotNeeded(us[..k], needed), us[k]);
    } else {
      assert NotNeeded(us[..k + 1], needed) == NotNeeded(us[..k], needed);
    }
  }

  /** Emit what nobody waits for, keep the rest. */
  method Flush(us: seq<Setup>, needed: set<Reg>, code0: seq<Inst>) returns (still: seq<Setup>, code: seq<Inst>)
    ensures still == StillNeeded(us, needed)
    ensures code == code0 + Flatten(NotNeeded(us, needed))
  {
    hide StillNeeded, NotNeeded, Flatten;
    still, code := [], code0;
    FlushNothing(needed);
    assert us[..0] == [];
    for k := 0 to |us|
      invariant still == StillNeeded(us[..k], needed)
      invariant code == code0 + Flatten(NotNeeded(us[..k], needed))
    {
      FlushStep(us, needed, k);
      if us[k].dst in needed {
        still := still + [us[k]];
      } else {
        code := code + UnitCode(us[k]);
      }
    }
    assert us[..|us|] == us;
  }

  lemma {:induction false} FlushNothing(needed: set<Reg>)
    ensures StillNeeded([], needed) == [] && Flatten(NotNeeded([], needed)) == []
  {
  }

  /** The set-up as the resolver sees it midway. */
  ghost predicate Midway(us: seq<Setup>, abi: Abi, pending: seq<Move>, direct: seq<Setup>, pairs: seq<Setup>,
                         code: seq<Inst>) {
    && (forall u, regs: Regs, mem: Memory :: u in us && u.RegMove? ==>
          Owed(pending, u.dst, Expected(u, regs, mem), Exec(code, regs, mem), mem))
    && (forall u, regs: Regs, mem: Memory ::
          u in us && !u.RegMove? && !u.PushThrough? && u !in direct && u !in pairs ==>
          Exec(code, regs, mem)(u.dst) == Expected(u, regs, mem))
    && Contained(us, abi, code)
  }

  /** Deferred units wait for a pending move to read their destination, and while any waits no pending
      move reads a scratch. */
  ghost predicate Waiting(us: seq<Setup>, abi: Abi, pending: seq<Move>, direct: seq<Setup>, pairs: seq<Setup>) {
    && (forall u :: u in direct ==> u in us && IsLoad(u) && !IsPush(u) && u.dst in NeededSrcs(pending))
    && (forall u :: u in pairs ==> u in us && u.Reload? && u.dst in NeededSrcs(pending))
    && (direct + pairs != [] ==> NeededSrcs(pending) !! Scratches(abi))
  }

  ghost predicate PendingOf(us: seq<Setup>, pending: seq<Move>) {
    DistinctDsts(pending) && forall m :: m in pending ==> exists u :: u in us && u.RegMove? && u.dst == m.dst
  }

  /** Writing registers that no pending move reads, and not this one, leaves a debt as it was. */
  lemma {:induction false} FreeWriteKeepsOwed(pending: seq<Move>, dst: Reg, value: int, before: Regs, after: Regs,
                                              mem: Memory, touched: set<Reg>)
    requires Owed(pending, dst, value, before, mem) && dst !in touched && NeededSrcs(pending) !! touched
    requires forall r: Reg :: r !in touched ==> after(r) == before(r)
    ensures Owed(pending, dst, value, after, mem)
  {
  }

  /** Emitting one unit that nobody waits for; a push only while its source holds its first value. */
  lemma {:induction false} EmitUnit(us: seq<Setup>, abi: Abi, pending: seq<Move>, direct: seq<Setup>,
                                    pairs: seq<Setup>, code: seq<Inst>, u: Setup, d: seq<Setup>, p: seq<Setup>)
    requires ProperSetup(us, abi) && Midway(us, abi, pending, direct, pairs, code)
    requires u in us && !u.RegMove? && u.dst !in NeededSrcs(pending) && NeededSrcs(pending) !! Scratches(abi)
    requires u.Push? ==> forall regs: Regs, mem: Memory :: Exec(code, regs, mem)(u.src) == regs(u.src)
    requires forall w :: w in direct || w in pairs ==> w in d || w in p || w == u
    ensures Midway(us, abi, pending, d, p, code + UnitCode(u))
  {
    assert ProperUnit(u, abi);
    BaseKept(us, abi, u, code);
    var longer := code + UnitCode(u);
    forall w, regs: Regs, mem: Memory | w in us && w.RegMove?
      ensures Owed(pending, w.dst, Expected(w, regs, mem), Exec(longer, regs, mem), mem)
    {
      UnitsDiffer(us, u, w);
      UnitDelivers(u, abi, code, regs, mem);
      FreeWriteKeepsOwed(pending, w.dst, Expected(w, regs, mem), Exec(code, regs, mem), Exec(longer, regs, mem), mem,
                         {u.dst} + Scratches(abi));
    }
    forall w, regs: Regs, mem: Memory | w in us && !w.RegMove? && !w.PushThrough?
        && (w == u || (w !in direct && w !in pairs))
      ensures Exec(longer, regs, mem)(w.dst) == Expected(w, regs, mem)
    {
      UnitDelivers(u, abi, code, regs, mem);
      if w != u {
        UnitsDiffer(us, u, w);
        assert ProperUnit(w, abi);
      }
    }
    forall r: Reg, regs: Regs, mem: Memory | r !in UnitDsts(us) && r !in Scratches(abi)
      ensures Exec(longer, regs, mem)(r) == regs(r)
    {
      UnitDelivers(u, abi, code, regs, mem);
      var i :| 0 <= i < |us| && us[i] == u;
    }
  }

  /** The register through which a unit loads is not written by the code so far. */
  lemma {:induction false} BaseKept(us: seq<Setup>, abi: Abi, u: Setup, code: seq<Inst>)
    requires ProperSetup(us, abi) && Contained(us, abi, code) && u in us
    ensures u.Indirect? ==> forall regs: Regs, mem: Memory :: Exec(code, regs, mem)(u.base) == regs(u.base)
  {
    if u.Indirect? && u.base in UnitDsts(us) {
      var i := FindUnit(us, u.base);
    }
    assert ProperUnit(u, abi);
  }

  lemma {:induction false} UnitsDiffer(us: seq<Setup>, u: Setup, w: Setup)
    requires DistinctUnits(us) && u in us && w in us && u != w
    ensures u.dst != w.dst
  {
  }

  /** Emitting all units of a list that nobody waits for. */
  lemma {:induction false} EmitAll(us: seq<Setup>, abi: Abi, pending: seq<Move>, direct: seq<Setup>, pairs: seq<Setup>,
                                   code: seq<Inst>, out: seq<Setup>, d: seq<Setup>, p: seq<Setup>)
    requires ProperSetup(us, abi) && Midway(us, abi, pending, direct, pairs, code)
    requires out != [] ==> NeededSrcs(pending) !! Scratches(abi)
    requires forall u :: u in out ==> u in us && !u.RegMove? && !u.Push? && u.dst !in NeededSrcs(pending)
    requires forall u :: u in direct || u in pairs ==> u in d || u in p || u in out
    ensures Midway(us, abi, pending, d, p, code + Flatten(out))
  {
    if out == [] {
      assert code + Flatten(out) == code;
    } else {
      var front, last := out[..|out| - 1], out[|out| - 1];
      assert out == front + [last];
      EmitAll(us, abi, pending, direct, pairs, code, front, d + [last], p);
      EmitUnit(us, abi, pending, d + [last], p, code + Flatten(front), last, d, p);
      assert code + Flatten(out) == code + Flatten(front) + UnitCode(last);
    }
  }

  // ---- the moves ----

  lemma {:induction false} MoveStep(us: seq<Setup>, abi: Abi, pending: seq<Move>, direct: seq<Setup>,
                                    pairs: seq<Setup>, code: seq<Inst>, idx: nat)
    requires ProperSetup(us, abi) && PendingOf(us, pending) && Midway(us, abi, pending, direct, pairs, code)
    requires idx < |pending| && pending[idx].dst !in NeededSrcs(pending) && pending[idx].src != MEMORY
    ensures Midway(us, abi, Without(pending, idx), direct, pairs,
                   code + [Copy(pending[idx].opcode, pending[idx].dst, pending[idx].src)])
  {
    var m := pending[idx];
    var inst := Copy(m.opcode, m.dst, m.src);
    assert m in pending;
    var own :| own in us && own.RegMove? && own.dst == m.dst;
    forall u, regs: Regs, mem: Memory | u in us && u.RegMove?
      ensures Owed(Without(pending, idx), u.dst, Expected(u, regs, mem), Exec(code + [inst], regs, mem), mem)
    {
      ExecSnoc(code, inst, regs, mem);
      SafeMoveKeepsOwed(pending, idx, u.dst, Expected(u, regs, mem), Exec(code, regs, mem),
                        Exec(code + [inst], regs, mem), mem);
    }
    forall u, regs: Regs, mem: Memory | u in us && !u.RegMove? && !u.PushThrough? && u !in direct && u !in pairs
      ensures Exec(code + [inst], regs, mem)(u.dst) == Expected(u, regs, mem)
    {
      ExecSnoc(code, inst, regs, mem);
      UnitsDiffer(us, u, own);
    }
    var i :| 0 <= i < |us| && us[i] == own;
    forall r: Reg, regs: Regs, mem: Memory | r !in UnitDsts(us) && r !in Scratches(abi)
      ensures Exec(code + [inst], regs, mem)(r) == regs(r)
    {
      ExecSnoc(code, inst, regs, mem);
    }
  }

  /** No pending move writes the destination of a load or a pair. */
  lemma {:induction false} OthersNotPending(us: seq<Setup>, pending: seq<Move>, u: Setup)
    requires DistinctUnits(us) && PendingOf(us, pending) && u in us && !u.RegMove?
    ensures u.dst !in Dsts(pending)
  {
    forall i | 0 <= i < |pending|
      ensures pending[i].dst != u.dst
    {
      assert pending[i] in pending;
      var w :| w in us && w.RegMove? && w.dst == pending[i].dst;
      UnitsDiffer(us, u, w);
    }
    if u.dst in Dsts(pending) {
      var i := FindDst(pending, u.dst);
    }
  }

  /** When the moves are stuck nothing is deferred: what waits would wait for a destination. */
  lemma {:induction false} NobodyWaitsWhenStuck(us: seq<Setup>, abi: Abi, pending: seq<Move>, direct: seq<Setup>,
                                                pairs: seq<Setup>)
    requires ProperSetup(us, abi) && PendingOf(us, pending) && Waiting(us, abi, pending, direct, pairs)
    requires Stuck(pending)
    ensures direct == [] && pairs == []
  {
    StuckIsPermutation(pending);
    if direct != [] {
      OthersNotPending(us, pending, direct[0]);
    }
    if pairs != [] {
      OthersNotPending(us, pending, pairs[0]);
    }
  }

  lemma {:induction false} BreakStep(us: seq<Setup>, abi: Abi, pending: seq<Move>, code: seq<Inst>, src: Reg,
                                     scratch: Reg, opcode: nat)
    requires ProperSetup(us, abi) && PendingOf(us, pending) && Midway(us, abi, pending, [], [], code)
    requires Stuck(pending) && src in NeededSrcs(pending) && scratch in Scratches(abi) && scratch != MEMORY
    requires scratch !in Dsts(pending)
    ensures Midway(us, abi, Redirect(pending, src, scratch), [], [], code + [Copy(opcode, scratch, src)])
  {
    var inst := Copy(opcode, scratch, src);
    forall u, regs: Regs, mem: Memory | u in us && u.RegMove?
      ensures Owed(Redirect(pending, src, scratch), u.dst, Expected(u, regs, mem), Exec(code + [inst], regs, mem), mem)
    {
      ExecSnoc(code, inst, regs, mem);
      BreakKeepsOwed(pending, src, scratch, u.dst, Expected(u, regs, mem), Exec(code, regs, mem),
                     Exec(code + [inst], regs, mem), mem);
    }
    forall u, regs: Regs, mem: Memory | u in us && !u.RegMove? && !u.PushThrough?
      ensures Exec(code + [inst], regs, mem)(u.dst) == Expected(u, regs, mem)
    {
      ExecSnoc(code, inst, regs, mem);
    }
    forall r: Reg, regs: Regs, mem: Memory | r !in UnitDsts(us) && r !in Scratches(abi)
      ensures Exec(code + [inst], regs, mem)(r) == regs(r)
    {
      ExecSnoc(code, inst, regs, mem);
    }
  }

  lemma {:induction false} ScratchNotPending(us: seq<Setup>, abi: Abi, pending: seq<Move>, scratch: Reg)
    requires ProperSetup(us, abi) && PendingOf(us, pending) && scratch in Scratches(abi)
    ensures scratch !in Dsts(pending)
  {
    if scratch in Dsts(pending) {
      var i := FindDst(pending, scratch);
    }
  }

  lemma {:induction false} PendingShrinks(us: seq<Setup>, pending: seq<Move>, idx: nat)
    requires PendingOf(us, pending) && idx < |pending|
    ensures PendingOf(us, Without(pending, idx)) && NeededSrcs(Without(pending, idx)) <= NeededSrcs(pending)
  {
    WithoutDistinct(pending, idx);
    SrcsWithout(pending, idx);
    assert forall m :: m in Without(pending, idx) ==> m in pending;
  }

  lemma {:induction false} PendingRedirected(us: seq<Setup>, pending: seq<Move>, src: Reg, scratch: Reg)
    requires PendingOf(us, pending)
    ensures PendingOf(us, Redirect(pending, src, scratch))
  {
    RedirectDsts(pending, src, scratch);
    var after := Redirect(pending, src, scratch);
    forall m | m in after
      ensures exists u :: u in us && u.RegMove? && u.dst == m.dst
    {
      var k :| 0 <= k < |after| && after[k] == m;
      assert pending[k] in pending;
    }
  }

  lemma {:induction false} InitialPending(us: seq<Setup>, abi: Abi)
    requires ProperSetup(us, abi)
    ensures var pending := DropSelfMoves(RegMovesOf(us));
      PendingOf(us, pending) && NeededSrcs(pending) !! Scratches(abi)
    ensures DistinctDsts(RegMovesOf(us)) && forall m :: m in RegMovesOf(us) ==> m.src != MEMORY
  {
    RegMovesDistinct(us);
    DropSelfKeepsDistinct(RegMovesOf(us));
    var pending := DropSelfMoves(RegMovesOf(us));
    forall m | m in RegMovesOf(us)
      ensures exists u :: u in us && u.RegMove? && u.dst == m.dst && u.src == m.src
    {
      var i := RegMoveFrom(us, m);
      assert us[i] in us;
    }
    forall r | r in NeededSrcs(pending)
      ensures r !in Scratches(abi)
    {
      var k := FindSrc(pending, r);
      assert pending[k] in RegMovesOf(us);
    }
  }

  lemma {:induction false} RegMovesDistinct(us: seq<Setup>)
    requires DistinctUnits(us)
    ensures DistinctDsts(RegMovesOf(us))
  {
    if us != [] {
      var front := RegMovesOf(us[..|us| - 1]);
      RegMovesDistinct(us[..|us| - 1]);
      forall k | 0 <= k < |front|
        ensures front[k].dst != us[|us| - 1].dst
      {
        assert front[k] in front;
        var i := RegMoveFrom(us[..|us| - 1], front[k]);
      }
    }
  }

  /** The units that are neither moves nor pairs, in order. */
  function OthersOf(us: seq<Setup>): seq<Setup> {
    if us == [] then []
    else
      var last := us[|us| - 1];
      OthersOf(us[..|us| - 1]) + if last.RegMove? || last.Reload? then [] else [last]
  }

  function ReloadsOf(us: seq<Setup>): seq<Setup> {
    if us == [] then []
    else ReloadsOf(us[..|us| - 1]) + if us[|us| - 1].Reload? then [us[|us| - 1]] else []
  }

  lemma {:induction false} SplitMembers(us: seq<Setup>)
    ensures forall u :: u in OthersOf(us) <==> u in us && !u.RegMove? && !u.Reload?
    ensures forall u :: u in ReloadsOf(us) <==> u in us && u.Reload?
  {
    if us != [] {
      SplitMembers(us[..|us| - 1]);
      assert us == us[..|us| - 1] + [us[|us| - 1]];
    }
  }

  lemma {:induction false} OthersKeepOrder(us: seq<Setup>)
    requires PushesComeFirst(us)
    ensures PushesComeFirst(OthersOf(us))
  {
    if us != [] {
      var front, last := us[..|us| - 1], us[|us| - 1];
      OthersKeepOrder(front);
      SplitMembers(front);
      forall u | u in OthersOf(front) && last.Push?
        ensures u.dst != last.src
      {
        var i :| 0 <= i < |front| && front[i] == u;
        assert us[i] == u;
      }
    }
  }

  lemma {:induction false} InitialMidway(us: seq<Setup>, abi: Abi)
    requires ProperSetup(us, abi)
    ensures Midway(us, abi, DropSelfMoves(RegMovesOf(us)), OthersOf(us), ReloadsOf(us), [])
  {
    SplitMembers(us);
    InitialPending(us, abi);
    forall u, regs: Regs, mem: Memory | u in us && u.RegMove?
      ensures Owed(DropSelfMoves(RegMovesOf(us)), u.dst, Expected(u, regs, mem), Exec([], regs, mem), mem)
    {
      var i :| 0 <= i < |us| && us[i] == u;
      RegMoveListed(us, i);
      var m := Move(u.dst, u.src, u.opcode, 0);
      SelfMoveOwed(RegMovesOf(us), m, regs, mem);
    }
    forall r: Reg, regs: Regs, mem: Memory
      ensures Exec([], regs, mem)(r) == regs(r)
    {
    }
  }

  lemma {:induction false} SelfMoveOwed(moves: seq<Move>, m: Move, regs: Regs, mem: Memory)
    requires DistinctDsts(moves) && m in moves && m.src != MEMORY
    ensures Owed(DropSelfMoves(moves), m.dst, Delivers(m, regs, mem), regs, mem)
  {
    if m.dst != MEMORY {
      DropSelfKeepsOwed(moves, m, regs, mem);
    } else {
      var pending := DropSelfMoves(moves);
      assert m in pending;
      forall k | 0 <= k < |pending| && pending[k].dst == m.dst
        ensures pending[k] == m
      {
        assert pending[k] in moves;
      }
    }
  }

  // ---- the first round: what need not wait, pushes among it ----

  lemma {:induction false} FlattenTouches(us: seq<Setup>, abi: Abi, r: Reg, regs: Regs, mem: Memory)
    requires r !in Scratches(abi) && forall u :: u in us ==> ProperUnit(u, abi) && !u.RegMove? && u.dst != r
    ensures Exec(Flatten(us), regs, mem)(r) == regs(r)
  {
    hide ProperUnit, UnitCode, Scratches, Exec;
    if us == [] {
      ExecNothing(regs, mem);
    } else {
      var front, last := us[..|us| - 1], us[|us| - 1];
      assert us == front + [last];
      FlattenTouches(front, abi, r, regs, mem);
      UnitLeaves(last, abi, Flatten(front), r, regs, mem);
    }
  }

  lemma {:induction false} UnitLeaves(u: Setup, abi: Abi, code: seq<Inst>, r: Reg, regs: Regs, mem: Memory)
    requires ProperUnit(u, abi) && r != u.dst && r !in Scratches(abi)
    ensures Exec(code + UnitCode(u), regs, mem)(r) == Exec(code, regs, mem)(r)
  {
    hide UnitCode, Exec;
    UnitEffect(u, code, regs, mem, r);
  }

  /** A push is emitted while its source still holds its first value. */
  lemma {:induction false} PushSourceKept(us: seq<Setup>, abi: Abi, needed: set<Reg>, k: nat)
    requires ProperSetup(us, abi) && k < |OthersOf(us)| && OthersOf(us)[k].Push?
    ensures forall regs: Regs, mem: Memory ::
              Exec(Flatten(NotNeeded(OthersOf(us)[..k], needed)), regs, mem)(OthersOf(us)[k].src)
                  == regs(OthersOf(us)[k].src)
  {
    SplitMembers(us);
    OthersKeepOrder(us);
    var others := OthersOf(us);
    var out := NotNeeded(others[..k], needed);
    FlushMembers(others[..k], needed);
    assert others[k] in us;
    assert ProperUnit(others[k], abi);
    forall u | u in out
      ensures ProperUnit(u, abi) && !u.RegMove? && u.dst != others[k].src
    {
      var i :| 0 <= i < |others[..k]| && others[..k][i] == u;
      assert others[i] == u && u in us;
    }
    hide ProperSetup, OthersOf, NotNeeded;
    forall regs: Regs, mem: Memory
      ensures Exec(Flatten(out), regs, mem)(others[k].src) == regs(others[k].src)
    {
      FlattenTouches(out, abi, others[k].src, regs, mem);
    }
  }

  /** What is deferred, or not yet looked at, after `k` of the others. */
  function Deferred(us: seq<Setup>, needed: set<Reg>, k: nat): seq<Setup>
    requires k <= |OthersOf(us)|
  {
    StillNeeded(OthersOf(us)[..k], needed) + OthersOf(us)[k..]
  }

  lemma {:induction false} DeferredIs(us: seq<Setup>, needed: set<Reg>, k: nat)
    requires k <= |OthersOf(us)|
    ensures Deferred(us, needed, k) == StillNeeded(OthersOf(us)[..k], needed) + OthersOf(us)[k..]
  {
  }

  lemma {:induction false} DeferredStep(us: seq<Setup>, needed: set<Reg>, k: nat)
    requires k < |OthersOf(us)|
    ensures var u := OthersOf(us)[k];
      if u.dst in needed then Deferred(us, needed, k + 1) == Deferred(us, needed, k)
      else forall w :: w in Deferred(us, needed, k) ==> w in Deferred(us, needed, k + 1) || w == u
  {
    hide *;
    var others := OthersOf(us);
    DeferredIs(us, needed, k);
    DeferredIs(us, needed, k + 1);
    FlushStep(others, needed, k);
    assert others[k..] == [others[k]] + others[k + 1..];
    OneMore(StillNeeded(others[..k], needed), StillNeeded(others[..k + 1], needed), others[k], others[k + 1..],
            others[k].dst in needed);
  }

  lemma {:induction false} OneMore(a: seq<Setup>, b: seq<Setup>, u: Setup, rest: seq<Setup>, kept: bool)
    requires b == a + if kept then [u] else []
    ensures kept ==> b + rest == a + ([u] + rest)
    ensures !kept ==> forall w :: w in a + ([u] + rest) ==> w in b + rest || w == u
  {
  }

  lemma {:induction false} NothingDeferredYet(us: seq<Setup>, needed: set<Reg>)
    ensures Deferred(us, needed, 0) == OthersOf(us) && Flatten(NotNeeded(OthersOf(us)[..0], needed)) == []
    ensures Deferred(us, needed, |OthersOf(us)|) == StillNeeded(OthersOf(us), needed)
    ensures OthersOf(us)[..|OthersOf(us)|] == OthersOf(us)
  {
    var others := OthersOf(us);
    FlushNothing(needed);
    assert others[..0] == [] && others[|others|..] == [] && others[..|others|] == others;
    hide OthersOf, StillNeeded, NotNeeded, Flatten;
  }

  lemma {:induction false} OtherUnit(us: seq<Setup>, abi: Abi, k: nat)
    requires ProperSetup(us, abi) && k < |OthersOf(us)|
    ensures OthersOf(us)[k] in us && !OthersOf(us)[k].RegMove?
    ensures NeededSrcs(DropSelfMoves(RegMovesOf(us))) !! Scratches(abi)
  {
    SplitMembers(us);
    InitialPending(us, abi);
    assert OthersOf(us)[k] in OthersOf(us);
  }

  lemma {:induction false} FirstRound(us: seq<Setup>, abi: Abi, pending: seq<Move>, k: nat)
    requires ProperSetup(us, abi) && pending == DropSelfMoves(RegMovesOf(us)) && k <= |OthersOf(us)|
    ensures var needed := NeededSrcs(pending);
      Midway(us, abi, pending, Deferred(us, needed, k), ReloadsOf(us), Flatten(NotNeeded(OthersOf(us)[..k], needed)))
  {
    hide *;
    var others, needed, pairs := OthersOf(us), NeededSrcs(pending), ReloadsOf(us);
    if k == 0 {
      InitialMidway(us, abi);
      NothingDeferredYet(us, needed);
    } else {
      FirstRound(us, abi, pending, k - 1);
      OtherUnit(us, abi, k - 1);
      FlushStep(others, needed, k - 1);
      DeferredStep(us, needed, k - 1);
      var code := Flatten(NotNeeded(others[..k - 1], needed));
      assert code + [] == code;
      if others[k - 1].dst !in needed {
        if others[k - 1].Push? {
          PushSourceKept(us, abi, needed, k - 1);
        }
        EmitUnit(us, abi, pending, Deferred(us, needed, k - 1), pairs, code, others[k - 1], Deferred(us, needed, k),
                 pairs);
      }
    }
  }

  /** Moves read registers, so a push never waits for one. */
  lemma {:induction false} NeededAreRegisters(us: seq<Setup>, abi: Abi)
    requires ProperSetup(us, abi)
    ensures forall r :: r in NeededSrcs(DropSelfMoves(RegMovesOf(us))) ==> r < CELLS
  {
    var pending := DropSelfMoves(RegMovesOf(us));
    forall r | r in NeededSrcs(pending)
      ensures r < CELLS
    {
      var k := FindSrc(pending, r);
      var i := RegMoveFrom(us, pending[k]);
      assert us[i] in us;
    }
  }

  /** Emit first what need not wait, then the pairs that need not. */
  method FlushFirst(us: seq<Setup>, abi: Abi, pending: seq<Move>)
    returns (direct: seq<Setup>, pairs: seq<Setup>, code: seq<Inst>)
    requires ProperSetup(us, abi) && pending == DropSelfMoves(RegMovesOf(us))
    ensures Midway(us, abi, pending, direct, pairs, code) && Waiting(us, abi, pending, direct, pairs)
    ensures KeepsPushes(us, code) && KeepsPushes(us, FirstCode(us)) && FirstCode(us) <= code
    ensures RightOpcodes(us, abi, code)
  {
    hide *;
    var needed := NeededSrcs(pending);
    FirstCodeIs(us);
    FirstRound(us, abi, pending, |OthersOf(us)|);
    NothingDeferredYet(us, needed);
    FirstWaiting(us, abi, pending);
    OthersPushes(us, abi, needed);
    var code1: seq<Inst>;
    direct, code1 := Flush(OthersOf(us), needed, []);
    assert code1 == Flatten(NotNeeded(OthersOf(us), needed));
    FirstPushes(us, abi, needed, code1);
    pairs, code := Flush(ReloadsOf(us), needed, code1);
    EmitAll(us, abi, pending, direct, ReloadsOf(us), code1, NotNeeded(ReloadsOf(us), needed), direct, pairs);
    LaterPushes(us, abi, NotNeeded(ReloadsOf(us), needed), code1);
    FirstIsRight(us, abi, needed);
  }

  lemma {:induction false} FirstIsRight(us: seq<Setup>, abi: Abi, needed: set<Reg>)
    requires ProperSetup(us, abi)
    ensures RightOpcodes(us, abi, Flatten(NotNeeded(OthersOf(us), needed)) + Flatten(NotNeeded(ReloadsOf(us), needed)))
  {
    SplitMembers(us);
    FlushMembers(OthersOf(us), needed);
    FlushMembers(ReloadsOf(us), needed);
    hide ProperUnit, OthersOf, ReloadsOf, NotNeeded, Flatten, HasMove, ClassySetup, Suits, Scratches;
    OtherUnitsAreRight(us, abi, [], NotNeeded(OthersOf(us), needed));
    assert [] + Flatten(NotNeeded(OthersOf(us), needed)) == Flatten(NotNeeded(OthersOf(us), needed));
    OtherUnitsAreRight(us, abi, Flatten(NotNeeded(OthersOf(us), needed)), NotNeeded(ReloadsOf(us), needed));
  }

  /** What the first round emits, pairs apart. */
  function FirstCode(us: seq<Setup>): seq<Inst> {
    Flatten(NotNeeded(OthersOf(us), NeededSrcs(DropSelfMoves(RegMovesOf(us)))))
  }

  lemma {:induction false} FirstCodeIs(us: seq<Setup>)
    ensures FirstCode(us) == Flatten(NotNeeded(OthersOf(us), NeededSrcs(DropSelfMoves(RegMovesOf(us)))))
  {
  }

  lemma {:induction false} FirstPushes(us: seq<Setup>, abi: Abi, needed: set<Reg>, code: seq<Inst>)
    requires PushCode(code) == PushCode(Flatten(us))
    ensures KeepsPushes(us, code)
  {
  }

  /** What the first round leaves waits for a move, and is no push. */
  lemma {:induction false} FirstWaiting(us: seq<Setup>, abi: Abi, pending: seq<Move>)
    requires ProperSetup(us, abi) && pending == DropSelfMoves(RegMovesOf(us))
    ensures var needed := NeededSrcs(pending);
      && Waiting(us, abi, pending, StillNeeded(OthersOf(us), needed), StillNeeded(ReloadsOf(us), needed))
      && needed !! Scratches(abi) && (forall r :: r in needed ==> r < CELLS)
          && (forall r :: r in Scratches(abi) ==> r < CELLS)
      && (forall u :: u in NotNeeded(ReloadsOf(us), needed) ==>
            u in us && !u.RegMove? && !u.Push? && !IsPush(u) && u.dst !in needed)
      && (forall u :: u in us ==> ProperUnit(u, abi))
      && (forall u :: u in ReloadsOf(us)
           ==> u in StillNeeded(ReloadsOf(us), needed) || u in NotNeeded(ReloadsOf(us), needed))
  {
    hide *;
    var needed := NeededSrcs(pending);
    ProperParts(us, abi);
    SplitMembers(us);
    InitialPending(us, abi);
    NeededAreRegisters(us, abi);
    FlushMembers(OthersOf(us), needed);
    FlushMembers(ReloadsOf(us), needed);
    forall u | u in us
      ensures u.dst in needed && !u.RegMove? && !u.Reload? ==> IsLoad(u) && !IsPush(u)
      ensures u.Reload? ==> !IsPush(u)
    {
      WaitingKind(u, abi);
    }
    WaitingFrom(us, abi, pending, StillNeeded(OthersOf(us), needed), StillNeeded(ReloadsOf(us), needed));
  }

  lemma {:induction false} ProperParts(us: seq<Setup>, abi: Abi)
    requires ProperSetup(us, abi)
    ensures (forall r :: r in Scratches(abi) ==> r < CELLS) && forall u :: u in us ==> ProperUnit(u, abi)
  {
  }

  lemma {:induction false} WaitingKind(u: Setup, abi: Abi)
    requires ProperUnit(u, abi)
    ensures u.dst < CELLS && !u.RegMove? && !u.Reload? ==> IsLoad(u) && !IsPush(u)
    ensures u.Reload? ==> !IsPush(u)
  {
  }

  lemma {:induction false} WaitingFrom(us: seq<Setup>, abi: Abi, pending: seq<Move>, direct: seq<Setup>,
                                       pairs: seq<Setup>)
    requires forall u :: u in direct ==> u in us && IsLoad(u) && !IsPush(u) && u.dst in NeededSrcs(pending)
    requires forall u :: u in pairs ==> u in us && u.Reload? && u.dst in NeededSrcs(pending)
    requires NeededSrcs(pending) !! Scratches(abi)
    ensures Waiting(us, abi, pending, direct, pairs)
  {
  }

  // ---- pushes keep their order ----

  /** The pushes among the instructions. */
  function PushCode(code: seq<Inst>): seq<Inst> {
    if code == [] then []
    else PushCode(code[..|code| - 1]) + if code[|code| - 1].dst >= CELLS then [code[|code| - 1]] else []
  }

  /** The code pushes what the set-up pushes, in the same order, so that every cell is where it should be. */
  ghost predicate KeepsPushes(us: seq<Setup>, code: seq<Inst>) {
    PushCode(code) == PushCode(Flatten(us))
  }

  lemma {:induction false} PushCodeJoin(a: seq<Inst>, b: seq<Inst>)
    ensures PushCode(a + b) == PushCode(a) + PushCode(b)
    decreases |b|
  {
    if b == [] {
      assert a + b == a;
    } else {
      assert (a + b)[..|a + b| - 1] == a + b[..|b| - 1];
      PushCodeJoin(a, b[..|b| - 1]);
    }
  }

  lemma {:induction false} NoPushCode(code: seq<Inst>)
    requires forall k :: 0 <= k < |code| ==> code[k].dst < CELLS
    ensures PushCode(code) == []
  {
    if code != [] {
      NoPushCode(code[..|code| - 1]);
    }
  }

  /** Only pushes fill cells. */
  lemma {:induction false} UnitPushes(u: Setup, abi: Abi)
    requires ProperUnit(u, abi) && !IsPush(u) && forall r :: r in Scratches(abi) ==> r < CELLS
    ensures PushCode(UnitCode(u)) == []
  {
    NoPushCode(UnitCode(u));
  }

  lemma {:induction false} OthersPushes(us: seq<Setup>, abi: Abi, needed: set<Reg>)
    requires (forall r :: r in Scratches(abi) ==> r < CELLS) && forall u :: u in us ==> ProperUnit(u, abi)
    requires forall r :: r in needed ==> r < CELLS
    ensures PushCode(Flatten(NotNeeded(OthersOf(us), needed))) == PushCode(Flatten(us))
  {
    hide *;
    if us == [] {
      NothingPushed(needed);
    } else {
      var front, last := us[..|us| - 1], us[|us| - 1];
      assert us == front + [last];
      assert last in us && forall u :: u in front ==> u in us;
      OthersPushes(front, abi, needed);
      var others, listed := OthersOf(front), !last.RegMove? && !last.Reload?;
      OthersSnoc(us);
      FlattenSnoc(front, last);
      NotNeededSnoc(others, last, needed);
      if !listed || last.dst in needed {
        OrdinaryUnit(last, abi);
        UnitPushes(last, abi);
      }
      SamePushes(Flatten(NotNeeded(others, needed)), Flatten(front), UnitCode(last), listed && last.dst !in needed);
    }
  }

  lemma {:induction false} NothingPushed(needed: set<Reg>)
    ensures PushCode(Flatten(NotNeeded(OthersOf([]), needed))) == PushCode(Flatten([]))
  {
  }

  lemma {:induction false} SamePushes(a: seq<Inst>, b: seq<Inst>, code: seq<Inst>, kept: bool)
    requires PushCode(a) == PushCode(b) && (kept || PushCode(code) == [])
    ensures PushCode(if kept then a + code else a) == PushCode(b + code)
  {
    hide *;
    PushCodeJoin(b, code);
    PushCodeJoin(a, code);
    assert PushCode(b) + [] == PushCode(b);
  }

  lemma {:induction false} OrdinaryUnit(u: Setup, abi: Abi)
    requires ProperUnit(u, abi) && (u.RegMove? || u.Reload? || u.dst < CELLS)
    ensures !IsPush(u)
  {
  }

  lemma {:induction false} NotNeededSnoc(us: seq<Setup>, u: Setup, needed: set<Reg>)
    ensures var out := Flatten(NotNeeded(us, needed));
      Flatten(NotNeeded(us + [u], needed)) == if u.dst in needed then out else out + UnitCode(u)
  {
    assert (us + [u])[..|us|] == us;
    FlattenSnoc(NotNeeded(us, needed), u);
    assert NotNeeded(us, needed) + [] == NotNeeded(us, needed);
  }

  lemma {:induction false} OthersSnoc(us: seq<Setup>)
    requires us != []
    ensures var last := us[|us| - 1];
      OthersOf(us) == if last.RegMove? || last.Reload? then OthersOf(us[..|us| - 1])
                      else OthersOf(us[..|us| - 1]) + [last]
  {
    assert OthersOf(us[..|us| - 1]) + [] == OthersOf(us[..|us| - 1]);
  }

  /** Emitting units that are no pushes changes nothing about the pushes. */
  lemma {:induction false} LaterPushes(us: seq<Setup>, abi: Abi, out: seq<Setup>, code: seq<Inst>)
    requires ProperSetup(us, abi) && KeepsPushes(us, code)
    requires forall u :: u in out ==> u in us && !IsPush(u)
    ensures KeepsPushes(us, code + Flatten(out))
  {
    hide *;
    if out == [] {
      NothingFlattened(out);
      assert code + [] == code;
    } else {
      var front, last := out[..|out| - 1], out[|out| - 1];
      assert out == front + [last];
      assert last in out && forall u :: u in front ==> u in out;
      LaterPushes(us, abi, front, code);
      ProperParts(us, abi);
      UnitPushes(last, abi);
      FlattenSnoc(front, last);
      MorePushes(us, code + Flatten(front), UnitCode(last));
      assert code + (Flatten(front) + UnitCode(last)) == (code + Flatten(front)) + UnitCode(last);
    }
  }

  lemma {:induction false} NothingFlattened(us: seq<Setup>)
    requires us == []
    ensures Flatten(us) == []
  {
  }

  lemma {:induction false} MorePushes(us: seq<Setup>, code: seq<Inst>, more: seq<Inst>)
    requires KeepsPushes(us, code) && PushCode(more) == []
    ensures KeepsPushes(us, code + more)
  {
    hide PushCode, Flatten;
    PushCodeJoin(code, more);
    assert PushCode(code) + [] == PushCode(code);
  }

  lemma {:induction false} MovePushes(us: seq<Setup>, code: seq<Inst>, i: Inst)
    requires KeepsPushes(us, code) && i.dst < CELLS
    ensures KeepsPushes(us, code + [i])
  {
    NoPushCode([i]);
    PushCodeJoin(code, [i]);
  }

  // ---- opcodes ----

  function BankOf(abi: Abi): Bank {
    Bank(abi.mov, abi.movfp, abi.floatFrom, abi.floatTo)
  }

  /** Every register move of the set-up stays within its class, with an opcode that suits it, and so do the
      scratches. */
  ghost predicate ClassySetup(us: seq<Setup>, abi: Abi) {
    && abi.mov != abi.movfp && !InFloats(BankOf(abi), abi.scratch) && InFloats(BankOf(abi), abi.floatScratch)
    && forall u :: u in us && u.RegMove? ==> Suits(BankOf(abi), u.opcode, u.dst, u.src)
  }

  /** The set-up moves something to `dst` with this opcode. */
  ghost predicate HasMove(us: seq<Setup>, dst: Reg, opcode: nat) {
    exists u :: u in us && u.RegMove? && u.dst == dst && u.opcode == opcode
  }

  /** Every copy between registers has the opcode that the set-up has for it, or saves a register in the
      scratch; if the set-up keeps to classes, so do all of them.  What fills a stack cell is a push. */
  ghost predicate RightOpcodes(us: seq<Setup>, abi: Abi, code: seq<Inst>) {
    forall i :: i in code && i.Copy? ==>
      if i.dst >= CELLS then i.opcode == PUSH
      else
        && (i.dst in Scratches(abi) || HasMove(us, i.dst, i.opcode))
        && (ClassySetup(us, abi) ==> Suits(BankOf(abi), i.opcode, i.dst, i.src))
  }

  ghost predicate RightMoves(us: seq<Setup>, abi: Abi, pending: seq<Move>) {
    forall m :: m in pending ==>
      HasMove(us, m.dst, m.opcode) && (ClassySetup(us, abi) ==> Suits(BankOf(abi), m.opcode, m.dst, m.src))
  }

  lemma {:induction false} RightAtStart(us: seq<Setup>, abi: Abi)
    requires ProperSetup(us, abi)
    ensures RightMoves(us, abi, DropSelfMoves(RegMovesOf(us)))
  {
    forall m | m in RegMovesOf(us)
      ensures exists u :: u in us && u == RegMove(m.dst, m.src, m.opcode)
    {
      var i := RegMoveFrom(us, m);
      assert us[i] in us;
    }
  }

  /** Loads, pairs and pushes copy no register to another. */
  lemma {:induction false} OtherUnitsAreRight(us: seq<Setup>, abi: Abi, code: seq<Inst>, out: seq<Setup>)
    requires RightOpcodes(us, abi, code) && forall u :: u in out ==> ProperUnit(u, abi) && !u.RegMove?
    ensures RightOpcodes(us, abi, code + Flatten(out))
  {
    hide HasMove, ClassySetup, Suits, Scratches, ProperUnit;
    if out == [] {
      assert code + Flatten(out) == code;
    } else {
      var front, last := out[..|out| - 1], out[|out| - 1];
      assert out == front + [last] && last in out;
      OtherUnitsAreRight(us, abi, code, front);
      OtherUnitCopies(last, abi);
      hide UnitCode;
      assert code + Flatten(out) == (code + Flatten(front)) + UnitCode(last);
    }
  }

  lemma {:induction false} OtherUnitCopies(u: Setup, abi: Abi)
    requires ProperUnit(u, abi) && !u.RegMove?
    ensures forall i :: i in UnitCode(u) && i.Copy? ==> i.dst >= CELLS && i.opcode == PUSH
  {
  }

  lemma {:induction false} OneMoreIsRight(us: seq<Setup>, abi: Abi, code: seq<Inst>, i: Inst)
    requires RightOpcodes(us, abi, code) && i.Copy? && i.dst < CELLS
    requires i.dst in Scratches(abi) || HasMove(us, i.dst, i.opcode)
    requires ClassySetup(us, abi) ==> Suits(BankOf(abi), i.opcode, i.dst, i.src)
    ensures RightOpcodes(us, abi, code + [i])
  {
  }

  /** Saving a source in the scratch of its class, with an opcode of its class. */
  lemma {:induction false} BreakIsRight(us: seq<Setup>, abi: Abi, pending: seq<Move>, code: seq<Inst>, cycle: Move,
                                        isFloat: bool)
    requires RightMoves(us, abi, pending) && RightOpcodes(us, abi, code) && cycle in pending
    requires isFloat <==> cycle.opcode == abi.movfp || InFloats(BankOf(abi), cycle.src)
    requires abi.scratch < CELLS && abi.floatScratch < CELLS
    ensures var scratch := if isFloat then abi.floatScratch else abi.scratch;
      var opcode := if isFloat then abi.movfp else abi.mov;
      && RightMoves(us, abi, Redirect(pending, cycle.src, scratch))
      && RightOpcodes(us, abi, code + [Copy(opcode, scratch, cycle.src)])
  {
    hide HasMove;
    var scratch := if isFloat then abi.floatScratch else abi.scratch;
    var after := Redirect(pending, cycle.src, scratch);
    forall m | m in after
      ensures exists o :: o in pending && m == if o.src == cycle.src then o.(src := scratch) else o
    {
      var k :| 0 <= k < |after| && after[k] == m;
      assert pending[k] in pending;
    }
  }

  /** All units in their order. */
  lemma {:induction false} OriginalIsRight(us: seq<Setup>, abi: Abi, n: nat)
    requires ProperSetup(us, abi) && n <= |us|
    ensures RightOpcodes(us, abi, Flatten(us[..n]))
  {
    hide HasMove, ClassySetup, Suits, Scratches, ProperUnit;
    if n > 0 {
      OriginalIsRight(us, abi, n - 1);
      assert us[..n][..n - 1] == us[..n - 1] && us[n - 1] in us;
      var u := us[n - 1];
      if u.RegMove? {
        MoveIsRight(us, abi, u);
      } else {
        OtherUnitCopies(u, abi);
      }
      assert Flatten(us[..n]) == Flatten(us[..n - 1]) + UnitCode(u);
    }
  }

  lemma {:induction false} MoveIsRight(us: seq<Setup>, abi: Abi, u: Setup)
    requires u in us && u.RegMove? && ProperUnit(u, abi)
    ensures u.dst < CELLS && HasMove(us, u.dst, u.opcode)
    ensures ClassySetup(us, abi) ==> Suits(BankOf(abi), u.opcode, u.dst, u.src)
  {
  }

  // ---- the loop ----

  /** Emit everything nobody waits for and keep the invariants. */
  method FlushBoth(ghost us: seq<Setup>, ghost abi: Abi, pending: seq<Move>, direct0: seq<Setup>, pairs0: seq<Setup>,
                   code0: seq<Inst>)
    returns (direct: seq<Setup>, pairs: seq<Setup>, code: seq<Inst>)
    requires ProperSetup(us, abi) && Midway(us, abi, pending, direct0, pairs0, code0)
    requires direct0 + pairs0 != [] ==> NeededSrcs(pending) !! Scratches(abi)
    requires forall u :: u in direct0 ==> u in us && IsLoad(u) && !IsPush(u)
    requires forall u :: u in pairs0 ==> u in us && u.Reload?
    requires KeepsPushes(us, code0) && RightOpcodes(us, abi, code0)
    ensures Midway(us, abi, pending, direct, pairs, code) && Waiting(us, abi, pending, direct, pairs)
    ensures KeepsPushes(us, code) && RightOpcodes(us, abi, code) && code0 <= code
  {
    hide *;
    var needed := NeededSrcs(pending);
    var code1: seq<Inst>;
    ProperParts(us, abi);
    FlushMembers(direct0, needed);
    FlushMembers(pairs0, needed);
    LoadsAndPairs(us, abi, direct0, pairs0);
    HasMember(NotNeeded(direct0, needed));
    HasMember(NotNeeded(pairs0, needed));
    direct, code1 := Flush(direct0, needed, code0);
    EmitAll(us, abi, pending, direct0, pairs0, code0, NotNeeded(direct0, needed), direct, pairs0);
    LaterPushes(us, abi, NotNeeded(direct0, needed), code0);
    OtherUnitsAreRight(us, abi, code0, NotNeeded(direct0, needed));
    pairs, code := Flush(pairs0, needed, code1);
    EmitAll(us, abi, pending, direct, pairs0, code1, NotNeeded(pairs0, needed), direct, pairs);
    LaterPushes(us, abi, NotNeeded(pairs0, needed), code1);
    OtherUnitsAreRight(us, abi, code1, NotNeeded(pairs0, needed));
    StillWaiting(us, abi, pending, direct, pairs, direct0, pairs0);
  }

  /** Deferred units are neither moves nor pushes. */
  lemma {:induction false} LoadsAndPairs(us: seq<Setup>, abi: Abi, direct: seq<Setup>, pairs: seq<Setup>)
    requires forall u :: u in us ==> ProperUnit(u, abi)
    requires forall u :: u in direct ==> u in us && IsLoad(u) && !IsPush(u)
    requires forall u :: u in pairs ==> u in us && u.Reload?
    ensures forall u :: u in direct || u in pairs ==> u in us && !u.RegMove? && !u.Push? && !IsPush(u)
  {
    forall u | u in direct || u in pairs
      ensures u in us && !u.RegMove? && !u.Push? && !IsPush(u)
    {
      assert ProperUnit(u, abi);
    }
  }

  lemma {:induction false} StillWaiting(us: seq<Setup>, abi: Abi, pending: seq<Move>, direct: seq<Setup>,
                                        pairs: seq<Setup>, direct0: seq<Setup>, pairs0: seq<Setup>)
    requires direct0 + pairs0 != [] ==> NeededSrcs(pending) !! Scratches(abi)
    requires forall u :: u in direct0 ==> u in us && IsLoad(u) && !IsPush(u)
    requires forall u :: u in pairs0 ==> u in us && u.Reload?
    requires forall u :: u in direct ==> u in direct0 && u.dst in NeededSrcs(pending)
    requires forall u :: u in pairs ==> u in pairs0 && u.dst in NeededSrcs(pending)
    ensures Waiting(us, abi, pending, direct, pairs)
  {
    hide Scratches, NeededSrcs;
    HasMember(direct);
    HasMember(pairs);
  }

  /** What holds whenever the loop looks for a safe move. */
  ghost predicate LoopInvariant(us: seq<Setup>, abi: Abi, pending: seq<Move>, direct: seq<Setup>, pairs: seq<Setup>,
                                code: seq<Inst>) {
    && PendingOf(us, pending) && (forall m :: m in pending ==> m.src != MEMORY)
    && Midway(us, abi, pending, direct, pairs, code) && Waiting(us, abi, pending, direct, pairs)
    && KeepsPushes(us, code) && RightMoves(us, abi, pending) && RightOpcodes(us, abi, code)
  }

  /** Emit the safe move at `idx` and what it releases. */
  method EmitSafe(ghost us: seq<Setup>, ghost abi: Abi, pending0: seq<Move>, direct0: seq<Setup>, pairs0: seq<Setup>,
                  code0: seq<Inst>, idx: nat)
    returns (pending: seq<Move>, direct: seq<Setup>, pairs: seq<Setup>, code: seq<Inst>)
    requires ProperSetup(us, abi) && LoopInvariant(us, abi, pending0, direct0, pairs0, code0)
    requires idx < |pending0| && pending0[idx].dst !in NeededSrcs(pending0)
    ensures pending == Without(pending0, idx)
    ensures LoopInvariant(us, abi, pending, direct, pairs, code) && |pending| == |pending0| - 1 && code0 <= code
  {
    hide *;
    SafeMoveEmitted(us, abi, pending0, direct0, pairs0, code0, idx);
    var m := pending0[idx];
    pending := pending0[..idx] + pending0[idx + 1..];
    assert pending == Without(pending0, idx) by {
      WithoutIs(pending0, idx);
    }
    code := code0 + [Copy(m.opcode, m.dst, m.src)];
    direct, pairs, code := FlushBoth(us, abi, pending, direct0, pairs0, code);
    LoopGoesOn(us, abi, pending, direct, pairs, code);
  }

  lemma {:induction false} WithoutIs(moves: seq<Move>, idx: nat)
    requires idx < |moves|
    ensures Without(moves, idx) == moves[..idx] + moves[idx + 1..]
  {
  }

  lemma {:induction false} LoopGoesOn(us: seq<Setup>, abi: Abi, pending: seq<Move>, direct: seq<Setup>,
                                      pairs: seq<Setup>, code: seq<Inst>)
    requires PendingOf(us, pending) && (forall m :: m in pending ==> m.src != MEMORY)
    requires Midway(us, abi, pending, direct, pairs, code) && Waiting(us, abi, pending, direct, pairs)
    requires KeepsPushes(us, code) && RightMoves(us, abi, pending) && RightOpcodes(us, abi, code)
    ensures LoopInvariant(us, abi, pending, direct, pairs, code)
  {
  }

  lemma {:induction false} SafeMoveIsRight(us: seq<Setup>, abi: Abi, pending: seq<Move>, code: seq<Inst>, idx: nat)
    requires RightMoves(us, abi, pending) && RightOpcodes(us, abi, code) && idx < |pending| && pending[idx].dst < CELLS
    ensures var m := pending[idx];
      RightMoves(us, abi, Without(pending, idx)) && RightOpcodes(us, abi, code + [Copy(m.opcode, m.dst, m.src)])
  {
    var m, rest := pending[idx], Without(pending, idx);
    assert m in pending && forall k :: k in rest ==> k in pending;
    hide RightOpcodes, HasMove, ClassySetup, Suits;
    OneMoreIsRight(us, abi, code, Copy(m.opcode, m.dst, m.src));
  }

  /** What holds between a safe move and the units that it releases. */
  lemma {:induction false} SafeMoveEmitted(us: seq<Setup>, abi: Abi, pending: seq<Move>, direct: seq<Setup>,
                                           pairs: seq<Setup>, code: seq<Inst>, idx: nat)
    requires ProperSetup(us, abi) && LoopInvariant(us, abi, pending, direct, pairs, code)
    requires idx < |pending| && pending[idx].dst !in NeededSrcs(pending)
    ensures var m, rest := pending[idx], Without(pending, idx); var more := code + [Copy(m.opcode, m.dst, m.src)];
      && PendingOf(us, rest) && (forall k :: k in rest ==> k.src != MEMORY) && RightMoves(us, abi, rest)
      && Midway(us, abi, rest, direct, pairs, more) && KeepsPushes(us, more) && RightOpcodes(us, abi, more)
      && (direct + pairs != [] ==> NeededSrcs(rest) !! Scratches(abi))
      && (forall u :: u in direct ==> u in us && IsLoad(u) && !IsPush(u))
      && (forall u :: u in pairs ==> u in us && u.Reload?)
  {
    PendingIsRegister(us, abi, pending, idx);
    SafeMoveIsRight(us, abi, pending, code, idx);
    var m, rest := pending[idx], Without(pending, idx);
    assert m in pending && forall k :: k in rest ==> k in pending;
    hide Midway, Waiting, PendingOf, ProperSetup, RightOpcodes, RightMoves, KeepsPushes, Scratches, NeededSrcs, Without;
    MoveStep(us, abi, pending, direct, pairs, code, idx);
    MovePushes(us, code, Copy(m.opcode, m.dst, m.src));
    PendingShrinks(us, pending, idx);
    WaitingShrinks(us, abi, pending, direct, pairs, idx);
  }

  lemma {:induction false} PendingIsRegister(us: seq<Setup>, abi: Abi, pending: seq<Move>, idx: nat)
    requires ProperSetup(us, abi) && PendingOf(us, pending) && idx < |pending|
    ensures pending[idx].dst < CELLS && forall r :: r in Scratches(abi) ==> r < CELLS
  {
    assert pending[idx] in pending;
    var u :| u in us && u.RegMove? && u.dst == pending[idx].dst;
    assert ProperUnit(u, abi);
  }

  /** Save the first pending source in a scratch; by now nothing is deferred. */
  method BreakCycle(ghost us: seq<Setup>, abi: Abi, pending0: seq<Move>, ghost direct: seq<Setup>,
                    ghost pairs: seq<Setup>, code0: seq<Inst>)
    returns (pending: seq<Move>, code: seq<Inst>)
    requires ProperSetup(us, abi) && LoopInvariant(us, abi, pending0, direct, pairs, code0)
    requires MEMORY !in Scratches(abi) && pending0 != [] && Stuck(pending0)
    ensures direct == [] && pairs == [] && LoopInvariant(us, abi, pending, direct, pairs, code)
    ensures |pending| == |pending0| && SafeIndex(pending).Some? && code0 <= code
  {
    hide Midway, Waiting, ProperSetup, RightOpcodes, RightMoves;
    var cycle := pending0[0];
    assert cycle in pending0 && cycle.src in NeededSrcs(pending0);
    NobodyWaitsWhenStuck(us, abi, pending0, direct, pairs);
    var isFloat := cycle.opcode == abi.movfp || abi.floatFrom <= cycle.src < abi.floatTo;
    var scratch := if isFloat then abi.floatScratch else abi.scratch;
    ScratchNotPending(us, abi, pending0, scratch);
    BreakStep(us, abi, pending0, code0, cycle.src, scratch, if isFloat then abi.movfp else abi.mov);
    PendingRedirected(us, pending0, cycle.src, scratch);
    PendingIsRegister(us, abi, pending0, 0);
    BreakIsRight(us, abi, pending0, code0, cycle, isFloat);
    MovePushes(us, code0, Copy(if isFloat then abi.movfp else abi.mov, scratch, cycle.src));
    ghost var k := BreakingFrees(pending0, cycle.src, scratch);
    code := code0 + [Copy(if isFloat then abi.movfp else abi.mov, scratch, cycle.src)];
    pending := Redirect(pending0, cycle.src, scratch);
    NobodyWaits(us, abi, pending);
  }

  /** Parallel-move sequentialisation of a set-up: pushes first, moves in a safe order, cycles through a
      scratch, loads and pairs as soon as nobody waits for their destination. */
  method SequenceSetup(us: seq<Setup>, abi: Abi) returns (code: seq<Inst>)
    requires ProperSetup(us, abi) && MEMORY !in Scratches(abi)
    ensures Obeys(us, true, code) && Contained(us, abi, code) && KeepsPushes(us, code)
    ensures RightOpcodes(us, abi, code)
  {
    InitialPending(us, abi);
    RightAtStart(us, abi);
    hide RightOpcodes, RightMoves, Midway, Waiting, PendingOf, ProperSetup, RegMovesOf, Scratches, KeepsPushes, Obeys,
      FirstCode;
    var pending := DropSelfMoves(RegMovesOf(us));
    CapIsAmple(|pending|);
    var direct, pairs;
    direct, pairs, code := FlushFirst(us, abi, pending);
    var limit: nat := |pending| * |pending| + 10;
    while pending != [] && limit > 0
      invariant LoopInvariant(us, abi, pending, direct, pairs, code) && FirstCode(us) <= code
      invariant limit >= 2 * |pending| - (if SafeIndex(pending).Some? then 1 else 0)
      decreases limit
    {
      hide LoopInvariant;
      limit := limit - 1;
      var safe := SafeIndex(pending);
      if safe.Some? {
        pending, direct, pairs, code := EmitSafe(us, abi, pending, direct, pairs, code, safe.value);
      } else {
        pending, code := BreakCycle(us, abi, pending, direct, pairs, code);
      }
    }
    NothingLeft(us, abi, direct, pairs, code);
    code := code + Flatten(direct) + Flatten(pairs);
    OrderedObeys(us, abi, code);
  }

  /** Every unit but the pushes through an address delivers. */
  ghost predicate Settled(us: seq<Setup>, code: seq<Inst>) {
    forall u, regs: Regs, mem: Memory :: u in us && !u.PushThrough?
        ==> Exec(code, regs, mem)(u.dst) == Expected(u, regs, mem)
  }

  lemma {:induction false} WaitingShrinks(us: seq<Setup>, abi: Abi, pending: seq<Move>, direct: seq<Setup>,
                                          pairs: seq<Setup>, idx: nat)
    requires Waiting(us, abi, pending, direct, pairs) && idx < |pending|
    ensures direct + pairs != [] ==> NeededSrcs(Without(pending, idx)) !! Scratches(abi)
    ensures forall u :: u in direct ==> u in us && IsLoad(u) && !IsPush(u)
    ensures forall u :: u in pairs ==> u in us && u.Reload?
  {
    SrcsWithout(pending, idx);
  }

  lemma {:induction false} NobodyWaits(us: seq<Setup>, abi: Abi, pending: seq<Move>)
    ensures Waiting(us, abi, pending, [], [])
  {
  }

  lemma {:induction false} HasMember(us: seq<Setup>)
    ensures us != [] ==> exists u :: u in us
  {
    if us != [] {
      assert us[0] in us;
    }
  }

  /** With no move pending nothing waits, and every debt is settled. */
  lemma {:induction false} NothingLeft(us: seq<Setup>, abi: Abi, direct: seq<Setup>, pairs: seq<Setup>, code: seq<Inst>)
    requires Midway(us, abi, [], direct, pairs, code) && Waiting(us, abi, [], direct, pairs)
    ensures code + Flatten(direct) + Flatten(pairs) == code
    ensures Settled(us, code) && Contained(us, abi, code)
  {
    HasMember(direct);
    HasMember(pairs);
    assert code + Flatten(direct) + Flatten(pairs) == code;
    forall u, regs: Regs, mem: Memory | u in us && u.RegMove?
      ensures Exec(code, regs, mem)(u.dst) == Expected(u, regs, mem)
    {
      assert Owed([], u.dst, Expected(u, regs, mem), Exec(code, regs, mem), mem);
    }
  }

  // ---- pushes through an address ----

  lemma {:induction false} NoCellWritten(code: seq<Inst>, r: Reg, regs: Regs, mem: Memory)
    requires PushCode(code) == [] && r >= CELLS
    ensures Exec(code, regs, mem)(r) == regs(r)
  {
    if code != [] {
      NoCellWritten(code[..|code| - 1], r, regs, mem);
    }
  }

  /** Code that pushes nothing more leaves the stack cells as they are. */
  lemma {:induction false} CellsStand(first: seq<Inst>, code: seq<Inst>, r: Reg, regs: Regs, mem: Memory)
    requires first <= code && PushCode(first) == PushCode(code) && r >= CELLS
    ensures Exec(code, regs, mem)(r) == Exec(first, regs, mem)(r)
  {
    hide PushCode, Exec;
    var later := code[|first|..];
    assert code == first + later;
    PushCodeJoin(first, later);
    ExecAppend(first, later, regs, mem);
    NoCellWritten(later, r, Exec(first, regs, mem), mem);
  }

  lemma {:induction false} OthersJoin(a: seq<Setup>, b: seq<Setup>)
    ensures OthersOf(a + b) == OthersOf(a) + OthersOf(b)
    decreases |b|
  {
    if b == [] {
      assert a + b == a;
    } else {
      assert (a + b)[..|a + b| - 1] == a + b[..|b| - 1];
      OthersJoin(a, b[..|b| - 1]);
    }
  }

  lemma {:induction false} FirstCodeJoins(a: seq<Setup>, b: seq<Setup>, needed: set<Reg>)
    ensures Flatten(NotNeeded(a + b, needed)) == Flatten(NotNeeded(a, needed)) + Flatten(NotNeeded(b, needed))
    decreases |b|
  {
    hide NotNeeded, Flatten;
    if b == [] {
      FlushNothing(needed);
      assert a + b == a;
    } else {
      var front, last := b[..|b| - 1], b[|b| - 1];
      assert a + b == (a + front) + [last] && b == front + [last];
      FirstCodeJoins(a, front, needed);
      NotNeededSnoc(a + front, last, needed);
      NotNeededSnoc(front, last, needed);
    }
  }

  /** The others before unit `j`, the unit, the others behind it. */
  lemma {:induction false} FirstCodeSplits(us: seq<Setup>, j: nat, needed: set<Reg>)
    requires j < |us| && us[j].PushThrough? && us[j].dst !in needed
    ensures var a, b := OthersOf(us[..j]), OthersOf(us[j + 1..]);
      && OthersOf(us) == a + ([us[j]] + b)
      && Flatten(NotNeeded(OthersOf(us), needed))
          == Flatten(NotNeeded(a, needed)) + UnitCode(us[j]) + Flatten(NotNeeded(b, needed))
  {
    hide *;
    var u, a, b := us[j], OthersOf(us[..j]), OthersOf(us[j + 1..]);
    assert us == us[..j] + ([u] + us[j + 1..]);
    OthersJoin(us[..j], [u] + us[j + 1..]);
    OthersJoin([u], us[j + 1..]);
    OtherAlone(u);
    assert a + ([u] + b) == (a + [u]) + b;
    FirstCodeJoins(a + [u], b, needed);
    NotNeededSnoc(a, u, needed);
  }

  lemma {:induction false} OtherAlone(u: Setup)
    requires u.PushThrough?
    ensures OthersOf([u]) == [u]
  {
    assert OthersOf([u]) == OthersOf([]) + [u];
  }

  /** The address that a push through one finds in the first round. */
  lemma {:induction false} AddressInFirst(us: seq<Setup>, abi: Abi, j: nat, regs: Regs, mem: Memory)
    requires ProperSetup(us, abi) && j < |us| && us[j].PushThrough?
    ensures var needed := NeededSrcs(DropSelfMoves(RegMovesOf(us)));
      Exec(Flatten(NotNeeded(OthersOf(us[..j]), needed)), regs, mem)(us[j].base) == Address(us, j, true, regs, mem)
  {
    var i := Provider(us, j);
    if i.Some? && GoesFirst(us, i.value) {
      ProvidedInTime(us, abi, j, i.value, regs, mem);
    } else {
      NotProvided(us, abi, j);
      hide ProperUnit, Exec, NotNeeded, Flatten, OthersOf, RegMovesOf;
      UnitsProper(us, abi, j);
      BaseIsRegister(us[j], abi);
      FlattenTouches(NotNeeded(OthersOf(us[..j]), NeededSrcs(DropSelfMoves(RegMovesOf(us)))), abi, us[j].base, regs,
                     mem);
    }
  }

  lemma {:induction false} BaseIsRegister(u: Setup, abi: Abi)
    requires u.PushThrough? && ProperUnit(u, abi)
    ensures u.base < CELLS && u.base !in Scratches(abi)
  {
  }

  lemma {:induction false} ProvidedInTime(us: seq<Setup>, abi: Abi, j: nat, i: nat, regs: Regs, mem: Memory)
    requires ProperSetup(us, abi) && i < j < |us| && us[j].PushThrough? && us[i].dst == us[j].base && GoesFirst(us, i)
    ensures var needed := NeededSrcs(DropSelfMoves(RegMovesOf(us)));
      Exec(Flatten(NotNeeded(OthersOf(us[..j]), needed)), regs, mem)(us[j].base) == Expected(us[i], regs, mem)
  {
    var pending := DropSelfMoves(RegMovesOf(us));
    var needed, a, rest := NeededSrcs(pending), OthersOf(us[..j]), OthersOf(us[j..]);
    UnitsProper(us, abi, j);
    assert ProperUnit(us[i], abi) && ProperUnit(us[j], abi);
    hide OthersOf, NotNeeded, StillNeeded, Flatten, RegMovesOf, Deferred, ProperUnit, Exec, Expected;
    OthersFrom(us, j, a, rest);
    FirstRound(us, abi, pending, |a|);
    DeferredIs(us, needed, |a|);
    NotDeferred(us, i, j, needed);
  }

  /** No unit that is emitted before the push writes its base. */
  lemma {:induction false} NotProvided(us: seq<Setup>, abi: Abi, j: nat)
    requires ProperSetup(us, abi) && j < |us| && us[j].PushThrough?
    requires Provider(us, j).Some? ==> !GoesFirst(us, Provider(us, j).value)
    ensures forall u :: u in NotNeeded(OthersOf(us[..j]), NeededSrcs(DropSelfMoves(RegMovesOf(us))))
                        ==> ProperUnit(u, abi) && !u.RegMove? && u.dst != us[j].base
  {
    var needed := NeededSrcs(DropSelfMoves(RegMovesOf(us)));
    FlushMembers(OthersOf(us[..j]), needed);
    SplitMembers(us[..j]);
    UnitsProper(us, abi, j);
    hide ProperUnit, RegMovesOf, OthersOf, NotNeeded, Provider;
    forall u | u in NotNeeded(OthersOf(us[..j]), needed)
      ensures ProperUnit(u, abi) && !u.RegMove? && u.dst != us[j].base
    {
      var k :| 0 <= k < j && us[k] == u;
      if u.dst == us[j].base {
        WriterIsOnly(us, j, k);
      }
    }
  }

  lemma {:induction false} OthersFrom(us: seq<Setup>, j: nat, a: seq<Setup>, rest: seq<Setup>)
    requires j <= |us| && a == OthersOf(us[..j]) && rest == OthersOf(us[j..])
    ensures OthersOf(us) == a + rest && OthersOf(us)[..|a|] == a && OthersOf(us)[|a|..] == rest
  {
    assert us == us[..j] + us[j..];
    OthersJoin(us[..j], us[j..]);
  }

  lemma {:induction false} UnitsProper(us: seq<Setup>, abi: Abi, j: nat)
    requires ProperSetup(us, abi) && j < |us|
    ensures forall i :: 0 <= i <= j ==> us[i] in us && ProperUnit(us[i], abi)
  {
  }

  lemma {:induction false} WriterIsOnly(us: seq<Setup>, j: nat, k: nat)
    requires DistinctUnits(us) && k < j < |us| && us[j].PushThrough? && us[k].dst == us[j].base
    ensures Provider(us, j) == Some(k)
  {
  }

  lemma {:induction false} NotDeferred(us: seq<Setup>, i: nat, j: nat, needed: set<Reg>)
    requires DistinctUnits(us) && i < j < |us| && us[i].dst !in needed && !us[i].RegMove? && !us[i].Reload?
    ensures us[i] !in StillNeeded(OthersOf(us[..j]), needed) + OthersOf(us[j..]) && us[i] !in ReloadsOf(us)
  {
    FlushMembers(OthersOf(us[..j]), needed);
    SplitMembers(us[j..]);
    SplitMembers(us);
  }

  /** In the first round a push through an address delivers what is found there. */
  lemma {:induction false} ThroughInFirst(us: seq<Setup>, abi: Abi, j: nat, regs: Regs, mem: Memory)
    requires ProperSetup(us, abi) && j < |us| && us[j].PushThrough?
    ensures Exec(FirstCode(us), regs, mem)(us[j].dst) == Value(us, j, true, regs, mem)
  {
    hide FirstCode, OthersOf, NotNeeded, Flatten, Exec, RegMovesOf, UnitCode, Address;
    var needed := NeededSrcs(DropSelfMoves(RegMovesOf(us)));
    var a, b := OthersOf(us[..j]), OthersOf(us[j + 1..]);
    FirstCodeIs(us);
    UnitsProper(us, abi, j);
    NeededAreRegisters(us, abi);
    FirstCodeSplits(us, j, needed);
    AddressInFirst(us, abi, j, regs, mem);
    var before := Flatten(NotNeeded(a, needed));
    UnitEffect(us[j], before, regs, mem, us[j].dst);
    ExecAppend(before + UnitCode(us[j]), Flatten(NotNeeded(b, needed)), regs, mem);
    LaterUnits(us, abi, j, needed);
    FlattenTouches(NotNeeded(b, needed), abi, us[j].dst, Exec(before + UnitCode(us[j]), regs, mem), mem);
  }

  lemma {:induction false} LaterUnits(us: seq<Setup>, abi: Abi, j: nat, needed: set<Reg>)
    requires ProperSetup(us, abi) && j < |us|
    ensures us[j].dst !in Scratches(abi)
    ensures forall u :: u in NotNeeded(OthersOf(us[j + 1..]), needed)
             ==> ProperUnit(u, abi) && !u.RegMove? && u.dst != us[j].dst
  {
    assert us[j] in us && ProperUnit(us[j], abi);
    SplitMembers(us[j + 1..]);
    FlushMembers(OthersOf(us[j + 1..]), needed);
    forall u | u in us[j + 1..]
      ensures ProperUnit(u, abi) && u.dst != us[j].dst
    {
      var k :| 0 <= k < |us[j + 1..]| && us[j + 1..][k] == u;
      assert us[j + 1 + k] == u && u in us;
    }
  }

  /** Whatever follows the first round, it leaves the pushes alone. */
  lemma {:induction false} OrderedObeys(us: seq<Setup>, abi: Abi, code: seq<Inst>)
    requires ProperSetup(us, abi) && Settled(us, code) && FirstCode(us) <= code
    requires KeepsPushes(us, code) && KeepsPushes(us, FirstCode(us))
    ensures Obeys(us, true, code)
  {
    hide FirstCode, Exec, Expected, PushCode, Flatten, Address;
    forall j, regs: Regs, mem: Memory | 0 <= j < |us|
      ensures Exec(code, regs, mem)(us[j].dst) == Value(us, j, true, regs, mem)
    {
      if us[j].PushThrough? {
        assert us[j] in us && ProperUnit(us[j], abi);
        ThroughInFirst(us, abi, j, regs, mem);
        CellsStand(FirstCode(us), code, us[j].dst, regs, mem);
      }
    }
  }

  // ---- the whole resolver, with the indirect call target ----

  predicate WritesReg(us: seq<Setup>, r: Reg) {
    exists u :: u in us && u.dst == r
  }

  /** The call target must be saved: it is a register other than the save register, and set-up writes it. */
  predicate NeedsSave(us: seq<Setup>, target: Option<Reg>, abi: Abi) {
    target.Some? && target.value != abi.save && WritesReg(us, target.value)
  }

  /** The register through which the call goes after resolution. */
  function CallThrough(us: seq<Setup>, target: Option<Reg>, abi: Abi): Option<Reg> {
    if NeedsSave(us, target, abi) then Some(abi.save) else target
  }

  /** The register that holds what `r` held, once the target is saved. */
  function Renamed(r: Reg, us: seq<Setup>, target: Option<Reg>, abi: Abi): Reg {
    if NeedsSave(us, target, abi) && r == abi.save then target.value else r
  }

  /** The address that unit `j` is pushed through does not come in time: moves are put in order, and what
      provides it is a move, or a pair, or waits for one. */
  predicate ComesLate(us: seq<Setup>, j: nat)
    requires j < |us|
  {
    Provider(us, j).Some? && HasConflict(us) && !GoesFirst(us, Provider(us, j).value)
  }

  /** Every unit reads what it should: none the save register when that is used, and no address comes late
      unless the register it was copied from is read anyway. */
  predicate Arrives(us: seq<Setup>, target: Option<Reg>, abi: Abi) {
    && (forall j :: 0 <= j < |us| && NeedsSave(us, target, abi) && Reads(us[j], abi.save) ==> Provider(us, j).Some?)
    && (forall j :: 0 <= j < |us| && ComesLate(us, j) ==>
          var i := Provider(us, j).value; us[i].RegMove? && us[i].src == Renamed(us[j].base, us, target, abi))
  }

  /** The target is not overwritten where it is kept, but by itself. */
  predicate TargetStands(us: seq<Setup>, target: Reg, through: Reg) {
    forall u :: u in us && u.dst == through ==> u.RegMove? && (u.src == target || u.src == through)
  }

  ghost predicate Survives(target: Reg, through: Reg, code: seq<Inst>) {
    forall regs: Regs, mem: Memory :: Exec(code, regs, mem)(through) == regs(target)
  }

  /** The set-up before a call, resolved.  All arguments arrive exactly if no unit reads the save register,
      when it is used, and no address of a struct comes late; an indirect target survives to the call
      exactly if nothing else is moved to where it is kept. */
  method ResolveCallArguments(us: seq<Setup>, target: Option<Reg>, abi: Abi)
    returns (code: seq<Inst>, through: Option<Reg>)
    requires ProperSetup(us, abi) && MEMORY !in Scratches(abi)
    requires abi.save !in Scratches(abi) && abi.save < CELLS && (target.Some? ==> target.value !in Scratches(abi))
    ensures through == CallThrough(us, target, abi)
    ensures through
         == if target.Some? && target.value != abi.save && (exists u :: u in us && u.dst == target.value)
            then Some(abi.save) else target
    ensures NeedsSave(us, target, abi) ==> code != [] && code[0] == Copy(abi.mov, abi.save, target.value)
    ensures !Clashes(us) ==> Flatten(us) == if NeedsSave(us, target, abi) then code[1..] else code
    ensures Delivered(us, code) <==> Arrives(us, target, abi)
    ensures KeepsPushes(us, code)
    ensures RightOpcodes(us, abi, if NeedsSave(us, target, abi) then code[1..] else code)
    ensures target.Some? ==> through.Some?
                             && (Survives(target.value, through.value, code)
                                 <==> TargetStands(us, target.value, through.value))
  {
    ConflictExactly(us, abi);
    hide Obeys, Delivered, Arrives, KeepsPushes, Contained, HasConflict, TargetStands, Survives, ProperSetup, Scratches,
      RightOpcodes, Clashes;
    var save := NeedsSave(us, target, abi);
    through := if save then Some(abi.save) else target;
    ghost var ordered := HasConflict(us);
    if !HasConflict(us) {
      OriginalOrderWorks(us, abi);
      code := Flatten(us);
      PushesKept(us);
      OriginalIsRight(us, abi, |us|);
      assert us[..|us|] == us;
    } else {
      code := SequenceSetup(us, abi);
    }
    ghost var resolved := code;
    if save {
      PrefixPushes(us, code, Copy(abi.mov, abi.save, target.value));
      code := [Copy(abi.mov, abi.save, target.value)] + code;
    }
    AllArrive(us, target, abi, resolved, code);
    if target.Some? {
      TargetKept(us, target.value, abi, resolved, code);
    }
  }

  lemma {:induction false} PushesKept(us: seq<Setup>)
    ensures KeepsPushes(us, Flatten(us))
  {
  }

  /** `code` is `resolved`, with the save before it if need be. */
  ghost predicate Saved(us: seq<Setup>, target: Option<Reg>, abi: Abi, resolved: seq<Inst>, code: seq<Inst>) {
    code == if NeedsSave(us, target, abi) then [Copy(abi.mov, abi.save, target.value)] + resolved else resolved
  }

  lemma {:induction false} RunSaved(us: seq<Setup>, target: Option<Reg>, abi: Abi, resolved: seq<Inst>,
                                    code: seq<Inst>, regs: Regs, mem: Memory)
    requires Saved(us, target, abi, resolved, code)
    ensures exists saved: Regs :: Exec(code, regs, mem) == Exec(resolved, saved, mem)
                                  && forall r: Reg :: saved(r) == regs(Renamed(r, us, target, abi))
  {
    hide Exec;
    var saved := regs;
    if NeedsSave(us, target, abi) {
      AfterSave(abi, target.value, resolved, regs, mem);
      saved := Exec([Copy(abi.mov, abi.save, target.value)], regs, mem);
    }
    assert Exec(code, regs, mem) == Exec(resolved, saved, mem);
    assert forall r: Reg :: saved(r) == regs(Renamed(r, us, target, abi));
  }

  lemma {:induction false} AfterSave(abi: Abi, target: Reg, code: seq<Inst>, regs: Regs, mem: Memory)
    ensures var saved := Exec([Copy(abi.mov, abi.save, target)], regs, mem);
      && Exec([Copy(abi.mov, abi.save, target)] + code, regs, mem) == Exec(code, saved, mem)
      && forall r: Reg :: saved(r) == if r == abi.save then regs(target) else regs(r)
  {
    var first := [Copy(abi.mov, abi.save, target)];
    ExecAppend(first, code, regs, mem);
    ExecSnoc([], first[0], regs, mem);
    assert [] + first == first;
  }

  lemma {:induction false} PrefixPushes(us: seq<Setup>, code: seq<Inst>, i: Inst)
    requires KeepsPushes(us, code) && i.dst < CELLS
    ensures KeepsPushes(us, [i] + code)
  {
    NoPushCode([i]);
    hide PushCode, Flatten;
    PushCodeJoin([i], code);
  }

  /** Where nothing is read too early or too late, saved registers serve as well as the first ones. */
  lemma {:induction false} SameValue(us: seq<Setup>, target: Option<Reg>, abi: Abi, j: nat, saved: Regs, regs: Regs,
                                     mem: Memory)
    requires ProperSetup(us, abi) && Arrives(us, target, abi) && j < |us|
    requires forall r: Reg :: saved(r) == regs(Renamed(r, us, target, abi))
    ensures Value(us, j, HasConflict(us), saved, mem) == Value(us, j, false, regs, mem)
  {
    assert us[j] in us && ProperUnit(us[j], abi);
    hide HasConflict, ProperSetup, Scratches;
    if Provider(us, j).Some? {
      var i := Provider(us, j).value;
      UnitsProper(us, abi, j);
      assert !us[i].PushThrough? && Provider(us, i).None?;
    }
  }

  /** A unit that reads the save register after the save delivers the target, not what it should. */
  lemma {:induction false} ReadsTooLate(us: seq<Setup>, target: Option<Reg>, abi: Abi, j: nat, ordered: bool)
    returns (regs: Regs, mem: Memory)
    requires j < |us| && NeedsSave(us, target, abi) && Reads(us[j], abi.save) && Provider(us, j).None?
    ensures forall saved: Regs :: (forall r: Reg :: saved(r) == regs(Renamed(r, us, target, abi)))
                                  ==> Value(us, j, ordered, saved, mem) != Value(us, j, false, regs, mem)
  {
    regs := (r: Reg) => if r == abi.save then 1 else 0;
    mem := Memory(k => 0, (k, x) => x + 1);
  }

  /** An address that comes late is not the one that should be read. */
  lemma {:induction false} ReadsTooEarly(us: seq<Setup>, target: Option<Reg>, abi: Abi, j: nat)
    returns (regs: Regs, mem: Memory)
    requires ProperSetup(us, abi) && j < |us| && ComesLate(us, j)
    requires var i := Provider(us, j).value; !(us[i].RegMove? && us[i].src == Renamed(us[j].base, us, target, abi))
    ensures forall saved: Regs :: (forall r: Reg :: saved(r) == regs(Renamed(r, us, target, abi)))
                                  ==> Value(us, j, true, saved, mem) != Value(us, j, false, regs, mem)
  {
    var u := us[Provider(us, j).value];
    UnitsProper(us, abi, j);
    regs := (r: Reg) => if u.RegMove? && r == u.src then 1 else 0;
    mem := Memory(k => 1, (k, x) => x + 1);
    hide HasConflict, GoesFirst, ProperSetup, Scratches, NeedsSave;
  }

  lemma {:induction false} AllArrive(us: seq<Setup>, target: Option<Reg>, abi: Abi, resolved: seq<Inst>,
                                     code: seq<Inst>)
    requires ProperSetup(us, abi) && Obeys(us, HasConflict(us), resolved) && Saved(us, target, abi, resolved, code)
    ensures Delivered(us, code) <==> Arrives(us, target, abi)
  {
    hide HasConflict, ProperSetup, Exec, Saved, Value, Renamed, GoesFirst, NeedsSave;
    if Arrives(us, target, abi) {
      hide Arrives;
      forall j, regs: Regs, mem: Memory | 0 <= j < |us|
        ensures Exec(code, regs, mem)(us[j].dst) == Value(us, j, false, regs, mem)
      {
        RunSaved(us, target, abi, resolved, code, regs, mem);
        var saved: Regs :| Exec(code, regs, mem) == Exec(resolved, saved, mem)
          && forall r: Reg :: saved(r) == regs(Renamed(r, us, target, abi));
        SameValue(us, target, abi, j, saved, regs, mem);
      }
    } else {
      var j, regs, mem;
      if j0 :| 0 <= j0 < |us| && NeedsSave(us, target, abi) && Reads(us[j0], abi.save) && Provider(us, j0).None? {
        j := j0;
        regs, mem := ReadsTooLate(us, target, abi, j, HasConflict(us));
      } else {
        j :| 0 <= j < |us| && ComesLate(us, j)
          && var i := Provider(us, j).value; !(us[i].RegMove? && us[i].src == Renamed(us[j].base, us, target, abi));
        regs, mem := ReadsTooEarly(us, target, abi, j);
      }
      hide Arrives;
      RunSaved(us, target, abi, resolved, code, regs, mem);
      var saved: Regs :| Exec(code, regs, mem) == Exec(resolved, saved, mem)
        && forall r: Reg :: saved(r) == regs(Renamed(r, us, target, abi));
      assert Exec(code, regs, mem)(us[j].dst) == Value(us, j, HasConflict(us), saved, mem);
    }
  }

  /** If the register that keeps the target is set up as well, it is as if the target had been moved there. */
  lemma {:induction false} TargetKept(us: seq<Setup>, target: Reg, abi: Abi, resolved: seq<Inst>, code: seq<Inst>)
    requires ProperSetup(us, abi) && Obeys(us, HasConflict(us), resolved) && Contained(us, abi, resolved)
    requires abi.save !in Scratches(abi) && abi.save < CELLS && target !in Scratches(abi)
    requires Saved(us, Some(target), abi, resolved, code)
    ensures var through := CallThrough(us, Some(target), abi).value;
      Survives(target, through, code) <==> TargetStands(us, target, through)
  {
    var through := CallThrough(us, Some(target), abi).value;
    if through in UnitDsts(us) {
      var j := FindUnit(us, through);
      assert us[j] in us && ProperUnit(us[j], abi) && through == abi.save;
      StandsAlone(us, j, target, through);
      SetUpWhereKept(us, target, abi, resolved, code, j);
    } else {
      hide HasConflict, ProperSetup, Exec, Saved, Obeys;
      forall regs: Regs, mem: Memory
        ensures Exec(code, regs, mem)(through) == regs(target)
      {
        RunSaved(us, Some(target), abi, resolved, code, regs, mem);
      }
      assert TargetStands(us, target, through);
    }
  }

  lemma {:induction false} StandsAlone(us: seq<Setup>, j: nat, target: Reg, through: Reg)
    requires DistinctUnits(us) && j < |us| && us[j].dst == through
    ensures TargetStands(us, target, through) <==> us[j].RegMove? && (us[j].src == target || us[j].src == through)
  {
    assert us[j] in us;
  }

  lemma {:induction false} SetUpWhereKept(us: seq<Setup>, target: Reg, abi: Abi, resolved: seq<Inst>,
                                          code: seq<Inst>, j: nat)
    requires Obeys(us, HasConflict(us), resolved) && Saved(us, Some(target), abi, resolved, code)
    requires CallThrough(us, Some(target), abi).value == abi.save
    requires j < |us| && us[j].dst == abi.save && ProperUnit(us[j], abi) && abi.save < CELLS
    ensures Survives(target, abi.save, code) <==> us[j].RegMove? && (us[j].src == target || us[j].src == abi.save)
  {
    hide HasConflict, Exec, Saved, NeedsSave, Scratches;
    var u, keeps := us[j], us[j].RegMove? && (us[j].src == target || us[j].src == abi.save);
    assert !NeedsSave(us, Some(target), abi) ==> target == abi.save;
    if keeps {
      forall regs: Regs, mem: Memory
        ensures Exec(code, regs, mem)(abi.save) == regs(target)
      {
        RunSaved(us, Some(target), abi, resolved, code, regs, mem);
      }
    } else {
      var regs: Regs := (r: Reg) => if u.RegMove? && r == u.src then 1 else 0;
      var mem := Memory(k => 1, (k, x) => x + 1);
      RunSaved(us, Some(target), abi, resolved, code, regs, mem);
      var saved: Regs :| Exec(code, regs, mem) == Exec(resolved, saved, mem)
        && forall r: Reg :: saved(r) == regs(Renamed(r, us, Some(target), abi));
      assert Exec(code, regs, mem)(abi.save) == Value(us, j, HasConflict(us), saved, mem);
      assert !u.RegMove? ==> saved(abi.save) == 0 && forall r: Reg :: regs(r) == 0;
      assert Exec(code, regs, mem)(abi.save) != regs(target);
    }
  }

  // ---- examples ----

  /** The save can lose an argument: on x86-64, calling through RAX while RAX is set and the first argument
      comes from R10. */
  lemma {:induction false} SaveCanLoseArgument()
    ensures var us := [RegMove(7, 10, 0), Direct(0, 1)];
      ProperSetup(us, X86_64) && !Arrives(us, Some(0), X86_64) && TargetStands(us, 0, X86_64.save)
  {
    var us := [RegMove(7, 10, 0), Direct(0, 1)];
    assert us[0] in us && us[1] in us;
    assert NeedsSave(us, Some(0), X86_64) && Reads(us[0], X86_64.save) && Provider(us, 0).None?;
  }

  /** The set-up can lose the target: calling through RAX while RAX is set and the address of a struct that
      is pushed goes to R10. */
  lemma {:induction false} StructCanLoseTarget()
    ensures var us := [RegMove(10, 3, 0), PushThrough(CELLS, 11, 10, 0), Direct(0, 1)];
      ProperSetup(us, X86_64) && CallThrough(us, Some(0), X86_64) == Some(10) && !TargetStands(us, 0, 10)
  {
    var us := [RegMove(10, 3, 0), PushThrough(CELLS, 11, 10, 0), Direct(0, 1)];
    assert us[0] in us && us[2] in us && us[2].dst == 0;
  }

  const SWAP_WITH_STRUCT: seq<Setup> := [RegMove(10, 3, 0), PushThrough(CELLS, 11, 10, 0), RegMove(7, 6, 0),
                                         RegMove(6, 7, 0)]

  lemma {:induction false} SwapConflicts()
    ensures HasConflict(SWAP_WITH_STRUCT)
  {
    var us := SWAP_WITH_STRUCT;
    assert us[2] in us;
    RegMoveListed(us, 3);
  }

  lemma {:induction false} SwapIsProper()
    ensures ProperSetup(SWAP_WITH_STRUCT, X86_64)
  {
  }

  /** A conflict can lose a struct: its address is moved to R10, and two arguments change places. */
  lemma {:induction false} ConflictCanLoseStruct()
    ensures ProperSetup(SWAP_WITH_STRUCT, X86_64) && !Arrives(SWAP_WITH_STRUCT, None, X86_64)
  {
    hide HasConflict, ProperSetup;
    SwapConflicts();
    SwapIsProper();
    var us := SWAP_WITH_STRUCT;
    assert Writer(us, 1, 10) == Some(0);
    assert ComesLate(us, 1);
  }
}
