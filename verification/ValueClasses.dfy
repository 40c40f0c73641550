/** Which class and size an interval has, in terms of the parameters and instructions, and which registers
    and slots values get for it. */
module ValueClasses {
  import opened Ir
  import opened LiveIntervals
  import opened Liveness
  import opened LinearScan
  import opened ScanInvariants
  import opened ScanTheorems
  import opened AllocationSimulation

  /** The last entry of the parameter list for `v`. */
  ghost predicate LastParam(params: seq<Param>, k: nat, v: Value) {
    && v != UNDEF && k < |params| && params[k].value == v
    && forall l :: k < l < |params| ==> params[l].value != v
  }

  /** The type of `v` after the instructions with index below `n`: that of its last parameter entry; else
      that of the instruction where it occurs first, if this defines it; else the default. */
  ghost predicate ExactType(f: Function, order: seq<nat>, w: Walk, v: Value, n: nat)
    requires ValidOrder(f, order)
  {
    && (v in w.classes <==> v in w.sizes)
    && (v in w.classes <==> IsParam(f, v) || OccursBefore(f, order, v, n))
    && (v in w.classes && v in w.sizes ==>
          && (forall k: nat :: LastParam(f.params, k, v) ==>
                w.classes[v] == f.params[k].regClass && w.sizes[v] == f.params[k].size)
          && (!IsParam(f, v) ==> forall pt :: FirstOccurrence(f, order, v, pt) ==>
                TypeOf(InstrAt(f, order, pt), v, w.classes[v], w.sizes[v])))
  }

  /** What the first instruction in which `v` occurs says about its type. */
  predicate TypeOf(ins: Instr, v: Value, c: RegClass, size: nat) {
    if Defines(ins, v) then c == ins.regClass && size == ins.size else c == Integer && size == 8
  }

  // ---- the walk ----

  ghost predicate SameType(a: Walk, b: Walk, v: Value) {
    && (v in a.classes <==> v in b.classes) && (v in a.sizes <==> v in b.sizes)
    && (v in a.classes && v in b.classes ==> a.classes[v] == b.classes[v])
    && (v in a.sizes && v in b.sizes ==> a.sizes[v] == b.sizes[v])
  }

  lemma {:induction false} UsesType(w: Walk, operands: seq<Value>, n: nat, idx: nat, v: Value)
    requires n <= |operands| && (v in w.classes <==> v in w.sizes)
    ensures var r := NoteUses(w, operands, n, idx);
      if v !in w.classes && v in operands[..n] && v != UNDEF
      then v in r.classes && v in r.sizes && r.classes[v] == Integer && r.sizes[v] == 8
      else SameType(w, r, v)
  {
    if n > 0 {
      UsesType(w, operands, n - 1, idx, v);
      assert operands[..n] == operands[..n - 1] + [operands[n - 1]];
    }
  }

  lemma {:induction false} InstrType(w: Walk, ins: Instr, idx: nat, v: Value)
    requires v in w.classes <==> v in w.sizes
    ensures var r := NoteInstr(w, ins, idx);
      if v !in w.classes && (Defines(ins, v) || Uses(ins, v))
      then v in r.classes && v in r.sizes && TypeOf(ins, v, r.classes[v], r.sizes[v])
      else SameType(w, r, v)
  {
    UsesType(NoteDef(NoteCall(w, ins, idx), ins, idx), ins.operands, |ins.operands|, idx, v);
    assert ins.operands[..|ins.operands|] == ins.operands;
    hide NoteUses;
  }

  lemma {:induction false} TypeStep(f: Function, order: seq<nat>, w: Walk, pt: Point, v: Value)
    requires ValidOrder(f, order) && ValidPoint(f, order, pt) && ExactType(f, order, w, v, Index(f, order, pt))
    ensures ExactType(f, order, NoteInstr(w, InstrAt(f, order, pt), Index(f, order, pt)), v, Index(f, order, pt) + 1)
  {
    var n, ins := Index(f, order, pt), InstrAt(f, order, pt);
    InstrType(w, ins, n, v);
    hide NoteInstr, ValidOrder;
    forall other | Occurs(f, order, other, v) && Index(f, order, other) < n + 1
      ensures Index(f, order, other) < n || other == pt
    {
      if Index(f, order, other) == n {
        IndexInjective(f, order, other, pt);
      }
    }
    if Occurs(f, order, pt, v) && v !in w.classes {
      forall other | FirstOccurrence(f, order, v, other)
        ensures other == pt
      {
        assert Index(f, order, other) <= n;
      }
    }
  }

  lemma {:induction false} TypeBlock(f: Function, order: seq<nat>, w: Walk, p: nat, n: nat, v: Value)
    requires ValidOrder(f, order) && p < |order| && n <= |BlockAt(f, order, p).instrs|
    requires ExactType(f, order, w, v, BlockStart(f, order, p))
    ensures ExactType(f, order, NoteBlock(w, BlockAt(f, order, p).instrs, n, BlockStart(f, order, p)), v,
                      BlockStart(f, order, p) + n)
  {
    hide ExactType, NoteInstr;
    if n > 0 {
      TypeBlock(f, order, w, p, n - 1, v);
      var instrs := BlockAt(f, order, p).instrs;
      TypeStep(f, order, NoteBlock(w, instrs, n - 1, BlockStart(f, order, p)), Point(p, n - 1), v);
    }
  }

  lemma {:induction false} ParamsType(params: seq<Param>, n: nat, v: Value)
    requires n <= |params|
    ensures var w := NoteParams(params, n);
      && (v in w.classes <==> v in w.sizes)
      && (v in w.classes <==> v != UNDEF && exists k :: 0 <= k < n && params[k].value == v)
      && forall k: nat :: LastParam(params[..n], k, v) ==>
           v in w.classes && v in w.sizes && w.classes[v] == params[k].regClass && w.sizes[v] == params[k].size
  {
    if n > 0 {
      ParamsType(params, n - 1, v);
      var last := params[n - 1];
      forall k: nat | LastParam(params[..n], k, v)
        ensures k == n - 1 || LastParam(params[..n - 1], k, v)
        ensures k < n - 1 ==> last.value != v
      {
        assert k < n - 1 ==> params[..n][n - 1] == last;
      }
    }
  }

  lemma {:induction false} TypeAtEntry(f: Function, order: seq<nat>, v: Value)
    requires ValidOrder(f, order)
    ensures ExactType(f, order, NoteParams(f.params, |f.params|), v, 1)
  {
    ParamsType(f.params, |f.params|, v);
    assert f.params[..|f.params|] == f.params;
    hide ValidOrder, NoteParams, Occurs;
  }

  lemma {:induction false} TypeBlocks(f: Function, order: seq<nat>, p: nat, v: Value)
    requires ValidOrder(f, order) && p <= |order|
    ensures ExactType(f, order, NoteBlocks(f, order, p), v, BlockStart(f, order, p))
  {
    hide ExactType, NoteBlock;
    if p == 0 {
      TypeAtEntry(f, order, v);
    } else {
      TypeBlocks(f, order, p - 1, v);
      TypeBlock(f, order, NoteBlocks(f, order, p - 1), p - 1, |BlockAt(f, order, p - 1).instrs|, v);
    }
  }

  /** The walk over the whole function records, for every value, exactly the type it is first given. */
  lemma {:induction false} TypeIsExact(f: Function, order: seq<nat>, v: Value)
    requires ValidOrder(f, order)
    ensures ExactType(f, order, WalkOf(f, order), v, BlockStart(f, order, |order|))
  {
    TypeBlocks(f, order, |order|, v);
  }

  // ---- what the allocator makes of it ----

  /** A place for values of this class and size: a register of the class, or a slot wide enough and no
      wider, empty values taking one byte. */
  ghost predicate PlaceFor(info: RegisterInfo, slots: seq<SpillSlot>, l: Location, c: RegClass, size: nat) {
    match l
    case InReg(r) => if c == Float then r in info.fpr else r in info.gpr
    case OnStack(n) => n < |slots| && slots[n].size == if size == 0 then 1 else size
  }

  lemma {:induction false} RegisterOfClass(ivs: seq<Interval>, info: RegisterInfo, j: nat)
    requires FreshIntervals(ivs) && ValidPools(info) && j < |Allocate(ivs, info).ivs|
    ensures var iv := Allocate(ivs, info).ivs[j];
      iv.reg.Some? ==> iv.reg.value in if iv.regClass == Float then info.fpr else info.gpr
  {
    SortedInput(ivs, info);
    RunKeepsCore(SortByStart(ivs), info, |ivs|);
    hide Run, SortByStart, ValidPools, FreshIntervals;
  }

  lemma {:induction false} IntervalGetsPlace(ivs: seq<Interval>, info: RegisterInfo, iv: Interval)
    requires FreshIntervals(ivs) && ValidPools(info) && iv in ivs
    ensures var st := Allocate(ivs, info); var l := LocationOf(ResultOf(st), iv.vreg);
      l.Some? && PlaceFor(info, st.slots, l.value, iv.regClass, iv.size)
  {
    hide Allocate, ValidPools, FreshIntervals;
    var j := EveryIntervalIsAllocated(ivs, info, iv);
    TablesAreExact(ivs, info, j);
    RegisterOfClass(ivs, info, j);
  }

  /** A value is kept where its type belongs. */
  lemma {:induction false} ValueGetsPlace(f: Function, order: seq<nat>, ivs: seq<Interval>, info: RegisterInfo,
                                          v: Value)
    requires ValidOrder(f, order) && IsIntervalsOf(f, order, ivs) && ValidPools(info) && v in FinalEnds(f, order)
    ensures var w := WalkOf(f, order); var st := Allocate(ivs, info); var l := LocationOf(ResultOf(st), v);
      && v in w.classes && v in w.sizes && l.Some?
      && PlaceFor(info, st.slots, l.value, w.classes[v], w.sizes[v])
  {
    IntervalsAreFresh(f, order, ivs);
    var j := IntervalIndex(f, order, ivs, v);
    assert ivs[j] in ivs;
    IntervalGetsPlace(ivs, info, ivs[j]);
  }

  /** A value that an instruction defines before it occurs anywhere else is kept in a register of that
      instruction's class, or in a slot of its size. */
  lemma {:induction false} DefinedValueGetsPlace(f: Function, order: seq<nat>, ivs: seq<Interval>, info: RegisterInfo,
                                                 v: Value, pt: Point)
    requires ValidOrder(f, order) && IsIntervalsOf(f, order, ivs) && ValidPools(info)
    requires !IsParam(f, v) && FirstOccurrence(f, order, v, pt) && Defines(InstrAt(f, order, pt), v)
    ensures var ins := InstrAt(f, order, pt);
      var st := Allocate(ivs, info); var l := LocationOf(ResultOf(st), v);
      l.Some? && PlaceFor(info, st.slots, l.value, ins.regClass, ins.size)
  {
    DefInsideInterval(f, order, v, pt);
    TypeIsExact(f, order, v);
    hide Allocate, PlaceFor, IsIntervalsOf, ValidPools, ValidOrder;
    ValueGetsPlace(f, order, ivs, info, v);
  }

  /** A parameter is kept where the type it was listed with last belongs. */
  lemma {:induction false} ParamGetsPlace(f: Function, order: seq<nat>, ivs: seq<Interval>, info: RegisterInfo, k: nat)
    requires ValidOrder(f, order) && IsIntervalsOf(f, order, ivs) && ValidPools(info)
    requires k < |f.params| && LastParam(f.params, k, f.params[k].value)
    ensures var p := f.params[k];
      var st := Allocate(ivs, info); var l := LocationOf(ResultOf(st), p.value);
      l.Some? && PlaceFor(info, st.slots, l.value, p.regClass, p.size)
  {
    var v, w := f.params[k].value, WalkOf(f, order);
    assert IsParam(f, v);
    WalkIsExact(f, order, v);
    BlocksClosed(f, order, w.starts, w.ends, |order|, v);
    TypeIsExact(f, order, v);
    hide Allocate, PlaceFor, IsIntervalsOf, ValidPools, ValidOrder;
    ValueGetsPlace(f, order, ivs, info, v);
  }
}
