/** The part of the intermediate representation that register allocation reads: values,
    instructions, basic blocks and the linear order in which blocks are laid out.  Code is
    past phi elimination, so a value may have several definitions and there are no phis. */
module Ir {
  import opened Wrappers

  type Value = nat

  /** The placeholder value; it is never allocated. */
  const UNDEF: Value := 0xFFFF_FFFF

  datatype RegClass = Integer | Float

  /** Only calls and the division family are told apart: they clobber caller-saved registers. */
  datatype Opcode = Call | SDiv | UDiv | SRem | URem | Other

  /** `regClass` and `size` describe the type of the result. */
  datatype Instr = Instr(op: Opcode, result: Option<Value>, operands: seq<Value>, regClass: RegClass, size: nat)

  datatype Block = Block(instrs: seq<Instr>, succs: seq<nat>)

  datatype Param = Param(value: Value, regClass: RegClass, size: nat)

  datatype Function = Function(params: seq<Param>, blocks: seq<Block>)

  predicate Clobbers(op: Opcode) {
    op != Other
  }

  predicate Defines(ins: Instr, v: Value) {
    ins.result == Some(v) && v != UNDEF
  }

  predicate Uses(ins: Instr, v: Value) {
    v in ins.operands && v != UNDEF
  }

  predicate IsParam(f: Function, v: Value) {
    v != UNDEF && exists k :: 0 <= k < |f.params| && f.params[k].value == v
  }

  ghost predicate Distinct<T>(s: seq<T>) {
    forall i, j :: 0 <= i < j < |s| ==> s[i] != s[j]
  }

  /** What block layout guarantees: the entry comes first, no block is listed twice, the list is
      closed under successors, every later block has a predecessor listed earlier, and every
      listed block has instructions of which only a non-clobbering one may come last. */
  ghost predicate ValidOrder(f: Function, order: seq<nat>) {
    && 0 < |order| && order[0] == 0
    && ListsBlocks(f, order)
    && (forall p, s :: 0 <= p < |order| && s in f.blocks[order[p]].succs && s < |f.blocks| ==> s in order)
    && (forall p :: 0 < p < |order| ==> HasEarlierPred(f, order, p))
    && (forall p :: 0 <= p < |order| ==> WellFormedBlock(f.blocks[order[p]]))
  }

  /** Every entry names a block, and none twice. */
  ghost predicate ListsBlocks(f: Function, order: seq<nat>) {
    Distinct(order) && forall p :: 0 <= p < |order| ==> order[p] < |f.blocks|
  }

  ghost predicate HasEarlierPred(f: Function, order: seq<nat>, p: nat)
    requires p < |order|
    requires forall p :: 0 <= p < |order| ==> order[p] < |f.blocks|
  {
    exists q :: 0 <= q < p && order[p] in f.blocks[order[q]].succs
  }

  predicate WellFormedBlock(b: Block) {
    0 < |b.instrs| && !Clobbers(b.instrs[|b.instrs| - 1].op)
  }

  /** A program point: the `off`-th instruction of the `pos`-th block in layout order. */
  datatype Point = Point(pos: nat, off: nat)

  ghost predicate ValidPoint(f: Function, order: seq<nat>, pt: Point)
    requires ValidOrder(f, order)
  {
    pt.pos < |order| && pt.off < |f.blocks[order[pt.pos]].instrs|
  }

  function BlockAt(f: Function, order: seq<nat>, p: nat): Block
    requires p < |order| && order[p] < |f.blocks|
  {
    f.blocks[order[p]]
  }

  ghost function InstrAt(f: Function, order: seq<nat>, pt: Point): Instr
    requires ValidOrder(f, order) && ValidPoint(f, order, pt)
  {
    BlockAt(f, order, pt.pos).instrs[pt.off]
  }

  /** Linear index of the first instruction of the p-th block; index 0 is kept for parameters. */
  function BlockStart(f: Function, order: seq<nat>, p: nat): (idx: nat)
    requires p <= |order| && forall q :: 0 <= q < |order| ==> order[q] < |f.blocks|
    ensures idx >= 1
  {
    if p == 0 then 1 else BlockStart(f, order, p - 1) + |BlockAt(f, order, p - 1).instrs|
  }

  /** One past the last index of the p-th block. */
  function BlockEnd(f: Function, order: seq<nat>, p: nat): (idx: nat)
    requires p < |order| && forall q :: 0 <= q < |order| ==> order[q] < |f.blocks|
  {
    BlockStart(f, order, p + 1)
  }

  ghost function Index(f: Function, order: seq<nat>, pt: Point): nat
    requires ValidOrder(f, order) && ValidPoint(f, order, pt)
  {
    BlockStart(f, order, pt.pos) + pt.off
  }

  lemma {:induction false} BlockStartMonotone(f: Function, order: seq<nat>, p: nat, q: nat)
    requires p <= q <= |order| && forall r :: 0 <= r < |order| ==> order[r] < |f.blocks|
    ensures BlockStart(f, order, p) <= BlockStart(f, order, q)
    decreases q
  {
    if p < q {
      BlockStartMonotone(f, order, p, q - 1);
    }
  }

  lemma {:induction false} IndexInBlock(f: Function, order: seq<nat>, pt: Point)
    requires ValidOrder(f, order) && ValidPoint(f, order, pt)
    ensures BlockStart(f, order, pt.pos) <= Index(f, order, pt) < BlockEnd(f, order, pt.pos)
  {
  }

  /** Indices determine points. */
  lemma {:induction false} IndexInjective(f: Function, order: seq<nat>, a: Point, b: Point)
    requires ValidOrder(f, order) && ValidPoint(f, order, a) && ValidPoint(f, order, b)
    requires Index(f, order, a) == Index(f, order, b)
    ensures a == b
  {
    if a.pos < b.pos {
      BlockStartMonotone(f, order, a.pos + 1, b.pos);
    } else if b.pos < a.pos {
      BlockStartMonotone(f, order, b.pos + 1, a.pos);
    }
  }

  // ---- control flow ----

  /** Control can pass from `a` to `b`. */
  ghost predicate Flow(f: Function, order: seq<nat>, a: Point, b: Point)
    requires ValidOrder(f, order)
  {
    && ValidPoint(f, order, a) && ValidPoint(f, order, b)
    && if a.off + 1 < |BlockAt(f, order, a.pos).instrs| then
         b == Point(a.pos, a.off + 1)
       else
         b.off == 0 && order[b.pos] in BlockAt(f, order, a.pos).succs
  }

  ghost predicate IsPath(f: Function, order: seq<nat>, path: seq<Point>)
    requires ValidOrder(f, order)
  {
    && 0 < |path|
    && (forall k :: 0 <= k < |path| ==> ValidPoint(f, order, path[k]))
    && (forall k :: 0 <= k < |path| - 1 ==> Flow(f, order, path[k], path[k + 1]))
  }

  ghost predicate DefinedOn(f: Function, order: seq<nat>, path: seq<Point>, v: Value)
    requires ValidOrder(f, order)
    requires forall k :: 0 <= k < |path| ==> ValidPoint(f, order, path[k])
  {
    exists k :: 0 <= k < |path| && Defines(InstrAt(f, order, path[k]), v)
  }

  ghost predicate EntryUsePath(f: Function, order: seq<nat>, path: seq<Point>, v: Value)
    requires ValidOrder(f, order)
  {
    IsPath(f, order, path) && path[0] == Point(0, 0) && Uses(InstrAt(f, order, path[|path| - 1]), v)
  }

  /** Every path from the entry to a use of a value that is not a parameter passes a definition
      of it before the use. */
  ghost predicate Strict(f: Function, order: seq<nat>)
    requires ValidOrder(f, order)
  {
    forall path, v :: EntryUsePath(f, order, path, v) && !IsParam(f, v)
                      ==> DefinedOn(f, order, path[..|path| - 1], v)
  }

  ghost predicate LivePath(f: Function, order: seq<nat>, path: seq<Point>, pt: Point, v: Value)
    requires ValidOrder(f, order)
  {
    && IsPath(f, order, path) && path[0] == pt
    && Uses(InstrAt(f, order, path[|path| - 1]), v)
    && !DefinedOn(f, order, path[..|path| - 1], v)
  }

  /** `v` is live on entry to `pt`: some path from `pt` reaches a use before any definition. */
  ghost predicate LiveIn(f: Function, order: seq<nat>, v: Value, pt: Point)
    requires ValidOrder(f, order)
  {
    exists path :: LivePath(f, order, path, pt, v)
  }

  /** `v` is live on exit from `pt`. */
  ghost predicate LiveOut(f: Function, order: seq<nat>, v: Value, pt: Point)
    requires ValidOrder(f, order)
  {
    exists next :: Flow(f, order, pt, next) && LiveIn(f, order, v, next)
  }

  /** Backward propagation: what an instruction leaves live and does not define was live before it. */
  lemma {:induction false} LiveBackward(f: Function, order: seq<nat>, v: Value, pt: Point, next: Point)
    requires ValidOrder(f, order)
    requires Flow(f, order, pt, next) && LiveIn(f, order, v, next)
    requires !Defines(InstrAt(f, order, pt), v)
    ensures LiveIn(f, order, v, pt)
  {
    var path :| LivePath(f, order, path, next, v);
    var longer := [pt] + path;
    assert longer[..|longer| - 1] == [pt] + path[..|path| - 1];
    assert LivePath(f, order, longer, pt, v) by {
      forall k | 0 <= k < |longer| - 1
        ensures Flow(f, order, longer[k], longer[k + 1])
      {
        if k > 0 {
          assert Flow(f, order, path[k - 1], path[k]);
        }
      }
    }
  }

  /** An operand is live where it is read. */
  lemma {:induction false} UseIsLive(f: Function, order: seq<nat>, v: Value, pt: Point)
    requires ValidOrder(f, order) && ValidPoint(f, order, pt)
    requires Uses(InstrAt(f, order, pt), v)
    ensures LiveIn(f, order, v, pt)
  {
    assert LivePath(f, order, [pt], pt, v);
  }
}
