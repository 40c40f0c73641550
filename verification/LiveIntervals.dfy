/** Live-interval computation: one closed range of linear indices per value, lengthened around
    loop back edges.  The functions say what each pass computes; the methods are the passes. */
module LiveIntervals {
  import opened Wrappers
  import opened Ir

  /** What the walk over the instructions records. */
  datatype Walk = Walk(starts: map<Value, nat>, ends: map<Value, nat>,
                       classes: map<Value, RegClass>, sizes: map<Value, nat>, calls: seq<nat>)

  const EMPTY_WALK := Walk(map[], map[], map[], map[], [])

  function OrInsert<V>(m: map<Value, V>, k: Value, v: V): map<Value, V> {
    if k in m then m else m[k := v]
  }

  function Raise(m: map<Value, nat>, k: Value, idx: nat): map<Value, nat> {
    if k in m && idx <= m[k] then m else m[k := idx]
  }

  function NoteParam(w: Walk, p: Param): Walk {
    if p.value == UNDEF then w
    else w.(starts := w.starts[p.value := 0], ends := w.ends[p.value := 0],
            classes := w.classes[p.value := p.regClass], sizes := w.sizes[p.value := p.size])
  }

  function NoteParams(params: seq<Param>, n: nat): Walk
    requires n <= |params|
  {
    if n == 0 then EMPTY_WALK else NoteParam(NoteParams(params, n - 1), params[n - 1])
  }

  function NoteOccurrence(w: Walk, v: Value, start: nat, idx: nat, regClass: RegClass, size: nat): Walk {
    if v == UNDEF then w
    else w.(starts := OrInsert(w.starts, v, start), ends := Raise(w.ends, v, idx),
            classes := OrInsert(w.classes, v, regClass), sizes := OrInsert(w.sizes, v, size))
  }

  function NoteCall(w: Walk, ins: Instr, idx: nat): Walk {
    if Clobbers(ins.op) then w.(calls := w.calls + [idx]) else w
  }

  function NoteDef(w: Walk, ins: Instr, idx: nat): Walk {
    if ins.result.Some? then NoteOccurrence(w, ins.result.value, idx, idx, ins.regClass, ins.size) else w
  }

  /** A value first met as an operand gets start 0 and the default type of 8 bytes. */
  function NoteUses(w: Walk, operands: seq<Value>, n: nat, idx: nat): Walk
    requires n <= |operands|
  {
    if n == 0 then w
    else NoteOccurrence(NoteUses(w, operands, n - 1, idx), operands[n - 1], 0, idx, Integer, 8)
  }

  function NoteInstr(w: Walk, ins: Instr, idx: nat): Walk {
    NoteUses(NoteDef(NoteCall(w, ins, idx), ins, idx), ins.operands, |ins.operands|, idx)
  }

  function NoteBlock(w: Walk, instrs: seq<Instr>, n: nat, idx: nat): Walk
    requires n <= |instrs|
  {
    if n == 0 then w else NoteInstr(NoteBlock(w, instrs, n - 1, idx), instrs[n - 1], idx + n - 1)
  }

  function NoteBlocks(f: Function, order: seq<nat>, p: nat): Walk
    requires p <= |order| && forall q :: 0 <= q < |order| ==> order[q] < |f.blocks|
  {
    if p == 0 then NoteParams(f.params, |f.params|)
    else
      var instrs := BlockAt(f, order, p - 1).instrs;
      NoteBlock(NoteBlocks(f, order, p - 1), instrs, |instrs|, BlockStart(f, order, p - 1))
  }

  function WalkOf(f: Function, order: seq<nat>): Walk
    requires forall q :: 0 <= q < |order| ==> order[q] < |f.blocks|
  {
    NoteBlocks(f, order, |order|)
  }

  // ---- back edges ----

  /** A value defined before the header and reaching it must last until the end of the source block. */
  function Extended(start: nat, end: nat, header: nat, last: nat): nat {
    if start < header && header <= end && end < last then last else end
  }

  function ExtendEdge(starts: map<Value, nat>, ends: map<Value, nat>, header: nat, last: nat): map<Value, nat> {
    map v | v in ends :: if v in starts then Extended(starts[v], ends[v], header, last) else ends[v]
  }

  /** Layout position of a block; past the end for a block that is not laid out. */
  ghost function Position(order: seq<nat>, b: nat): (p: nat)
    ensures p <= |order|
    ensures p < |order| ==> order[p] == b
    ensures p == |order| <==> b !in order
  {
    if b in order then var p :| 0 <= p < |order| && order[p] == b; p else |order|
  }

  ghost predicate IsBackEdge(f: Function, order: seq<nat>, p: nat, k: nat)
    requires ValidOrder(f, order) && p < |order| && k < |BlockAt(f, order, p).succs|
  {
    var s := BlockAt(f, order, p).succs[k];
    s < |f.blocks| && Position(order, s) <= p
  }

  /** Ends after the first `k` successors of the p-th block are handled. */
  ghost function ExtendSuccs(f: Function, order: seq<nat>, starts: map<Value, nat>, ends: map<Value, nat>,
                             p: nat, k: nat): map<Value, nat>
    requires ValidOrder(f, order) && p < |order| && k <= |BlockAt(f, order, p).succs|
    decreases k
  {
    if k == 0 then ends
    else
      var before := ExtendSuccs(f, order, starts, ends, p, k - 1);
      if IsBackEdge(f, order, p, k - 1) then
        var header := Position(order, BlockAt(f, order, p).succs[k - 1]);
        ExtendEdge(starts, before, BlockStart(f, order, header), BlockEnd(f, order, p) - 1)
      else before
  }

  /** Ends after the first `p` blocks are handled. */
  ghost function ExtendBlocks(f: Function, order: seq<nat>, starts: map<Value, nat>, ends: map<Value, nat>,
                              p: nat): map<Value, nat>
    requires ValidOrder(f, order) && p <= |order|
  {
    if p == 0 then ends
    else ExtendSuccs(f, order, starts, ExtendBlocks(f, order, starts, ends, p - 1),
                     p - 1, |BlockAt(f, order, p - 1).succs|)
  }

  ghost function FinalEnds(f: Function, order: seq<nat>): map<Value, nat>
    requires ValidOrder(f, order)
  {
    ExtendBlocks(f, order, WalkOf(f, order).starts, WalkOf(f, order).ends, |order|)
  }

  // ---- intervals ----

  type PhysReg = nat

  datatype Interval = Interval(vreg: Value, start: nat, end: nat, regClass: RegClass, size: nat,
                               crossesCall: bool, reg: Option<PhysReg>, slot: Option<nat>)

  predicate Crosses(calls: seq<nat>, start: nat, end: nat) {
    exists k :: 0 <= k < |calls| && start < calls[k] < end
  }

  /** The order of the sort key `(start, vreg)`. */
  predicate Before(a: Interval, b: Interval) {
    a.start < b.start || (a.start == b.start && a.vreg < b.vreg)
  }

  predicate SortedIntervals(ivs: seq<Interval>) {
    forall i, j :: 0 <= i < j < |ivs| ==> Before(ivs[i], ivs[j])
  }

  ghost predicate KeysMatch(w: Walk, ends: map<Value, nat>) {
    ends.Keys == w.starts.Keys == w.classes.Keys == w.sizes.Keys
  }

  function MakeInterval(w: Walk, ends: map<Value, nat>, v: Value): Interval
    requires v in w.starts && v in ends && v in w.classes && v in w.sizes
  {
    Interval(v, w.starts[v], ends[v], w.classes[v], w.sizes[v],
             Crosses(w.calls, w.starts[v], ends[v]), None, None)
  }

  ghost predicate Covers(ivs: seq<Interval>, v: Value) {
    exists j :: 0 <= j < |ivs| && ivs[j].vreg == v
  }

  /** `ivs` holds one interval per key, in sorted order; this determines it. */
  ghost predicate Assembled(w: Walk, ends: map<Value, nat>, ivs: seq<Interval>)
    requires KeysMatch(w, ends)
  {
    && SortedIntervals(ivs)
    && (forall j :: 0 <= j < |ivs| ==> ivs[j].vreg in ends && ivs[j] == MakeInterval(w, ends, ivs[j].vreg))
    && (forall v :: v in ends ==> Covers(ivs, v))
  }

  /** The specification of the whole computation. */
  ghost predicate IsIntervalsOf(f: Function, order: seq<nat>, ivs: seq<Interval>)
    requires ValidOrder(f, order)
  {
    KeysMatch(WalkOf(f, order), FinalEnds(f, order)) && Assembled(WalkOf(f, order), FinalEnds(f, order), ivs)
  }

  // ---- the passes ----

  /** Step 1: number the instructions, one block after the other. */
  method NumberBlocks(f: Function, order: seq<nat>) returns (blockStart: array<nat>, blockEnd: array<nat>)
    requires ListsBlocks(f, order)
    ensures blockStart.Length == blockEnd.Length == |f.blocks|
    ensures forall p {:trigger blockStart[order[p]]} :: 0 <= p < |order|
             ==> blockStart[order[p]] == BlockStart(f, order, p)
    ensures forall p {:trigger blockEnd[order[p]]} :: 0 <= p < |order| ==> blockEnd[order[p]] == BlockEnd(f, order, p)
    ensures fresh(blockStart) && fresh(blockEnd)
  {
    blockStart := new nat[|f.blocks|](_ => 0);
    blockEnd := new nat[|f.blocks|](_ => 0);
    var idx: nat := 1;
    for p := 0 to |order|
      invariant idx == BlockStart(f, order, p)
      invariant forall q {:trigger blockStart[order[q]]} :: 0 <= q < p
                 ==> blockStart[order[q]] == BlockStart(f, order, q)
      invariant forall q {:trigger blockEnd[order[q]]} :: 0 <= q < p ==> blockEnd[order[q]] == BlockEnd(f, order, q)
    {
      blockStart[order[p]] := idx;
      idx := idx + |f.blocks[order[p]].instrs|;
      blockEnd[order[p]] := idx;
    }
  }

  /** Step 2: record parameters, definitions, uses and clobbering instructions. */
  method WalkInstructions(f: Function, order: seq<nat>)
    returns (starts: map<Value, nat>, ends: map<Value, nat>, classes: map<Value, RegClass>,
             sizes: map<Value, nat>, calls: seq<nat>)
    requires ValidOrder(f, order)
    ensures Walk(starts, ends, classes, sizes, calls) == WalkOf(f, order)
  {
    starts, ends, classes, sizes, calls := map[], map[], map[], map[], [];
    for k := 0 to |f.params|
      invariant Walk(starts, ends, classes, sizes, calls) == NoteParams(f.params, k)
    {
      var param := f.params[k];
      if param.value != UNDEF {
        starts := starts[param.value := 0];
        ends := ends[param.value := 0];
        classes := classes[param.value := param.regClass];
        sizes := sizes[param.value := param.size];
      }
    }
    var idx: nat := 1;
    for p := 0 to |order|
      invariant idx == BlockStart(f, order, p)
      invariant Walk(starts, ends, classes, sizes, calls) == NoteBlocks(f, order, p)
    {
      var instrs := f.blocks[order[p]].instrs;
      ghost var w0 := NoteBlocks(f, order, p);
      for n := 0 to |instrs|
        invariant idx == BlockStart(f, order, p) + n
        invariant Walk(starts, ends, classes, sizes, calls) == NoteBlock(w0, instrs, n, BlockStart(f, order, p))
      {
        starts, ends, classes, sizes, calls := WalkInstruction(instrs[n], idx, starts, ends, classes, sizes, calls);
        idx := idx + 1;
      }
    }
  }

  method WalkInstruction(ins: Instr, idx: nat, starts0: map<Value, nat>, ends0: map<Value, nat>,
                         classes0: map<Value, RegClass>, sizes0: map<Value, nat>, calls0: seq<nat>)
    returns (starts: map<Value, nat>, ends: map<Value, nat>, classes: map<Value, RegClass>,
             sizes: map<Value, nat>, calls: seq<nat>)
    ensures Walk(starts, ends, classes, sizes, calls)
         == NoteInstr(Walk(starts0, ends0, classes0, sizes0, calls0), ins, idx)
  {
    starts, ends, classes, sizes, calls := starts0, ends0, classes0, sizes0, calls0;
    if Clobbers(ins.op) {
      calls := calls + [idx];
    }
    if ins.result.Some? && ins.result.value != UNDEF {
      var v := ins.result.value;
      starts := if v in starts then starts else starts[v := idx];
      ends := if v in ends && idx <= ends[v] then ends else ends[v := idx];
      classes := if v in classes then classes else classes[v := ins.regClass];
      sizes := if v in sizes then sizes else sizes[v := ins.size];
    }
    ghost var defined := Walk(starts, ends, classes, sizes, calls);
    for k := 0 to |ins.operands|
      invariant Walk(starts, ends, classes, sizes, calls) == NoteUses(defined, ins.operands, k, idx)
    {
      var v := ins.operands[k];
      if v != UNDEF {
        starts := if v in starts then starts else starts[v := 0];
        ends := if v in ends && idx <= ends[v] then ends else ends[v := idx];
        classes := if v in classes then classes else classes[v := Integer];
        sizes := if v in sizes then sizes else sizes[v := 8];
      }
    }
  }

  /** Lengthen every interval that is live into one loop. */
  method ExtendOverEdge(starts: map<Value, nat>, ends0: map<Value, nat>, header: nat, last: nat)
    returns (ends: map<Value, nat>)
    requires starts.Keys == ends0.Keys
    ensures ends == ExtendEdge(starts, ends0, header, last)
  {
    ends := ends0;
    var todo := starts.Keys;
    while todo != {}
      invariant todo <= starts.Keys == ends.Keys
      invariant forall v :: v in todo ==> ends[v] == ends0[v]
      invariant forall v :: v in ends && v !in todo ==> ends[v] == Extended(starts[v], ends0[v], header, last)
      decreases |todo|
    {
      var v :| v in todo;
      if starts[v] < header && ends[v] >= header && ends[v] < last {
        ends := ends[v := last];
      }
      todo := todo - {v};
    }
  }

  /** Layout positions by block, `|order|` standing for "not laid out". */
  method NumberPositions(f: Function, order: seq<nat>) returns (position: array<nat>)
    requires ListsBlocks(f, order)
    ensures position.Length == |f.blocks| && fresh(position)
    ensures forall b :: 0 <= b < |f.blocks| ==> position[b] == Position(order, b)
  {
    position := new nat[|f.blocks|](_ => |order|);
    for p := 0 to |order|
      invariant forall q :: 0 <= q < p ==> position[order[q]] == q
      invariant forall b :: 0 <= b < |f.blocks| && b !in order[..p] ==> position[b] == |order|
    {
      position[order[p]] := p;
      assert order[..p + 1] == order[..p] + [order[p]];
    }
    assert order[..|order|] == order;
  }

  /** Step 3.5: one pass over the back edges, their sources in layout order. */
  method ExtendBackEdges(f: Function, order: seq<nat>, starts: map<Value, nat>, ends0: map<Value, nat>,
                         blockStart: array<nat>, blockEnd: array<nat>)
    returns (ends: map<Value, nat>)
    requires ValidOrder(f, order) && starts.Keys == ends0.Keys
    requires blockStart.Length == blockEnd.Length == |f.blocks|
    requires forall p {:trigger blockStart[order[p]]} :: 0 <= p < |order|
              ==> blockStart[order[p]] == BlockStart(f, order, p)
    requires forall p {:trigger blockEnd[order[p]]} :: 0 <= p < |order| ==> blockEnd[order[p]] == BlockEnd(f, order, p)
    ensures ends == ExtendBlocks(f, order, starts, ends0, |order|)
    ensures ends.Keys == ends0.Keys
  {
    var position := NumberPositions(f, order);
    ends := ends0;
    for p := 0 to |order|
      invariant ends == ExtendBlocks(f, order, starts, ends0, p)
      invariant ends.Keys == ends0.Keys
      modifies {}
    {
      ends := ExtendFromBlock(f, order, starts, ends, p, blockStart, blockEnd, position);
    }
  }

  /** The back edges that leave one block. */
  method ExtendFromBlock(f: Function, order: seq<nat>, starts: map<Value, nat>, ends0: map<Value, nat>, p: nat,
                         blockStart: array<nat>, blockEnd: array<nat>, position: array<nat>)
    returns (ends: map<Value, nat>)
    requires ValidOrder(f, order) && starts.Keys == ends0.Keys && p < |order|
    requires blockStart.Length == blockEnd.Length == position.Length == |f.blocks|
    requires forall p {:trigger blockStart[order[p]]} :: 0 <= p < |order|
              ==> blockStart[order[p]] == BlockStart(f, order, p)
    requires blockEnd[order[p]] == BlockEnd(f, order, p)
    requires forall b :: 0 <= b < |f.blocks| ==> position[b] == Position(order, b)
    ensures ends == ExtendSuccs(f, order, starts, ends0, p, |BlockAt(f, order, p).succs|)
    ensures ends.Keys == ends0.Keys
  {
    ends := ends0;
    var succs := f.blocks[order[p]].succs;
    assert position[order[p]] == p;
    for k := 0 to |succs|
      invariant ends == ExtendSuccs(f, order, starts, ends0, p, k)
      invariant ends.Keys == ends0.Keys
    {
      var s := succs[k];
      if s < |f.blocks| && position[s] <= position[order[p]] {
        assert IsBackEdge(f, order, p, k);
        var last := if blockEnd[order[p]] > 0 then blockEnd[order[p]] - 1 else 0;
        assert blockStart[s] == BlockStart(f, order, Position(order, s));
        ends := ExtendOverEdge(starts, ends, blockStart[s], last);
      }
    }
  }

  /** Inserting one interval where the sort key says. */
  function InsertSorted(iv: Interval, ivs: seq<Interval>): (r: seq<Interval>)
    ensures multiset(r) == multiset(ivs) + multiset{iv}
  {
    if ivs == [] then [iv]
    else if Before(iv, ivs[0]) then [iv] + ivs
    else
      assert ivs == [ivs[0]] + ivs[1..];
      [ivs[0]] + InsertSorted(iv, ivs[1..])
  }

  /** The sort by `(start, vreg)`. */
  function SortByStart(ivs: seq<Interval>): (r: seq<Interval>)
    ensures multiset(r) == multiset(ivs)
  {
    if ivs == [] then []
    else
      assert ivs == ivs[..|ivs| - 1] + [ivs[|ivs| - 1]];
      InsertSorted(ivs[|ivs| - 1], SortByStart(ivs[..|ivs| - 1]))
  }

  predicate DistinctVregs(ivs: seq<Interval>) {
    forall i, j :: 0 <= i < j < |ivs| ==> ivs[i].vreg != ivs[j].vreg
  }

  lemma {:induction false} InsertKeepsSorted(iv: Interval, ivs: seq<Interval>)
    requires SortedIntervals(ivs)
    requires forall j :: 0 <= j < |ivs| ==> ivs[j].vreg != iv.vreg
    ensures SortedIntervals(InsertSorted(iv, ivs))
  {
    if ivs != [] && !Before(iv, ivs[0]) {
      InsertKeepsSorted(iv, ivs[1..]);
      var rest := InsertSorted(iv, ivs[1..]);
      forall j | 0 <= j < |rest|
        ensures Before(ivs[0], rest[j])
      {
        assert rest[j] in multiset(rest);
        assert rest[j] in ivs[1..] || rest[j] == iv;
      }
    }
  }

  lemma {:induction false} SameElements(a: seq<Interval>, b: seq<Interval>)
    requires multiset(a) == multiset(b)
    ensures |a| == |b| && forall iv :: iv in a <==> iv in b
  {
    assert |a| == |multiset(a)|;
    forall iv
      ensures iv in a <==> iv in b
    {
      assert iv in a <==> iv in multiset(a);
      assert iv in b <==> iv in multiset(b);
    }
  }

  /** Sorting intervals of distinct values puts them in strict order and keeps them all. */
  lemma {:induction false} SortSorts(ivs: seq<Interval>)
    requires DistinctVregs(ivs)
    ensures SortedIntervals(SortByStart(ivs))
    ensures |SortByStart(ivs)| == |ivs| && forall iv :: iv in SortByStart(ivs) <==> iv in ivs
    decreases |ivs|
  {
    SameElements(SortByStart(ivs), ivs);
    if ivs != [] {
      var front, last := ivs[..|ivs| - 1], ivs[|ivs| - 1];
      SortSorts(front);
      forall j | 0 <= j < |front|
        ensures SortByStart(front)[j].vreg != last.vreg
      {
        assert SortByStart(front)[j] in front;
      }
      InsertKeepsSorted(last, SortByStart(front));
    }
  }

  /** Starts ascend, and of equal starts the smaller value comes first. */
  lemma {:induction false} SortAscends(ivs: seq<Interval>, i: nat, j: nat)
    requires DistinctVregs(ivs) && i < j < |ivs|
    ensures |SortByStart(ivs)| == |ivs|
    ensures var a, b := SortByStart(ivs)[i], SortByStart(ivs)[j];
      a.start <= b.start && (a.start == b.start ==> a.vreg < b.vreg)
  {
    hide SortByStart;
    SortSorts(ivs);
  }

  /** Step 4: one interval per key, sorted. */
  method Assemble(starts: map<Value, nat>, ends: map<Value, nat>, classes: map<Value, RegClass>,
                  sizes: map<Value, nat>, calls: seq<nat>) returns (ivs: seq<Interval>)
    requires KeysMatch(Walk(starts, ends, classes, sizes, calls), ends)
    ensures Assembled(Walk(starts, ends, classes, sizes, calls), ends, ivs)
  {
    hide Collected, Assembled, SortByStart, Crosses;
    ghost var w := Walk(starts, ends, classes, sizes, calls);
    NothingCollected(w, ends);
    ivs := [];
    var todo := starts.Keys;
    ghost var done := {};
    while todo != {}
      invariant done !! todo && done + todo == starts.Keys
      invariant Collected(w, ends, ivs, done)
      decreases |todo|
    {
      var v :| v in todo;
      var iv := Interval(v, starts[v], ends[v], classes[v], sizes[v], Crosses(calls, starts[v], ends[v]), None, None);
      CollectOne(w, ends, ivs, done, v);
      ivs := ivs + [iv];
      todo, done := todo - {v}, done + {v};
    }
    CollectedSorts(w, ends, ivs);
    ivs := SortByStart(ivs);
  }

  /** `ivs` holds exactly one interval for each of `done`, in any order. */
  ghost predicate Collected(w: Walk, ends: map<Value, nat>, ivs: seq<Interval>, done: set<Value>)
    requires KeysMatch(w, ends)
  {
    && done <= ends.Keys && DistinctVregs(ivs)
    && (forall j :: 0 <= j < |ivs| ==> ivs[j].vreg in done && ivs[j] == MakeInterval(w, ends, ivs[j].vreg))
    && (forall v :: v in done ==> Covers(ivs, v))
  }

  lemma {:induction false} NothingCollected(w: Walk, ends: map<Value, nat>)
    requires KeysMatch(w, ends)
    ensures Collected(w, ends, [], {})
  {
  }

  lemma {:induction false} CollectOne(w: Walk, ends: map<Value, nat>, ivs: seq<Interval>, done: set<Value>, v: Value)
    requires KeysMatch(w, ends) && Collected(w, ends, ivs, done) && v in ends && v !in done
    ensures Collected(w, ends, ivs + [MakeInterval(w, ends, v)], done + {v})
  {
    var more := ivs + [MakeInterval(w, ends, v)];
    forall u | u in done + {v}
      ensures Covers(more, u)
    {
      if u == v {
        assert more[|ivs|].vreg == v;
      } else {
        assert Covers(ivs, u);
        var j :| 0 <= j < |ivs| && ivs[j].vreg == u;
        assert more[j].vreg == u;
      }
    }
  }

  lemma {:induction false} CollectedSorts(w: Walk, ends: map<Value, nat>, ivs: seq<Interval>)
    requires KeysMatch(w, ends) && Collected(w, ends, ivs, ends.Keys)
    ensures Assembled(w, ends, SortByStart(ivs))
  {
    SortSorts(ivs);
    var sorted := SortByStart(ivs);
    forall v | v in ends
      ensures Covers(sorted, v)
    {
      assert Covers(ivs, v);
      var j :| 0 <= j < |ivs| && ivs[j].vreg == v;
      assert ivs[j] in sorted;
    }
    forall j | 0 <= j < |sorted|
      ensures sorted[j].vreg in ends && sorted[j] == MakeInterval(w, ends, sorted[j].vreg)
    {
      assert sorted[j] in ivs;
    }
  }

  method ComputeLiveIntervals(f: Function, order: seq<nat>) returns (ivs: seq<Interval>)
    requires ValidOrder(f, order)
    ensures IsIntervalsOf(f, order, ivs)
  {
    var blockStart, blockEnd := NumberBlocks(f, order);
    var starts, ends0, classes, sizes, calls := WalkInstructions(f, order);
    WalkKeysMatch(f, order, |order|);
    var ends := ExtendBackEdges(f, order, starts, ends0, blockStart, blockEnd);
    ivs := Assemble(starts, ends, classes, sizes, calls);
  }

  // ---- every recorded value has all four entries ----

  lemma {:induction false} NoteUsesKeys(w: Walk, operands: seq<Value>, n: nat, idx: nat)
    requires n <= |operands| && KeysMatch(w, w.ends)
    ensures KeysMatch(NoteUses(w, operands, n, idx), NoteUses(w, operands, n, idx).ends)
  {
    if n > 0 {
      NoteUsesKeys(w, operands, n - 1, idx);
    }
  }

  lemma {:induction false} NoteBlockKeys(w: Walk, instrs: seq<Instr>, n: nat, idx: nat)
    requires n <= |instrs| && KeysMatch(w, w.ends)
    ensures KeysMatch(NoteBlock(w, instrs, n, idx), NoteBlock(w, instrs, n, idx).ends)
  {
    if n > 0 {
      NoteBlockKeys(w, instrs, n - 1, idx);
      var ins, i := instrs[n - 1], idx + n - 1;
      var w1 := NoteDef(NoteCall(NoteBlock(w, instrs, n - 1, idx), ins, i), ins, i);
      NoteUsesKeys(w1, ins.operands, |ins.operands|, i);
    }
  }

  lemma {:induction false} NoteParamsKeys(params: seq<Param>, n: nat)
    requires n <= |params|
    ensures KeysMatch(NoteParams(params, n), NoteParams(params, n).ends)
  {
    if n > 0 {
      NoteParamsKeys(params, n - 1);
    }
  }

  lemma {:induction false} WalkKeysMatch(f: Function, order: seq<nat>, p: nat)
    requires ValidOrder(f, order) && p <= |order|
    ensures KeysMatch(NoteBlocks(f, order, p), NoteBlocks(f, order, p).ends)
  {
    if p == 0 {
      NoteParamsKeys(f.params, |f.params|);
    } else {
      WalkKeysMatch(f, order, p - 1);
      var instrs := BlockAt(f, order, p - 1).instrs;
      NoteBlockKeys(NoteBlocks(f, order, p - 1), instrs, |instrs|, BlockStart(f, order, p - 1));
    }
  }
}
