/** What the computed intervals mean: they are exact before lengthening, the single back-edge pass
    reaches the least fixpoint, and the result covers true liveness on every path. */
module Liveness {
  import opened Ir
  import opened LiveIntervals

  ghost predicate Occurs(f: Function, order: seq<nat>, pt: Point, v: Value)
    requires ValidOrder(f, order)
  {
    && ValidPoint(f, order, pt)
    && (Defines(InstrAt(f, order, pt), v) || Uses(InstrAt(f, order, pt), v))
  }

  ghost predicate OccursBefore(f: Function, order: seq<nat>, v: Value, n: nat)
    requires ValidOrder(f, order)
  {
    exists pt :: Occurs(f, order, pt, v) && Index(f, order, pt) < n
  }

  ghost predicate FirstOccurrence(f: Function, order: seq<nat>, v: Value, pt: Point)
    requires ValidOrder(f, order)
  {
    && Occurs(f, order, pt, v)
    && forall other :: Occurs(f, order, other, v) ==> Index(f, order, pt) <= Index(f, order, other)
  }

  ghost predicate StartsAt(f: Function, order: seq<nat>, v: Value, pt: Point, start: nat)
    requires ValidOrder(f, order)
  {
    && FirstOccurrence(f, order, v, pt)
    && start == if Defines(InstrAt(f, order, pt), v) then Index(f, order, pt) else 0
  }

  ghost predicate EndsAt(f: Function, order: seq<nat>, v: Value, pt: Point, end: nat)
    requires ValidOrder(f, order)
  {
    Occurs(f, order, pt, v) && end == Index(f, order, pt)
  }

  /** The entry of `v` after the instructions with index below `n`: present iff `v` was met; the
      start is 0 for a parameter, else the first occurrence if that defines `v`, else 0; the end
      is the last occurrence. */
  ghost predicate ExactEntry(f: Function, order: seq<nat>, starts: map<Value, nat>, ends: map<Value, nat>,
                             v: Value, n: nat)
    requires ValidOrder(f, order)
  {
    && (v in starts <==> v in ends)
    && (v in starts <==> IsParam(f, v) || OccursBefore(f, order, v, n))
    && (v in starts && v in ends ==>
          && (IsParam(f, v) ==> starts[v] == 0)
          && (!IsParam(f, v) ==> exists pt :: StartsAt(f, order, v, pt, starts[v]))
          && (forall pt :: Occurs(f, order, pt, v) && Index(f, order, pt) < n
                           ==> starts[v] <= Index(f, order, pt) <= ends[v])
          && ((IsParam(f, v) && ends[v] == 0) || exists pt :: EndsAt(f, order, v, pt, ends[v])))
  }

  // ---- the walk is exact ----

  ghost predicate SameEntry(a: Walk, b: Walk, v: Value) {
    && (v in a.starts <==> v in b.starts) && (v in a.ends <==> v in b.ends)
    && (v in a.starts && v in b.starts ==> a.starts[v] == b.starts[v])
    && (v in a.ends && v in b.ends ==> a.ends[v] == b.ends[v])
  }

  lemma {:induction false} UsesEffect(w: Walk, operands: seq<Value>, n: nat, idx: nat, v: Value)
    requires n <= |operands| && KeysMatch(w, w.ends)
    ensures var r := NoteUses(w, operands, n, idx);
      if v in operands[..n] && v != UNDEF then
        && v in r.starts && v in r.ends
        && r.starts[v] == (if v in w.starts then w.starts[v] else 0)
        && r.ends[v] == (if v in w.ends && idx <= w.ends[v] then w.ends[v] else idx)
      else SameEntry(w, r, v)
  {
    if n > 0 {
      UsesEffect(w, operands, n - 1, idx, v);
      NoteUsesKeys(w, operands, n - 1, idx);
      assert operands[..n] == operands[..n - 1] + [operands[n - 1]];
    }
  }

  lemma {:induction false} DefKeys(w: Walk, ins: Instr, idx: nat)
    requires KeysMatch(w, w.ends)
    ensures var r := NoteDef(NoteCall(w, ins, idx), ins, idx); KeysMatch(r, r.ends)
  {
  }

  lemma {:induction false} DefEffect(w: Walk, ins: Instr, idx: nat, v: Value)
    ensures var r := NoteDef(NoteCall(w, ins, idx), ins, idx);
      if Defines(ins, v) then
        && v in r.starts && v in r.ends
        && r.starts[v] == (if v in w.starts then w.starts[v] else idx)
        && r.ends[v] == (if v in w.ends && idx <= w.ends[v] then w.ends[v] else idx)
      else SameEntry(w, r, v)
  {
  }

  lemma {:induction false} InstrEffect(w: Walk, ins: Instr, idx: nat, v: Value)
    requires KeysMatch(w, w.ends)
    ensures var r := NoteInstr(w, ins, idx);
      if Defines(ins, v) || Uses(ins, v) then
        && v in r.starts && v in r.ends
        && r.starts[v] == (if v in w.starts then w.starts[v] else if Defines(ins, v) then idx else 0)
        && r.ends[v] == (if v in w.ends && idx <= w.ends[v] then w.ends[v] else idx)
      else SameEntry(w, r, v)
  {
    hide KeysMatch;
    DefKeys(w, ins, idx);
    var defined := NoteDef(NoteCall(w, ins, idx), ins, idx);
    DefEffect(w, ins, idx, v);
    hide NoteDef, NoteOccurrence;
    UsesEffect(defined, ins.operands, |ins.operands|, idx, v);
    assert ins.operands[..|ins.operands|] == ins.operands;
  }

  lemma {:induction false} ExactStep(f: Function, order: seq<nat>, w: Walk, pt: Point, v: Value)
    requires ValidOrder(f, order) && ValidPoint(f, order, pt) && KeysMatch(w, w.ends)
    requires ExactEntry(f, order, w.starts, w.ends, v, Index(f, order, pt))
    ensures var n := Index(f, order, pt); var r := NoteInstr(w, InstrAt(f, order, pt), n);
      ExactEntry(f, order, r.starts, r.ends, v, n + 1)
  {
    var n := Index(f, order, pt);
    var ins := InstrAt(f, order, pt);
    InstrEffect(w, ins, n, v);
    var r := NoteInstr(w, ins, n);
    forall other | Occurs(f, order, other, v) && Index(f, order, other) < n + 1
      ensures Index(f, order, other) < n || other == pt
    {
      if Index(f, order, other) == n {
        IndexInjective(f, order, other, pt);
      }
    }
    if Occurs(f, order, pt, v) {
      assert EndsAt(f, order, v, pt, n);
      if v !in w.starts {
        assert StartsAt(f, order, v, pt, r.starts[v]);
      }
    }
  }

  lemma {:induction false} ExactBlock(f: Function, order: seq<nat>, w: Walk, p: nat, n: nat, v: Value)
    requires ValidOrder(f, order) && p < |order| && n <= |BlockAt(f, order, p).instrs| && KeysMatch(w, w.ends)
    requires ExactEntry(f, order, w.starts, w.ends, v, BlockStart(f, order, p))
    ensures var r := NoteBlock(w, BlockAt(f, order, p).instrs, n, BlockStart(f, order, p));
      ExactEntry(f, order, r.starts, r.ends, v, BlockStart(f, order, p) + n)
  {
    hide ExactEntry, KeysMatch, NoteInstr;
    if n > 0 {
      ExactBlock(f, order, w, p, n - 1, v);
      var instrs := BlockAt(f, order, p).instrs;
      NoteBlockKeys(w, instrs, n - 1, BlockStart(f, order, p));
      ExactStep(f, order, NoteBlock(w, instrs, n - 1, BlockStart(f, order, p)), Point(p, n - 1), v);
    }
  }

  lemma {:induction false} ParamsEntry(params: seq<Param>, n: nat, v: Value)
    requires n <= |params|
    ensures var w := NoteParams(params, n);
      && (v in w.starts <==> v in w.ends)
      && (v in w.starts <==> v != UNDEF && exists k :: 0 <= k < n && params[k].value == v)
      && (v in w.starts && v in w.ends ==> w.starts[v] == 0 && w.ends[v] == 0)
  {
    if n > 0 {
      ParamsEntry(params, n - 1, v);
    }
  }

  lemma {:induction false} ExactAtEntry(f: Function, order: seq<nat>, v: Value)
    requires ValidOrder(f, order)
    ensures var w := NoteParams(f.params, |f.params|); ExactEntry(f, order, w.starts, w.ends, v, 1)
  {
    ParamsEntry(f.params, |f.params|, v);
    hide ValidOrder, NoteParams, Occurs;
  }

  /** The recorded ranges are exact after every prefix of the layout. */
  lemma {:induction false} ExactBlocks(f: Function, order: seq<nat>, p: nat, v: Value)
    requires ValidOrder(f, order) && p <= |order|
    ensures var w := NoteBlocks(f, order, p); ExactEntry(f, order, w.starts, w.ends, v, BlockStart(f, order, p))
  {
    hide ExactEntry, KeysMatch, NoteBlock;
    if p == 0 {
      ExactAtEntry(f, order, v);
    } else {
      ExactBlocks(f, order, p - 1, v);
      WalkKeysMatch(f, order, p - 1);
      ExactBlock(f, order, NoteBlocks(f, order, p - 1), p - 1, |BlockAt(f, order, p - 1).instrs|, v);
    }
  }

  /** The walk over the whole function records, for every value, exactly its first and last occurrence. */
  lemma {:induction false} WalkIsExact(f: Function, order: seq<nat>, v: Value)
    requires ValidOrder(f, order)
    ensures var w := WalkOf(f, order);
      && ExactEntry(f, order, w.starts, w.ends, v, BlockStart(f, order, |order|))
      && forall pt :: Occurs(f, order, pt, v) ==>
           (v in w.starts && v in w.ends && w.starts[v] <= Index(f, order, pt) <= w.ends[v])
  {
    ExactBlocks(f, order, |order|, v);
    forall pt | Occurs(f, order, pt, v)
      ensures Index(f, order, pt) < BlockStart(f, order, |order|)
    {
      BlockStartMonotone(f, order, pt.pos + 1, |order|);
    }
  }

  // ---- clobbering instructions ----

  ghost predicate ClobbersAt(f: Function, order: seq<nat>, pt: Point)
    requires ValidOrder(f, order)
  {
    ValidPoint(f, order, pt) && Clobbers(InstrAt(f, order, pt).op)
  }

  ghost predicate IsCallIndex(f: Function, order: seq<nat>, idx: nat)
    requires ValidOrder(f, order)
  {
    exists pt :: ClobbersAt(f, order, pt) && Index(f, order, pt) == idx
  }

  ghost predicate ExactCalls(f: Function, order: seq<nat>, calls: seq<nat>, n: nat)
    requires ValidOrder(f, order)
  {
    && (forall k :: 0 <= k < |calls| ==> IsCallIndex(f, order, calls[k]))
    && (forall pt :: ClobbersAt(f, order, pt) && Index(f, order, pt) < n ==> Index(f, order, pt) in calls)
  }

  lemma {:induction false} UsesKeepCalls(w: Walk, operands: seq<Value>, n: nat, idx: nat)
    requires n <= |operands|
    ensures NoteUses(w, operands, n, idx).calls == w.calls
  {
    if n > 0 {
      UsesKeepCalls(w, operands, n - 1, idx);
    }
  }

  lemma {:induction false} CallsStep(f: Function, order: seq<nat>, w: Walk, pt: Point)
    requires ValidOrder(f, order) && ValidPoint(f, order, pt)
    requires ExactCalls(f, order, w.calls, Index(f, order, pt))
    ensures ExactCalls(f, order, NoteInstr(w, InstrAt(f, order, pt), Index(f, order, pt)).calls,
                       Index(f, order, pt) + 1)
  {
    var n := Index(f, order, pt);
    var ins := InstrAt(f, order, pt);
    UsesKeepCalls(NoteDef(NoteCall(w, ins, n), ins, n), ins.operands, |ins.operands|, n);
    var calls := NoteInstr(w, ins, n).calls;
    assert calls == if Clobbers(ins.op) then w.calls + [n] else w.calls;
    if Clobbers(ins.op) {
      assert ClobbersAt(f, order, pt);
      assert IsCallIndex(f, order, n);
    }
    forall other | ClobbersAt(f, order, other) && Index(f, order, other) < n + 1
      ensures Index(f, order, other) in calls
    {
      if Index(f, order, other) == n {
        IndexInjective(f, order, other, pt);
        assert calls[|w.calls|] == n;
      }
    }
  }

  lemma {:induction false} CallsBlock(f: Function, order: seq<nat>, w: Walk, p: nat, n: nat)
    requires ValidOrder(f, order) && p < |order| && n <= |BlockAt(f, order, p).instrs|
    requires ExactCalls(f, order, w.calls, BlockStart(f, order, p))
    ensures ExactCalls(f, order, NoteBlock(w, BlockAt(f, order, p).instrs, n, BlockStart(f, order, p)).calls,
                       BlockStart(f, order, p) + n)
  {
    if n > 0 {
      CallsBlock(f, order, w, p, n - 1);
      CallsStep(f, order, NoteBlock(w, BlockAt(f, order, p).instrs, n - 1, BlockStart(f, order, p)), Point(p, n - 1));
    }
  }

  lemma {:induction false} ParamsHaveNoCalls(params: seq<Param>, n: nat)
    requires n <= |params|
    ensures NoteParams(params, n).calls == []
  {
    if n > 0 {
      ParamsHaveNoCalls(params, n - 1);
    }
  }

  lemma {:induction false} CallsBlocks(f: Function, order: seq<nat>, p: nat)
    requires ValidOrder(f, order) && p <= |order|
    ensures ExactCalls(f, order, NoteBlocks(f, order, p).calls, BlockStart(f, order, p))
  {
    if p == 0 {
      ParamsHaveNoCalls(f.params, |f.params|);
    } else {
      CallsBlocks(f, order, p - 1);
      CallsBlock(f, order, NoteBlocks(f, order, p - 1), p - 1, |BlockAt(f, order, p - 1).instrs|);
    }
  }

  // ---- one pass over the back edges is enough ----

  ghost predicate IsEdge(f: Function, order: seq<nat>, p: nat, k: nat)
    requires ValidOrder(f, order)
  {
    p < |order| && k < |BlockAt(f, order, p).succs| && IsBackEdge(f, order, p, k)
  }

  ghost function Header(f: Function, order: seq<nat>, p: nat, k: nat): nat
    requires ValidOrder(f, order) && IsEdge(f, order, p, k)
  {
    BlockStart(f, order, Position(order, BlockAt(f, order, p).succs[k]))
  }

  /** If a value is live into the loop closed by this edge, it lasts to the end of the loop body. */
  ghost predicate EdgeClosed(f: Function, order: seq<nat>, start: nat, end: nat, p: nat, k: nat)
    requires ValidOrder(f, order)
  {
    IsEdge(f, order, p, k) && start < Header(f, order, p, k) <= end ==> BlockEnd(f, order, p) - 1 <= end
  }

  ghost predicate ClosedTo(f: Function, order: seq<nat>, start: nat, end: nat, p: nat, k: nat)
    requires ValidOrder(f, order)
  {
    forall q: nat, j: nat :: q < p || (q == p && j < k) ==> EdgeClosed(f, order, start, end, q, j)
  }

  lemma {:induction false} EdgeStep(f: Function, order: seq<nat>, start: nat, end: nat, p: nat, k: nat)
    requires ValidOrder(f, order) && p < |order| && k < |BlockAt(f, order, p).succs|
    requires ClosedTo(f, order, start, end, p, k)
    ensures var e := if IsBackEdge(f, order, p, k)
                     then Extended(start, end, Header(f, order, p, k), BlockEnd(f, order, p) - 1) else end;
      ClosedTo(f, order, start, e, p, k + 1)
  {
    var e := if IsBackEdge(f, order, p, k)
             then Extended(start, end, Header(f, order, p, k), BlockEnd(f, order, p) - 1) else end;
    forall q: nat, j: nat | q < p || (q == p && j < k + 1)
      ensures EdgeClosed(f, order, start, e, q, j)
    {
      assert q < p || (q == p && j < k) ==> EdgeClosed(f, order, start, end, q, j);
      if q <= p {
        BlockStartMonotone(f, order, q + 1, p + 1);
      }
    }
  }

  lemma {:induction false} SuccsClosed(f: Function, order: seq<nat>, starts: map<Value, nat>, ends: map<Value, nat>,
                                       p: nat, k: nat, v: Value)
    requires ValidOrder(f, order) && p < |order| && k <= |BlockAt(f, order, p).succs|
    requires v in starts && v in ends && ClosedTo(f, order, starts[v], ends[v], p, 0)
    ensures var r := ExtendSuccs(f, order, starts, ends, p, k);
      v in r && ends[v] <= r[v] && ClosedTo(f, order, starts[v], r[v], p, k)
    decreases k
  {
    if k > 0 {
      SuccsClosed(f, order, starts, ends, p, k - 1, v);
      EdgeStep(f, order, starts[v], ExtendSuccs(f, order, starts, ends, p, k - 1)[v], p, k - 1);
    }
  }

  lemma {:induction false} BlocksClosed(f: Function, order: seq<nat>, starts: map<Value, nat>, ends: map<Value, nat>,
                                        p: nat, v: Value)
    requires ValidOrder(f, order) && p <= |order| && v in starts && v in ends
    ensures var r := ExtendBlocks(f, order, starts, ends, p);
      v in r && ends[v] <= r[v] && ClosedTo(f, order, starts[v], r[v], p, 0)
  {
    if p > 0 {
      BlocksClosed(f, order, starts, ends, p - 1, v);
      var before := ExtendBlocks(f, order, starts, ends, p - 1);
      var n := |BlockAt(f, order, p - 1).succs|;
      SuccsClosed(f, order, starts, before, p - 1, n, v);
      var r := ExtendBlocks(f, order, starts, ends, p);
      forall q: nat, j: nat | q < p || (q == p && j < 0)
        ensures EdgeClosed(f, order, starts[v], r[v], q, j)
      {
        if q == p - 1 && j >= n {
          assert !IsEdge(f, order, q, j);
        }
      }
    }
  }

  /** After the single pass every back edge is closed, for every value. */
  lemma {:induction false} OnePassIsFixpoint(f: Function, order: seq<nat>, v: Value, p: nat, k: nat)
    requires ValidOrder(f, order) && v in WalkOf(f, order).starts
    requires IsEdge(f, order, p, k)
    ensures v in FinalEnds(f, order)
    ensures var start, end := WalkOf(f, order).starts[v], FinalEnds(f, order)[v];
      start < Header(f, order, p, k) <= end ==> BlockEnd(f, order, p) - 1 <= end
  {
    WalkKeysMatch(f, order, |order|);
    BlocksClosed(f, order, WalkOf(f, order).starts, WalkOf(f, order).ends, |order|, v);
    assert EdgeClosed(f, order, WalkOf(f, order).starts[v], FinalEnds(f, order)[v], p, k);
  }

  lemma {:induction false} SuccsLeast(f: Function, order: seq<nat>, starts: map<Value, nat>, ends: map<Value, nat>,
                                      p: nat, k: nat, v: Value, bound: nat)
    requires ValidOrder(f, order) && p < |order| && k <= |BlockAt(f, order, p).succs|
    requires v in starts && v in ends && ends[v] <= bound
    requires forall q: nat, j: nat :: EdgeClosed(f, order, starts[v], bound, q, j)
    ensures var r := ExtendSuccs(f, order, starts, ends, p, k); v in r && r[v] <= bound
    decreases k
  {
    if k > 0 {
      SuccsLeast(f, order, starts, ends, p, k - 1, v, bound);
      assert EdgeClosed(f, order, starts[v], bound, p, k - 1);
    }
  }

  lemma {:induction false} BlocksLeast(f: Function, order: seq<nat>, starts: map<Value, nat>, ends: map<Value, nat>,
                                       p: nat, v: Value, bound: nat)
    requires ValidOrder(f, order) && p <= |order| && v in starts && v in ends && ends[v] <= bound
    requires forall q: nat, j: nat :: EdgeClosed(f, order, starts[v], bound, q, j)
    ensures var r := ExtendBlocks(f, order, starts, ends, p); v in r && r[v] <= bound
  {
    if p > 0 {
      BlocksLeast(f, order, starts, ends, p - 1, v, bound);
      SuccsLeast(f, order, starts, ExtendBlocks(f, order, starts, ends, p - 1), p - 1,
                 |BlockAt(f, order, p - 1).succs|, v, bound);
    }
  }

  /** The pass lengthens no interval further than it must: any end that is at least the recorded
      one and closed over all back edges is at least the final one. */
  lemma {:induction false} OnePassIsLeast(f: Function, order: seq<nat>, v: Value, bound: nat)
    requires ValidOrder(f, order) && v in WalkOf(f, order).starts
    requires v in WalkOf(f, order).ends ==> WalkOf(f, order).ends[v] <= bound
    requires forall p: nat, k: nat :: EdgeClosed(f, order, WalkOf(f, order).starts[v], bound, p, k)
    ensures v in FinalEnds(f, order) && FinalEnds(f, order)[v] <= bound
  {
    WalkKeysMatch(f, order, |order|);
    BlocksLeast(f, order, WalkOf(f, order).starts, WalkOf(f, order).ends, |order|, v, bound);
  }

  // ---- soundness ----

  ghost predicate ForwardPath(f: Function, order: seq<nat>, path: seq<Point>, pt: Point)
    requires ValidOrder(f, order) && ValidPoint(f, order, pt)
  {
    && IsPath(f, order, path) && path[0] == Point(0, 0) && path[|path| - 1] == pt
    && forall k :: 0 <= k < |path| - 1 ==> Index(f, order, path[k]) < Index(f, order, pt)
  }

  lemma {:induction false} AppendPoint(f: Function, order: seq<nat>, path: seq<Point>, a: Point, b: Point)
    requires ValidOrder(f, order) && ValidPoint(f, order, a) && ForwardPath(f, order, path, a)
    requires Flow(f, order, a, b) && Index(f, order, a) < Index(f, order, b)
    ensures ForwardPath(f, order, path + [b], b)
  {
    var longer := path + [b];
    forall k | 0 <= k < |longer| - 1
      ensures Flow(f, order, longer[k], longer[k + 1]) && Index(f, order, longer[k]) < Index(f, order, b)
    {
      if k < |path| - 1 {
        assert Flow(f, order, path[k], path[k + 1]);
      }
    }
  }

  /** Every point is reached from the entry through points of smaller index only. */
  lemma {:induction false} ForwardPathExists(f: Function, order: seq<nat>, pt: Point) returns (path: seq<Point>)
    requires ValidOrder(f, order) && ValidPoint(f, order, pt)
    ensures ForwardPath(f, order, path, pt)
    decreases pt.pos, pt.off
  {
    if pt.off > 0 {
      var prev := Point(pt.pos, pt.off - 1);
      var before := ForwardPathExists(f, order, prev);
      AppendPoint(f, order, before, prev, pt);
      path := before + [pt];
    } else if pt.pos == 0 {
      path := [pt];
    } else {
      assert HasEarlierPred(f, order, pt.pos);
      var q :| 0 <= q < pt.pos && order[pt.pos] in f.blocks[order[q]].succs;
      assert WellFormedBlock(f.blocks[order[q]]);
      var prev := Point(q, |BlockAt(f, order, q).instrs| - 1);
      var before := ForwardPathExists(f, order, prev);
      BlockStartMonotone(f, order, q + 1, pt.pos);
      AppendPoint(f, order, before, prev, pt);
      path := before + [pt];
    }
  }

  lemma {:induction false} JoinPaths(f: Function, order: seq<nat>, a: seq<Point>, b: seq<Point>)
    requires ValidOrder(f, order) && IsPath(f, order, a) && IsPath(f, order, b) && a[|a| - 1] == b[0]
    ensures IsPath(f, order, a[..|a| - 1] + b)
  {
    var path := a[..|a| - 1] + b;
    forall k | 0 <= k < |path| - 1
      ensures Flow(f, order, path[k], path[k + 1])
    {
      if k < |a| - 1 {
        assert Flow(f, order, a[k], a[k + 1]);
      } else {
        assert Flow(f, order, b[k - |a| + 1], b[k - |a| + 2]);
      }
    }
  }

  /** Strictness puts a definition of a live value on the forward path to the point. */
  lemma {:induction false} DefinitionBefore(f: Function, order: seq<nat>, v: Value, pt: Point) returns (def: Point)
    requires ValidOrder(f, order) && Strict(f, order) && ValidPoint(f, order, pt)
    requires LiveIn(f, order, v, pt) && !IsParam(f, v)
    ensures ValidPoint(f, order, def) && Defines(InstrAt(f, order, def), v)
    ensures Index(f, order, def) < Index(f, order, pt)
  {
    var live :| LivePath(f, order, live, pt, v);
    var forward := ForwardPathExists(f, order, pt);
    JoinPaths(f, order, forward, live);
    var path := forward[..|forward| - 1] + live;
    assert EntryUsePath(f, order, path, v) by {
      assert path[0] == Point(0, 0);
      assert path[|path| - 1] == live[|live| - 1];
    }
    var front := path[..|path| - 1];
    assert front == forward[..|forward| - 1] + live[..|live| - 1];
    assert DefinedOn(f, order, front, v);
    var k :| 0 <= k < |front| && Defines(InstrAt(f, order, front[k]), v);
    NotOnLivePart(f, order, forward[..|forward| - 1], live[..|live| - 1], v, k);
    def := forward[k];
  }

  lemma {:induction false} NotOnLivePart(f: Function, order: seq<nat>, a: seq<Point>, b: seq<Point>, v: Value, k: nat)
    requires ValidOrder(f, order)
    requires forall j :: 0 <= j < |a + b| ==> ValidPoint(f, order, (a + b)[j])
    requires forall j :: 0 <= j < |b| ==> ValidPoint(f, order, b[j])
    requires !DefinedOn(f, order, b, v)
    requires k < |a + b| && Defines(InstrAt(f, order, (a + b)[k]), v)
    ensures k < |a|
  {
  }

  /** In a strict function a live value starts strictly before the point where it is live. */
  lemma {:induction false} LiveStartsBefore(f: Function, order: seq<nat>, v: Value, pt: Point)
    requires ValidOrder(f, order) && Strict(f, order) && ValidPoint(f, order, pt) && LiveIn(f, order, v, pt)
    ensures v in WalkOf(f, order).starts && WalkOf(f, order).starts[v] < Index(f, order, pt)
  {
    WalkIsExact(f, order, v);
    if IsParam(f, v) {
    } else {
      var def := DefinitionBefore(f, order, v, pt);
      assert Occurs(f, order, def, v);
    }
  }

  lemma {:induction false} LiveSuffix(f: Function, order: seq<nat>, path: seq<Point>, v: Value)
    requires ValidOrder(f, order) && 1 < |path| && LivePath(f, order, path, path[0], v)
    ensures LivePath(f, order, path[1..], path[1], v)
  {
    var rest := path[1..];
    forall k | 0 <= k < |rest| - 1
      ensures Flow(f, order, rest[k], rest[k + 1])
    {
      assert Flow(f, order, path[k + 1], path[k + 2]);
    }
    assert path[..|path| - 1][1..] == rest[..|rest| - 1];
  }

  /** Going backwards along a live path, the final end stays at or above the index: inside a block
      and along forward edges trivially, across a back edge because the pass closed it. */
  lemma {:induction false} LivePathEndsAfter(f: Function, order: seq<nat>, path: seq<Point>, v: Value)
    requires ValidOrder(f, order) && Strict(f, order)
    requires 0 < |path| && LivePath(f, order, path, path[0], v)
    ensures v in FinalEnds(f, order) && Index(f, order, path[0]) <= FinalEnds(f, order)[v]
    decreases |path|
  {
    hide Strict, ExactEntry;
    WalkIsExact(f, order, v);
    WalkKeysMatch(f, order, |order|);
    var w := WalkOf(f, order);
    var pt := path[0];
    if |path| == 1 {
      assert Occurs(f, order, pt, v);
      BlocksClosed(f, order, w.starts, w.ends, |order|, v);
    } else {
      LiveSuffix(f, order, path, v);
      LivePathEndsAfter(f, order, path[1..], v);
      var next := path[1];
      assert Flow(f, order, pt, next);
      IndexInBlock(f, order, pt);
      if next.pos != pt.pos || next.off != pt.off + 1 {
        if next.pos > pt.pos {
          BlockStartMonotone(f, order, pt.pos + 1, next.pos);
        } else {
          BackEdgeCloses(f, order, pt, next, v);
        }
      }
    }
  }

  lemma {:induction false} BackEdgeCloses(f: Function, order: seq<nat>, pt: Point, next: Point, v: Value)
    requires ValidOrder(f, order) && Strict(f, order)
    requires Flow(f, order, pt, next) && next.pos <= pt.pos && next != Point(pt.pos, pt.off + 1)
    requires LiveIn(f, order, v, next)
    requires v in FinalEnds(f, order) && Index(f, order, next) <= FinalEnds(f, order)[v]
    ensures Index(f, order, pt) <= FinalEnds(f, order)[v]
  {
    LiveStartsBefore(f, order, v, next);
    var succs := BlockAt(f, order, pt.pos).succs;
    var k :| 0 <= k < |succs| && succs[k] == order[next.pos];
    assert Position(order, succs[k]) == next.pos;
    OnePassIsFixpoint(f, order, v, pt.pos, k);
  }

  /** Live intervals are sound: wherever a value is live, the point lies inside its interval, and
      strictly after the start, for arbitrary control flow. */
  lemma {:induction false} LiveInsideInterval(f: Function, order: seq<nat>, v: Value, pt: Point)
    requires ValidOrder(f, order) && Strict(f, order) && ValidPoint(f, order, pt) && LiveIn(f, order, v, pt)
    ensures v in WalkOf(f, order).starts && v in FinalEnds(f, order)
    ensures WalkOf(f, order).starts[v] < Index(f, order, pt) <= FinalEnds(f, order)[v]
  {
    LiveStartsBefore(f, order, v, pt);
    var path :| LivePath(f, order, path, pt, v);
    LivePathEndsAfter(f, order, path, v);
  }

  /** A definition lies inside the interval of the value it defines. */
  lemma {:induction false} DefInsideInterval(f: Function, order: seq<nat>, v: Value, pt: Point)
    requires ValidOrder(f, order) && ValidPoint(f, order, pt) && Defines(InstrAt(f, order, pt), v)
    ensures v in WalkOf(f, order).starts && v in FinalEnds(f, order)
    ensures WalkOf(f, order).starts[v] <= Index(f, order, pt) <= FinalEnds(f, order)[v]
  {
    WalkIsExact(f, order, v);
    WalkKeysMatch(f, order, |order|);
    assert Occurs(f, order, pt, v);
    BlocksClosed(f, order, WalkOf(f, order).starts, WalkOf(f, order).ends, |order|, v);
  }

  /** The interval of `v` among the results. */
  ghost predicate HasInterval(ivs: seq<Interval>, v: Value, j: nat) {
    j < |ivs| && ivs[j].vreg == v
  }

  lemma {:induction false} IntervalIndex(f: Function, order: seq<nat>, ivs: seq<Interval>, v: Value) returns (j: nat)
    requires ValidOrder(f, order) && IsIntervalsOf(f, order, ivs) && v in FinalEnds(f, order)
    ensures HasInterval(ivs, v, j)
    ensures ivs[j] == MakeInterval(WalkOf(f, order), FinalEnds(f, order), v)
  {
    assert Covers(ivs, v);
    j :| 0 <= j < |ivs| && ivs[j].vreg == v;
  }

  /** A value is live across a point: live after it and not defined by it. */
  ghost predicate LiveAcross(f: Function, order: seq<nat>, v: Value, pt: Point)
    requires ValidOrder(f, order) && ValidPoint(f, order, pt)
  {
    LiveOut(f, order, v, pt) && !Defines(InstrAt(f, order, pt), v)
  }

  /** Inside a block the point after a clobbering instruction is the next one. */
  lemma {:induction false} NextAfterCall(f: Function, order: seq<nat>, pt: Point, next: Point)
    requires ValidOrder(f, order) && ClobbersAt(f, order, pt) && Flow(f, order, pt, next)
    ensures Index(f, order, next) == Index(f, order, pt) + 1
  {
    assert WellFormedBlock(f.blocks[order[pt.pos]]);
  }

  lemma {:induction false} CallIsRecorded(f: Function, order: seq<nat>, pt: Point) returns (k: nat)
    requires ValidOrder(f, order) && ClobbersAt(f, order, pt)
    ensures k < |WalkOf(f, order).calls| && WalkOf(f, order).calls[k] == Index(f, order, pt)
  {
    CallsBlocks(f, order, |order|);
    BlockStartMonotone(f, order, pt.pos + 1, |order|);
    var calls := WalkOf(f, order).calls;
    assert Index(f, order, pt) in calls;
    k :| 0 <= k < |calls| && calls[k] == Index(f, order, pt);
  }

  /** Every value live across a call or division has an interval flagged as crossing a call. */
  lemma {:induction false} LiveAcrossCallIsFlagged(f: Function, order: seq<nat>, ivs: seq<Interval>, v: Value,
                                                   pt: Point) returns (j: nat)
    requires ValidOrder(f, order) && Strict(f, order) && IsIntervalsOf(f, order, ivs)
    requires ClobbersAt(f, order, pt) && LiveAcross(f, order, v, pt)
    ensures HasInterval(ivs, v, j) && ivs[j].crossesCall
  {
    var next :| Flow(f, order, pt, next) && LiveIn(f, order, v, next);
    LiveBackward(f, order, v, pt, next);
    LiveInsideInterval(f, order, v, pt);
    LiveInsideInterval(f, order, v, next);
    NextAfterCall(f, order, pt, next);
    j := IntervalIndex(f, order, ivs, v);
    var k := CallIsRecorded(f, order, pt);
    assert ivs[j].start < WalkOf(f, order).calls[k] < ivs[j].end;
  }

  /** The flag is set for a reason: some call or division lies strictly inside a flagged interval. */
  lemma {:induction false} FlaggedCrossesACall(f: Function, order: seq<nat>, ivs: seq<Interval>, j: nat)
    returns (pt: Point)
    requires ValidOrder(f, order) && IsIntervalsOf(f, order, ivs) && j < |ivs| && ivs[j].crossesCall
    ensures ClobbersAt(f, order, pt) && ivs[j].start < Index(f, order, pt) < ivs[j].end
  {
    CallsBlocks(f, order, |order|);
    var calls := WalkOf(f, order).calls;
    var k :| 0 <= k < |calls| && ivs[j].start < calls[k] < ivs[j].end;
    assert IsCallIndex(f, order, calls[k]);
    pt :| ClobbersAt(f, order, pt) && Index(f, order, pt) == calls[k];
  }
}
