/** The order in which the allocator lays out blocks: reverse postorder of an iterative depth-first
    search. */
module BlockOrder {
  import opened Wrappers
  import opened Ir

  datatype Frame = Frame(block: nat, pos: nat)

  /** What is known of the search between steps. */
  ghost predicate Searching(f: Function, seen: set<nat>, stack: seq<Frame>, post: seq<nat>) {
    && Members(f, seen, stack, post)
    && Spine(f, stack)
    && Explored(f, seen, stack, post)
    && Parents(f, stack, post)
  }

  function Blocks(stack: seq<Frame>): (bs: seq<nat>)
    ensures |bs| == |stack| && forall i :: 0 <= i < |stack| ==> bs[i] == stack[i].block
  {
    seq(|stack|, i requires 0 <= i < |stack| => stack[i].block)
  }

  /** A block has been seen when it is on the stack or done, and it is in one place only. */
  ghost predicate Members(f: Function, seen: set<nat>, stack: seq<Frame>, post: seq<nat>) {
    && Distinct(Blocks(stack) + post)
    && (forall b :: b in seen <==> b in Blocks(stack) + post)
    && (forall b :: b in seen ==> b < |f.blocks|)
  }

  /** The entry is at the bottom, and each frame was entered from the one below. */
  ghost predicate Spine(f: Function, stack: seq<Frame>) {
    && (stack != [] ==> stack[0].block == 0)
    && (forall i :: 0 <= i < |stack|
         ==> stack[i].block < |f.blocks| && stack[i].pos <= |f.blocks[stack[i].block].succs|)
    && (forall i :: 0 < i < |stack| ==> stack[i].block in f.blocks[stack[i - 1].block].succs)
  }

  /** Successors of done blocks, and those already tried of blocks on the stack, have been seen. */
  ghost predicate Explored(f: Function, seen: set<nat>, stack: seq<Frame>, post: seq<nat>) {
    && (forall b, s :: b in post && b < |f.blocks| && s in f.blocks[b].succs && s < |f.blocks| ==> s in seen)
    && (forall i, k :: 0 <= i < |stack| && stack[i].block < |f.blocks| && 0 <= k < stack[i].pos
                       && k < |f.blocks[stack[i].block].succs| && f.blocks[stack[i].block].succs[k] < |f.blocks|
                       ==> f.blocks[stack[i].block].succs[k] in seen)
  }

  /** Done block `k` was entered from a block that is done later or still on the stack. */
  ghost predicate HasParent(f: Function, stack: seq<Frame>, post: seq<nat>, k: nat)
    requires k < |post|
  {
    || (exists j :: k < j < |post| && post[j] < |f.blocks| && post[k] in f.blocks[post[j]].succs)
    || (exists i :: 0 <= i < |stack| && stack[i].block < |f.blocks| && post[k] in f.blocks[stack[i].block].succs)
  }

  /** Only the entry has no parent, and it is done last. */
  ghost predicate Parents(f: Function, stack: seq<Frame>, post: seq<nat>) {
    && (forall k :: 0 <= k < |post| && (stack != [] || k < |post| - 1) ==> HasParent(f, stack, post, k))
    && (stack == [] ==> post != [] && post[|post| - 1] == 0)
  }

  /** The top frame has tried one more successor. */
  function Advanced(stack: seq<Frame>): (r: seq<Frame>)
    requires stack != []
    ensures Blocks(r) == Blocks(stack)
  {
    var n := |stack| - 1;
    stack[n := Frame(stack[n].block, stack[n].pos + 1)]
  }

  ghost function Remaining(f: Function, stack: seq<Frame>): int {
    if stack == [] || stack[|stack| - 1].block >= |f.blocks| then 0
    else |f.blocks[stack[|stack| - 1].block].succs| - stack[|stack| - 1].pos
  }

  lemma {:induction false} SameParents(f: Function, stack: seq<Frame>, stack': seq<Frame>, post: seq<nat>)
    requires Parents(f, stack, post) && stack != [] && Blocks(stack) <= Blocks(stack')
    ensures Parents(f, stack', post)
  {
    forall k | 0 <= k < |post|
      ensures HasParent(f, stack', post, k)
    {
      assert HasParent(f, stack, post, k);
      if i :| 0 <= i < |stack| && stack[i].block < |f.blocks| && post[k] in f.blocks[stack[i].block].succs {
        assert Blocks(stack')[i] == Blocks(stack)[i];
      }
    }
  }

  lemma {:induction false} AdvancedSpine(f: Function, stack: seq<Frame>)
    requires Spine(f, stack) && stack != [] && stack[|stack| - 1].pos < |f.blocks[stack[|stack| - 1].block].succs|
    ensures Spine(f, Advanced(stack))
  {
    var stack' := Advanced(stack);
    forall i | 0 <= i < |stack|
      ensures stack'[i].block == stack[i].block
    {
      assert Blocks(stack')[i] == Blocks(stack)[i];
    }
  }

  /** The successor just tried had been seen, or is seen now. */
  lemma {:induction false} AdvancedExplored(f: Function, seen: set<nat>, seen': set<nat>, stack: seq<Frame>,
                                            post: seq<nat>)
    requires Explored(f, seen, stack, post) && Spine(f, stack) && seen <= seen' && stack != []
    requires var top := stack[|stack| - 1];
      top.pos < |f.blocks[top.block].succs|
      && (f.blocks[top.block].succs[top.pos] < |f.blocks| ==> f.blocks[top.block].succs[top.pos] in seen')
    ensures Explored(f, seen', Advanced(stack), post)
  {
  }

  lemma {:induction false} SkipKeeps(f: Function, seen: set<nat>, stack: seq<Frame>, post: seq<nat>)
    requires Searching(f, seen, stack, post) && stack != []
    requires var top := stack[|stack| - 1];
      top.block < |f.blocks| && top.pos < |f.blocks[top.block].succs|
      && (f.blocks[top.block].succs[top.pos] < |f.blocks| ==> f.blocks[top.block].succs[top.pos] in seen)
    ensures Searching(f, seen, Advanced(stack), post) && Remaining(f, Advanced(stack)) < Remaining(f, stack)
  {
    hide Members, Parents, Explored;
    AdvancedSpine(f, stack);
    AdvancedExplored(f, seen, seen, stack, post);
    SameParents(f, stack, Advanced(stack), post);
    SameMembers(f, seen, stack, Advanced(stack), post);
  }

  lemma {:induction false} SameMembers(f: Function, seen: set<nat>, stack: seq<Frame>, stack': seq<Frame>,
                                       post: seq<nat>)
    requires Members(f, seen, stack, post) && Blocks(stack) == Blocks(stack')
    ensures Members(f, seen, stack', post)
  {
  }

  lemma {:induction false} EnterKeeps(f: Function, seen: set<nat>, stack: seq<Frame>, post: seq<nat>, next: nat)
    requires Searching(f, seen, stack, post) && stack != [] && next < |f.blocks| && next !in seen
    requires var top := stack[|stack| - 1];
      top.block < |f.blocks| && top.pos < |f.blocks[top.block].succs| && f.blocks[top.block].succs[top.pos] == next
    ensures Searching(f, seen + {next}, Advanced(stack) + [Frame(next, 0)], post)
  {
    hide Members, Parents, Explored, Spine;
    var stack' := Advanced(stack);
    AdvancedSpine(f, stack);
    AdvancedExplored(f, seen, seen + {next}, stack, post);
    SameMembers(f, seen, stack, stack', post);
    PushMembers(f, seen, stack', post, next);
    assert Blocks(stack' + [Frame(next, 0)]) == Blocks(stack') + [next];
    SameParents(f, stack, stack' + [Frame(next, 0)], post);
    PushSpine(f, seen + {next}, stack', post, next);
  }

  lemma {:induction false} PushSpine(f: Function, seen: set<nat>, stack: seq<Frame>, post: seq<nat>, next: nat)
    requires Spine(f, stack) && Explored(f, seen, stack, post) && stack != [] && next < |f.blocks|
    requires var top := stack[|stack| - 1]; next in f.blocks[top.block].succs
    ensures Spine(f, stack + [Frame(next, 0)]) && Explored(f, seen, stack + [Frame(next, 0)], post)
  {
  }

  lemma {:induction false} PushMembers(f: Function, seen: set<nat>, stack: seq<Frame>, post: seq<nat>, next: nat)
    requires Members(f, seen, stack, post) && next < |f.blocks| && next !in seen
    ensures Members(f, seen + {next}, stack + [Frame(next, 0)], post)
  {
    var a, b := Blocks(stack) + post, Blocks(stack + [Frame(next, 0)]) + post;
    assert Blocks(stack + [Frame(next, 0)]) == Blocks(stack) + [next];
    forall i, j | 0 <= i < j < |b|
      ensures b[i] != b[j]
    {
      var n := |stack|;
      var i', j' := if i > n then i - 1 else i, if j > n then j - 1 else j;
      assert i != n ==> b[i] == a[i'];
      assert j != n ==> b[j] == a[j'];
    }
    forall x
      ensures x in seen + {next} <==> x in b
    {
      assert x in a <==> x in Blocks(stack) || x in post;
    }
  }

  lemma {:induction false} PopKeeps(f: Function, seen: set<nat>, stack: seq<Frame>, post: seq<nat>)
    requires Searching(f, seen, stack, post) && stack != []
    requires var top := stack[|stack| - 1]; top.pos == |f.blocks[top.block].succs|
    ensures var top := stack[|stack| - 1]; Searching(f, seen, stack[..|stack| - 1], post + [top.block])
  {
    var n := |stack| - 1;
    var rest, done, post' := stack[..n], stack[n].block, post + [stack[n].block];
    assert Blocks(stack) == Blocks(rest) + [done];
    PopMembers(f, seen, stack, post);
    forall b, s | b in post' && b < |f.blocks| && s in f.blocks[b].succs && s < |f.blocks|
      ensures s in seen
    {
      if b !in post {
        var k :| 0 <= k < |f.blocks[b].succs| && f.blocks[b].succs[k] == s;
      }
    }
    forall k | 0 <= k < |post'| && (rest != [] || k < |post'| - 1)
      ensures HasParent(f, rest, post', k)
    {
      if k < |post| {
        OldParent(f, stack, post, k);
      } else {
        assert rest[n - 1] == stack[n - 1];
      }
    }
  }

  /** The parent of a done block stays below it or becomes done after it. */
  lemma {:induction false} OldParent(f: Function, stack: seq<Frame>, post: seq<nat>, k: nat)
    requires stack != [] && k < |post| && HasParent(f, stack, post, k)
    ensures var n := |stack| - 1; HasParent(f, stack[..n], post + [stack[n].block], k)
  {
    var n := |stack| - 1;
    var rest, post' := stack[..n], post + [stack[n].block];
    if j :| k < j < |post| && post[j] < |f.blocks| && post[k] in f.blocks[post[j]].succs {
      assert post'[j] == post[j] && post'[k] == post[k];
    } else {
      var i :| 0 <= i < |stack| && stack[i].block < |f.blocks| && post[k] in f.blocks[stack[i].block].succs;
      if i < n {
        assert rest[i] == stack[i];
      } else {
        assert post'[|post|] == stack[n].block && post'[k] == post[k];
      }
    }
  }

  lemma {:induction false} PopMembers(f: Function, seen: set<nat>, stack: seq<Frame>, post: seq<nat>)
    requires Members(f, seen, stack, post) && stack != []
    ensures Members(f, seen, stack[..|stack| - 1], post + [stack[|stack| - 1].block])
  {
    var n := |stack| - 1;
    var a, b := Blocks(stack) + post, Blocks(stack[..n]) + (post + [stack[n].block]);
    forall i, j | 0 <= i < j < |b|
      ensures b[i] != b[j]
    {
      var i' := if i < n then i else if i == |b| - 1 then n else i + 1;
      var j' := if j < n then j else if j == |b| - 1 then n else j + 1;
      assert b[i] == a[i'] && b[j] == a[j'] && i' != j';
    }
    forall x
      ensures x in seen <==> x in b
    {
      assert Blocks(stack) == Blocks(stack[..n]) + [stack[n].block];
    }
  }

  lemma {:induction false} ReversedLists(f: Function, seen: set<nat>, post: seq<nat>)
    requires Members(f, seen, [], post)
    ensures ListsBlocks(f, Reversed<nat>(post))
  {
    var order, n := Reversed<nat>(post), |post|;
    assert Blocks([]) + post == post;
    forall p | 0 <= p < n
      ensures order[p] < |f.blocks|
    {
      assert order[p] in post;
    }
    forall i, j | 0 <= i < j < n
      ensures order[i] != order[j]
    {
      assert post[n - 1 - j] != post[n - 1 - i];
    }
  }

  lemma {:induction false} ReversedMembers(post: seq<nat>, s: nat)
    requires s in post
    ensures s in Reversed<nat>(post)
  {
    var k :| 0 <= k < |post| && post[k] == s;
    assert Reversed<nat>(post)[|post| - 1 - k] == s;
  }

  lemma {:induction false} ReversedClosed(f: Function, seen: set<nat>, post: seq<nat>, p: nat, s: nat)
    requires Members(f, seen, [], post) && Explored(f, seen, [], post)
    requires p < |post| && Reversed<nat>(post)[p] < |f.blocks| && s in f.blocks[Reversed<nat>(post)[p]].succs
    requires s < |f.blocks|
    ensures s in Reversed<nat>(post)
  {
    assert Blocks([]) + post == post;
    assert Reversed<nat>(post)[p] in post;
    ReversedMembers(post, s);
  }

  lemma {:induction false} ReversedParent(f: Function, post: seq<nat>, p: nat)
    requires Parents(f, [], post) && 0 < p < |post|
    requires forall q :: 0 <= q < |post| ==> Reversed<nat>(post)[q] < |f.blocks|
    ensures HasEarlierPred(f, Reversed<nat>(post), p)
  {
    var order, n := Reversed<nat>(post), |post|;
    var k := n - 1 - p;
    assert HasParent(f, [], post, k);
    var j :| k < j < n && post[j] < |f.blocks| && post[k] in f.blocks[post[j]].succs;
    assert order[n - 1 - j] == post[j];
  }

  ghost predicate ListedAreSound(f: Function, order: seq<nat>) {
    forall p :: 0 <= p < |order| && order[p] < |f.blocks| ==> WellFormedBlock(f.blocks[order[p]])
  }

  /** When the search is over, the reversed list is a layout order. */
  lemma {:induction false} ReversedIsOrder(f: Function, seen: set<nat>, post: seq<nat>)
    requires Searching(f, seen, [], post) && ListedAreSound(f, Reversed<nat>(post))
    ensures ValidOrder(f, Reversed<nat>(post))
  {
    hide Members, Explored, HasParent, HasEarlierPred, WellFormedBlock;
    ReversedLists(f, seen, post);
    var order := Reversed<nat>(post);
    forall p, s | 0 <= p < |order| && s in f.blocks[order[p]].succs && s < |f.blocks|
      ensures s in order
    {
      ReversedClosed(f, seen, post, p, s);
    }
    forall p | 0 < p < |order|
      ensures HasEarlierPred(f, order, p)
    {
      ReversedParent(f, post, p);
    }
  }

  // ---- forward edges go forward ----

  /** A path of control flow, one block after the other. */
  ghost predicate Joined(f: Function, path: seq<nat>) {
    && path != [] && (forall i :: 0 <= i < |path| ==> path[i] < |f.blocks|)
    && forall i :: 0 < i < |path| ==> path[i] in f.blocks[path[i - 1]].succs
  }

  ghost predicate Reaches(f: Function, a: nat, b: nat) {
    exists path :: Joined(f, path) && path[0] == a && path[|path| - 1] == b
  }

  /** A successor of a done block was done before it, or leads back to it. */
  ghost predicate DoneBefore(f: Function, post: seq<nat>, k: nat, s: nat)
    requires k < |post|
  {
    s in post[..k] || Reaches(f, s, post[k])
  }

  ghost predicate Postordered(f: Function, post: seq<nat>) {
    forall k, s :: 0 <= k < |post| && post[k] < |f.blocks| && s in f.blocks[post[k]].succs && s < |f.blocks|
                   ==> DoneBefore(f, post, k, s)
  }

  lemma {:induction false} StackJoins(f: Function, stack: seq<Frame>, i: nat)
    requires Spine(f, stack) && i < |stack|
    ensures Reaches(f, stack[i].block, stack[|stack| - 1].block)
  {
    var path := Blocks(stack)[i..];
    forall k | 0 < k < |path|
      ensures path[k] in f.blocks[path[k - 1]].succs
    {
      assert path[k] == stack[i + k].block && path[k - 1] == stack[i + k - 1].block;
    }
    assert Joined(f, path);
  }

  lemma {:induction false} PopPostordered(f: Function, seen: set<nat>, stack: seq<Frame>, post: seq<nat>)
    requires Searching(f, seen, stack, post) && Postordered(f, post) && stack != []
    requires var top := stack[|stack| - 1]; top.pos == |f.blocks[top.block].succs|
    ensures Postordered(f, post + [stack[|stack| - 1].block])
  {
    hide Parents, Reaches;
    var top := stack[|stack| - 1];
    var post' := post + [top.block];
    forall k, s | 0 <= k < |post'| && post'[k] < |f.blocks| && s in f.blocks[post'[k]].succs && s < |f.blocks|
      ensures DoneBefore(f, post', k, s)
    {
      if k < |post| {
        assert DoneBefore(f, post, k, s);
        assert post'[..k] == post[..k];
      } else {
        var j :| 0 <= j < |f.blocks[top.block].succs| && f.blocks[top.block].succs[j] == s;
        assert s in seen && s in Blocks(stack) + post;
        assert post'[..k] == post;
        if s !in post {
          var i :| 0 <= i < |stack| && Blocks(stack)[i] == s;
          StackJoins(f, stack, i);
        }
      }
    }
  }

  /** Every edge of the flow goes to a later block of the order, unless it closes a cycle. */
  ghost predicate ForwardUnlessCycle(f: Function, order: seq<nat>) {
    forall p, s :: 0 <= p < |order| && order[p] < |f.blocks| && s in f.blocks[order[p]].succs && s < |f.blocks|
                   ==> s in order[p + 1..] || Reaches(f, s, order[p])
  }

  lemma {:induction false} ReversedIsForward(f: Function, post: seq<nat>)
    requires Postordered(f, post)
    ensures ForwardUnlessCycle(f, Reversed<nat>(post))
  {
    hide Reaches;
    var order, n := Reversed<nat>(post), |post|;
    forall p, s | 0 <= p < n && order[p] < |f.blocks| && s in f.blocks[order[p]].succs && s < |f.blocks|
      ensures s in order[p + 1..] || Reaches(f, s, order[p])
    {
      var k := n - 1 - p;
      assert DoneBefore(f, post, k, s);
      if j :| 0 <= j < k && post[j] == s {
        assert order[p + 1..][n - 1 - j - (p + 1)] == s;
      }
    }
  }

  /** The search, with a stack of blocks and the number of their successors already tried. */
  method Search(f: Function) returns (post: seq<nat>)
    requires f.blocks != []
    ensures exists seen: set<nat> :: Searching(f, seen, [], post)
    ensures Postordered(f, post)
  {
    hide Searching, Remaining, Below, DoneBefore;
    var n := |f.blocks|;
    var visited := new bool[n](_ => false);
    var stack: seq<Frame> := [Frame(0, 0)];
    post := [];
    visited[0] := true;
    ghost var seen: set<nat> := {0};
    SearchStarts(f);
    while stack != []
      modifies visited
      invariant visited.Length == n && Searching(f, seen, stack, post) && Postordered(f, post)
      invariant forall b :: 0 <= b < n ==> (visited[b] <==> b in seen)
      decreases Below(n) - seen, |stack|, Remaining(f, stack)
    {
      TopIsSound(f, seen, stack, post);
      var top := stack[|stack| - 1];
      var succs := f.blocks[top.block].succs;
      if top.pos < |succs| {
        var next := succs[top.pos];
        ghost var before := stack;
        stack := stack[|stack| - 1 := Frame(top.block, top.pos + 1)];
        if next < n && !visited[next] {
          EnterKeeps(f, seen, before, post, next);
          visited[next] := true;
          stack := stack + [Frame(next, 0)];
          assert next in Below(n) - seen;
          seen := seen + {next};
        } else {
          SkipKeeps(f, seen, before, post);
        }
      } else {
        PopKeeps(f, seen, stack, post);
        PopPostordered(f, seen, stack, post);
        stack := stack[..|stack| - 1];
        post := post + [top.block];
      }
    }
  }

  method ReversePostorder(f: Function) returns (order: seq<nat>)
    ensures f.blocks == [] ==> order == []
    ensures f.blocks != [] && ListedAreSound(f, order) ==> ValidOrder(f, order)
    ensures ForwardUnlessCycle(f, order)
  {
    hide Searching, ValidOrder, ListedAreSound, Reversed, Postordered;
    if f.blocks == [] {
      return [];
    }
    var post := Search(f);
    order := Reversed<nat>(post);
    ReversedIsForward(f, post);
    if ListedAreSound(f, order) {
      ghost var seen: set<nat> :| Searching(f, seen, [], post);
      ReversedIsOrder(f, seen, post);
    }
  }

  lemma {:induction false} SearchStarts(f: Function)
    requires f.blocks != []
    ensures Searching(f, {0}, [Frame(0, 0)], [])
  {
    assert Blocks([Frame(0, 0)]) == [0];
  }

  lemma {:induction false} TopIsSound(f: Function, seen: set<nat>, stack: seq<Frame>, post: seq<nat>)
    requires Searching(f, seen, stack, post) && stack != []
    ensures var top := stack[|stack| - 1];
      top.block < |f.blocks| && top.pos <= |f.blocks[top.block].succs| && Remaining(f, stack) >= 0
  {
    hide Members, Explored, Parents;
  }

  /** A walk through the control flow from the entry. */
  ghost predicate IsWalk(f: Function, path: seq<nat>) {
    Joined(f, path) && path[0] == 0
  }

  /** The order lists exactly the blocks that can be reached from the entry. */
  lemma {:induction false} ListedIsReachable(f: Function, order: seq<nat>, p: nat) returns (path: seq<nat>)
    requires ValidOrder(f, order) && p < |order|
    ensures IsWalk(f, path) && path[|path| - 1] == order[p]
    decreases p
  {
    if p == 0 {
      path := [0];
    } else {
      assert HasEarlierPred(f, order, p);
      var q :| 0 <= q < p && order[p] in f.blocks[order[q]].succs;
      path := ListedIsReachable(f, order, q);
      path := path + [order[p]];
    }
  }

  lemma {:induction false} ReachableIsListed(f: Function, order: seq<nat>, path: seq<nat>)
    requires ValidOrder(f, order) && IsWalk(f, path)
    ensures path[|path| - 1] in order
    decreases |path|
  {
    if |path| > 1 {
      var front := path[..|path| - 1];
      ReachableIsListed(f, order, front);
      var p :| 0 <= p < |order| && order[p] == front[|front| - 1];
      assert path[|path| - 1] in f.blocks[path[|path| - 2]].succs;
    }
  }
}
