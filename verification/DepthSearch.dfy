/** The search in depth for the targets of jumps back (native/bap_jit.cpp:1135-1156). */
module DepthSearch {
  import opened BlockGraph

  /** A search in depth under way: a mark for each block, 1 for what is on the stack and 2 for what is done with, and
      the stack with how many of the targets of each were looked at. The rest is for the proof: from where each block
      was reached, and when it was done with. */
  datatype Search = Search(
    visit: seq<int>, stack: seq<(nat, nat)>, targets: seq<nat>,
    depth: seq<nat>, parent: seq<nat>, rank: seq<nat>, done: nat)

  /** What is on the stack is what has a mark of 1, each once. */
  ghost predicate Marked(blocks: seq<Block>, search: Search)
    requires WellFormed(blocks)
  {
    && |search.visit| == |search.rank| == |search.parent| == |search.depth| == |blocks|
    && (forall b | 0 <= b < |blocks| :: 0 <= search.visit[b] <= 2)
    && |blocks| > 0 && search.visit[0] != 0
    && (forall i | 0 <= i < |search.stack| ::
          var b := search.stack[i].0;
          b < |blocks| && search.visit[b] == 1 && search.depth[b] == i && search.stack[i].1 <= |FastTargets(blocks, b)|)
    && (forall b | 0 <= b < |blocks| && search.visit[b] == 1 :: search.depth[b] < |search.stack|)
    && (forall b, c {:trigger search.depth[b], search.depth[c]} |
          0 <= b < c < |blocks| && search.visit[b] == search.visit[c] == 1 :: search.depth[b] != search.depth[c])
    && (forall t <- search.targets :: t < |blocks| && search.visit[t] != 0)
  }

  /** How `b` was reached: from what is on the stack or was done with after it. */
  ghost predicate Reached(blocks: seq<Block>, search: Search, b: nat)
    requires WellFormed(blocks) && Marked(blocks, search) && b < |blocks|
  {
    var p := search.parent[b];
    && p < |blocks| && b in FastTargets(blocks, p) && search.visit[p] != 0
    && (search.visit[b] == 1 ==> search.visit[p] == 1 && search.depth[p] < search.depth[b])
    && (search.visit[p] == 2 ==> search.rank[b] < search.rank[p])
  }

  ghost predicate Tree(blocks: seq<Block>, search: Search)
    requires WellFormed(blocks) && Marked(blocks, search)
  {
    && (forall b {:trigger Reached(blocks, search, b)} | 0 < b < |blocks| && search.visit[b] != 0 ::
        Reached(blocks, search, b))
  }

  /** An edge from what is done with: to a target, or to what was done with before `rank`. */
  ghost predicate Before(search: Search, t: nat, rank: nat) {
    || t in search.targets
    || (t < |search.visit| && t < |search.rank| && search.visit[t] == 2 && search.rank[t] < rank)
  }

  ghost predicate DoneWith(blocks: seq<Block>, search: Search, b: nat)
    requires WellFormed(blocks) && Marked(blocks, search) && b < |blocks|
  {
    && search.rank[b] < search.done
    && forall t <- FastTargets(blocks, b) :: Before(search, t, search.rank[b])
  }

  ghost predicate LookedAt(blocks: seq<Block>, search: Search, i: nat)
    requires WellFormed(blocks) && Marked(blocks, search) && i < |search.stack|
  {
    Looked(search, FastTargets(blocks, search.stack[i].0), search.stack[i].1, i)
  }

  /** Whether the first of some targets are targets of jumps back, were done with, or are next on the stack. */
  ghost predicate Looked(search: Search, fast: seq<nat>, count: nat, i: nat) {
    && count <= |fast|
    && forall k | 0 <= k < count ::
         Before(search, fast[k], search.done) || (i + 1 < |search.stack| && search.stack[i + 1].0 == fast[k])
  }

  ghost predicate Edges(blocks: seq<Block>, search: Search)
    requires WellFormed(blocks) && Marked(blocks, search)
  {
    && (forall b {:trigger DoneWith(blocks, search, b)} | 0 <= b < |blocks| && search.visit[b] == 2 ::
        DoneWith(blocks, search, b))
    && (forall i | 0 <= i < |search.stack| :: LookedAt(blocks, search, i))
  }

  ghost predicate Searching(blocks: seq<Block>, search: Search)
    requires WellFormed(blocks)
  {
    Marked(blocks, search) && Tree(blocks, search) && Edges(blocks, search)
  }

  ghost function Unseen(search: Search): set<nat> { set b | 0 <= b < |search.visit| && search.visit[b] == 0 }

  /** The next target of the top of the stack: one on the stack is the target of a jump back, one that was never seen
      goes on the stack, and one that was done with is left. */
  function Look(blocks: seq<Block>, search: Search): Search
    requires WellFormed(blocks) && search.stack != [] && |search.visit| == |search.parent| == |search.depth| == |blocks|
    requires search.stack[|search.stack| - 1].0 < |blocks|
    requires search.stack[|search.stack| - 1].1 < |FastTargets(blocks, search.stack[|search.stack| - 1].0)|
  {
    var top := |search.stack| - 1;
    var (block, at) := search.stack[top];
    var successor := FastTargets(blocks, block)[at];
    var stack := search.stack[top := (block, at + 1)];
    if search.visit[successor] == 1 then search.(stack := stack, targets := search.targets + [successor])
    else if search.visit[successor] == 0 then
      search.(stack := stack + [(successor, 0)], visit := search.visit[successor := 1],
              depth := search.depth[successor := top + 1], parent := search.parent[successor := block])
    else search.(stack := stack)
  }

  /** Whether the top of the stack has a target to look at. */
  ghost predicate HasNext(blocks: seq<Block>, search: Search)
    requires WellFormed(blocks) && Marked(blocks, search)
  {
    search.stack != [] && var (block, at) := search.stack[|search.stack| - 1]; at < |FastTargets(blocks, block)|
  }

  lemma LookMarked(blocks: seq<Block>, search: Search)
    requires WellFormed(blocks) && Marked(blocks, search) && HasNext(blocks, search)
    ensures Marked(blocks, Look(blocks, search))
  {
    var next := Look(blocks, search);
    forall i | 0 <= i < |next.stack|
      ensures var b := next.stack[i].0;
              b < |blocks| && next.visit[b] == 1 && next.depth[b] == i && next.stack[i].1 <= |FastTargets(blocks, b)| {
      if i < |search.stack| {
        assert next.stack[i].0 == search.stack[i].0;
      }
    }
  }

  lemma LookSees(blocks: seq<Block>, search: Search)
    requires WellFormed(blocks) && Marked(blocks, search) && HasNext(blocks, search)
    ensures Look(blocks, search).visit != search.visit ==> Unseen(Look(blocks, search)) < Unseen(search)
  {
    var (block, at) := search.stack[|search.stack| - 1];
    var successor := FastTargets(blocks, block)[at];
    if search.visit[successor] == 0 {
      assert successor in Unseen(search) && successor !in Unseen(Look(blocks, search));
    }
  }

  lemma LookTree(blocks: seq<Block>, search: Search)
    requires WellFormed(blocks) && Searching(blocks, search) && HasNext(blocks, search)
             && Marked(blocks, Look(blocks, search))
    ensures Tree(blocks, Look(blocks, search))
  {
    var next := Look(blocks, search);
    forall b | 0 < b < |blocks| && next.visit[b] != 0 ensures Reached(blocks, next, b) {
      if search.visit[b] != 0 {
        assert Reached(blocks, search, b);
      }
    }
  }

  lemma LookEdges(blocks: seq<Block>, search: Search)
    requires WellFormed(blocks) && Searching(blocks, search) && HasNext(blocks, search)
             && Marked(blocks, Look(blocks, search))
    ensures Edges(blocks, Look(blocks, search))
  {
    var top := |search.stack| - 1;
    var next := Look(blocks, search);
    LookBefore(blocks, search);
    forall b | 0 <= b < |blocks| && next.visit[b] == 2 ensures DoneWith(blocks, next, b) {
      assert DoneWith(blocks, search, b);
    }
    forall i | 0 <= i < |next.stack| ensures LookedAt(blocks, next, i) {
      if i < top {
        assert LookedAt(blocks, search, i);
        assert next.stack[i + 1].0 == search.stack[i + 1].0;
      } else if i == top {
        LookAtTop(blocks, search);
      }
    }
  }

  lemma LookBefore(blocks: seq<Block>, search: Search)
    requires WellFormed(blocks) && Marked(blocks, search) && HasNext(blocks, search)
    ensures forall t: nat, rank: nat :: Before(search, t, rank) ==> Before(Look(blocks, search), t, rank)
  {
  }

  lemma LookAtTop(blocks: seq<Block>, search: Search)
    requires WellFormed(blocks) && Searching(blocks, search) && HasNext(blocks, search)
             && Marked(blocks, Look(blocks, search))
    ensures LookedAt(blocks, Look(blocks, search), |search.stack| - 1)
  {
    var top := |search.stack| - 1;
    var (block, at) := search.stack[top];
    var t := FastTargets(blocks, block)[at];
    assert LookedAt(blocks, search, top) && (search.visit[t] == 2 ==> DoneWith(blocks, search, t));
    LookTop(blocks, search, block, at, t);
  }

  /** Of the top of the stack, the target that is looked at is a target of a jump back, was done with, or is next. */
  lemma LookTop(blocks: seq<Block>, search: Search, block: nat, at: nat, t: nat)
    requires WellFormed(blocks) && |search.visit| == |search.rank| == |search.parent| == |search.depth| == |blocks|
    requires |search.stack| > 0 && search.stack[|search.stack| - 1] == (block, at) && block < |blocks|
    requires at < |FastTargets(blocks, block)| && FastTargets(blocks, block)[at] == t
    requires 0 <= search.visit[t] <= 2 && (search.visit[t] == 2 ==> search.rank[t] < search.done)
    requires Looked(search, FastTargets(blocks, block), at, |search.stack| - 1)
    ensures Looked(Look(blocks, search), FastTargets(blocks, block), at + 1, |search.stack| - 1)
  {
    var top, next := |search.stack| - 1, Look(blocks, search);
    assert Before(next, t, next.done) || (top + 1 < |next.stack| && next.stack[top + 1].0 == t);
    OneMoreLooked(search, next, FastTargets(blocks, block), at, top);
  }

  lemma OneMoreLooked(search: Search, next: Search, fast: seq<nat>, at: nat, top: nat)
    requires at < |fast| && |search.stack| == top + 1 && Looked(search, fast, at, top)
    requires forall t: nat | Before(search, t, search.done) :: Before(next, t, next.done)
    requires Before(next, fast[at], next.done) || (top + 1 < |next.stack| && next.stack[top + 1].0 == fast[at])
    ensures Looked(next, fast, at + 1, top)
  {
  }

  /** What is done with once all of its targets were looked at. */
  function Finish(search: Search): Search
    requires search.stack != [] && search.stack[|search.stack| - 1].0 < |search.visit| == |search.rank|
  {
    var top := |search.stack| - 1;
    var block := search.stack[top].0;
    search.(stack := search.stack[..top], visit := search.visit[block := 2],
            rank := search.rank[block := search.done], done := search.done + 1)
  }

  lemma FinishMarked(blocks: seq<Block>, search: Search)
    requires WellFormed(blocks) && Marked(blocks, search) && search.stack != []
    ensures Marked(blocks, Finish(search))
    ensures Unseen(Finish(search)) == Unseen(search)
  {
  }

  lemma FinishTree(blocks: seq<Block>, search: Search)
    requires WellFormed(blocks) && Searching(blocks, search) && search.stack != [] && !HasNext(blocks, search)
             && Marked(blocks, Finish(search))
    ensures Tree(blocks, Finish(search))
  {
    var top := |search.stack| - 1;
    var block := search.stack[top].0;
    var next := Finish(search);
    forall b | 0 < b < |blocks| && next.visit[b] != 0 ensures Reached(blocks, next, b) {
      assert Reached(blocks, search, b);
      if search.visit[b] == 2 {
        assert DoneWith(blocks, search, b);
      }
    }
  }

  lemma FinishBefore(blocks: seq<Block>, search: Search)
    requires WellFormed(blocks) && Marked(blocks, search) && search.stack != []
    ensures forall t: nat, rank: nat :: Before(search, t, rank) ==> Before(Finish(search), t, rank)
    ensures Before(Finish(search), search.stack[|search.stack| - 1].0, Finish(search).done)
  {
  }

  lemma FinishEdges(blocks: seq<Block>, search: Search)
    requires WellFormed(blocks) && Searching(blocks, search) && search.stack != [] && !HasNext(blocks, search)
             && Marked(blocks, Finish(search))
    ensures Edges(blocks, Finish(search))
  {
    var top := |search.stack| - 1;
    var block := search.stack[top].0;
    var next := Finish(search);
    FinishBefore(blocks, search);
    forall b | 0 <= b < |blocks| && next.visit[b] == 2 ensures DoneWith(blocks, next, b) {
      if b == block {
        assert LookedAt(blocks, search, top);
      } else {
        assert DoneWith(blocks, search, b);
      }
    }
    forall i | 0 <= i < |next.stack| ensures LookedAt(blocks, next, i) {
      assert LookedAt(blocks, search, i);
    }
  }

  ghost function Left(blocks: seq<Block>, search: Search): int
    requires WellFormed(blocks) && Marked(blocks, search)
  {
    if search.stack == [] then 0 else var (block, at) := search.stack[|search.stack| - 1]; |FastTargets(blocks, block)| - at
  }

  lemma LookKeeps(blocks: seq<Block>, search: Search)
    requires WellFormed(blocks) && Searching(blocks, search) && HasNext(blocks, search)
    ensures Searching(blocks, Look(blocks, search))
    ensures var next := Look(blocks, search);
            || Unseen(next) < Unseen(search)
            || (next.visit == search.visit && |next.stack| == |search.stack| && Left(blocks, next) < Left(blocks, search))
  {
    LookMarked(blocks, search);
    LookSees(blocks, search);
    LookTree(blocks, search);
    LookEdges(blocks, search);
  }

  lemma FinishKeeps(blocks: seq<Block>, search: Search)
    requires WellFormed(blocks) && Searching(blocks, search) && search.stack != [] && !HasNext(blocks, search)
    ensures Searching(blocks, Finish(search)) && Unseen(Finish(search)) == Unseen(search)
  {
    FinishMarked(blocks, search);
    FinishTree(blocks, search);
    FinishEdges(blocks, search);
  }

  /** A jump from `p` to `t` that was back when it was looked at: `t` was on the stack, no higher than `p`. */
  ghost predicate JumpsBack(blocks: seq<Block>, search: Search, p: nat, t: nat)
    requires WellFormed(blocks) && Marked(blocks, search)
  {
    && p < |blocks| && t < |blocks| && t in FastTargets(blocks, p) && search.visit[p] != 0 && search.visit[t] != 0
    && (search.visit[p] == 1 ==> search.visit[t] == 1 && search.depth[t] <= search.depth[p])
    && (search.visit[p] == 2 ==> search.rank[p] < search.done && (search.visit[t] == 2 ==> search.rank[p] <= search.rank[t]))
  }

  ghost predicate AllBack(blocks: seq<Block>, search: Search)
    requires WellFormed(blocks) && Marked(blocks, search)
  {
    forall t <- search.targets :: exists p: nat :: JumpsBack(blocks, search, p, t)
  }

  lemma LookBack(blocks: seq<Block>, search: Search)
    requires WellFormed(blocks) && Marked(blocks, search) && HasNext(blocks, search) && AllBack(blocks, search)
             && Marked(blocks, Look(blocks, search))
    ensures AllBack(blocks, Look(blocks, search))
  {
    var next := Look(blocks, search);
    forall t <- next.targets ensures exists p: nat :: JumpsBack(blocks, next, p, t) {
      if t in search.targets {
        var p: nat :| JumpsBack(blocks, search, p, t);
        assert JumpsBack(blocks, next, p, t);
      } else {
        assert JumpsBack(blocks, next, search.stack[|search.stack| - 1].0, t);
      }
    }
  }

  lemma FinishBack(blocks: seq<Block>, search: Search)
    requires WellFormed(blocks) && Marked(blocks, search) && search.stack != [] && AllBack(blocks, search)
             && Marked(blocks, Finish(search))
    ensures AllBack(blocks, Finish(search))
  {
    var next, block := Finish(search), search.stack[|search.stack| - 1].0;
    forall t <- next.targets ensures exists p: nat :: JumpsBack(blocks, next, p, t) {
      var p: nat :| JumpsBack(blocks, search, p, t);
      assert search.depth[block] == |search.stack| - 1;
      assert search.visit[p] == 1 && t == block ==> p == block;
      assert JumpsBack(blocks, next, p, t);
    }
  }

  /** The targets of the jumps back, by a search in depth from the start. */
  method FindTargets(blocks: seq<Block>) returns (targets: seq<nat>, ghost reached: set<nat>, ghost rank: seq<nat>)
    requires WellFormed(blocks)
    ensures Certificate(blocks, reached, (set t <- targets), rank)
    ensures AreTargets(blocks, (set t <- targets))
  {
    var zeros := seq(|blocks|, _ => 0);
    var search := Search(zeros[0 := 1], [(0, 0)], [], zeros, zeros, zeros, 0);
    SearchStarts(blocks, search);
    while search.stack != []
      invariant Searching(blocks, search) && AllBack(blocks, search)
      decreases Unseen(search), |search.stack|, Left(blocks, search)
    {
      var (block, at) := search.stack[|search.stack| - 1];
      if at < |FastTargets(blocks, block)| {
        LookKeeps(blocks, search);
        LookBack(blocks, search);
        search := Look(blocks, search);
      } else {
        FinishKeeps(blocks, search);
        FinishBack(blocks, search);
        search := Finish(search);
      }
    }
    targets := search.targets;
    reached := set b | 0 <= b < |blocks| && search.visit[b] == 2;
    rank := search.rank;
    SearchEnds(blocks, search);
    EndsBack(blocks, search);
  }

  lemma SearchStarts(blocks: seq<Block>, search: Search)
    requires WellFormed(blocks)
    requires search == var zeros := seq(|blocks|, _ => 0); Search(zeros[0 := 1], [(0, 0)], [], zeros, zeros, zeros, 0)
    ensures Searching(blocks, search)
  {
    assert search.stack[0].0 == 0;
  }

  lemma SearchEnds(blocks: seq<Block>, search: Search)
    requires WellFormed(blocks) && Searching(blocks, search) && search.stack == []
    ensures Certificate(blocks, set b | 0 <= b < |blocks| && search.visit[b] == 2, (set t <- search.targets), search.rank)
  {
    var reached := set b | 0 <= b < |blocks| && search.visit[b] == 2;
    forall b <- reached ensures forall t <- FastTargets(blocks, b) ::
        t in reached && (t in search.targets || search.rank[t] < search.rank[b]) {
      assert DoneWith(blocks, search, b);
      assert forall t <- FastTargets(blocks, b) :: Before(search, t, search.rank[b]);
    }
    forall b <- reached | b != 0 ensures HasParent(blocks, reached, search.rank, b) {
      assert Reached(blocks, search, b);
      assert search.parent[b] in reached;
    }
  }

  lemma EndsBack(blocks: seq<Block>, search: Search)
    requires WellFormed(blocks) && Searching(blocks, search) && search.stack == [] && AllBack(blocks, search)
    ensures AreTargets(blocks, (set t <- search.targets))
  {
    var reached := set b | 0 <= b < |blocks| && search.visit[b] == 2;
    SearchEnds(blocks, search);
    forall t <- search.targets ensures IsBack(blocks, reached, search.rank, t) {
      var p: nat :| JumpsBack(blocks, search, p, t);
      assert p in reached;
    }
  }
}
