/** Graphs of blocks as the budget split sees them (native/bap_jit.cpp:1072-1102), and what a search in depth of one
    says of its paths. */
module BlockGraph {

  /** How a block ends: the `Check` goes on to `go` while the budget isn't zero, and otherwise to `leave`. */
  datatype Term<T> =
    | Return
    | Jump(to: T)
    | Branch(yes: T, no: T)
    | Check(go: T, leave: T)

  /** A block of the graph that comes in; `phi` says that what it does depends on the block it is entered from. */
  datatype Block = Block(phi: bool, term: Term<nat>)

  predicate InRange(term: Term<nat>, size: nat) {
    match term
    case Return => true
    case Jump(to) => to < size
    case Branch(yes, no) => yes < size && no < size
    case Check(go, leave) => go < size && leave < size
  }

  /** Every jump is to a block, and nothing merges values at the entry. */
  ghost predicate WellFormed(blocks: seq<Block>) {
    && |blocks| > 0
    && !blocks[0].phi
    && forall b | 0 <= b < |blocks| :: InRange(blocks[b].term, |blocks|)
  }

  /** Where the fast copy of a block may go: not where its check would have left to. */
  function FastTargets(blocks: seq<Block>, b: nat): (s: seq<nat>)
    requires WellFormed(blocks) && b < |blocks|
    ensures |s| <= 2 && forall k | 0 <= k < |s| :: s[k] < |blocks|
  {
    assert InRange(blocks[b].term, |blocks|);
    match blocks[b].term
    case Return => []
    case Jump(to) => [to]
    case Branch(yes, no) => [yes, no]
    case Check(go, _) => [go]
  }

  // ---------- What a search in depth finds ----------

  /** What a search in depth finds: the blocks it reached, the targets of jumps back, and the order in which it was
      done with each. Every edge goes to a target or to what was done before, and what isn't the entry was reached
      from what was done after. */
  ghost predicate Certificate(blocks: seq<Block>, reached: set<nat>, targets: set<nat>, rank: seq<nat>)
    requires WellFormed(blocks)
  {
    && |rank| == |blocks|
    && 0 in reached
    && (forall b <- reached :: b < |blocks|)
    && targets <= reached
    && (forall b <- reached :: forall t <- FastTargets(blocks, b) ::
          t in reached && (t in targets || rank[t] < rank[b]))
    && (forall b {:trigger HasParent(blocks, reached, rank, b)} | b in reached && b != 0 ::
        HasParent(blocks, reached, rank, b))
  }

  /** Whether there is a jump to `t` from what was done with no later. */
  ghost predicate IsBack(blocks: seq<Block>, reached: set<nat>, rank: seq<nat>, t: nat)
    requires WellFormed(blocks)
  {
    && |rank| == |blocks| && t < |blocks|
    && exists p <- reached :: p < |blocks| && t in FastTargets(blocks, p) && rank[p] <= rank[t]
  }

  /** Whether these are just the targets of the jumps back, in the order that some search is done with blocks. */
  ghost predicate AreTargets(blocks: seq<Block>, targets: set<nat>)
    requires WellFormed(blocks)
  {
    exists reached: set<nat>, rank: seq<nat> ::
      Certificate(blocks, reached, targets, rank) && forall t <- targets :: IsBack(blocks, reached, rank, t)
  }

  ghost predicate HasParent(blocks: seq<Block>, reached: set<nat>, rank: seq<nat>, b: nat)
    requires WellFormed(blocks)
  {
    && |rank| == |blocks| && b < |blocks|
    && exists p <- reached :: p < |blocks| && b in FastTargets(blocks, p) && rank[b] < rank[p]
  }

  // ---------- What the certificate says of paths ----------

  ghost predicate Path(blocks: seq<Block>, reached: set<nat>, path: seq<nat>)
    requires WellFormed(blocks)
  {
    && (forall i | 0 <= i < |path| :: path[i] in reached && path[i] < |blocks|)
    && (forall i | 0 < i < |path| :: path[i] in FastTargets(blocks, path[i - 1]))
  }

  /** Between two guards a path enters no block twice. */
  lemma {:induction false} SegmentsAreSimple(
      blocks: seq<Block>, reached: set<nat>, targets: set<nat>, rank: seq<nat>, path: seq<nat>, i: nat, j: nat)
    requires WellFormed(blocks) && Certificate(blocks, reached, targets, rank)
    requires Path(blocks, reached, path) && forall k | 0 < k < |path| :: path[k] !in targets
    requires i < j < |path|
    ensures rank[path[j]] < rank[path[i]] && path[i] != path[j]
    decreases j
  {
    assert path[j - 1] in reached && path[j] in FastTargets(blocks, path[j - 1]);
    if i < j - 1 {
      SegmentsAreSimple(blocks, reached, targets, rank, path, i, j - 1);
    }
  }

  /** Every way round goes through a target. */
  lemma CyclesMeetTargets(
      blocks: seq<Block>, reached: set<nat>, targets: set<nat>, rank: seq<nat>, path: seq<nat>)
    requires WellFormed(blocks) && Certificate(blocks, reached, targets, rank)
    requires Path(blocks, reached, path) && |path| > 1 && path[0] == path[|path| - 1]
    ensures exists k | 0 < k < |path| :: path[k] in targets
  {
    if forall k | 0 < k < |path| :: path[k] !in targets {
      SegmentsAreSimple(blocks, reached, targets, rank, path, 0, |path| - 1);
    }
  }
}
