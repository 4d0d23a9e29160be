/** The explicit stacks of the tree walks: a list of nodes, each of which stands for a known tree. */
module NodeStacks {
  import opened AvlTree
  import opened MerkleHash
  import opened MemNodes

  /** The in-memory nodes on the stack, and everything below them. */
  ghost function Tops(stack: seq<Node>): set<MemNode> {
    set i | 0 <= i < |stack| && stack[i].Mem? :: stack[i].m
  }

  ghost function Below(stack: seq<Node>): set<MemNode>
    reads Tops(stack)`repr
  {
    set i, m | 0 <= i < |stack| && m in Repr(stack[i]) :: m
  }

  /** Each stack entry holds the tree at its place. */
  ghost predicate OnStack(sha: Sha, stack: seq<Node>, trees: seq<Tree>)
    reads Tops(stack), Below(stack)
  {
    |stack| == |trees| && forall i :: 0 <= i < |stack| ==> Holds(sha, stack[i], trees[i]) && Measured(trees[i])
  }

  lemma PushOnStack(sha: Sha, stack: seq<Node>, trees: seq<Tree>, n: Node, t: Tree)
    requires OnStack(sha, stack, trees) && Holds(sha, n, t) && Measured(t)
    ensures OnStack(sha, stack + [n], trees + [t])
  {
    hide Holds;
  }

  lemma PopStack(sha: Sha, stack: seq<Node>, trees: seq<Tree>)
    requires OnStack(sha, stack, trees) && stack != []
    ensures var top := |stack| - 1;
      && OnStack(sha, stack[..top], trees[..top]) && Holds(sha, stack[top], trees[top]) && Measured(trees[top])
      && stack == stack[..top] + [stack[top]] && trees == trees[..top] + [trees[top]]
  {
    hide Holds;
  }

  lemma EmptyStack(sha: Sha)
    ensures OnStack(sha, [], [])
  {}

  lemma StackLengths(sha: Sha, stack: seq<Node>, trees: seq<Tree>)
    requires OnStack(sha, stack, trees)
    ensures |stack| == |trees|
  {}
}
