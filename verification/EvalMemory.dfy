/**
 Evaluation in subsys/base/src/fd_eval.c follows the pointers of the nodes it finds, whatever the parser left there.
 The memory is the part of the heap in use and the error node, which holds what was written to it last: a node written
 to a full heap replaces the one before it and can become its own child. `EndsExactly` says when evaluation ends.
*/
module EvalMemory {
  import opened Arithmetic
  import opened Bytes
  import opened EvalGrammar
  import opened EvalRecovery
  import opened EvalArena

  datatype Memory = Memory(nodes: seq<Node>, errorNode: Node)

  predicate Points(memory: Memory, link: Link) {
    link.At? ==> link.index < |memory.nodes|
  }

  function Target(memory: Memory, link: Link): Node
    requires Points(memory, link)
  {
    if link.At? then memory.nodes[link.index] else memory.errorNode
  }

  /** Every pointer in memory points to a node in use. */
  predicate Sound(memory: Memory) {
    && (forall i, link :: 0 <= i < |memory.nodes| && link in Children(memory.nodes[i]) ==> Points(memory, link))
    && (forall link :: link in Children(memory.errorNode) ==> Points(memory, link))
  }

  /** `fd_eval_evaluate` returns without calling itself more than `depth` deep. */
  predicate EndsWithin(memory: Memory, link: Link, depth: nat)
    decreases depth
  {
    && depth > 0 && Points(memory, link)
    && match Target(memory, link) {
         case LeafNode(_) => true
         case UnaryNode(_, node) => EndsWithin(memory, node, depth - 1)
         case BinaryNode(_, left, right) => EndsWithin(memory, left, depth - 1) && EndsWithin(memory, right, depth - 1)
       }
  }

  ghost predicate Terminates(memory: Memory, link: Link) {
    exists depth: nat :: EndsWithin(memory, link, depth)
  }

  /** What it returns then, and whether it found every value. */
  function ValueWithin<V>(m: Meaning<V>, memory: Memory, link: Link, depth: nat): V
    requires EndsWithin(memory, link, depth)
    decreases depth
  {
    match Target(memory, link)
    case LeafNode(text) => LeafValue(m, text)
    case UnaryNode(op, node) => m.unary(op, ValueWithin(m, memory, node, depth - 1))
    case BinaryNode(op, left, right) =>
      m.binary(op, ValueWithin(m, memory, left, depth - 1), ValueWithin(m, memory, right, depth - 1))
  }

  predicate KnownWithin<V>(m: Meaning<V>, memory: Memory, link: Link, depth: nat)
    requires EndsWithin(memory, link, depth)
    decreases depth
  {
    match Target(memory, link)
    case LeafNode(text) => LeafKnown(m, text)
    case UnaryNode(_, node) => KnownWithin(m, memory, node, depth - 1)
    case BinaryNode(_, left, right) =>
      KnownWithin(m, memory, left, depth - 1) && KnownWithin(m, memory, right, depth - 1)
  }

  /** The memory after `written` has been written in that order to a heap of `limit` nodes. */
  function After(written: seq<Node>, limit: nat): Memory {
    Memory(written[..Min(|written|, limit)],
           if |written| > limit then written[|written| - 1] else LeafNode(""))
  }

  // ---------------------------------------------------------------- trees in memory

  /** The tree `d` lies in the heap from `base` on. */
  predicate Holds(memory: Memory, d: Draft, base: nat, limit: nat) {
    && base + Size(d) <= |memory.nodes| <= limit
    && memory.nodes[base..base + Size(d)] == Layout(d, base, limit)
  }

  /** The nodes of the operands, cut out of the nodes of the whole. */
  lemma OperandLayout(d: Draft, base: nat, limit: nat)
    ensures var all := Layout(d, base, limit);
            match d {
              case Missing | DraftLeaf(_) => true
              case DraftPrefix(_, operand) => all[0..Size(operand)] == Layout(operand, base, limit)
              case DraftInfix(_, left, right) =>
                && all[0..Size(left)] == Layout(left, base, limit)
                && all[Size(left)..Size(left) + Size(right)] == Layout(right, base + Size(left), limit)
            }
  {
  }

  lemma HoldsPart(memory: Memory, d: Draft, part: Draft, base: nat, n: nat, limit: nat)
    requires Holds(memory, d, base, limit) && n + Size(part) <= Size(d)
    requires Layout(d, base, limit)[n..n + Size(part)] == Layout(part, base + n, limit)
    ensures Holds(memory, part, base + n, limit)
  {
    hide Layout, Size;
    SliceOfSlice(memory.nodes, base, base + Size(d), n, n + Size(part));
  }

  lemma HoldsRoot(memory: Memory, d: Draft, base: nat, limit: nat)
    requires Holds(memory, d, base, limit) && !d.Missing?
    ensures Points(memory, LinkOf(d, base, limit))
    ensures Target(memory, LinkOf(d, base, limit)) == Layout(d, base, limit)[Size(d) - 1]
  {
    hide Layout;
    var end := base + Size(d);
    assert memory.nodes[base..end][Size(d) - 1] == memory.nodes[end - 1];
  }

  /** So do its operands, and its root points to them. */
  lemma HoldsOperands(memory: Memory, d: Draft, base: nat, limit: nat)
    requires Holds(memory, d, base, limit) && !d.Missing?
    ensures Points(memory, LinkOf(d, base, limit))
    ensures Target(memory, LinkOf(d, base, limit)) == Layout(d, base, limit)[Size(d) - 1]
    ensures d.DraftPrefix? ==> Holds(memory, d.operand, base, limit)
    ensures d.DraftInfix? ==>
              Holds(memory, d.left, base, limit) && Holds(memory, d.right, base + Size(d.left), limit)
  {
    hide Layout, Holds;
    HoldsRoot(memory, d, base, limit);
    OperandLayout(d, base, limit);
    match d
    case DraftLeaf(_) =>
    case DraftPrefix(_, operand) =>
      HoldsPart(memory, d, operand, base, 0, limit);
    case DraftInfix(_, left, right) =>
      HoldsPart(memory, d, left, base, 0, limit);
      HoldsPart(memory, d, right, base, Size(left), limit);
  }

  /** The error node is no trap for `d`: it is untouched, or `d` does not use it. */
  predicate Untroubled(memory: Memory, d: Draft) {
    Complete(d) || memory.errorNode == LeafNode("")
  }

  ghost predicate Means<V>(m: Meaning<V>, memory: Memory, link: Link, depth: nat, d: Draft) {
    && EndsWithin(memory, link, depth)
    && ValueWithin(m, memory, link, depth) == Denote(m, d)
    && (KnownWithin(m, memory, link, depth) <==> Known(m, d))
  }

  lemma {:induction false} HeldTreeEnds<V>(m: Meaning<V>, memory: Memory, d: Draft, base: nat, limit: nat, depth: nat)
    requires Holds(memory, d, base, limit) && Untroubled(memory, d) && depth > Size(d)
    ensures Means(m, memory, LinkOf(d, base, limit), depth, d)
  {
    hide Holds;
    if !d.Missing? {
      HoldsOperands(memory, d, base, limit);
    }
    match d
    case Missing =>
    case DraftLeaf(_) =>
    case DraftPrefix(_, operand) =>
      HeldTreeEnds(m, memory, operand, base, limit, depth - 1);
    case DraftInfix(_, left, right) =>
      HeldTreeEnds(m, memory, left, base, limit, depth - 1);
      HeldTreeEnds(m, memory, right, base + Size(left), limit, depth - 1);
  }

  /** A tree with a hole leads to the error node. */
  lemma {:induction false} HoleIsReached(memory: Memory, d: Draft, base: nat, limit: nat, depth: nat)
    requires Holds(memory, d, base, limit) && !Complete(d)
    requires forall k: nat :: k <= depth ==> !EndsWithin(memory, ErrorLink, k)
    ensures !EndsWithin(memory, LinkOf(d, base, limit), depth)
  {
    hide Holds;
    if !d.Missing? && depth > 0 {
      HoldsOperands(memory, d, base, limit);
      match d
      case DraftPrefix(_, operand) =>
        HoleIsReached(memory, operand, base, limit, depth - 1);
      case DraftInfix(_, left, right) =>
        if !Complete(left) {
          HoleIsReached(memory, left, base, limit, depth - 1);
        } else {
          HoleIsReached(memory, right, base + Size(left), limit, depth - 1);
        }
    }
  }

  // ---------------------------------------------------------------- the whole tree

  /** The tree fits into the heap, or it has no holes and is one node over. */
  predicate Fitting(d: Draft, limit: nat) {
    Size(d) <= limit || (Size(d) == limit + 1 && Complete(d))
  }

  /** What the parser leaves for the tree `d`. */
  function Built(d: Draft, limit: nat): Memory {
    After(Layout(d, 0, limit), limit)
  }

  /** One node over: only the root is the error node, and the trees of its operands lie in the heap. */
  lemma OperandsHeld(d: Draft, limit: nat)
    requires Size(d) == limit + 1
    ensures d.DraftPrefix? ==> Holds(Built(d, limit), d.operand, 0, limit)
    ensures d.DraftInfix? ==>
              Holds(Built(d, limit), d.left, 0, limit) && Holds(Built(d, limit), d.right, Size(d.left), limit)
  {
    var nodes := Built(d, limit).nodes;
    assert nodes == Layout(d, 0, limit)[0..limit];
    OperandLayout(d, 0, limit);
    match d
    case DraftLeaf(_) =>
    case DraftPrefix(_, operand) =>
      assert nodes[0..limit] == nodes;
    case DraftInfix(_, left, right) =>
      var n := Size(left);
      hide Layout;
      assert nodes[0..n] == Layout(d, 0, limit)[0..n] && nodes[n..limit] == Layout(d, 0, limit)[n..limit];
  }

  /** A fitting tree is evaluated, and its value is its meaning. */
  lemma FittingEnds<V>(m: Meaning<V>, d: Draft, limit: nat)
    requires Fitting(d, limit)
    ensures Means(m, Built(d, limit), LinkOf(d, 0, limit), Size(d) + 1, d)
  {
    hide Means, LinkOf;
    if Size(d) <= limit {
      assert Holds(Built(d, limit), d, 0, limit);
      HeldTreeEnds(m, Built(d, limit), d, 0, limit, Size(d) + 1);
    } else {
      OneOverEnds(m, d, limit);
    }
  }

  lemma OneOverEnds<V>(m: Meaning<V>, d: Draft, limit: nat)
    requires Size(d) == limit + 1 && Complete(d)
    ensures Means(m, Built(d, limit), LinkOf(d, 0, limit), Size(d) + 1, d)
  {
    hide Holds;
    var memory := Built(d, limit);
    OperandsHeld(d, limit);
    match d
    case DraftLeaf(_) =>
    case DraftPrefix(_, operand) =>
      HeldTreeEnds(m, memory, operand, 0, limit, Size(d));
    case DraftInfix(_, left, right) =>
      HeldTreeEnds(m, memory, left, 0, limit, Size(d));
      HeldTreeEnds(m, memory, right, Size(left), limit, Size(d));
  }

  /** A tree that does not fit is evaluated without end: the error node leads back to itself. */
  lemma {:induction false} OtherwiseNeverEnds(d: Draft, limit: nat, depth: nat)
    requires !Fitting(d, limit)
    ensures LinkOf(d, 0, limit) == ErrorLink && !EndsWithin(Built(d, limit), ErrorLink, depth)
  {
    hide Holds;
    var memory := Built(d, limit);
    if depth == 0 {
    } else {
      forall k: nat | k < depth ensures !EndsWithin(memory, ErrorLink, k) {
        OtherwiseNeverEnds(d, limit, k);
      }
      if Size(d) == limit + 1 {
        OperandsHeld(d, limit);
        match d
        case DraftPrefix(_, operand) =>
          HoleIsReached(memory, operand, 0, limit, depth - 1);
        case DraftInfix(_, left, right) =>
          if !Complete(left) {
            HoleIsReached(memory, left, 0, limit, depth - 1);
          } else {
            HoleIsReached(memory, right, Size(left), limit, depth - 1);
          }
      }
    }
  }

  /** Evaluation ends exactly on the trees that fit, or are complete and one node over. */
  lemma EndsExactly(d: Draft, limit: nat)
    ensures Terminates(Built(d, limit), LinkOf(d, 0, limit)) <==> Fitting(d, limit)
  {
    if Fitting(d, limit) {
      var m := Meaning(text => Some(0), (op, v) => 0, (op, v, w) => 0, 0);
      FittingEnds(m, d, limit);
    } else if Terminates(Built(d, limit), LinkOf(d, 0, limit)) {
      var depth: nat :| EndsWithin(Built(d, limit), LinkOf(d, 0, limit), depth);
      OtherwiseNeverEnds(d, limit, depth);
    }
  }

  /** Not because of a stray pointer: all of them point to nodes in use. */
  lemma BuiltIsSound(d: Draft, limit: nat)
    ensures Sound(Built(d, limit)) && Points(Built(d, limit), LinkOf(d, 0, limit))
  {
    var memory := Built(d, limit);
    var all := Layout(d, 0, limit);
    forall i, link | 0 <= i < |all| && link in Children(all[i]) ensures Points(memory, link) {
      ChildrenBelow(d, 0, limit, i, link);
    }
  }
}
