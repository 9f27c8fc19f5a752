/**
 The node arena of subsys/base/src/fd_eval.c. Nodes are handed out one after the other and each is filled after its
 children, so a tree occupies consecutive nodes in postorder: `Layout` says exactly which, and what is written to the
 one shared error node once the heap is full.
*/
module EvalArena {
  import opened Arithmetic
  import opened Bytes
  import opened EvalGrammar
  import opened EvalRecovery

  /** A node pointer: an index into the heap, or the parser's one shared error node. */
  datatype Link = At(index: nat) | ErrorLink

  datatype Node =
    | LeafNode(text: string)
    | UnaryNode(op: Op, node: Link)
    | BinaryNode(op: Op, left: Link, right: Link)

  /** The pointer to the root of `d` when its first node is the one of index `base`, in a heap of `limit` nodes. */
  function LinkOf(d: Draft, base: nat, limit: nat): Link {
    if d.Missing? || base + Size(d) > limit then ErrorLink else At(base + Size(d) - 1)
  }

  /**
   What is written for `d`, in the order it is written, the root last. From index `limit` on every node is the error
   node.
  */
  function Layout(d: Draft, base: nat, limit: nat): (s: seq<Node>)
    ensures |s| == Size(d)
  {
    match d
    case Missing => []
    case DraftLeaf(text) => [LeafNode(text)]
    case DraftPrefix(op, operand) =>
      Layout(operand, base, limit) + [UnaryNode(op, LinkOf(operand, base, limit))]
    case DraftInfix(op, left, right) =>
      var middle := base + Size(left);
      Layout(left, base, limit) + Layout(right, middle, limit) +
      [BinaryNode(op, LinkOf(left, base, limit), LinkOf(right, middle, limit))]
  }

  function Children(n: Node): seq<Link> {
    match n
    case LeafNode(_) => []
    case UnaryNode(_, node) => [node]
    case BinaryNode(_, left, right) => [left, right]
  }

  /** Number of times `link` occurs among the children of `nodes`. */
  function Uses(nodes: seq<Node>, link: Link): (n: nat) {
    if nodes == [] then 0
    else Occurrences(nodes[0], link) + Uses(nodes[1..], link)
  }

  function Occurrences(n: Node, link: Link): nat {
    match n
    case LeafNode(_) => 0
    case UnaryNode(_, node) => if node == link then 1 else 0
    case BinaryNode(_, left, right) => (if left == link then 1 else 0) + (if right == link then 1 else 0)
  }

  lemma {:induction false} UsesAppend(a: seq<Node>, b: seq<Node>, link: Link)
    ensures Uses(a + b, link) == Uses(a, link) + Uses(b, link)
  {
    if a == [] {
      assert a + b == b;
    } else {
      assert (a + b)[1..] == a[1..] + b;
      UsesAppend(a[1..], b, link);
    }
  }

  lemma UsesLast(a: seq<Node>, n: Node, link: Link)
    ensures Uses(a + [n], link) == Uses(a, link) + Occurrences(n, link)
  {
    UsesAppend(a, [n], link);
    assert Uses([n], link) == Occurrences(n, link) + Uses([], link);
  }

  /** Every child lies below its parent, inside the tree's own nodes, unless it is a hole or the heap was full. */
  lemma {:induction false} ChildrenBelow(d: Draft, base: nat, limit: nat, i: nat, link: Link)
    requires i < Size(d) && link in Children(Layout(d, base, limit)[i])
    ensures link.At? ==> base <= link.index < base + i && link.index < limit
    ensures link.ErrorLink? ==> !Complete(d) || base + i > limit
  {
    match d
    case DraftLeaf(_) =>
    case DraftPrefix(_, operand) =>
      if i < Size(operand) {
        ChildrenBelow(operand, base, limit, i, link);
      }
    case DraftInfix(_, left, right) =>
      if i < Size(left) {
        ChildrenBelow(left, base, limit, i, link);
      } else if i < Size(left) + Size(right) {
        ChildrenBelow(right, base + Size(left), limit, i - Size(left), link);
      }
  }

  /** Every heap node but the root has exactly one parent, and the root has none: no heap node is shared. */
  lemma {:induction false} OneParent(d: Draft, base: nat, limit: nat, i: nat)
    ensures Uses(Layout(d, base, limit), At(i)) == if base <= i < base + Size(d) - 1 && i < limit then 1 else 0
  {
    match d
    case Missing =>
    case DraftLeaf(_) =>
    case DraftPrefix(op, operand) =>
      OneParent(operand, base, limit, i);
      UsesLast(Layout(operand, base, limit), UnaryNode(op, LinkOf(operand, base, limit)), At(i));
    case DraftInfix(op, left, right) =>
      var middle := base + Size(left);
      var root := BinaryNode(op, LinkOf(left, base, limit), LinkOf(right, middle, limit));
      OneParent(left, base, limit, i);
      OneParent(right, middle, limit, i);
      UsesAppend(Layout(left, base, limit), Layout(right, middle, limit), At(i));
      UsesLast(Layout(left, base, limit) + Layout(right, middle, limit), root, At(i));
  }

  // ---------------------------------------------------------------- how much heap a text needs

  /** The number of value, unary and binary tokens. */
  function NodeTokens(ts: seq<Token>): nat {
    if ts == [] then 0
    else (if ts[0].Value? || ts[0].Symbol? then 1 else 0) + NodeTokens(ts[1..])
  }

  predicate Counted(r: Recovered, ts: seq<Token>) {
    Size(r.tree) + NodeTokens(r.rest) == NodeTokens(ts)
  }

  /** One node for each value and operator that the parser consumes, none for a parenthesis. */
  lemma {:induction false} SizeCountsTokens(ts: seq<Token>)
    ensures Counted(Recover(ts), ts)
    ensures Parse(ts).Some? ==> Size(Recover(ts).tree) == NodeTokens(ts)
  {
    ExpressionCounts(ts, 0);
    RecoverIsParse(ts);
  }

  lemma {:induction false} PrimaryCounts(ts: seq<Token>)
    ensures Counted(RecoverPrimary(ts), ts)
    decreases |ts|, 1
  {
    if ts == [] {
    } else {
      match ts[0]
      case Symbol(op) => ExpressionCounts(ts[1..], UNARY);
      case Open => ExpressionCounts(ts[1..], 0);
      case Value(_) | Close =>
    }
  }

  lemma {:induction false} ExpressionCounts(ts: seq<Token>, p: nat)
    ensures Counted(RecoverExpression(ts, p), ts)
    decreases |ts|, 2
  {
    PrimaryCounts(ts);
    var r := RecoverPrimary(ts);
    ClimbCounts(r.tree, r.error, r.rest, p);
  }

  lemma {:induction false} ClimbCounts(left: Draft, error: bool, ts: seq<Token>, p: nat)
    ensures var r := RecoverClimb(left, error, ts, p);
            Size(r.tree) + NodeTokens(r.rest) == Size(left) + NodeTokens(ts)
    decreases |ts|, 0
  {
    if !Continues(ts, p) {
    } else {
      var op := ts[0].op;
      ExpressionCounts(ts[1..], Precedence(op) + 1);
      var r := RecoverExpression(ts[1..], Precedence(op) + 1);
      ClimbCounts(DraftInfix(op, left, r.tree), error || r.error, r.rest, p);
    }
  }

  // ---------------------------------------------------------------- meaning

  /** What the operators and the values mean is left open; a value can be unknown. */
  datatype Meaning<!V> = Meaning(
    leaf: string -> Option<V>,
    unary: (Op, V) -> V,
    binary: (Op, V, V) -> V,
    errorValue: V)

  /** The value of a token; the empty token of a hole has the error value and is not reported. */
  function LeafValue<V>(m: Meaning<V>, text: string): V {
    if text != "" && m.leaf(text).Some? then m.leaf(text).value else m.errorValue
  }

  predicate LeafKnown<V>(m: Meaning<V>, text: string) {
    text == "" || m.leaf(text).Some?
  }

  function Denote<V>(m: Meaning<V>, d: Draft): V {
    match d
    case Missing => m.errorValue
    case DraftLeaf(text) => LeafValue(m, text)
    case DraftPrefix(op, operand) => m.unary(op, Denote(m, operand))
    case DraftInfix(op, left, right) => m.binary(op, Denote(m, left), Denote(m, right))
  }

  predicate Known<V>(m: Meaning<V>, d: Draft) {
    match d
    case Missing => true
    case DraftLeaf(text) => LeafKnown(m, text)
    case DraftPrefix(_, operand) => Known(m, operand)
    case DraftInfix(_, left, right) => Known(m, left) && Known(m, right)
  }

  // ---------------------------------------------------------------- meaning of a parsed tree

  /** No value of the tree is empty; the lexer reads no empty value. */
  predicate HasTexts(e: Expr) {
    match e
    case Leaf(text) => text != ""
    case Prefix(_, operand) => HasTexts(operand)
    case Infix(_, left, right) => HasTexts(left) && HasTexts(right)
  }

  predicate AllValues<V>(m: Meaning<V>, e: Expr) {
    match e
    case Leaf(text) => m.leaf(text).Some?
    case Prefix(_, operand) => AllValues(m, operand)
    case Infix(_, left, right) => AllValues(m, left) && AllValues(m, right)
  }

  /** The tree with every value and operator replaced by what it means. */
  function Image<V>(m: Meaning<V>, e: Expr): V
    requires AllValues(m, e)
  {
    match e
    case Leaf(text) => m.leaf(text).value
    case Prefix(op, operand) => m.unary(op, Image(m, operand))
    case Infix(op, left, right) => m.binary(op, Image(m, left), Image(m, right))
  }

  /** What is built for a tree means the image of that tree, and every value is known exactly if all of them are. */
  lemma {:induction false} DenoteIsImage<V>(m: Meaning<V>, e: Expr)
    requires HasTexts(e)
    ensures Known(m, Drafted(e)) <==> AllValues(m, e)
    ensures AllValues(m, e) ==> Denote(m, Drafted(e)) == Image(m, e)
  {
    match e
    case Leaf(_) =>
    case Prefix(_, operand) =>
      DenoteIsImage(m, operand);
    case Infix(_, left, right) =>
      DenoteIsImage(m, left);
      DenoteIsImage(m, right);
  }

  /** Values and operators that mean themselves. */
  function Free(): Meaning<Expr> {
    Meaning(text => Some(Leaf(text)), (op, e) => Prefix(op, e), (op, l, r) => Infix(op, l, r), Leaf(""))
  }

  /** Evaluation in the free algebra is the tree itself. */
  lemma {:induction false} FreeDenotesItself(e: Expr)
    requires HasTexts(e)
    ensures Denote(Free(), Drafted(e)) == e && Known(Free(), Drafted(e))
  {
    match e
    case Leaf(_) =>
    case Prefix(_, operand) =>
      FreeDenotesItself(operand);
    case Infix(_, left, right) =>
      FreeDenotesItself(left);
      FreeDenotesItself(right);
  }

  /** The values of a phrase are those of its tokens. */
  lemma {:induction false} PhraseHasTexts(c: Phrase)
    requires forall text :: Value(text) in Flat(c) ==> text != ""
    ensures HasTexts(Erase(c))
  {
    match c
    case Atom(text) =>
      assert Flat(c)[0] == Value(text);
    case Group(inner) =>
      assert forall t :: t in Flat(inner) ==> t in Flat(c);
      PhraseHasTexts(inner);
    case Unary(_, operand) =>
      assert forall t :: t in Flat(operand) ==> t in Flat(c);
      PhraseHasTexts(operand);
    case Binary(_, left, right) =>
      assert forall t :: t in Flat(left) ==> t in Flat(c);
      assert forall t :: t in Flat(right) ==> t in Flat(c);
      PhraseHasTexts(left);
      PhraseHasTexts(right);
  }
}
