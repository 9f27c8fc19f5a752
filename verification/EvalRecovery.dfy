/**
 What the parser of subsys/base/src/fd_eval.c does with any tokens at all. It never stops at an error: it remembers
 that there was one and goes on, with its error node in the place of a missing operand. The functions here are total;
 `RecoverIsParse` says that they agree with the parser of the grammar wherever that one succeeds, and report an error
 exactly where it does not.
*/
module EvalRecovery {
  import opened Bytes
  import opened EvalGrammar

  /** A tree as it is built, with holes where an operand was expected and none came. */
  datatype Draft =
    | Missing
    | DraftLeaf(text: string)
    | DraftPrefix(op: Op, operand: Draft)
    | DraftInfix(op: Op, left: Draft, right: Draft)

  function Drafted(e: Expr): Draft {
    match e
    case Leaf(text) => DraftLeaf(text)
    case Prefix(op, operand) => DraftPrefix(op, Drafted(operand))
    case Infix(op, left, right) => DraftInfix(op, Drafted(left), Drafted(right))
  }

  /** There is no hole in the tree. */
  predicate Complete(d: Draft) {
    match d
    case Missing => false
    case DraftLeaf(_) => true
    case DraftPrefix(_, operand) => Complete(operand)
    case DraftInfix(_, left, right) => Complete(left) && Complete(right)
  }

  lemma DraftedIsComplete(e: Expr)
    ensures Complete(Drafted(e))
  {
  }

  /** The number of nodes the parser asks for: none for a hole. */
  function Size(d: Draft): nat {
    match d
    case Missing => 0
    case DraftLeaf(_) => 1
    case DraftPrefix(_, operand) => Size(operand) + 1
    case DraftInfix(_, left, right) => Size(left) + Size(right) + 1
  }

  datatype Recovered = Recovered(tree: Draft, rest: seq<Token>, error: bool)

  /** `fd_eval_highest_priority`: what cannot start an operand stays where it is. */
  function RecoverPrimary(ts: seq<Token>): (r: Recovered)
    ensures |r.rest| <= |ts|
    decreases |ts|, 1
  {
    if ts == [] then Recovered(Missing, ts, true)
    else
      match ts[0]
      case Symbol(op) =>
        if !IsUnary(op) then Recovered(Missing, ts, true)
        else
          var r := RecoverExpression(ts[1..], UNARY);
          Recovered(DraftPrefix(op, r.tree), r.rest, r.error)
      case Open =>
        var r := RecoverExpression(ts[1..], 0);
        if r.rest != [] && r.rest[0] == Close then Recovered(r.tree, r.rest[1..], r.error)
        else Recovered(r.tree, r.rest, true)
      case Value(text) => Recovered(DraftLeaf(text), ts[1..], false)
      case Close => Recovered(Missing, ts, true)
  }

  /** `fd_eval_expression`. */
  function RecoverExpression(ts: seq<Token>, p: nat): (r: Recovered)
    ensures |r.rest| <= |ts|
    decreases |ts|, 2
  {
    var r := RecoverPrimary(ts);
    RecoverClimb(r.tree, r.error, r.rest, p)
  }

  /** The loop of `fd_eval_expression`, with `left` built so far. */
  function RecoverClimb(left: Draft, error: bool, ts: seq<Token>, p: nat): (r: Recovered)
    ensures |r.rest| <= |ts| && (error ==> r.error)
    decreases |ts|, 0
  {
    if !Continues(ts, p) then Recovered(left, ts, error)
    else
      var op := ts[0].op;
      var r := RecoverExpression(ts[1..], Precedence(op) + 1);
      RecoverClimb(DraftInfix(op, left, r.tree), error || r.error, r.rest, p)
  }

  /** `fd_eval_parse` with heap enough: one expression, and then the end is expected. */
  function Recover(ts: seq<Token>): Recovered {
    var r := RecoverExpression(ts, 0);
    r.(error := r.error || r.rest != [])
  }

  /** The two parsers agree: the same tree and the same rest, or an error. */
  predicate Agrees(r: Recovered, strict: Parsed) {
    if strict.Fail? then r.error else r == Recovered(Drafted(Erase(strict.phrase)), strict.rest, false)
  }

  lemma {:induction false} PrimaryAgrees(ts: seq<Token>)
    ensures Agrees(RecoverPrimary(ts), Primary(ts))
    decreases |ts|, 1
  {
    if ts == [] {
    } else {
      match ts[0]
      case Symbol(op) => ExpressionAgrees(ts[1..], UNARY);
      case Open => ExpressionAgrees(ts[1..], 0);
      case Value(_) | Close =>
    }
  }

  lemma {:induction false} ExpressionAgrees(ts: seq<Token>, p: nat)
    ensures Agrees(RecoverExpression(ts, p), Expression(ts, p))
    decreases |ts|, 2
  {
    PrimaryAgrees(ts);
    var r := Primary(ts);
    if r.Ok? {
      ClimbAgrees(r.phrase, r.rest, p);
    }
  }

  lemma {:induction false} ClimbAgrees(left: Phrase, ts: seq<Token>, p: nat)
    ensures Agrees(RecoverClimb(Drafted(Erase(left)), false, ts, p), Climb(left, ts, p))
    decreases |ts|, 0
  {
    if !Continues(ts, p) {
    } else {
      var op := ts[0].op;
      ExpressionAgrees(ts[1..], Precedence(op) + 1);
      var r := Expression(ts[1..], Precedence(op) + 1);
      if r.Ok? {
        ClimbAgrees(Binary(op, left, r.phrase), r.rest, p);
      }
    }
  }

  /** An error is remembered exactly when the tokens are no phrase; the tree of a phrase has no holes. */
  lemma RecoverIsParse(ts: seq<Token>)
    ensures var r := Recover(ts);
            && (r.error <==> Parse(ts).None?)
            && (Parse(ts).Some? ==> r == Recovered(Drafted(Erase(Parse(ts).value)), [], false) && Complete(r.tree))
  {
    ExpressionAgrees(ts, 0);
    if Parse(ts).Some? {
      DraftedIsComplete(Erase(Parse(ts).value));
    }
  }
}
