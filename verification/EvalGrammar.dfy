/**
 The expression language of subsys/base/src/fd_eval.c: operators, tokens, the layered grammar and the
 precedence-climbing parser over a list of tokens.

 `Climb`, `Expression` and `Primary` say what the C parser does with the tokens that remain. The grammar is given
 independently of them: `Fits(c, p)` says that the concrete tree `c` is a phrase of layer `p`, `Flat(c)` is the
 token list it stands for. The main results tie the two together in both directions.
*/
module EvalGrammar {
  import opened Bytes

  datatype Op =
    | Times | Divide | Plus | Minus
    | AtMost | Less | AtLeast | Greater
    | Equal | NotEqual | And | Or | Not

  predicate IsUnary(op: Op) { op in {Plus, Minus, Not} }

  predicate IsBinary(op: Op) { op != Not }

  /** The precedence column of the table of binary operators. */
  function Precedence(op: Op): (p: nat)
    ensures IsBinary(op) ==> 1 <= p <= 6
  {
    match op
    case Times | Divide => 6
    case Plus | Minus => 5
    case AtMost | Less | AtLeast | Greater => 4
    case Equal | NotEqual => 3
    case And => 2
    case Or => 1
    case Not => 0
  }

  /** The precedence of every unary operator: its operand holds no binary operator outside parentheses. */
  const UNARY: nat := 7

  datatype Token = Value(text: string) | Open | Close | Symbol(op: Op)

  /** The tree the parser builds; parentheses leave no trace in it. */
  datatype Expr = Leaf(text: string) | Prefix(op: Op, operand: Expr) | Infix(op: Op, left: Expr, right: Expr)

  /** A phrase of the grammar, with its parentheses. */
  datatype Phrase =
    | Atom(text: string)
    | Group(inner: Phrase)
    | Unary(op: Op, operand: Phrase)
    | Binary(op: Op, left: Phrase, right: Phrase)

  function Erase(c: Phrase): Expr {
    match c
    case Atom(text) => Leaf(text)
    case Group(inner) => Erase(inner)
    case Unary(op, operand) => Prefix(op, Erase(operand))
    case Binary(op, left, right) => Infix(op, Erase(left), Erase(right))
  }

  function Flat(c: Phrase): (ts: seq<Token>)
    ensures ts != []
  {
    match c
    case Atom(text) => [Value(text)]
    case Group(inner) => [Open] + Flat(inner) + [Close]
    case Unary(op, operand) => [Symbol(op)] + Flat(operand)
    case Binary(op, left, right) => Flat(left) + [Symbol(op)] + Flat(right)
  }

  /**
   The layered grammar. Layer p is a layer p phrase, an operator of precedence p and a layer p + 1 phrase, or
   just a layer p + 1 phrase; layer 7 is a value, a parenthesised layer 0 phrase, or a unary operator before a
   layer 7 phrase.
  */
  predicate Fits(c: Phrase, p: nat) {
    match c
    case Atom(_) => true
    case Group(inner) => Fits(inner, 0)
    case Unary(op, operand) => IsUnary(op) && Fits(operand, UNARY)
    case Binary(op, left, right) =>
      IsBinary(op) && p <= Precedence(op) && Fits(left, Precedence(op)) && Fits(right, Precedence(op) + 1)
  }

  // ---------------------------------------------------------------- the parser over tokens

  datatype Parsed = Fail | Ok(phrase: Phrase, rest: seq<Token>)

  /** `fd_eval_highest_priority`. */
  function Primary(ts: seq<Token>): (r: Parsed)
    ensures r.Ok? ==> |r.rest| < |ts|
    decreases |ts|, 1
  {
    if ts == [] then Fail
    else
      match ts[0]
      case Symbol(op) =>
        if !IsUnary(op) then Fail
        else
          var r := Expression(ts[1..], UNARY);
          if r.Ok? then Ok(Unary(op, r.phrase), r.rest) else Fail
      case Open =>
        var r := Expression(ts[1..], 0);
        if r.Ok? && r.rest != [] && r.rest[0] == Close then Ok(Group(r.phrase), r.rest[1..]) else Fail
      case Value(text) => Ok(Atom(text), ts[1..])
      case Close => Fail
  }

  /** `fd_eval_expression`. */
  function Expression(ts: seq<Token>, p: nat): (r: Parsed)
    ensures r.Ok? ==> |r.rest| < |ts|
    decreases |ts|, 2
  {
    var r := Primary(ts);
    if r.Ok? then Climb(r.phrase, r.rest, p) else Fail
  }

  /** A binary operator that a loop at precedence `p` goes on with. */
  predicate Continues(ts: seq<Token>, p: nat) {
    ts != [] && ts[0].Symbol? && IsBinary(ts[0].op) && p <= Precedence(ts[0].op)
  }

  /** The loop of `fd_eval_expression` with `left` parsed so far. Every operator of the table associates left. */
  function Climb(left: Phrase, ts: seq<Token>, p: nat): (r: Parsed)
    ensures r.Ok? ==> |r.rest| <= |ts|
    decreases |ts|, 0
  {
    if !Continues(ts, p) then Ok(left, ts)
    else
      var op := ts[0].op;
      var r := Expression(ts[1..], Precedence(op) + 1);
      if r.Ok? then Climb(Binary(op, left, r.phrase), r.rest, p) else Fail
  }

  /** What `fd_eval_parse` accepts when it has heap enough: one expression and then nothing. */
  function Parse(ts: seq<Token>): Option<Phrase> {
    var r := Expression(ts, 0);
    if r.Ok? && r.rest == [] then Some(r.phrase) else None
  }

  // ---------------------------------------------------------------- every phrase is parsed back

  /** The tightest layer a phrase belongs to. */
  function Layer(c: Phrase): nat {
    if c.Binary? then Precedence(c.op) else UNARY
  }

  lemma FitsByLayer(c: Phrase, p: nat, q: nat)
    requires Fits(c, p) && q <= Layer(c)
    ensures Fits(c, q)
  {
  }

  /** The parser reads a phrase off the front of the tokens whenever no tighter operator follows it. */
  lemma ReadsGroup(inner: Phrase, tail: seq<Token>, p: nat)
    ensures Expression(Flat(inner) + ([Close] + tail), 0) == Climb(inner, [Close] + tail, 0) ==>
              Expression(Flat(Group(inner)) + tail, p) == Climb(Group(inner), tail, p)
  {
    var ts := Flat(Group(inner)) + tail;
    assert ts[1..] == Flat(inner) + ([Close] + tail);
    assert ([Close] + tail)[1..] == tail;
  }

  lemma {:induction false} ReadsPhrase(c: Phrase, tail: seq<Token>, p: nat)
    requires Fits(c, p) && p <= UNARY && !Continues(tail, Layer(c) + 1)
    ensures Expression(Flat(c) + tail, p) == Climb(c, tail, p)
  {
    var ts := Flat(c) + tail;
    match c
    case Atom(text) =>
      assert ts[1..] == tail;
    case Group(inner) =>
      ReadsGroup(inner, tail, p);
      ReadsPhrase(inner, [Close] + tail, 0);
    case Unary(op, operand) =>
      assert ts[1..] == Flat(operand) + tail;
      ReadsPhrase(operand, tail, UNARY);
    case Binary(op, left, right) =>
      var after := [Symbol(op)] + (Flat(right) + tail);
      assert ts == Flat(left) + after;
      FitsByLayer(left, Precedence(op), p);
      ReadsPhrase(left, after, p);
      assert after[1..] == Flat(right) + tail;
      ReadsPhrase(right, tail, Precedence(op) + 1);
  }

  /** Every phrase of the grammar is parsed, and as itself. */
  lemma ParsesEveryPhrase(c: Phrase)
    requires Fits(c, 0)
    ensures Parse(Flat(c)) == Some(c)
  {
    ReadsPhrase(c, [], 0);
    assert Flat(c) + [] == Flat(c);
  }

  // ---------------------------------------------------------------- whatever is parsed is a phrase

  lemma {:induction false} PrimaryIsPhrase(ts: seq<Token>)
    requires Primary(ts).Ok?
    ensures var r := Primary(ts); Fits(r.phrase, UNARY) && ts == Flat(r.phrase) + r.rest
    decreases |ts|, 1
  {
    var r := Primary(ts);
    assert ts == [ts[0]] + ts[1..];
    match ts[0]
    case Symbol(op) =>
      ExpressionIsPhrase(ts[1..], UNARY);
    case Open =>
      var inner := Expression(ts[1..], 0);
      ExpressionIsPhrase(ts[1..], 0);
      assert inner.rest == [Close] + r.rest;
    case Value(text) =>
  }

  lemma {:induction false} ExpressionIsPhrase(ts: seq<Token>, p: nat)
    requires Expression(ts, p).Ok? && p <= UNARY
    ensures var r := Expression(ts, p); Fits(r.phrase, p) && ts == Flat(r.phrase) + r.rest && !Continues(r.rest, p)
    decreases |ts|, 2
  {
    var r := Primary(ts);
    PrimaryIsPhrase(ts);
    ClimbIsPhrase(r.phrase, r.rest, p);
  }

  lemma FlatBinary(op: Op, left: Phrase, right: Phrase, rest: seq<Token>)
    ensures Flat(Binary(op, left, right)) + rest == Flat(left) + ([Symbol(op)] + (Flat(right) + rest))
  {
    var l, r := Flat(left), Flat(right);
    assert l + [Symbol(op)] + r + rest == l + ([Symbol(op)] + (r + rest));
  }

  lemma {:induction false} ClimbIsPhrase(left: Phrase, ts: seq<Token>, p: nat)
    requires Climb(left, ts, p).Ok? && p <= UNARY
    requires Fits(left, p) && !Continues(ts, Layer(left) + 1)
    ensures var r := Climb(left, ts, p);
            Fits(r.phrase, p) && Flat(left) + ts == Flat(r.phrase) + r.rest && !Continues(r.rest, p)
    decreases |ts|, 0
  {
    if !Continues(ts, p) {
    } else {
      var op := ts[0].op;
      var r := Expression(ts[1..], Precedence(op) + 1);
      ExpressionIsPhrase(ts[1..], Precedence(op) + 1);
      FitsByLayer(left, p, Precedence(op));
      var joined := Binary(op, left, r.phrase);
      ClimbIsPhrase(joined, r.rest, p);
      FlatBinary(op, left, r.phrase, r.rest);
      assert ts == [Symbol(op)] + ts[1..];
    }
  }

  /** The parser accepts a token list exactly when the grammar derives it, and returns its only phrase. */
  lemma ParseIsTheGrammar(ts: seq<Token>, c: Phrase)
    ensures Parse(ts) == Some(c) <==> Fits(c, 0) && Flat(c) == ts
  {
    if Parse(ts) == Some(c) {
      ExpressionIsPhrase(ts, 0);
      assert Flat(c) + [] == Flat(c);
    }
    if Fits(c, 0) && Flat(c) == ts {
      ParsesEveryPhrase(c);
    }
  }

  /** No token list has two phrases: the grammar is unambiguous. */
  lemma Unambiguous(c: Phrase, d: Phrase)
    requires Fits(c, 0) && Fits(d, 0) && Flat(c) == Flat(d)
    ensures c == d
  {
    ParsesEveryPhrase(c);
    ParsesEveryPhrase(d);
  }

  // ---------------------------------------------------------------- printing

  /** Trees over the operator tables. */
  predicate WellFormed(e: Expr) {
    match e
    case Leaf(_) => true
    case Prefix(op, operand) => IsUnary(op) && WellFormed(operand)
    case Infix(op, left, right) => IsBinary(op) && WellFormed(left) && WellFormed(right)
  }

  /** `e` as a phrase of layer `p`, with only the parentheses that precedence and left association require. */
  function Show(e: Expr, p: nat): Phrase {
    match e
    case Leaf(text) => Atom(text)
    case Prefix(op, operand) => Unary(op, Show(operand, UNARY))
    case Infix(op, left, right) =>
      var c := Binary(op, Show(left, Precedence(op)), Show(right, Precedence(op) + 1));
      if Precedence(op) < p then Group(c) else c
  }

  lemma {:induction false} ShowFits(e: Expr, p: nat)
    requires WellFormed(e)
    ensures Fits(Show(e, p), p) && Erase(Show(e, p)) == e
  {
    match e
    case Leaf(_) =>
    case Prefix(op, operand) => ShowFits(operand, UNARY);
    case Infix(op, left, right) =>
      ShowFits(left, Precedence(op));
      ShowFits(right, Precedence(op) + 1);
  }

  /** Printing a tree and parsing the tokens gives the tree back. */
  lemma ParseOfShow(e: Expr)
    requires WellFormed(e)
    ensures Parse(Flat(Show(e, 0))) == Some(Show(e, 0))
    ensures Erase(Show(e, 0)) == e
  {
    ShowFits(e, 0);
    ParsesEveryPhrase(Show(e, 0));
  }

  /** No phrase for the same tree is shorter: `Show` prints no parenthesis that could be dropped. */
  lemma {:induction false} ShowIsShortest(c: Phrase, p: nat)
    requires Fits(c, p)
    ensures |Flat(Show(Erase(c), p))| <= |Flat(c)|
  {
    match c
    case Atom(_) =>
    case Group(inner) =>
      ShowIsShortest(inner, 0);
      assert |Flat(Show(Erase(inner), p))| <= |Flat(Show(Erase(inner), 0))| + 2;
    case Unary(op, operand) => ShowIsShortest(operand, UNARY);
    case Binary(op, left, right) =>
      ShowIsShortest(left, Precedence(op));
      ShowIsShortest(right, Precedence(op) + 1);
  }

  // ---------------------------------------------------------------- which operator binds tighter

  /** The layers of the language, loosest first. */
  const LAYERS: seq<set<Op>> := [
    {Or}, {And}, {Equal, NotEqual}, {AtMost, Less, AtLeast, Greater}, {Plus, Minus}, {Times, Divide}]

  /** `f` is in a looser layer than `g`. */
  predicate IsLooser(f: Op, g: Op) {
    exists i, j :: 0 <= i < j < |LAYERS| && f in LAYERS[i] && g in LAYERS[j]
  }

  lemma OneLayer(op: Op)
    requires IsBinary(op)
    ensures |LAYERS| == 6 && forall k :: 0 <= k < |LAYERS| ==> (op in LAYERS[k] <==> k == Precedence(op) - 1)
  {
  }

  lemma LooserIsLower(f: Op, g: Op)
    requires IsBinary(f) && IsBinary(g)
    ensures IsLooser(f, g) <==> Precedence(f) < Precedence(g)
  {
    OneLayer(f);
    OneLayer(g);
    hide LAYERS;
    if Precedence(f) < Precedence(g) {
      assert f in LAYERS[Precedence(f) - 1] && g in LAYERS[Precedence(g) - 1];
    }
  }

  /** Two values and the operator between them. */
  lemma OneOperator(a: string, f: Op, b: string, p: nat)
    requires IsBinary(f)
    ensures var c := Binary(f, Atom(a), Atom(b));
            && Flat(c) == [Value(a), Symbol(f), Value(b)] && Erase(c) == Infix(f, Leaf(a), Leaf(b))
            && (Fits(c, p) <==> p <= Precedence(f))
  {
    var l, r := Atom(a), Atom(b);
    assert Fits(l, Precedence(f)) && Fits(r, Precedence(f) + 1);
    assert Erase(l) == Leaf(a) && Erase(r) == Leaf(b);
  }

  /** Between two operators the tighter one has the value in the middle, and of one layer the first. */
  lemma TwoOperators(a: string, f: Op, b: string, g: Op, c: string)
    requires IsBinary(f) && IsBinary(g)
    ensures var phrase := Parse([Value(a), Symbol(f), Value(b), Symbol(g), Value(c)]);
            phrase.Some? && Erase(phrase.value) ==
              if IsLooser(f, g) then Infix(f, Leaf(a), Infix(g, Leaf(b), Leaf(c)))
              else Infix(g, Infix(f, Leaf(a), Leaf(b)), Leaf(c))
  {
    hide IsLooser, Parse;
    LooserIsLower(f, g);
    var ts := [Value(a), Symbol(f), Value(b), Symbol(g), Value(c)];
    if IsLooser(f, g) {
      OneOperator(b, g, c, Precedence(f) + 1);
      var first := Atom(a);
      assert Fits(first, Precedence(f)) && Erase(first) == Leaf(a) && Flat(first) == [Value(a)];
      ParseIsTheGrammar(ts, Binary(f, first, Binary(g, Atom(b), Atom(c))));
    } else {
      OneOperator(a, f, b, Precedence(g));
      var last := Atom(c);
      assert Fits(last, Precedence(g) + 1) && Erase(last) == Leaf(c) && Flat(last) == [Value(c)];
      ParseIsTheGrammar(ts, Binary(g, Binary(f, Atom(a), Atom(b)), last));
    }
  }

  /** A sign before a value belongs to it alone. */
  lemma SignAndOperator(f: Op, a: string, g: Op, b: string)
    requires IsUnary(f) && IsBinary(g)
    ensures var phrase := Parse([Symbol(f), Value(a), Symbol(g), Value(b)]);
            phrase.Some? && Erase(phrase.value) == Infix(g, Prefix(f, Leaf(a)), Leaf(b))
  {
    hide Parse;
    var operand, last := Atom(a), Atom(b);
    assert Fits(operand, UNARY) && Erase(operand) == Leaf(a) && Flat(operand) == [Value(a)];
    assert Fits(last, Precedence(g) + 1) && Erase(last) == Leaf(b) && Flat(last) == [Value(b)];
    var first := Unary(f, operand);
    assert Fits(first, Precedence(g)) && Erase(first) == Prefix(f, Leaf(a)) && Flat(first) == [Symbol(f), Value(a)];
    ParseIsTheGrammar([Symbol(f), Value(a), Symbol(g), Value(b)], Binary(g, first, last));
  }
}
