/**
 The parser object of subsys/base/src/fd_eval.c: it moves an index over the text and fills the node heap as it goes.
 Every method is proved against the functions on tokens, trees and arenas of the other Eval modules.
*/
module Eval {
  import opened Arithmetic
  import opened Bytes
  import opened EvalGrammar
  import opened EvalLexer
  import opened EvalRecovery
  import opened EvalArena
  import opened EvalMemory

  datatype UnaryOperator = UnaryOperator(op: Op, text: string, precedence: nat)

  datatype Associativity = LeftToRight | RightToLeft

  datatype BinaryOperator = BinaryOperator(op: Op, text: string, precedence: nat, associativity: Associativity)

  const UNARY_OPERATORS: seq<UnaryOperator> := [
    UnaryOperator(Plus, "+", 7), UnaryOperator(Minus, "-", 7), UnaryOperator(Not, "!", 7)]

  const BINARY_OPERATORS: seq<BinaryOperator> := [
    BinaryOperator(Times, "*", 6, LeftToRight), BinaryOperator(Divide, "/", 6, LeftToRight),
    BinaryOperator(Plus, "+", 5, LeftToRight), BinaryOperator(Minus, "-", 5, LeftToRight),
    BinaryOperator(AtMost, "<=", 4, LeftToRight), BinaryOperator(Less, "<", 4, LeftToRight),
    BinaryOperator(AtLeast, ">=", 4, LeftToRight), BinaryOperator(Greater, ">", 4, LeftToRight),
    BinaryOperator(Equal, "==", 3, LeftToRight), BinaryOperator(NotEqual, "!=", 3, LeftToRight),
    BinaryOperator(And, "&&", 2, LeftToRight), BinaryOperator(Or, "||", 1, LeftToRight)]

  /** `text` is at the front of `s`. */
  predicate At0(s: string, text: string) {
    |text| <= |s| && s[..|text|] == text
  }

  predicate BinaryAt(s: string, k: nat)
    requires k < |BINARY_OPERATORS|
  {
    At0(s, BINARY_OPERATORS[k].text)
  }

  predicate UnaryAt(s: string, k: nat)
    requires k < |UNARY_OPERATORS|
  {
    At0(s, UNARY_OPERATORS[k].text)
  }

  lemma BinaryRow(k: nat)
    requires k < |BINARY_OPERATORS|
    ensures var row := BINARY_OPERATORS[k];
            IsBinary(row.op) && row.text == OpText(row.op) && row.precedence == Precedence(row.op)
            && row.associativity == LeftToRight
  {
  }

  /** The first row of the binary table that matches is the operator the lexer means. */
  lemma FirstBinaryRow(s: string, k: nat)
    requires s != "" && k < |BINARY_OPERATORS| && BinaryAt(s, k)
    requires forall j: nat :: j < k ==> !BinaryAt(s, j)
    ensures ScanOp(s) == Some(BINARY_OPERATORS[k].op)
  {
    BinaryRow(k);
    var op := BINARY_OPERATORS[k].op;
    assert s[0] == OpText(op)[0] && (|OpText(op)| == 2 ==> s[1] == OpText(op)[1]);
    if k == 5 {
      assert !BinaryAt(s, 4);
    } else if k == 7 {
      assert !BinaryAt(s, 6);
    }
  }

  lemma FirstUnaryRow(s: string, k: nat)
    requires s != "" && k < |UNARY_OPERATORS| && UnaryAt(s, k)
    requires forall j: nat :: j < |BINARY_OPERATORS| ==> !BinaryAt(s, j)
    ensures ScanOp(s) == Some(UNARY_OPERATORS[k].op)
  {
    assert s[0] == UNARY_OPERATORS[k].text[0];
    assert !BinaryAt(s, 9);
    assert BINARY_OPERATORS[9].text == "!=";
  }

  function Row(op: Op): (k: nat)
    requires IsBinary(op)
    ensures k < |BINARY_OPERATORS| && BINARY_OPERATORS[k].text == OpText(op)
  {
    match op
    case Times => 0 case Divide => 1 case Plus => 2 case Minus => 3 case AtMost => 4 case Less => 5
    case AtLeast => 6 case Greater => 7 case Equal => 8 case NotEqual => 9 case And => 10 case Or => 11
  }

  /** An operator at the front of the text matches a row of one of the tables. */
  lemma SomeRow(s: string)
    requires s != "" && ScanOp(s).Some?
    ensures var op := ScanOp(s).value; if op == Not then UnaryAt(s, 2) else BinaryAt(s, Row(op))
  {
    assert At0(s, OpText(ScanOp(s).value));
  }

  lemma SpelledOnce(t: Token, op: Op)
    requires IsToken(t) && Spell(t) == OpText(op)
    ensures t == Symbol(op)
  {
    assert ScanOp(OpText(op) + "") == Some(op) by {
      ScanOpStops(op, "");
    }
    assert OpText(op) + "" == OpText(op);
  }

  /** What the lexer takes off the front is a token in its own right. */
  lemma ScannedIsToken(s: string)
    requires s != "" && Scan(s).Some?
    ensures IsToken(Scan(s).value)
  {
    var t := Scan(s).value;
    match t
    case Value(text) =>
      assert text[0] == s[0];
      if IsDigit(s[0]) {
        NumberOfPrefix(s);
      } else {
        IdentifiersOfPrefix(s);
      }
      assert text[..|text|] == text;
      assert Scan(text) == Some(t);
    case Symbol(op) =>
      ScanOpStops(op, "");
      assert OpText(op) + "" == OpText(op);
    case Open | Close =>
  }

  lemma LexUnfolds(s: string)
    ensures var r := s[Spaces(s)..];
            if r == "" || Scan(r).None? then Lex(s) == []
            else && 0 < |Spell(Scan(r).value)| <= |r| && r[..|Spell(Scan(r).value)|] == Spell(Scan(r).value)
                 && Lex(s) == [Scan(r).value] + Lex(r[|Spell(Scan(r).value)|..])
  {
  }

  lemma SpacesSkipped(s: string)
    ensures Spaces(s[Spaces(s)..]) == 0
  {
    var r := s[Spaces(s)..];
    assert r != "" ==> r[0] == s[Spaces(s)];
  }

  /** The first of the tokens that remain, by its place in the text. */
  lemma NextOfText(s: string)
    ensures var n := Spaces(s);
            if n == |s| || Scan(s[n..]).None? then Lex(s) == [] && Lex(s[n..]) == []
            else
              var end := n + |Spell(Scan(s[n..]).value)|;
              && n < end <= |s| && Lex(s) != [] && IsToken(Lex(s)[0])
              && s[n..end] == Spell(Lex(s)[0]) && Lex(s[end..]) == Lex(s)[1..]
  {
    hide Lex, Scan, IsToken, Spell, Spaces;
    var n := Spaces(s);
    var r := s[n..];
    LexUnfolds(s);
    if r == "" || Scan(r).None? {
      SpacesSkipped(s);
      LexIsOver(r);
    } else {
      ScannedIsToken(r);
      var m := |Spell(Scan(r).value)|;
      SliceOfDrop(s, n, 0, m);
      SliceOfDrop(s, n, m, m);
      assert r[0..m] == r[..m];
    }
  }

  lemma DigitsOfPrefix(s: string, n: nat)
    requires Digits(s) <= n <= |s|
    ensures Digits(s[..n]) == Digits(s)
  {
    if s != "" && IsDigit(s[0]) {
      assert s[..n][1..] == s[1..][..n - 1];
      DigitsOfPrefix(s[1..], n - 1);
    }
  }

  lemma NumberOfPrefix(s: string)
    ensures NumberLength(s[..NumberLength(s)]) == NumberLength(s)
  {
    var n := NumberLength(s);
    DigitsOfPrefix(s, n);
    var d := Digits(s);
    if d < |s| && s[d] == '.' {
      var m := Digits(s[d + 1..]);
      DigitsOfPrefix(s[d + 1..], m);
      assert s[..n][d + 1..] == s[d + 1..][..m];
    }
  }

  lemma IdentifiersOfPrefix(s: string)
    ensures Identifiers(s[..Identifiers(s)]) == Identifiers(s)
  {
    if s != "" && IsIdentifier(s[0]) {
      var n := Identifiers(s);
      assert s[..n][1..] == s[1..][..n - 1];
      IdentifiersOfPrefix(s[1..]);
    }
  }

  lemma WrittenPrefix(op: Op, d: Draft, before: seq<Node>, limit: nat)
    ensures (before + Layout(d, |before|, limit)) + [UnaryNode(op, LinkOf(d, |before|, limit))]
            == before + Layout(DraftPrefix(op, d), |before|, limit)
  {
  }

  lemma WrittenInfix(op: Op, l: Draft, r: Draft, before: seq<Node>, limit: nat)
    ensures var middle := |before| + Size(l);
            ((before + Layout(l, |before|, limit)) + Layout(r, middle, limit)) +
            [BinaryNode(op, LinkOf(l, |before|, limit), LinkOf(r, middle, limit))]
            == before + Layout(DraftInfix(op, l, r), |before|, limit)
  {
    var middle := |before| + Size(l);
    var left, right := Layout(l, |before|, limit), Layout(r, middle, limit);
    var root := [BinaryNode(op, LinkOf(l, |before|, limit), LinkOf(r, middle, limit))];
    assert Layout(DraftInfix(op, l, r), |before|, limit) == left + right + root;
    hide Layout, LinkOf, Size;
    Regroup(before, left, right);
    Regroup(before, left + right, root);
  }

  /** What the text of the next token tells about the tokens that remain. */
  lemma PrimaryByText(ts: seq<Token>, next: string)
    requires ts == [] ==> next == ""
    requires ts != [] ==> IsToken(ts[0]) && next == Spell(ts[0])
    ensures forall op :: next == OpText(op) ==> ts != [] && ts[0] == Symbol(op)
    ensures next == "(" ==> ts != [] && ts[0] == Open
    ensures next != "" && (IsAlphabetic(next[0]) || IsDigit(next[0])) ==> ts != [] && ts[0] == Value(next)
    ensures next != "+" && next != "-" && next != "!" && next != "(" &&
              (next == "" || (!IsAlphabetic(next[0]) && !IsDigit(next[0])))
            ==> RecoverPrimary(ts) == Recovered(Missing, ts, true)
  {
    forall op | next == OpText(op) ensures ts != [] && ts[0] == Symbol(op) {
      SpelledOnce(ts[0], op);
    }
  }

  class Parser {
    const input: string
    var inputIndex: nat
    const nodes: array<Node>
    var heapIndex: nat
    var errorNode: Node
    var error: bool

    /** All that has been written to nodes, in order: the heap keeps the first of it, the error node the last. */
    ghost var written: seq<Node>

    ghost function Contents(): Memory
      requires heapIndex <= nodes.Length
      reads this, nodes
    {
      Memory(nodes[..heapIndex], errorNode)
    }

    /** The heap is in use and did not suffice. */
    ghost predicate Exhausted()
      reads this
    {
      0 < nodes.Length < |written|
    }

    ghost predicate Valid()
      reads this, nodes
    {
      && inputIndex <= |input| && heapIndex == Min(|written|, nodes.Length)
      && Contents() == After(written, nodes.Length)
      && (Exhausted() ==> error)
    }

    ghost function Remaining(): seq<Token>
      requires inputIndex <= |input|
      reads this
    {
      Lex(input[inputIndex..])
    }

    constructor (input: string, heap: array<Node>)
      ensures Valid() && this.input == input && nodes == heap
      ensures inputIndex == 0 && written == [] && !error
    {
      this.input := input;
      inputIndex := 0;
      nodes := heap;
      heapIndex := 0;
      errorNode := LeafNode("");
      error := false;
      written := [];
    }

    // -------------------------------------------------------------- the lexer

    /** The first table row at `start`: the binary operators are tried before the unary ones. */
    method NextOperator(start: nat) returns (length: nat)
      requires start < |input|
      ensures ScanOp(input[start..]).None? ==> length == 0
      ensures ScanOp(input[start..]).Some? ==> length == |OpText(ScanOp(input[start..]).value)|
    {
      ghost var s := input[start..];
      var i := 0;
      while i < |BINARY_OPERATORS|
        invariant i <= |BINARY_OPERATORS|
        invariant forall j: nat :: j < i ==> !BinaryAt(s, j)
      {
        var text := BINARY_OPERATORS[i].text;
        if start + |text| <= |input| && input[start..start + |text|] == text {
          assert s[..|text|] == text;
          FirstBinaryRow(s, i);
          BinaryRow(i);
          return |text|;
        }
        assert !BinaryAt(s, i) by {
          if |text| <= |s| {
            assert s[..|text|] == input[start..start + |text|];
          }
        }
        i := i + 1;
      }
      i := 0;
      while i < |UNARY_OPERATORS|
        invariant i <= |UNARY_OPERATORS|
        invariant forall j: nat :: j < i ==> !UnaryAt(s, j)
      {
        var text := UNARY_OPERATORS[i].text;
        if start + |text| <= |input| && input[start..start + |text|] == text {
          assert s[..|text|] == text;
          FirstUnaryRow(s, i);
          return |text|;
        }
        assert !UnaryAt(s, i) by {
          if |text| <= |s| {
            assert s[..|text|] == input[start..start + |text|];
          }
        }
        i := i + 1;
      }
      if ScanOp(s).Some? {
        SomeRow(s);
        assert false;
      }
      return 0;
    }

    method SkipDigits(start: nat) returns (index: nat)
      requires start <= |input|
      ensures index == start + Digits(input[start..])
    {
      index := start;
      while index < |input| && IsDigit(input[index])
        invariant start <= index <= |input|
        invariant start + Digits(input[start..]) == index + Digits(input[index..])
      {
        assert input[index..][1..] == input[index + 1..];
        index := index + 1;
      }
    }

    method NumberEnd(start: nat) returns (index: nat)
      requires start <= |input|
      ensures index == start + NumberLength(input[start..])
    {
      ghost var s := input[start..];
      index := SkipDigits(start);
      assert s[Digits(s)..] == input[index..];
      if index < |input| && input[index] == '.' {
        assert s[Digits(s) + 1..] == input[index + 1..];
        index := SkipDigits(index + 1);
      }
    }

    method IdentifierEnd(start: nat) returns (index: nat)
      requires start < |input| && IsAlphabetic(input[start])
      ensures index == start + Identifiers(input[start..])
    {
      index := start + 1;
      assert input[start..][1..] == input[index..];
      while index < |input| && IsIdentifier(input[index])
        invariant start < index <= |input|
        invariant start + Identifiers(input[start..]) == index + Identifiers(input[index..])
      {
        assert input[index..][1..] == input[index + 1..];
        index := index + 1;
      }
    }

    method SkipSpaces() returns (start: nat)
      requires Valid()
      ensures start == inputIndex + Spaces(input[inputIndex..])
    {
      start := inputIndex;
      while start < |input| && input[start] == ' '
        invariant inputIndex <= start <= |input|
        invariant inputIndex + Spaces(input[inputIndex..]) == start + Spaces(input[start..])
      {
        assert input[start..][1..] == input[start + 1..];
        start := start + 1;
      }
    }

    /** The token after the white space; its length is zero at the end and where no token starts. */
    method FindNext() returns (start: nat, length: nat)
      requires Valid()
      ensures start == inputIndex + Spaces(input[inputIndex..])
      ensures length == if start == |input| || Scan(input[start..]).None? then 0
                        else |Spell(Scan(input[start..]).value)|
    {
      start := SkipSpaces();
      if start >= |input| {
        return start, 0;
      }
      length := NextOperator(start);
      if length != 0 {
        return;
      }
      var c := input[start];
      assert c == input[start..][0];
      if IsDigit(c) {
        var index := NumberEnd(start);
        length := index - start;
      } else if IsAlphabetic(c) {
        var index := IdentifierEnd(start);
        length := index - start;
      } else if c == '(' || c == ')' {
        length := 1;
      }
    }

    /** `fd_eval_next`: the spelling of the next token, empty when there is none. */
    method Next() returns (token: string, end: nat)
      requires Valid()
      ensures inputIndex <= end <= |input|
      ensures Remaining() == [] ==> token == "" && Lex(input[end..]) == []
      ensures Remaining() != [] ==>
                && IsToken(Remaining()[0]) && token == Spell(Remaining()[0])
                && inputIndex < end && Lex(input[end..]) == Remaining()[1..]
    {
      hide Lex, IsToken, Scan, Spell;
      ghost var s := input[inputIndex..];
      var start, length := FindNext();
      end := start + length;
      token := input[start..end];
      ghost var n := Spaces(s);
      SliceOfDrop(input, inputIndex, n, n + length);
      SliceOfDrop(input, inputIndex, n + length, n + length);
      NextOfText(s);
    }

    method Consume()
      requires Valid()
      modifies `inputIndex
      ensures Valid()
      ensures old(Remaining()) == [] ==> inputIndex >= old(inputIndex) && Remaining() == []
      ensures old(Remaining()) != [] ==> inputIndex > old(inputIndex) && Remaining() == old(Remaining())[1..]
    {
      var _, end := Next();
      inputIndex := end;
    }

    /** `fd_eval_expect`; the empty string stands for the end, and for an unrecognised character just as well. */
    method Expect(text: string)
      requires Valid()
      requires text == "" || text == ")"
      modifies `inputIndex, `error
      ensures Valid() && inputIndex >= old(inputIndex)
      ensures text == "" ==> error == (old(error) || old(Remaining()) != [])
      ensures text == ")" ==>
                if old(Remaining()) != [] && old(Remaining())[0] == Close
                then error == old(error) && Remaining() == old(Remaining())[1..]
                else error && inputIndex == old(inputIndex)
    {
      var token, _ := Next();
      if token == text {
        if text == ")" {
          OnlyClose(Remaining()[0]);
        }
        Consume();
      } else {
        error := true;
      }
    }

    // -------------------------------------------------------------- operators and allocation

    /** `fd_eval_is_unary`. */
    method FindUnary(text: string) returns (row: Option<UnaryOperator>)
      ensures row.Some? ==> row.value.text == text == OpText(row.value.op) && IsUnary(row.value.op)
                            && row.value.precedence == UNARY
      ensures row.None? ==> text != "+" && text != "-" && text != "!"
    {
      var i := 0;
      while i < |UNARY_OPERATORS|
        invariant i <= |UNARY_OPERATORS|
        invariant forall j: nat :: j < i ==> UNARY_OPERATORS[j].text != text
      {
        if UNARY_OPERATORS[i].text == text {
          return Some(UNARY_OPERATORS[i]);
        }
        i := i + 1;
      }
      assert UNARY_OPERATORS[0].text != text && UNARY_OPERATORS[1].text != text && UNARY_OPERATORS[2].text != text;
      return None;
    }

    /** `fd_eval_is_binary`. */
    method FindBinary(text: string) returns (row: Option<BinaryOperator>)
      ensures row.Some? ==> row.value.text == text == OpText(row.value.op) && IsBinary(row.value.op)
                            && row.value.precedence == Precedence(row.value.op)
                            && row.value.associativity == LeftToRight
      ensures row.None? ==> forall op :: IsBinary(op) ==> OpText(op) != text
    {
      var i := 0;
      while i < |BINARY_OPERATORS|
        invariant i <= |BINARY_OPERATORS|
        invariant forall j: nat :: j < i ==> BINARY_OPERATORS[j].text != text
      {
        if BINARY_OPERATORS[i].text == text {
          BinaryRow(i);
          return Some(BINARY_OPERATORS[i]);
        }
        i := i + 1;
      }
      forall op | IsBinary(op) ensures OpText(op) != text {
        assert BINARY_OPERATORS[Row(op)].text != text;
      }
      return None;
    }

    /** A full heap hands out the error node again and again; a heap of no nodes does so without an error. */
    method AllocateNode(content: Node) returns (link: Link)
      requires Valid()
      modifies this`heapIndex, this`errorNode, this`error, this`written, nodes
      ensures Valid() && written == old(written) + [content]
      ensures link == if |old(written)| < nodes.Length then At(|old(written)|) else ErrorLink
      ensures error == (old(error) || Exhausted())
    {
      written := written + [content];
      if heapIndex >= nodes.Length {
        if nodes.Length > 0 {
          error := true;
        }
        errorNode := content;
        return ErrorLink;
      }
      nodes[heapIndex] := content;
      link := At(heapIndex);
      heapIndex := heapIndex + 1;
    }

    // -------------------------------------------------------------- the parser

    /** The tree `d` has been written after `before`, and `link` points to its root. */
    ghost predicate Wrote(d: Draft, before: seq<Node>, link: Link)
      reads this
    {
      && written == before + Layout(d, |before|, nodes.Length)
      && link == LinkOf(d, |before|, nodes.Length)
    }

    /** How one parsing method leaves the object, given what the parser over tokens makes of the same tokens. */
    ghost predicate Left(r: Recovered, before: seq<Node>, link: Link, failed: bool)
      requires inputIndex <= |input|
      reads this
    {
      && Remaining() == r.rest && Wrote(r.tree, before, link)
      && error == (failed || r.error || Exhausted())
    }

    method ParsePrefix(row: UnaryOperator) returns (link: Link)
      requires Valid() && Remaining() != [] && Remaining()[0] == Symbol(row.op)
      requires IsUnary(row.op) && row.precedence == UNARY
      modifies this`inputIndex, this`heapIndex, this`errorNode, this`error, this`written, nodes
      ensures Valid() && inputIndex >= old(inputIndex)
      ensures Left(RecoverPrimary(old(Remaining())), old(written), link, old(error))
      decreases |input| - inputIndex, 0
    {
      hide Lex, Layout, LinkOf, Size, After;
      ghost var r := RecoverExpression(Remaining()[1..], UNARY);
      Consume();
      var node := ParseExpression(row.precedence);
      link := AllocateNode(UnaryNode(row.op, node));
      WrittenPrefix(row.op, r.tree, old(written), nodes.Length);
      RootLink(DraftPrefix(row.op, r.tree), old(written), nodes.Length);
    }

    /** `fd_eval_highest_priority`. */
    method HighestPriority() returns (link: Link)
      requires Valid()
      modifies this`inputIndex, this`heapIndex, this`errorNode, this`error, this`written, nodes
      ensures Valid() && inputIndex >= old(inputIndex)
      ensures Left(RecoverPrimary(old(Remaining())), old(written), link, old(error))
      decreases |input| - inputIndex, 1
    {
      hide Lex, After;
      ghost var ts := Remaining();
      var next, _ := Next();
      PrimaryByText(ts, next);
      var unary := FindUnary(next);
      if unary.Some? {
        link := ParsePrefix(unary.value);
        return;
      }
      if next == "(" {
        Consume();
        link := ParseExpression(0);
        Expect(")");
        return;
      }
      if |next| > 0 && (IsAlphabetic(next[0]) || IsDigit(next[0])) {
        Consume();
        link := AllocateNode(LeafNode(next));
        return;
      }
      error := true;
      link := ErrorLink;
    }

    /** `fd_eval_expression`. */
    method ParseExpression(precedence: nat) returns (link: Link)
      requires Valid()
      modifies this`inputIndex, this`heapIndex, this`errorNode, this`error, this`written, nodes
      ensures Valid() && inputIndex >= old(inputIndex)
      ensures Left(RecoverExpression(old(Remaining()), precedence), old(written), link, old(error))
      decreases |input| - inputIndex, 2
    {
      hide Lex, IsToken, RecoverPrimary, RecoverExpression, RecoverClimb, Continues, Wrote, After;
      ghost var whole := RecoverExpression(Remaining(), precedence);
      ghost var before, failed := written, error;
      ghost var primary := RecoverPrimary(Remaining());
      ExpressionIsClimb(Remaining(), precedence);
      link := HighestPriority();
      ghost var built, wrong := primary.tree, primary.error;
      while true
        invariant Valid() && old(inputIndex) <= inputIndex
        invariant whole == RecoverClimb(built, wrong, Remaining(), precedence)
        invariant Wrote(built, before, link) && error == (failed || wrong || Exhausted())
        decreases |input| - inputIndex
      {
        ghost var ts := Remaining();
        var next, _ := Next();
        var row := FindBinary(next);
        NextBinary(ts, next, row, precedence);
        ClimbTurn(built, wrong, ts, precedence);
        if row.None? || row.value.precedence < precedence {
          break;
        }
        ghost var r := RecoverExpression(ts[1..], 1 + Precedence(row.value.op));
        link := ParseInfix(row.value, link, built, before);
        built, wrong := DraftInfix(row.value.op, built, r.tree), wrong || r.error;
      }
    }

    /** One turn of the loop in `fd_eval_expression`: the operator, its right operand and the node for both. */
    method ParseInfix(row: BinaryOperator, left: Link, ghost built: Draft, ghost before: seq<Node>)
        returns (link: Link)
      requires Valid() && Remaining() != [] && Remaining()[0] == Symbol(row.op)
      requires IsBinary(row.op) && row.precedence == Precedence(row.op) && row.associativity == LeftToRight
      requires Wrote(built, before, left)
      modifies this`inputIndex, this`heapIndex, this`errorNode, this`error, this`written, nodes
      ensures Valid() && inputIndex > old(inputIndex)
      ensures var r := RecoverExpression(old(Remaining())[1..], 1 + Precedence(row.op));
              && Remaining() == r.rest && Wrote(DraftInfix(row.op, built, r.tree), before, link)
              && error == (old(error) || r.error || Exhausted())
      ensures |written| > |old(written)|
      decreases |input| - inputIndex, 0
    {
      hide Lex, Layout, LinkOf, Size, After, RecoverExpression;
      var nextPrecedence := if row.associativity == RightToLeft then row.precedence else 1 + row.precedence;
      ghost var r := RecoverExpression(Remaining()[1..], nextPrecedence);
      Consume();
      ghost var middle := |written|;
      var right := ParseExpression(nextPrecedence);
      link := AllocateNode(BinaryNode(row.op, left, right));
      WrittenInfix(row.op, built, r.tree, before, nodes.Length);
      RootLink(DraftInfix(row.op, built, r.tree), before, nodes.Length);
    }

    /**
     `fd_eval_parse`, for any text and any heap: the tree and the error are those of the parser over tokens, and what
     was written says what is in the heap and in the error node.
    */
    method ParseAll() returns (tree: Link)
      requires Valid() && inputIndex == 0 && written == [] && !error
      modifies this`inputIndex, this`heapIndex, this`errorNode, this`error, this`written, nodes
      ensures Valid()
      ensures var r := Recover(Lex(input));
              && tree == LinkOf(r.tree, 0, nodes.Length) && Contents() == Built(r.tree, nodes.Length)
              && error == (r.error || 0 < nodes.Length < Size(r.tree))
      ensures !error <==> Parse(Lex(input)).Some? && (nodes.Length == 0 || NodeTokens(Lex(input)) <= nodes.Length)
    {
      hide Lex, RecoverExpression, IsToken, Parse, After, LinkOf;
      ghost var ts := Remaining();
      assert input[0..] == input;
      RecoverIsParse(ts);
      SizeCountsTokens(ts);
      tree := ParseExpression(0);
      assert written == Layout(Recover(ts).tree, 0, nodes.Length);
      Expect("");
    }

    // -------------------------------------------------------------- evaluation

    /** `fd_eval_evaluate_leaf`. */
    method EvaluateLeaf<V>(m: Meaning<V>, text: string) returns (value: V)
      modifies this`error
      ensures value == LeafValue(m, text) && error == (old(error) || !LeafKnown(m, text))
    {
      if text == "" {
        return m.errorValue;
      }
      var symbol := m.leaf(text);
      if symbol.Some? {
        value := symbol.value;
      } else {
        error := true;
        value := m.errorValue;
      }
    }

    /** `fd_eval_evaluate`, wherever following the nodes from `link` comes to an end. */
    method Evaluate<V>(m: Meaning<V>, link: Link, ghost depth: nat) returns (value: V)
      requires Valid() && EndsWithin(Contents(), link, depth)
      modifies this`error
      ensures Valid() && Contents() == old(Contents())
      ensures value == ValueWithin(m, old(Contents()), link, depth)
      ensures error == (old(error) || !KnownWithin(m, old(Contents()), link, depth))
      decreases depth
    {
      hide After;
      var node := if link.At? then nodes[link.index] else errorNode;
      match node
      case LeafNode(text) =>
        value := EvaluateLeaf(m, text);
      case UnaryNode(op, operand) =>
        var a := Evaluate(m, operand, depth - 1);
        value := m.unary(op, a);
      case BinaryNode(op, left, right) =>
        var a := Evaluate(m, left, depth - 1);
        var b := Evaluate(m, right, depth - 1);
        value := m.binary(op, a, b);
    }
  }

  lemma RootLink(d: Draft, before: seq<Node>, limit: nat)
    requires !d.Missing?
    ensures LinkOf(d, |before|, limit) ==
            if |before + Layout(d, |before|, limit)| - 1 < limit
            then At(|before + Layout(d, |before|, limit)| - 1) else ErrorLink
  {
  }

  /** `fd_eval_check`: what is accepted is what the grammar derives from the tokens that were recognised. */
  method Check(expression: string) returns (ok: bool)
    ensures ok <==> Parse(Lex(expression)).Some?
  {
    var heap := new Node[0];
    var parser := new Parser(expression, heap);
    var _ := parser.ParseAll();
    ok := !parser.error;
  }

  /**
   `fd_eval_calculate` on this text returns with a heap of `limit` nodes: the tree it builds fits, or it has no holes
   and is one node over.
  */
  predicate CalculationEnds(expression: string, limit: nat) {
    Fitting(Recover(Lex(expression)).tree, limit)
  }

  /** It does so exactly if evaluation of what the parser leaves in memory ends. */
  lemma CalculationEndsExactly(expression: string, limit: nat)
    ensures var d := Recover(Lex(expression)).tree;
            && Sound(Built(d, limit))
            && (Terminates(Built(d, limit), LinkOf(d, 0, limit)) <==> CalculationEnds(expression, limit))
  {
    hide Built;
    BuiltIsSound(Recover(Lex(expression)).tree, limit);
    EndsExactly(Recover(Lex(expression)).tree, limit);
  }

  /** By the number of tokens: any text ends if they fit, and one that parses exactly if they are at most one over. */
  lemma CalculationEndsByTokens(expression: string, limit: nat)
    ensures NodeTokens(Lex(expression)) <= limit ==> CalculationEnds(expression, limit)
    ensures Parse(Lex(expression)).Some? ==>
              (CalculationEnds(expression, limit) <==> NodeTokens(Lex(expression)) <= limit + 1)
  {
    SizeCountsTokens(Lex(expression));
    RecoverIsParse(Lex(expression));
  }

  /** "--1" and a heap of one node: the leaf takes the node, and both signs the error node, its own operand then. */
  lemma TwoSignsNeverEnd()
    ensures Parse(Lex("--1")).Some? && !CalculationEnds("--1", 1)
    ensures var d := Recover(Lex("--1")).tree;
            && LinkOf(d, 0, 1) == ErrorLink
            && Built(d, 1) == Memory([LeafNode("1")], UnaryNode(Minus, ErrorLink))
  {
    hide Lex;
    TwoSignsLexed();
    TwoSignsRecovered();
    RecoverIsParse(Lex("--1"));
    var one := DraftPrefix(Minus, DraftLeaf("1"));
    assert Layout(one, 0, 1) == [LeafNode("1"), UnaryNode(Minus, At(0))];
    assert Layout(DraftPrefix(Minus, one), 0, 1)
        == [LeafNode("1"), UnaryNode(Minus, At(0)), UnaryNode(Minus, ErrorLink)];
  }

  lemma TwoSignsRecovered()
    ensures Recover([Symbol(Minus), Symbol(Minus), Value("1")])
            == Recovered(DraftPrefix(Minus, DraftPrefix(Minus, DraftLeaf("1"))), [], false)
  {
    var ts := [Symbol(Minus), Symbol(Minus), Value("1")];
    assert ts[1..] == [Symbol(Minus), Value("1")] && ts[1..][1..] == [Value("1")];
    assert RecoverExpression([Value("1")], UNARY) == Recovered(DraftLeaf("1"), [], false);
    assert RecoverExpression(ts[1..], UNARY) == Recovered(DraftPrefix(Minus, DraftLeaf("1")), [], false);
  }

  lemma TwoSignsLexed()
    ensures Lex("--1") == [Symbol(Minus), Symbol(Minus), Value("1")]
  {
    hide Lex;
    OneLexed();
    SignLexed("1");
    assert "-" + "1" == "-1";
    SignLexed("-1");
    assert "-" + "-1" == "--1";
    assert [Symbol(Minus)] + [Value("1")] == [Symbol(Minus), Value("1")];
  }

  lemma SignLexed(rest: string)
    ensures Lex("-" + rest) == [Symbol(Minus)] + Lex(rest)
  {
    var s := "-" + rest;
    assert s[0..] == s && s[1..] == rest && Spaces(s) == 0;
    assert Scan(s) == Some(Symbol(Minus));
  }

  lemma OneLexed()
    ensures Lex("1") == [Value("1")]
  {
    var s := "1";
    assert s[0..] == s && s[1..] == "" && s[..1] == s;
    assert Digits(s) == 1 && NumberLength(s) == 1;
    assert Scan(s) == Some(Value("1")) && Lex("") == [];
  }

  lemma {:induction false} LexedAreTokens(s: string, i: nat)
    requires i < |Lex(s)|
    ensures IsToken(Lex(s)[i])
    decreases |s|
  {
    hide Scan, IsToken, Spell, Spaces;
    var r := s[Spaces(s)..];
    LexUnfolds(s);
    ScannedIsToken(r);
    if i == 0 {
    } else {
      LexedAreTokens(r[|Spell(Scan(r).value)|..], i - 1);
    }
  }

  /** No value in a text that parses is empty. */
  lemma ParsedHasTexts(s: string)
    requires Parse(Lex(s)).Some?
    ensures HasTexts(Erase(Parse(Lex(s)).value))
  {
    var c := Parse(Lex(s)).value;
    hide Lex, Parse;
    ParseIsTheGrammar(Lex(s), c);
    forall text | Value(text) in Flat(c) ensures text != "" {
      var i :| 0 <= i < |Lex(s)| && Lex(s)[i] == Value(text);
      LexedAreTokens(s, i);
    }
    PhraseHasTexts(c);
  }

  /**
   `fd_eval_calculate`, wherever it returns: success is reported exactly when the grammar derives the tokens, the heap has
   room (or no nodes at all) and every value is known, and then the value is the image of the one tree of the text.
  */
  method Calculate<V>(expression: string, heap: array<Node>, m: Meaning<V>) returns (success: bool, value: V)
    requires CalculationEnds(expression, heap.Length)
    modifies heap
    ensures value == Denote(m, Recover(Lex(expression)).tree)
    ensures success <==>
              && Parse(Lex(expression)).Some? && (heap.Length == 0 || NodeTokens(Lex(expression)) <= heap.Length)
              && AllValues(m, Erase(Parse(Lex(expression)).value))
    ensures success ==> value == Image(m, Erase(Parse(Lex(expression)).value))
  {
    hide Lex, Recover, Built;
    ghost var d := Recover(Lex(expression)).tree;
    RecoverIsParse(Lex(expression));
    if Parse(Lex(expression)).Some? {
      ParsedHasTexts(expression);
      DenoteIsImage(m, Erase(Parse(Lex(expression)).value));
    }
    var parser := new Parser(expression, heap);
    var tree := parser.ParseAll();
    FittingEnds(m, d, heap.Length);
    value := parser.Evaluate(m, tree, Size(d) + 1);
    success := !parser.error;
  }

  /** With values and operators that mean themselves, the result is the tree that the grammar gives to the text. */
  method CalculateTree(expression: string, heap: array<Node>) returns (success: bool, tree: Expr)
    requires CalculationEnds(expression, heap.Length)
    modifies heap
    ensures success <==>
              Parse(Lex(expression)).Some? && (heap.Length == 0 || NodeTokens(Lex(expression)) <= heap.Length)
    ensures success ==> tree == Erase(Parse(Lex(expression)).value)
  {
    hide Lex, Recover;
    if Parse(Lex(expression)).Some? {
      ParsedHasTexts(expression);
      DenoteIsImage(Free(), Erase(Parse(Lex(expression)).value));
      FreeDenotesItself(Erase(Parse(Lex(expression)).value));
    }
    success, tree := Calculate(expression, heap, Free());
  }

  // ---------------------------------------------------------------- what the verdict means for a text

  /** The whole text is tokens and the grammar derives them. */
  ghost predicate IsSentence(s: string) {
    AllRecognised(s) && exists c :: Fits(c, 0) && Flat(c) == Lex(s)
  }

  /** On texts made of tokens throughout the verdict is membership in the language. */
  lemma VerdictOnTokens(s: string)
    requires AllRecognised(s)
    ensures Parse(Lex(s)).Some? <==> IsSentence(s)
  {
    if Parse(Lex(s)).Some? {
      ParseIsTheGrammar(Lex(s), Parse(Lex(s)).value);
    }
    if IsSentence(s) {
      var c :| Fits(c, 0) && Flat(c) == Lex(s);
      ParseIsTheGrammar(Lex(s), c);
    }
  }

  /** Exactly on those texts, and on the ones that are refused anyway. */
  lemma VerdictIsRightExactly(s: string)
    ensures (Parse(Lex(s)).Some? <==> IsSentence(s)) <==> (AllRecognised(s) || Parse(Lex(s)).None?)
  {
    if AllRecognised(s) {
      VerdictOnTokens(s);
    }
  }

  /** An unrecognised character ends the text as far as the parser can tell, so what follows is not looked at. */
  lemma AcceptsTrailingJunk()
    ensures Parse(Lex("1$(")).Some? && !AllRecognised("1$(")
  {
    var s := "1$(";
    assert s[0..] == s && s[1..] == "$(" && Identifiers(s[1..]) == 0;
    assert Digits(s) == 1 && NumberLength(s) == 1;
    assert s[..1] == "1" && Scan(s) == Some(Value("1"));
    assert Scan(s[1..]) == None && s[1..][0..] == s[1..];
    assert Lex(s[1..]) == [];
    assert Lex(s) == [Value("1")];
    assert Primary(Lex(s)) == Ok(Atom("1"), []);
  }

  lemma ExpressionIsClimb(ts: seq<Token>, p: nat)
    ensures var r := RecoverPrimary(ts); RecoverExpression(ts, p) == RecoverClimb(r.tree, r.error, r.rest, p)
  {
  }

  /** One turn of the loop. */
  lemma ClimbTurn(left: Draft, error: bool, ts: seq<Token>, p: nat)
    ensures !Continues(ts, p) ==> RecoverClimb(left, error, ts, p) == Recovered(left, ts, error)
    ensures Continues(ts, p) ==>
              && ts != [] && ts[0].Symbol?
              && var r := RecoverExpression(ts[1..], 1 + Precedence(ts[0].op));
              RecoverClimb(left, error, ts, p)
              == RecoverClimb(DraftInfix(ts[0].op, left, r.tree), error || r.error, r.rest, p)
  {
  }

  /** The loop of an expression goes on exactly when the tokens do. */
  lemma NextBinary(ts: seq<Token>, next: string, row: Option<BinaryOperator>, precedence: nat)
    requires ts == [] ==> next == ""
    requires ts != [] ==> IsToken(ts[0]) && next == Spell(ts[0])
    requires row.Some? ==> row.value.text == next == OpText(row.value.op) && IsBinary(row.value.op)
                           && row.value.precedence == Precedence(row.value.op)
    requires row.None? ==> forall op :: IsBinary(op) ==> OpText(op) != next
    ensures row.Some? && row.value.precedence >= precedence <==> Continues(ts, precedence)
    ensures row.Some? ==> ts != [] && ts[0] == Symbol(row.value.op)
  {
    if row.Some? {
      SpelledOnce(ts[0], row.value.op);
    }
  }

  /** Where no token starts right here, there are no more tokens. */
  lemma LexIsOver(s: string)
    requires Spaces(s) == 0 && (s == "" || Scan(s).None?)
    ensures Lex(s) == []
  {
    assert s[0..] == s;
  }

  lemma OnlyClose(t: Token)
    requires IsToken(t) && Spell(t) == ")"
    ensures t == Close
  {
  }
}
