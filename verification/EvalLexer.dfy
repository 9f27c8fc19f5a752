/**
 The lexer of subsys/base/src/fd_eval.c on the text that remains, and its inverse: spelling a token list with any
 amount of white space. White space may be left out altogether between the tokens of a phrase.
*/
module EvalLexer {
  import opened Bytes
  import opened EvalGrammar

  predicate IsDigit(c: char) { '0' <= c <= '9' }

  predicate IsAlphabetic(c: char) { 'a' <= c <= 'z' }

  predicate IsIdentifier(c: char) { IsAlphabetic(c) || IsDigit(c) || c == '_' }

  function OpText(op: Op): (s: string)
    ensures 1 <= |s| <= 2
  {
    match op
    case Times => "*" case Divide => "/" case Plus => "+" case Minus => "-"
    case AtMost => "<=" case Less => "<" case AtLeast => ">=" case Greater => ">"
    case Equal => "==" case NotEqual => "!=" case And => "&&" case Or => "||" case Not => "!"
  }

  function Spell(t: Token): string {
    match t
    case Value(text) => text
    case Open => "("
    case Close => ")"
    case Symbol(op) => OpText(op)
  }

  function Spaces(s: string): (n: nat)
    ensures n <= |s| && (n < |s| ==> s[n] != ' ') && forall i :: 0 <= i < n ==> s[i] == ' '
  {
    if s == "" || s[0] != ' ' then 0 else 1 + Spaces(s[1..])
  }

  function Digits(s: string): (n: nat)
    ensures n <= |s| && (n < |s| ==> !IsDigit(s[n])) && forall i :: 0 <= i < n ==> IsDigit(s[i])
  {
    if s == "" || !IsDigit(s[0]) then 0 else 1 + Digits(s[1..])
  }

  function Identifiers(s: string): (n: nat)
    ensures n <= |s| && (n < |s| ==> !IsIdentifier(s[n])) && forall i :: 0 <= i < n ==> IsIdentifier(s[i])
  {
    if s == "" || !IsIdentifier(s[0]) then 0 else 1 + Identifiers(s[1..])
  }

  /** Digits, then optionally a point and more digits. */
  function NumberLength(s: string): (n: nat)
    ensures Digits(s) <= n <= |s|
  {
    var d := Digits(s);
    if d < |s| && s[d] == '.' then d + 1 + Digits(s[d + 1..]) else d
  }

  /** The operator at the front of the text, the longer one where one extends another. */
  function ScanOp(s: string): Option<Op>
    requires s != ""
  {
    var c := s[0];
    var d := if |s| > 1 then s[1] else ' ';
    if c == '*' then Some(Times)
    else if c == '/' then Some(Divide)
    else if c == '+' then Some(Plus)
    else if c == '-' then Some(Minus)
    else if c == '<' then Some(if d == '=' then AtMost else Less)
    else if c == '>' then Some(if d == '=' then AtLeast else Greater)
    else if c == '!' then Some(if d == '=' then NotEqual else Not)
    else if c == '=' && d == '=' then Some(Equal)
    else if c == '&' && d == '&' then Some(And)
    else if c == '|' && d == '|' then Some(Or)
    else None
  }

  /** The token at the front of the text, if there is one. */
  function Scan(s: string): (t: Option<Token>)
    requires s != ""
    ensures t.Some? ==> 1 <= |Spell(t.value)| <= |s| && s[..|Spell(t.value)|] == Spell(t.value)
  {
    var c := s[0];
    if ScanOp(s).Some? then Some(Symbol(ScanOp(s).value))
    else if IsDigit(c) then Some(Value(s[..NumberLength(s)]))
    else if IsAlphabetic(c) then Some(Value(s[..Identifiers(s)]))
    else if c == '(' then Some(Open)
    else if c == ')' then Some(Close)
    else None
  }

  /** The tokens up to the end of the text or to the first character that starts none. */
  function Lex(s: string): seq<Token>
    decreases |s|
  {
    var s := s[Spaces(s)..];
    if s == "" || Scan(s).None? then []
    else [Scan(s).value] + Lex(s[|Spell(Scan(s).value)|..])
  }

  /** The lexer gets through the whole text. */
  predicate AllRecognised(s: string)
    decreases |s|
  {
    var s := s[Spaces(s)..];
    s == "" || (Scan(s).Some? && AllRecognised(s[|Spell(Scan(s).value)|..]))
  }

  // ---------------------------------------------------------------- spelling tokens

  /** A token the lexer can produce: alone in the text it is read as itself. */
  predicate IsToken(t: Token) {
    Spell(t) != "" && Scan(Spell(t)) == Some(t)
  }

  /** `rest` does not lengthen the token `t` when it follows it directly. */
  predicate Separates(t: Token, rest: string) {
    rest == "" ||
    match t
    case Value(_) => !IsIdentifier(rest[0]) && rest[0] != '.'
    case Symbol(op) => op in {Less, Greater, Not} ==> rest[0] != '='
    case Open | Close => true
  }

  lemma {:induction false} DigitsStop(s: string, rest: string)
    requires rest != "" ==> !IsDigit(rest[0])
    ensures Digits(s + rest) == Digits(s)
  {
    if s == "" {
      assert s + rest == rest;
    } else if IsDigit(s[0]) {
      assert (s + rest)[1..] == s[1..] + rest;
      DigitsStop(s[1..], rest);
    }
  }

  lemma {:induction false} IdentifiersStop(s: string, rest: string)
    requires rest != "" ==> !IsIdentifier(rest[0])
    ensures Identifiers(s + rest) == Identifiers(s)
  {
    if s == "" {
      assert s + rest == rest;
    } else if IsIdentifier(s[0]) {
      assert (s + rest)[1..] == s[1..] + rest;
      IdentifiersStop(s[1..], rest);
    }
  }

  lemma NumberStops(s: string, rest: string)
    requires rest != "" ==> !IsDigit(rest[0]) && rest[0] != '.'
    ensures NumberLength(s + rest) == NumberLength(s)
  {
    DigitsStop(s, rest);
    var d := Digits(s);
    if d < |s| && s[d] == '.' {
      assert (s + rest)[d + 1..] == s[d + 1..] + rest;
      DigitsStop(s[d + 1..], rest);
    }
  }

  lemma ScanOpStops(op: Op, rest: string)
    requires Separates(Symbol(op), rest)
    ensures ScanOp(OpText(op) + rest) == Some(op)
  {
  }

  lemma ScanValueStops(text: string, rest: string)
    requires IsToken(Value(text)) && Separates(Value(text), rest)
    ensures Scan(text + rest) == Some(Value(text))
  {
    var s := text + rest;
    var c := s[0];
    assert c == text[0];
    assert IsDigit(c) || IsAlphabetic(c) by {
      assert ScanOp(text).None?;
    }
    assert ScanOp(s).None?;
    assert text[..|text|] == text && s[..|text|] == text;
    if IsDigit(c) {
      NumberStops(text, rest);
    } else {
      IdentifiersStop(text, rest);
    }
  }

  /** A token is read off the front of any text that does not lengthen it. */
  lemma ScanStops(t: Token, rest: string)
    requires IsToken(t) && Separates(t, rest)
    ensures Scan(Spell(t) + rest) == Some(t)
  {
    match t
    case Value(text) => ScanValueStops(text, rest);
    case Symbol(op) => ScanOpStops(op, rest);
    case Open | Close =>
  }

  function Blanks(n: nat): (s: string)
    ensures |s| == n && forall i :: 0 <= i < n ==> s[i] == ' '
  {
    if n == 0 then "" else " " + Blanks(n - 1)
  }

  /** The tokens in order, with `gaps[i]` blanks before token i and `gaps[|ts|]` after the last. */
  function Write(ts: seq<Token>, gaps: seq<nat>): string
    requires |gaps| == |ts| + 1
  {
    if ts == [] then Blanks(gaps[0])
    else Blanks(gaps[0]) + (Spell(ts[0]) + Write(ts[1..], gaps[1..]))
  }

  /** Neighbours that may be written without a blank between them. */
  predicate MayTouch(t: Token, u: Token) {
    match t
    case Value(_) => !u.Value?
    case Symbol(op) => op in {Less, Greater, Not} ==> !u.Symbol? || u.op in {Plus, Minus, Not, Times, Divide}
    case Open | Close => true
  }

  predicate AllMayTouch(ts: seq<Token>) {
    forall i :: 0 < i < |ts| ==> MayTouch(ts[i - 1], ts[i])
  }

  predicate AllTokens(ts: seq<Token>) {
    forall t :: t in ts ==> IsToken(t)
  }

  lemma SpacesOfBlanks(n: nat, rest: string)
    requires rest != "" ==> rest[0] != ' '
    ensures Spaces(Blanks(n) + rest) == n
  {
    if n == 0 {
      assert Blanks(n) + rest == rest;
    } else {
      assert (Blanks(n) + rest)[1..] == Blanks(n - 1) + rest;
      SpacesOfBlanks(n - 1, rest);
    }
  }

  /** One token after its blanks. */
  lemma LexStep(gap: nat, t: Token, rest: string)
    requires IsToken(t) && Separates(t, rest)
    ensures var s := Blanks(gap) + (Spell(t) + rest);
            Lex(s) == [t] + Lex(rest) && (AllRecognised(s) <==> AllRecognised(rest))
  {
    var body := Spell(t) + rest;
    assert body[0] == Spell(t)[0] != ' ';
    SpacesOfBlanks(gap, body);
    assert (Blanks(gap) + body)[gap..] == body;
    ScanStops(t, rest);
    assert body[|Spell(t)|..] == rest;
    hide Scan, IsToken, Separates, Spell, Blanks;
  }

  /** What follows a token in a written list does not lengthen it. */
  lemma WrittenSeparates(t: Token, ts: seq<Token>, gaps: seq<nat>)
    requires |gaps| == |ts| + 1 && AllTokens(ts) && (ts != [] ==> MayTouch(t, ts[0]))
    ensures Separates(t, Write(ts, gaps))
  {
    var rest := Write(ts, gaps);
    if gaps[0] > 0 {
      assert rest[0] == ' ';
    } else if ts != [] {
      assert IsToken(ts[0]);
      assert rest[0] == Spell(ts[0])[0];
    }
  }

  lemma LexOfBlanks(n: nat)
    ensures Lex(Blanks(n)) == [] && AllRecognised(Blanks(n))
  {
    SpacesOfBlanks(n, "");
    assert Blanks(n) + "" == Blanks(n);
  }

  /** Lexing undoes writing, whatever the gaps, when no two neighbours run into each other. */
  lemma {:induction false} LexOfWrite(ts: seq<Token>, gaps: seq<nat>)
    requires |gaps| == |ts| + 1 && AllTokens(ts) && AllMayTouch(ts)
    ensures Lex(Write(ts, gaps)) == ts && AllRecognised(Write(ts, gaps))
  {
    hide Scan, IsToken, MayTouch, Lex, AllRecognised;
    var s := Write(ts, gaps);
    if ts == [] {
      LexOfBlanks(gaps[0]);
    } else {
      var rest := Write(ts[1..], gaps[1..]);
      forall i | 0 < i < |ts[1..]| ensures MayTouch(ts[1..][i - 1], ts[1..][i]) {
        assert MayTouch(ts[i], ts[i + 1]);
      }
      WrittenSeparates(ts[0], ts[1..], gaps[1..]);
      LexStep(gaps[0], ts[0], rest);
      LexOfWrite(ts[1..], gaps[1..]);
    }
  }

  // ---------------------------------------------------------------- the tokens of a phrase never run together

  predicate Starts(t: Token) {
    t.Value? || t.Open? || (t.Symbol? && IsUnary(t.op))
  }

  predicate Ends(t: Token) {
    t.Value? || t.Close?
  }

  lemma TouchAcross(a: seq<Token>, b: seq<Token>)
    requires AllMayTouch(a) && AllMayTouch(b)
    requires a != [] && b != [] ==> MayTouch(a[|a| - 1], b[0])
    ensures AllMayTouch(a + b)
  {
    var ts := a + b;
    forall i | 0 < i < |ts| ensures MayTouch(ts[i - 1], ts[i]) {
      if i < |a| {
        assert MayTouch(a[i - 1], a[i]);
      } else if i > |a| {
        assert MayTouch(b[i - |a| - 1], b[i - |a|]);
      }
    }
  }

  lemma {:induction false} PhraseMayTouch(c: Phrase, p: nat)
    requires Fits(c, p)
    ensures AllMayTouch(Flat(c)) && Starts(Flat(c)[0]) && Ends(Flat(c)[|Flat(c)| - 1])
  {
    match c
    case Atom(_) =>
    case Group(inner) =>
      PhraseMayTouch(inner, 0);
      TouchAcross([Open], Flat(inner));
      TouchAcross([Open] + Flat(inner), [Close]);
    case Unary(op, operand) =>
      PhraseMayTouch(operand, UNARY);
      TouchAcross([Symbol(op)], Flat(operand));
    case Binary(op, left, right) =>
      PhraseMayTouch(left, Precedence(op));
      PhraseMayTouch(right, Precedence(op) + 1);
      TouchAcross(Flat(left), [Symbol(op)]);
      TouchAcross(Flat(left) + [Symbol(op)], Flat(right));
  }

  /**
   Printing and parsing back, on text: a tree over readable values, written with the necessary parentheses and
   with any white space or none, is lexed completely and parsed to that tree.
  */
  lemma ParseOfText(e: Expr, gaps: seq<nat>)
    requires WellFormed(e) && AllTokens(Flat(Show(e, 0))) && |gaps| == |Flat(Show(e, 0))| + 1
    ensures var text := Write(Flat(Show(e, 0)), gaps);
            AllRecognised(text) && Parse(Lex(text)) == Some(Show(e, 0)) && Erase(Show(e, 0)) == e
  {
    ParseOfShow(e);
    ShowFits(e, 0);
    PhraseMayTouch(Show(e, 0), 0);
    LexOfWrite(Flat(Show(e, 0)), gaps);
  }

  // ---------------------------------------------------------------- which texts are values

  /** The characters of values, one by one. */
  lemma CharacterClasses(c: char)
    ensures IsDigit(c) <==> c in "0123456789"
    ensures IsAlphabetic(c) <==> c in "abcdefghijklmnopqrstuvwxyz"
    ensures IsIdentifier(c) <==> c in "0123456789" || c in "abcdefghijklmnopqrstuvwxyz" || c == '_'
  {
    hide IsIdentifier;
    DigitCharacters(c);
    LetterCharacters(c);
    IdentifierCharacters(c);
  }

  lemma DigitCharacters(c: char)
    ensures IsDigit(c) <==> c in "0123456789"
  {
    if IsDigit(c) {
      assert "0123456789"[c as int - '0' as int] == c;
    }
  }

  lemma LetterCharacters(c: char)
    ensures IsAlphabetic(c) <==> c in "abcdefghijklmnopqrstuvwxyz"
  {
    if IsAlphabetic(c) {
      assert "abcdefghijklmnopqrstuvwxyz"[c as int - 'a' as int] == c;
    }
  }

  lemma IdentifierCharacters(c: char)
    ensures IsIdentifier(c) <==> IsDigit(c) || IsAlphabetic(c) || c == '_'
  {
  }

  predicate AllDigits(s: string) {
    forall i :: 0 <= i < |s| ==> IsDigit(s[i])
  }

  /** Digits, and optionally a point and any number of digits. */
  ghost predicate IsNumber(text: string) {
    exists d: nat :: 1 <= d <= |text| && AllDigits(text[..d])
                     && (d == |text| || (text[d] == '.' && AllDigits(text[d + 1..])))
  }

  /** A letter, and any number of letters, digits and underscores. */
  predicate IsName(text: string) {
    text != "" && IsAlphabetic(text[0]) && forall i :: 0 <= i < |text| ==> IsIdentifier(text[i])
  }

  lemma NumberExactly(text: string)
    requires text != "" && IsDigit(text[0])
    ensures NumberLength(text) == |text| <==> IsNumber(text)
  {
    var n := Digits(text);
    assert AllDigits(text[..n]);
    if NumberLength(text) == |text| {
      assert n == |text| || (text[n] == '.' && AllDigits(text[n + 1..]));
    }
    if IsNumber(text) {
      var d: nat :| 1 <= d <= |text| && AllDigits(text[..d])
                    && (d == |text| || (text[d] == '.' && AllDigits(text[d + 1..])));
      assert forall i :: 0 <= i < d ==> text[..d][i] == text[i];
      assert n == d;
    }
  }

  /** A value token is a number or a name, and nothing else is. */
  lemma ValuesExactly(text: string)
    ensures IsToken(Value(text)) <==> IsNumber(text) || IsName(text)
  {
    hide NumberLength, Digits;
    if text != "" {
      assert text[..|text|] == text;
      if IsDigit(text[0]) {
        NumberExactly(text);
      }
    }
  }
}
