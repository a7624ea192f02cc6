/**
 The characters of an expression: how the node classes print themselves and how
 the lexer cuts a source string into tokens.
 */
module FscLexer {
  import opened FscExpr
  import opened Wrappers

  predicate Digit(c: char) {
    '0' <= c <= '9'
  }

  predicate SymStart(c: char) {
    'A' <= c <= 'Z' || 'a' <= c <= 'z' || c == '_'
  }

  predicate SymChar(c: char) {
    SymStart(c) || Digit(c) || c == ':'
  }

  predicate Blank(c: char) {
    c == ' ' || c == '\t' || c == '\n'
  }

  predicate IsName(x: string) {
    x != [] && SymStart(x[0]) && forall c :: c in x ==> SymChar(c)
  }

  /** Length of the longest prefix whose characters all satisfy `p`. */
  function Span(p: char -> bool, s: string): (k: nat)
    ensures k <= |s|
  {
    if s != [] && p(s[0]) then 1 + Span(p, s[1..]) else 0
  }

  function NumberOf(digits: string): nat
    requires forall c :: c in digits ==> Digit(c)
  {
    if digits == [] then 0
    else
      var d := digits[|digits| - 1];
      assert d in digits && Digit(d);
      NumberOf(digits[..|digits| - 1]) * 10 + (d - '0') as nat
  }

  function Punctuation(c: char): Option<Token> {
    match c
    case '+' => Some(Operator(Plus))
    case '-' => Some(Operator(Minus))
    case '*' => Some(Operator(Multiply))
    case '/' => Some(Operator(Divide))
    case '(' => Some(ParOpen)
    case ')' => Some(ParEnd)
    case '[' => Some(ListOpen)
    case ']' => Some(ListEnd)
    case ',' => Some(ListSep)
    case '=' => Some(Equal)
    case ';' => Some(Semicolon)
    case _ => None
  }

  /** A character no rule matches is reported and skipped. */
  function Lex(s: string): seq<Token>
    decreases |s|, 1
  {
    if s == [] then []
    else if SymStart(s[0]) then LexSym(s)
    else if Digit(s[0]) then LexNum(s)
    else
      match Punctuation(s[0])
      case Some(t) => [t] + Lex(s[1..])
      case None => Lex(s[1..])
  }

  function LexSym(s: string): seq<Token>
    requires s != [] && SymStart(s[0])
    decreases |s|, 0
  {
    var k := Span(SymChar, s);
    [Sym(s[..k])] + Lex(s[k..])
  }

  function LexNum(s: string): seq<Token>
    requires s != [] && Digit(s[0])
    decreases |s|, 0
  {
    var k := Span(Digit, s);
    SpanHolds(Digit, s);
    [Num(NumberOf(s[..k]))] + Lex(s[k..])
  }

  lemma SpanHolds(p: char -> bool, s: string)
    ensures forall c :: c in s[..Span(p, s)] ==> p(c)
    ensures s != [] && p(s[0]) ==> Span(p, s) > 0
  {
  }

  // ----- Printing -----

  function DigitString(n: nat): (s: string)
    ensures s != [] && forall c :: c in s ==> Digit(c)
  {
    if n < 10 then [(n as char) + '0']
    else DigitString(n / 10) + [((n % 10) as char) + '0']
  }

  function OpString(op: Op): string {
    match op
    case Plus => "+"
    case Minus => "-"
    case Multiply => "*"
    case Divide => "/"
  }

  function Str(e: Expr): string
    decreases e, 0
  {
    match e
    case Infix(op, l, r) => Str(l) + " " + OpString(op) + " " + Str(r)
    case ListOf(es) => "[" + Join(es) + "]"
    case Bind(x, b, i) => x + " = " + Str(b) + ";\n" + Str(i)
    case Ident(x) => x
    case Const(v) => DigitString(v)
    case Apply(x, i) => x + "(" + Str(i) + ")"
  }

  function Join(es: seq<Expr>): string
    decreases es, 1
  {
    if |es| == 0 then ""
    else if |es| == 1 then Str(es[0])
    else Str(es[0]) + ", " + Join(es[1..])
  }

  predicate ValidNames(e: Expr) {
    match e
    case Infix(_, l, r) => ValidNames(l) && ValidNames(r)
    case ListOf(es) => forall x :: x in es ==> ValidNames(x)
    case Bind(x, b, i) => IsName(x) && ValidNames(b) && ValidNames(i)
    case Ident(x) => IsName(x)
    case Const(_) => true
    case Apply(x, i) => IsName(x) && ValidNames(i)
  }

  // ----- Lexing what was printed -----

  /** Text that cannot extend a name or number in front of it. */
  predicate Apart(rest: string) {
    rest == [] || !SymChar(rest[0])
  }

  lemma {:induction false} SpanExact(p: char -> bool, x: string, rest: string)
    requires (forall c :: c in x ==> p(c)) && (rest == [] || !p(rest[0]))
    ensures Span(p, x + rest) == |x|
  {
    if x == [] {
      assert x + rest == rest;
    } else {
      assert (x + rest)[1..] == x[1..] + rest;
      SpanExact(p, x[1..], rest);
    }
  }

  lemma LexName(x: string, rest: string)
    requires IsName(x) && Apart(rest)
    ensures Lex(x + rest) == [Sym(x)] + Lex(rest)
  {
    SpanExact(SymChar, x, rest);
    assert (x + rest)[..|x|] == x && (x + rest)[|x|..] == rest;
  }

  lemma {:induction false} DigitsRoundTrip(n: nat)
    ensures NumberOf(DigitString(n)) == n
  {
    if n >= 10 {
      DigitsRoundTrip(n / 10);
      var s := DigitString(n);
      assert s[..|s| - 1] == DigitString(n / 10);
    } else {
      assert DigitString(n)[..0] == [];
    }
  }

  lemma LexNumber(n: nat, rest: string)
    requires Apart(rest)
    ensures Lex(DigitString(n) + rest) == [Num(n)] + Lex(rest)
  {
    var x := DigitString(n);
    SpanExact(Digit, x, rest);
    assert (x + rest)[..|x|] == x && (x + rest)[|x|..] == rest;
    assert Digit((x + rest)[0]) by { assert x[0] in x; }
    DigitsRoundTrip(n);
  }

  lemma LexBlank(c: char, rest: string)
    requires Blank(c)
    ensures Lex([c] + rest) == Lex(rest)
  {
    assert ([c] + rest)[1..] == rest;
  }

  lemma LexPunctuation(c: char, rest: string)
    requires Punctuation(c).Some?
    ensures Lex([c] + rest) == [Punctuation(c).value] + Lex(rest)
  {
    assert ([c] + rest)[1..] == rest;
  }

  /** The text between the operands of an operator. */
  lemma LexOperator(op: Op, rest: string)
    ensures Lex(" " + OpString(op) + " " + rest) == [Operator(op)] + Lex(rest)
  {
    var c := OpString(op)[0];
    assert " " + OpString(op) + " " + rest == [' '] + ([c] + ([' '] + rest));
    LexBlank(' ', [c] + ([' '] + rest));
    LexPunctuation(c, [' '] + rest);
    LexBlank(' ', rest);
  }

  /** The text between a name and what is bound to it. */
  lemma LexEqual(rest: string)
    ensures Lex(" = " + rest) == [Equal] + Lex(rest)
  {
    assert " = " + rest == [' '] + (['='] + ([' '] + rest));
    LexBlank(' ', ['='] + ([' '] + rest));
    LexPunctuation('=', [' '] + rest);
    LexBlank(' ', rest);
  }

  lemma LexThenBlank(c: char, b: char, rest: string)
    requires Punctuation(c).Some? && Blank(b)
    ensures Lex([c, b] + rest) == [Punctuation(c).value] + Lex(rest)
  {
  }

  lemma {:induction false} LexStr(e: Expr, rest: string)
    requires ValidNames(e) && Apart(rest)
    ensures Lex(Str(e) + rest) == Tokens(e) + Lex(rest)
    decreases e, 1
  {
    match e
    case Infix(op, l, r) =>
      LexStr(l, " " + OpString(op) + " " + (Str(r) + rest));
      LexStr(r, rest);
      LexInfix(op, Str(l), Tokens(l), Str(r), Tokens(r), rest);
    case ListOf(es) =>
      LexJoin(es, "]" + rest);
      LexBrackets(Join(es), ElementTokens(es), rest);
    case Bind(x, b, i) =>
      LexStr(b, ";\n" + (Str(i) + rest));
      LexStr(i, rest);
      LexBind(x, Str(b), Tokens(b), Str(i), Tokens(i), rest);
    case Ident(x) => LexName(x, rest);
    case Const(v) => LexNumber(v, rest);
    case Apply(x, i) =>
      LexStr(i, ")" + rest);
      LexApply(x, Str(i), Tokens(i), rest);
  }

  lemma {:induction false} LexJoin(es: seq<Expr>, rest: string)
    requires (forall x :: x in es ==> ValidNames(x)) && Apart(rest)
    ensures Lex(Join(es) + rest) == ElementTokens(es) + Lex(rest)
    decreases es, 0
  {
    if |es| == 0 {
      assert Join(es) + rest == rest;
    } else if |es| == 1 {
      LexStr(es[0], rest);
    } else {
      LexStr(es[0], ", " + (Join(es[1..]) + rest));
      LexJoin(es[1..], rest);
      LexComma(Str(es[0]), Tokens(es[0]), Join(es[1..]), ElementTokens(es[1..]), rest);
    }
  }

  // One step of LexStr each: the parts' texts and tokens are given.

  lemma LexInfix(op: Op, ls: string, lt: seq<Token>, rs: string, rt: seq<Token>, rest: string)
    requires Lex(ls + (" " + OpString(op) + " " + (rs + rest))) == lt + Lex(" " + OpString(op) + " " + (rs + rest))
    requires Lex(rs + rest) == rt + Lex(rest)
    ensures Lex(ls + " " + OpString(op) + " " + rs + rest) == (lt + [Operator(op)] + rt) + Lex(rest)
  {
    LexOperator(op, rs + rest);
    Regroup4(ls, " ", OpString(op), " ", rs + rest);
    Regroup3(" ", OpString(op), " ", rs + rest);
    Regroup(ls + " " + OpString(op) + " ", rs, rest);
    Regroup3(lt, [Operator(op)], rt, Lex(rest));
  }

  lemma LexApply(x: string, inner: string, it: seq<Token>, rest: string)
    requires IsName(x) && Lex(inner + (")" + rest)) == it + Lex(")" + rest)
    ensures Lex(x + "(" + inner + ")" + rest) == ([Sym(x), ParOpen] + it + [ParEnd]) + Lex(rest)
  {
    LexName(x, "(" + (inner + (")" + rest)));
    LexPunctuation('(', inner + (")" + rest));
    LexPunctuation(')', rest);
    Regroup4(x, "(", inner, ")", rest);
    Regroup4([Sym(x)], [ParOpen], it, [ParEnd], Lex(rest));
    assert [Sym(x), ParOpen] == [Sym(x)] + [ParOpen];
  }

  lemma LexBrackets(inner: string, it: seq<Token>, rest: string)
    requires Lex(inner + ("]" + rest)) == it + Lex("]" + rest)
    ensures Lex("[" + inner + "]" + rest) == ([ListOpen] + it + [ListEnd]) + Lex(rest)
  {
    LexPunctuation('[', inner + ("]" + rest));
    LexPunctuation(']', rest);
    Regroup3("[", inner, "]", rest);
    Regroup3([ListOpen], it, [ListEnd], Lex(rest));
  }

  lemma LexComma(hs: string, ht: seq<Token>, ts: string, tt: seq<Token>, rest: string)
    requires Lex(hs + (", " + (ts + rest))) == ht + Lex(", " + (ts + rest))
    requires Lex(ts + rest) == tt + Lex(rest)
    ensures Lex(hs + ", " + ts + rest) == (ht + [ListSep] + tt) + Lex(rest)
  {
    LexThenBlank(',', ' ', ts + rest);
    Regroup3(hs, ", ", ts, rest);
    Regroup3(ht, [ListSep], tt, Lex(rest));
  }

  lemma LexBind(x: string, bs: string, bt: seq<Token>, inner: string, it: seq<Token>, rest: string)
    requires IsName(x)
    requires Lex(bs + (";\n" + (inner + rest))) == bt + Lex(";\n" + (inner + rest))
    requires Lex(inner + rest) == it + Lex(rest)
    ensures Lex(x + " = " + bs + ";\n" + inner + rest) == ([Sym(x), Equal] + bt + [Semicolon] + it) + Lex(rest)
  {
    LexBinder(x, bs + (";\n" + (inner + rest)));
    LexThenBlank(';', '\n', inner + rest);
    LexFour(x + " = ", [Sym(x), Equal], bs, bt, ";\n", [Semicolon], inner, it, rest);
  }

  lemma LexFour(a: string, at: seq<Token>, b: string, bt: seq<Token>, c: string, ct: seq<Token>,
                d: string, dt: seq<Token>, rest: string)
    requires Lex(a + (b + (c + (d + rest)))) == at + Lex(b + (c + (d + rest)))
    requires Lex(b + (c + (d + rest))) == bt + Lex(c + (d + rest))
    requires Lex(c + (d + rest)) == ct + Lex(d + rest)
    requires Lex(d + rest) == dt + Lex(rest)
    ensures Lex(a + b + c + d + rest) == (at + bt + ct + dt) + Lex(rest)
  {
    Regroup4(a, b, c, d, rest);
    Regroup4(at, bt, ct, dt, Lex(rest));
  }

  lemma LexBinder(x: string, rest: string)
    requires IsName(x)
    ensures Lex(x + " = " + rest) == [Sym(x), Equal] + Lex(rest)
  {
    LexName(x, " = " + rest);
    LexEqual(rest);
    assert x + " = " + rest == x + (" = " + rest);
  }

  /** Printing a tree and parsing the string gives the tree back exactly when
      the grammar can yield the tree. */
  lemma SourceRoundTrip(e: Expr)
    requires ValidNames(e)
    ensures Parse(Lex(Str(e))) == Some(e) <==> Canonical(e)
  {
    LexStr(e, "");
    assert Str(e) + "" == Str(e);
    assert Tokens(e) + [] == Tokens(e);
    ParsePrintIff(e);
  }

  // ----- What the characters stand for -----

  /** An operator's character is read as the operator. */
  lemma OperatorCharacters(rest: string)
    ensures Lex("+" + rest) == [Operator(Plus)] + Lex(rest)
    ensures Lex("-" + rest) == [Operator(Minus)] + Lex(rest)
    ensures Lex("*" + rest) == [Operator(Multiply)] + Lex(rest)
    ensures Lex("/" + rest) == [Operator(Divide)] + Lex(rest)
  {
    LexPunctuation('+', rest);
    LexPunctuation('-', rest);
    LexPunctuation('*', rest);
    LexPunctuation('/', rest);
  }

  lemma BracketCharacters(rest: string)
    ensures Lex("(" + rest) == [ParOpen] + Lex(rest)
    ensures Lex(")" + rest) == [ParEnd] + Lex(rest)
    ensures Lex("[" + rest) == [ListOpen] + Lex(rest)
    ensures Lex("]" + rest) == [ListEnd] + Lex(rest)
    ensures Lex("," + rest) == [ListSep] + Lex(rest)
  {
    LexPunctuation('(', rest);
    LexPunctuation(')', rest);
    LexPunctuation('[', rest);
    LexPunctuation(']', rest);
    LexPunctuation(',', rest);
  }

  lemma BindingCharacters(rest: string)
    ensures Lex("=" + rest) == [Equal] + Lex(rest)
    ensures Lex(";" + rest) == [Semicolon] + Lex(rest)
  {
    LexPunctuation('=', rest);
    LexPunctuation(';', rest);
  }

  /** Blanks, and what no rule matches, are skipped. */
  lemma OthersAreSkipped(c: char, rest: string)
    requires !('A' <= c <= 'Z' || 'a' <= c <= 'z' || '0' <= c <= '9') && c !in "_+-*/()[],=;"
    ensures Lex([c] + rest) == Lex(rest)
  {
    var known := "_+-*/()[],=;";
    assert known[1] == '+' && known[2] == '-' && known[3] == '*' && known[4] == '/' && known[5] == '('
           && known[6] == ')' && known[7] == '[' && known[8] == ']' && known[9] == ',' && known[10] == '='
           && known[11] == ';';
    assert ([c] + rest)[1..] == rest;
  }

  /** A letter or underscore and the letters, digits, underscores and colons behind it
      are one name. */
  lemma WordsAreNames(x: string, rest: string)
    requires x != [] && (x[0] == '_' || 'A' <= x[0] <= 'Z' || 'a' <= x[0] <= 'z')
    requires forall c :: c in x ==> c == '_' || c == ':' || 'A' <= c <= 'Z' || 'a' <= c <= 'z' || '0' <= c <= '9'
    requires rest == [] || !(rest[0] == '_' || rest[0] == ':' || 'A' <= rest[0] <= 'Z' || 'a' <= rest[0] <= 'z' ||
                             '0' <= rest[0] <= '9')
    ensures Lex(x + rest) == [Sym(x)] + Lex(rest)
  {
    LexName(x, rest);
  }

  /** Digits up to something else are one number. */
  lemma DigitsAreNumbers(x: string, rest: string)
    requires x != [] && (forall c :: c in x ==> '0' <= c <= '9') && (rest == [] || !('0' <= rest[0] <= '9'))
    ensures Lex(x + rest) == [Num(NumberOf(x))] + Lex(rest)
  {
    SpanExact(Digit, x, rest);
    assert (x + rest)[..|x|] == x && (x + rest)[|x|..] == rest;
    assert x[0] in x;
  }

  /** Numbers are read and written in base ten. */
  lemma NumbersAreDecimal(digits: string, c: char, n: nat)
    requires (forall d :: d in digits ==> Digit(d)) && Digit(c)
    ensures NumberOf("") == 0 && NumberOf(digits + [c]) == 10 * NumberOf(digits) + (c as int - '0' as int)
    ensures n < 10 ==> |DigitString(n)| == 1 && DigitString(n)[0] as int == '0' as int + n
    ensures n >= 10 ==> DigitString(n) == DigitString(n / 10) + DigitString(n % 10)
  {
    assert (digits + [c])[..|digits|] == digits;
  }
}
