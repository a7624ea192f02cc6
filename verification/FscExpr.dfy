/**
 Fan-speed expressions: the syntax tree, its printed form, and the parser of the
 grammar after its conflicts are resolved (one left-associative level for the
 four operators, a binding reaching as far right as it can).
 */
module FscExpr {
  import opened Wrappers

  datatype Op = Plus | Minus | Multiply | Divide

  datatype Expr =
    | Infix(op: Op, left: Expr, right: Expr)
    | ListOf(content: seq<Expr>)
    | Bind(name: string, bound: Expr, inner: Expr)
    | Ident(name: string)
    | Const(value: nat)
    | Apply(name: string, inner: Expr)

  datatype Token =
    | Sym(name: string)
    | Num(value: nat)
    | Operator(op: Op)
    | ParOpen | ParEnd | ListOpen | ListEnd | ListSep | Equal | Semicolon

  // ----- Printing, as the token sequence of the printed form -----

  function Tokens(e: Expr): (ts: seq<Token>)
    decreases e, 0
  {
    match e
    case Infix(op, l, r) => Tokens(l) + [Operator(op)] + Tokens(r)
    case ListOf(es) => [ListOpen] + ElementTokens(es) + [ListEnd]
    case Bind(x, b, i) => [Sym(x), Equal] + Tokens(b) + [Semicolon] + Tokens(i)
    case Ident(x) => [Sym(x)]
    case Const(v) => [Num(v)]
    case Apply(x, i) => [Sym(x), ParOpen] + Tokens(i) + [ParEnd]
  }

  function ElementTokens(es: seq<Expr>): seq<Token>
    decreases es, 1
  {
    if |es| == 0 then []
    else if |es| == 1 then Tokens(es[0])
    else Tokens(es[0]) + [ListSep] + ElementTokens(es[1..])
  }

  // ----- Parsing -----

  function ParseExpr(ts: seq<Token>): (r: Option<(Expr, seq<Token>)>)
    ensures r.Some? ==> |r.value.1| < |ts|
    decreases |ts|, 2
  {
    match ParsePrimary(ts)
    case None => None
    case Some((p, rest)) => ParseTail(p, rest)
  }

  /** Operators and their right operands, gathered to the left. */
  function ParseTail(acc: Expr, ts: seq<Token>): (r: Option<(Expr, seq<Token>)>)
    ensures r.Some? ==> |r.value.1| <= |ts|
    decreases |ts|, 0
  {
    if ts != [] && ts[0].Operator? then
      match ParsePrimary(ts[1..])
      case None => None
      case Some((p, rest)) => ParseTail(Infix(ts[0].op, acc, p), rest)
    else Some((acc, ts))
  }

  function ParsePrimary(ts: seq<Token>): (r: Option<(Expr, seq<Token>)>)
    ensures r.Some? ==> |r.value.1| < |ts|
    decreases |ts|, 1
  {
    if ts == [] then None
    else if ts[0].Sym? then
      if |ts| > 1 && ts[1] == Equal then ParseBind(ts[0].name, ts[2..])
      else if |ts| > 1 && ts[1] == ParOpen then
        match ParseExpr(ts[2..])
        case None => None
        case Some((i, rest)) =>
          if rest != [] && rest[0] == ParEnd then Some((Apply(ts[0].name, i), rest[1..])) else None
      else Some((Ident(ts[0].name), ts[1..]))
    else if ts[0].Num? then Some((Const(ts[0].value), ts[1..]))
    else if ts[0] == ListOpen then
      match ParseElements(ts[1..])
      case None => None
      case Some((es, rest)) => Some((ListOf(es), rest))
    else None
  }

  function ParseBind(x: string, ts: seq<Token>): (r: Option<(Expr, seq<Token>)>)
    ensures r.Some? ==> |r.value.1| < |ts|
    decreases |ts|, 3
  {
    match ParseExpr(ts)
    case None => None
    case Some((b, rest)) =>
      if rest == [] || rest[0] != Semicolon then None
      else
        match ParseExpr(rest[1..])
        case None => None
        case Some((i, rest')) => Some((Bind(x, b, i), rest'))
  }

  /** One or more expressions up to and including the closing bracket. */
  function ParseElements(ts: seq<Token>): (r: Option<(seq<Expr>, seq<Token>)>)
    ensures r.Some? ==> |r.value.1| < |ts| && r.value.0 != []
    decreases |ts|, 3
  {
    match ParseExpr(ts)
    case None => None
    case Some((e, rest)) =>
      if rest == [] then None
      else if rest[0] == ListEnd then Some(([e], rest[1..]))
      else if rest[0] == ListSep then
        match ParseElements(rest[1..])
        case None => None
        case Some((es, rest')) => Some(([e] + es, rest'))
      else None
  }

  function Parse(ts: seq<Token>): Option<Expr> {
    match ParseExpr(ts)
    case Some((e, rest)) => if rest == [] then Some(e) else None
    case None => None
  }

  // ----- The trees the grammar yields -----

  /** Ends in a binding, which would swallow a following operator. */
  predicate Open(e: Expr) {
    e.Bind? || (e.Infix? && Open(e.right))
  }

  /** The grammar's own shape: lists are not empty, right operands are not
      operator expressions, left operands do not end in a binding. */
  predicate Canonical(e: Expr) {
    match e
    case Infix(_, l, r) => Canonical(l) && Canonical(r) && !Open(l) && !r.Infix?
    case ListOf(es) => es != [] && forall x :: x in es ==> Canonical(x)
    case Bind(_, b, i) => Canonical(b) && Canonical(i)
    case Apply(_, i) => Canonical(i)
    case _ => true
  }

  predicate NoEmptyList(e: Expr) {
    match e
    case Infix(_, l, r) => NoEmptyList(l) && NoEmptyList(r)
    case ListOf(es) => es != [] && forall x :: x in es ==> NoEmptyList(x)
    case Bind(_, b, i) => NoEmptyList(b) && NoEmptyList(i)
    case Apply(_, i) => NoEmptyList(i)
    case _ => true
  }

  predicate StartsWithOp(ts: seq<Token>) {
    ts != [] && ts[0].Operator?
  }

  /** What may follow a complete expression. */
  predicate Stop(ts: seq<Token>) {
    ts == [] || ts[0] in {ParEnd, ListEnd, ListSep, Semicolon}
  }

  lemma Regroup<T>(a: seq<T>, b: seq<T>, c: seq<T>)
    ensures a + b + c == a + (b + c)
  {
  }

  lemma Regroup3<T>(a: seq<T>, b: seq<T>, c: seq<T>, rest: seq<T>)
    ensures a + b + c + rest == a + (b + (c + rest))
  {
    Regroup(a + b, c, rest);
    Regroup(a, b, c + rest);
  }

  lemma Regroup4<T>(a: seq<T>, b: seq<T>, c: seq<T>, d: seq<T>, rest: seq<T>)
    ensures a + b + c + d + rest == a + (b + (c + (d + rest)))
  {
    Regroup(a + b + c, d, rest);
    Regroup3(a, b, c, d + rest);
  }

  // ----- Parsing what was printed -----

  lemma {:induction false} PrimaryRoundTrip(e: Expr, rest: seq<Token>)
    requires Canonical(e) && !e.Infix?
    requires Stop(rest) || (StartsWithOp(rest) && !e.Bind?)
    ensures ParsePrimary(Tokens(e) + rest) == Some((e, rest))
    decreases e, 1
  {
    match e
    case Bind(x, b, i) =>
      ExprRoundTrip(b, [Semicolon] + Tokens(i) + rest);
      ExprRoundTrip(i, rest);
      BindParses(x, b, i, rest);
    case Apply(x, i) =>
      ExprRoundTrip(i, [ParEnd] + rest);
      ApplyParses(x, i, rest);
    case ListOf(es) =>
      ElementsRoundTrip(es, rest);
      assert (Tokens(e) + rest)[1..] == ElementTokens(es) + [ListEnd] + rest;
    case Ident(x) =>
      assert (Tokens(e) + rest)[1..] == rest;
    case Const(v) =>
      assert (Tokens(e) + rest)[1..] == rest;
  }

  lemma BindParses(x: string, b: Expr, i: Expr, rest: seq<Token>)
    requires ParseExpr(Tokens(b) + ([Semicolon] + Tokens(i) + rest)) == Some((b, [Semicolon] + Tokens(i) + rest))
    requires ParseExpr(Tokens(i) + rest) == Some((i, rest))
    ensures ParsePrimary(Tokens(Bind(x, b, i)) + rest) == Some((Bind(x, b, i), rest))
  {
    var ts := Tokens(Bind(x, b, i)) + rest;
    var after := [Semicolon] + Tokens(i) + rest;
    Regroup4([Sym(x), Equal], Tokens(b), [Semicolon], Tokens(i), rest);
    Regroup([Semicolon], Tokens(i), rest);
    assert ts[2..] == Tokens(b) + after;
    assert after[1..] == Tokens(i) + rest;
  }

  lemma ApplyParses(x: string, i: Expr, rest: seq<Token>)
    requires ParseExpr(Tokens(i) + ([ParEnd] + rest)) == Some((i, [ParEnd] + rest))
    ensures ParsePrimary(Tokens(Apply(x, i)) + rest) == Some((Apply(x, i), rest))
  {
    var ts := Tokens(Apply(x, i)) + rest;
    assert ts[2..] == Tokens(i) + ([ParEnd] + rest);
    assert ([ParEnd] + rest)[1..] == rest;
  }

  lemma {:induction false} ElementsRoundTrip(es: seq<Expr>, rest: seq<Token>)
    requires es != [] && forall x :: x in es ==> Canonical(x)
    ensures ParseElements(ElementTokens(es) + [ListEnd] + rest) == Some((es, rest))
    decreases es, 0
  {
    if |es| == 1 {
      var tail := [ListEnd] + rest;
      Regroup(Tokens(es[0]), [ListEnd], rest);
      ExprRoundTrip(es[0], tail);
      assert tail[1..] == rest;
      assert [es[0]] == es;
    } else {
      var tail := [ListSep] + (ElementTokens(es[1..]) + [ListEnd] + rest);
      Regroup4(Tokens(es[0]), [ListSep], ElementTokens(es[1..]), [ListEnd], rest);
      Regroup(ElementTokens(es[1..]), [ListEnd], rest);
      ExprRoundTrip(es[0], tail);
      assert tail[1..] == ElementTokens(es[1..]) + [ListEnd] + rest;
      ElementsRoundTrip(es[1..], rest);
      assert [es[0]] + es[1..] == es;
    }
  }

  /** After a left operand the parser stands where the operand is its accumulator. */
  lemma {:induction false} LeftRoundTrip(e: Expr, rest: seq<Token>)
    requires Canonical(e) && !Open(e) && (Stop(rest) || StartsWithOp(rest))
    ensures ParseExpr(Tokens(e) + rest) == ParseTail(e, rest)
    decreases e, 2
  {
    if e.Infix? {
      var tail := [Operator(e.op)] + (Tokens(e.right) + rest);
      Regroup3(Tokens(e.left), [Operator(e.op)], Tokens(e.right), rest);
      LeftRoundTrip(e.left, tail);
      assert tail[1..] == Tokens(e.right) + rest;
      PrimaryRoundTrip(e.right, rest);
    } else {
      PrimaryRoundTrip(e, rest);
    }
  }

  lemma {:induction false} ExprRoundTrip(e: Expr, rest: seq<Token>)
    requires Canonical(e) && Stop(rest)
    ensures ParseExpr(Tokens(e) + rest) == Some((e, rest))
    decreases e, 3
  {
    if e.Infix? {
      var tail := [Operator(e.op)] + (Tokens(e.right) + rest);
      Regroup3(Tokens(e.left), [Operator(e.op)], Tokens(e.right), rest);
      LeftRoundTrip(e.left, tail);
      assert tail[1..] == Tokens(e.right) + rest;
      PrimaryRoundTrip(e.right, rest);
    } else {
      PrimaryRoundTrip(e, rest);
    }
  }

  // ----- Printing what was parsed -----

  lemma {:induction false} ParsedPrimary(ts: seq<Token>)
    requires ParsePrimary(ts).Some?
    ensures var (e, rest) := ParsePrimary(ts).value;
            && ts == Tokens(e) + rest && Canonical(e) && !e.Infix?
            && (e.Bind? ==> !StartsWithOp(rest))
    decreases |ts|, 1
  {
    if ts[0].Sym? && |ts| > 1 && ts[1] == Equal {
      ParsedBind(ts[0].name, ts[2..]);
      assert ts == [ts[0], Equal] + ts[2..];
    } else if ts[0].Sym? && |ts| > 1 && ts[1] == ParOpen {
      ParsedApply(ts);
    } else if ts[0] == ListOpen {
      ParsedElements(ts[1..]);
      assert ts == [ListOpen] + ts[1..];
    }
  }

  lemma {:induction false} ParsedBind(x: string, ts: seq<Token>)
    requires ParseBind(x, ts).Some?
    ensures var (e, rest) := ParseBind(x, ts).value;
            && [Sym(x), Equal] + ts == Tokens(e) + rest && Canonical(e) && e.Bind? && !StartsWithOp(rest)
    decreases |ts|, 3
  {
    ParsedExpr(ts);
    var (b, rest) := ParseExpr(ts).value;
    ParsedExpr(rest[1..]);
    var (i, rest') := ParseExpr(rest[1..]).value;
    assert rest == [Semicolon] + rest[1..];
    Regroup4([Sym(x), Equal], Tokens(b), [Semicolon], Tokens(i), rest');
  }

  lemma {:induction false} ParsedApply(ts: seq<Token>)
    requires |ts| > 1 && ts[0].Sym? && ts[1] == ParOpen && ParsePrimary(ts).Some?
    ensures var (e, rest) := ParsePrimary(ts).value;
            ts == Tokens(e) + rest && Canonical(e) && e.Apply?
    decreases |ts|, 0
  {
    ParsedExpr(ts[2..]);
    var (i, rest) := ParseExpr(ts[2..]).value;
    assert rest == [ParEnd] + rest[1..];
    assert ts == [ts[0], ParOpen] + ts[2..];
    Regroup3([ts[0], ParOpen], Tokens(i), [ParEnd], rest[1..]);
  }

  lemma {:induction false} ParsedElements(ts: seq<Token>)
    requires ParseElements(ts).Some?
    ensures var (es, rest) := ParseElements(ts).value;
            ts == ElementTokens(es) + [ListEnd] + rest && forall x :: x in es ==> Canonical(x)
    decreases |ts|, 3
  {
    ParsedExpr(ts);
    var (e, rest) := ParseExpr(ts).value;
    if rest[0] == ListEnd {
      assert rest == [ListEnd] + rest[1..];
    } else {
      ParsedElements(rest[1..]);
      var (es, rest') := ParseElements(rest[1..]).value;
      assert ([e] + es)[1..] == es;
      assert rest == [ListSep] + rest[1..];
      Regroup(ElementTokens(es), [ListEnd], rest');
      Regroup4(Tokens(e), [ListSep], ElementTokens(es), [ListEnd], rest');
    }
  }

  lemma {:induction false} ParsedTail(acc: Expr, ts: seq<Token>)
    requires ParseTail(acc, ts).Some? && Canonical(acc) && (Open(acc) ==> !StartsWithOp(ts))
    ensures var (e, rest) := ParseTail(acc, ts).value;
            Tokens(acc) + ts == Tokens(e) + rest && Canonical(e) && !StartsWithOp(rest)
    decreases |ts|, 0
  {
    if StartsWithOp(ts) {
      ParsedPrimary(ts[1..]);
      var (p, rest) := ParsePrimary(ts[1..]).value;
      var acc' := Infix(ts[0].op, acc, p);
      assert Open(acc') <==> p.Bind?;
      ParsedTail(acc', rest);
      assert ts == [ts[0]] + ts[1..];
      Regroup3(Tokens(acc), [ts[0]], Tokens(p), rest);
    }
  }

  lemma {:induction false} ParsedExpr(ts: seq<Token>)
    requires ParseExpr(ts).Some?
    ensures var (e, rest) := ParseExpr(ts).value;
            ts == Tokens(e) + rest && Canonical(e) && !StartsWithOp(rest)
    decreases |ts|, 2
  {
    ParsedPrimary(ts);
    var (p, rest) := ParsePrimary(ts).value;
    ParsedTail(p, rest);
  }

  // ----- Theorems -----

  /** Parsing the printed form returns the tree exactly when the grammar can yield it. */
  lemma ParsePrintIff(e: Expr)
    ensures Parse(Tokens(e)) == Some(e) <==> Canonical(e)
  {
    assert Tokens(e) + [] == Tokens(e);
    if Canonical(e) {
      ExprRoundTrip(e, []);
    }
    if Parse(Tokens(e)) == Some(e) {
      ParsedExpr(Tokens(e));
    }
  }

  /** A successful parse prints back to the very tokens it came from. */
  lemma PrintParse(ts: seq<Token>)
    requires Parse(ts).Some?
    ensures Tokens(Parse(ts).value) == ts && Canonical(Parse(ts).value)
  {
    ParsedExpr(ts);
    assert Tokens(Parse(ts).value) + [] == ts;
  }

  /** The resolved reading of `l op r`: into a trailing binding, else to the left. */
  function Attach(l: Expr, op: Op, r: Expr): (e: Expr)
    requires Canonical(l) && Canonical(r)
    ensures Canonical(e) && (Open(e) <==> Open(l) || Open(r))
    decreases l, r
  {
    if l.Bind? then Bind(l.name, l.bound, Attach(l.inner, op, r))
    else if l.Infix? && Open(l) then Infix(l.op, l.left, Attach(l.right, op, r))
    else if r.Infix? then Infix(r.op, Attach(l, op, r.left), r.right)
    else Infix(op, l, r)
  }

  lemma {:induction false} AttachTokens(l: Expr, op: Op, r: Expr)
    requires Canonical(l) && Canonical(r)
    ensures Tokens(Attach(l, op, r)) == Tokens(l) + ([Operator(op)] + Tokens(r))
    decreases l, r
  {
    var tail := [Operator(op)] + Tokens(r);
    if l.Bind? {
      AttachTokens(l.inner, op, r);
      Regroup([Sym(l.name), Equal] + Tokens(l.bound) + [Semicolon], Tokens(l.inner), tail);
    } else if l.Infix? && Open(l) {
      AttachTokens(l.right, op, r);
      Regroup(Tokens(l.left) + [Operator(l.op)], Tokens(l.right), tail);
    } else if r.Infix? {
      AttachTokens(l, op, r.left);
      var last := [Operator(r.op)] + Tokens(r.right);
      Regroup(Tokens(l), [Operator(op)] + Tokens(r.left), last);
      Regroup([Operator(op)], Tokens(r.left), last);
      Regroup(Tokens(r.left), [Operator(r.op)], Tokens(r.right));
      Regroup(Tokens(Attach(l, op, r.left)), [Operator(r.op)], Tokens(r.right));
    } else {
      Regroup(Tokens(l), [Operator(op)], Tokens(r));
    }
  }

  /** The tree the parser builds from what any tree of the ambiguous grammar prints. */
  function Resolve(e: Expr): (c: Expr)
    requires NoEmptyList(e)
    ensures Canonical(c)
    decreases e, 0
  {
    match e
    case Infix(op, l, r) => Attach(Resolve(l), op, Resolve(r))
    case ListOf(es) => ListOf(ResolveAll(es))
    case Bind(x, b, i) => Bind(x, Resolve(b), Resolve(i))
    case Apply(x, i) => Apply(x, Resolve(i))
    case _ => e
  }

  function ResolveAll(es: seq<Expr>): (cs: seq<Expr>)
    requires forall x :: x in es ==> NoEmptyList(x)
    ensures |cs| == |es| && forall c :: c in cs ==> Canonical(c)
    decreases es, 1
  {
    if es == [] then [] else [Resolve(es[0])] + ResolveAll(es[1..])
  }

  lemma {:induction false} ResolveTokens(e: Expr)
    requires NoEmptyList(e)
    ensures Tokens(Resolve(e)) == Tokens(e)
    decreases e, 0
  {
    match e
    case Infix(op, l, r) =>
      ResolveTokens(l);
      ResolveTokens(r);
      AttachTokens(Resolve(l), op, Resolve(r));
    case ListOf(es) => ResolveAllTokens(es);
    case Bind(x, b, i) =>
      ResolveTokens(b);
      ResolveTokens(i);
    case Apply(x, i) => ResolveTokens(i);
    case _ =>
  }

  lemma {:induction false} ResolveAllTokens(es: seq<Expr>)
    requires forall x :: x in es ==> NoEmptyList(x)
    ensures ElementTokens(ResolveAll(es)) == ElementTokens(es)
    decreases es, 1
  {
    if es != [] {
      ResolveTokens(es[0]);
      ResolveAllTokens(es[1..]);
      assert ResolveAll(es)[1..] == ResolveAll(es[1..]);
    }
  }

  /** Every sentence of the grammar parses, whichever way it was derived. */
  lemma GrammarIsAccepted(e: Expr)
    requires NoEmptyList(e)
    ensures Parse(Tokens(e)) == Some(Resolve(e))
  {
    ResolveTokens(e);
    ParsePrintIff(Resolve(e));
  }

  /** Reads back as itself, and is no operator expression or binding. */
  predicate Operand(e: Expr) {
    !e.Infix? && !e.Bind? && Parse(Tokens(e)) == Some(e)
  }

  lemma OperandIsCanonical(e: Expr)
    requires Operand(e)
    ensures Canonical(e) && !Open(e)
  {
    ParsePrintIff(e);
  }

  /** Operands group to the left, whichever the operators. */
  lemma OperatorsGroupLeft(a: Expr, op1: Op, b: Expr, op2: Op, c: Expr)
    requires Operand(a) && Operand(b) && Operand(c)
    ensures Parse(Tokens(a) + [Operator(op1)] + Tokens(b) + [Operator(op2)] + Tokens(c)) ==
            Some(Infix(op2, Infix(op1, a, b), c))
  {
    OperandIsCanonical(a);
    OperandIsCanonical(b);
    OperandIsCanonical(c);
    ParsePrintIff(Infix(op2, Infix(op1, a, b), c));
  }

  /** A binding takes the operators behind it into its inner expression, and can itself
      be the right operand of one in front. */
  lemma BindingReachesRight(x: string, b: Expr, i: Expr, op: Op, r: Expr)
    requires Parse(Tokens(b)) == Some(b)
    requires Operand(i) && Operand(r)
    ensures Parse([Sym(x), Equal] + Tokens(b) + [Semicolon] + Tokens(i) + [Operator(op)] + Tokens(r)) ==
            Some(Bind(x, b, Infix(op, i, r)))
    ensures Parse(Tokens(r) + [Operator(op)] + ([Sym(x), Equal] + Tokens(b) + [Semicolon] + Tokens(i))) ==
            Some(Infix(op, r, Bind(x, b, i)))
  {
    ParsePrintIff(b);
    OperandIsCanonical(i);
    OperandIsCanonical(r);
    var head := [Sym(x), Equal] + Tokens(b) + [Semicolon];
    Regroup(head, Tokens(i), [Operator(op)] + Tokens(r));
    Regroup(Tokens(i), [Operator(op)], Tokens(r));
    Regroup(head + Tokens(i), [Operator(op)], Tokens(r));
    ParsePrintIff(Bind(x, b, Infix(op, i, r)));
    ParsePrintIff(Infix(op, r, Bind(x, b, i)));
  }
}
