/**
 From syntax trees to evaluation: building operator nodes, collecting the names
 an expression takes from outside, and evaluating against a context of sensor
 readings.  Operator state (held values, controller memory) sits in the nodes.
 */
module FscEval {
  import opened FscExpr
  import opened FscControl
  import opened Wrappers

  datatype Value = NoneV | NumV(r: real) | ListV(vs: seq<Value>)

  datatype Outcome = Ret(v: Value) | Raise

  type Context = map<string, Value>

  datatype Controller =
    | TableC(table: seq<Row>, neg: real, pos: real, ts: TableState)
    | PidC(g: Gains, ps: PidState)

  datatype Operator = Hold(last: Value) | MaxOf | Profile(ctrl: Controller)

  datatype Node =
    | InfixN(op: Op, lhs: Node, rhs: Node)
    | ListN(inners: seq<Node>)
    | BindN(name: string, bound: Node, inner: Node)
    | IdentN(name: string)
    | ConstN(value: nat)
    | ApplyN(name: string, opr: Operator, inner: Node)

  function ToExpr(n: Node): Expr
    decreases n, 0
  {
    match n
    case InfixN(op, l, r) => Infix(op, ToExpr(l), ToExpr(r))
    case ListN(ns) => ListOf(ToExprs(ns))
    case BindN(x, b, i) => Bind(x, ToExpr(b), ToExpr(i))
    case IdentN(x) => Ident(x)
    case ConstN(v) => Const(v)
    case ApplyN(x, _, i) => Apply(x, ToExpr(i))
  }

  function ToExprs(ns: seq<Node>): (es: seq<Expr>)
    decreases ns, 1
  {
    if ns == [] then [] else [ToExpr(ns[0])] + ToExprs(ns[1..])
  }

  // ----- Building nodes -----

  datatype Compiled<T> = Built(value: T, extVars: set<string>) | InvalidName(name: string)

  function NewOperator(name: string, profiles: map<string, Controller>): Option<Operator> {
    if name == "hold" then Some(Hold(NoneV))
    else if name == "max" then Some(MaxOf)
    else if name in profiles then Some(Profile(profiles[name]))
    else None
  }

  /** One traversal: identifiers are added to the set as they are met, a binding
      takes its name out again once both of its parts are built. */
  function Compile(e: Expr, vars: set<string>, profiles: map<string, Controller>): (c: Compiled<Node>)
    ensures c.Built? ==> ToExpr(c.value) == e
    decreases e, 0
  {
    match e
    case Infix(op, l, r) =>
      (match Compile(l, vars, profiles)
       case InvalidName(x) => InvalidName(x)
       case Built(ln, vars1) =>
         match Compile(r, vars1, profiles)
         case InvalidName(x) => InvalidName(x)
         case Built(rn, vars2) => Built(InfixN(op, ln, rn), vars2))
    case ListOf(es) =>
      (match CompileAll(es, vars, profiles)
       case InvalidName(x) => InvalidName(x)
       case Built(ns, vars1) => Built(ListN(ns), vars1))
    case Bind(x, b, i) =>
      (match Compile(b, vars, profiles)
       case InvalidName(y) => InvalidName(y)
       case Built(bn, vars1) =>
         match Compile(i, vars1, profiles)
         case InvalidName(y) => InvalidName(y)
         case Built(inn, vars2) => Built(BindN(x, bn, inn), vars2 - {x}))
    case Ident(x) => Built(IdentN(x), vars + {x})
    case Const(v) => Built(ConstN(v), vars)
    case Apply(x, i) =>
      (match Compile(i, vars, profiles)
       case InvalidName(y) => InvalidName(y)
       case Built(inn, vars1) =>
         match NewOperator(x, profiles)
         case None => InvalidName(x)
         case Some(o) => Built(ApplyN(x, o, inn), vars1))
  }

  function CompileAll(es: seq<Expr>, vars: set<string>, profiles: map<string, Controller>): (c: Compiled<seq<Node>>)
    ensures c.Built? ==> ToExprs(c.value) == es
    decreases es, 1
  {
    if es == [] then Built([], vars)
    else
      match Compile(es[0], vars, profiles)
      case InvalidName(x) => InvalidName(x)
      case Built(n, vars1) =>
        match CompileAll(es[1..], vars1, profiles)
        case InvalidName(x) => InvalidName(x)
        case Built(ns, vars2) =>
          assert ([n] + ns)[1..] == ns;
          Built([n] + ns, vars2)
  }

  // ----- Free and bound names -----

  function Free(e: Expr): set<string>
    decreases e, 0
  {
    match e
    case Infix(_, l, r) => Free(l) + Free(r)
    case ListOf(es) => FreeAll(es)
    case Bind(x, b, i) => Free(b) + (Free(i) - {x})
    case Ident(x) => {x}
    case Const(_) => {}
    case Apply(_, i) => Free(i)
  }

  function FreeAll(es: seq<Expr>): set<string>
    decreases es, 1
  {
    if es == [] then {} else Free(es[0]) + FreeAll(es[1..])
  }

  /** Every name that occurs, as an identifier or as the name of a binding. */
  function Mentioned(e: Expr): set<string>
    decreases e, 0
  {
    match e
    case Infix(_, l, r) => Mentioned(l) + Mentioned(r)
    case ListOf(es) => MentionedAll(es)
    case Bind(x, b, i) => {x} + Mentioned(b) + Mentioned(i)
    case Ident(x) => {x}
    case Const(_) => {}
    case Apply(_, i) => Mentioned(i)
  }

  function MentionedAll(es: seq<Expr>): set<string>
    decreases es, 1
  {
    if es == [] then {} else Mentioned(es[0]) + MentionedAll(es[1..])
  }

  /** The names whose last occurrence, reading left to right and counting a binding
      where it ends, is the binding. */
  function ClosedLast(e: Expr): set<string>
    decreases e, 0
  {
    match e
    case Infix(_, l, r) => (ClosedLast(l) - Mentioned(r)) + ClosedLast(r)
    case ListOf(es) => ClosedLastAll(es)
    case Bind(x, b, i) => (ClosedLast(b) - Mentioned(i)) + ClosedLast(i) + {x}
    case Apply(_, i) => ClosedLast(i)
    case _ => {}
  }

  function ClosedLastAll(es: seq<Expr>): set<string>
    decreases es, 1
  {
    if es == [] then {} else (ClosedLast(es[0]) - MentionedAll(es[1..])) + ClosedLastAll(es[1..])
  }

  /** What the traversal collects: every name that occurs or was there before, but
      for those a binding closes last. */
  lemma {:induction false} CollectedIs(e: Expr, vars: set<string>, profiles: map<string, Controller>)
    requires Compile(e, vars, profiles).Built?
    ensures Compile(e, vars, profiles).extVars == (vars + Mentioned(e)) - ClosedLast(e)
    decreases e, 0
  {
    match e
    case Infix(op, l, r) =>
      CollectedIs(l, vars, profiles);
      CollectedIs(r, Compile(l, vars, profiles).extVars, profiles);
      ClosedAreMentioned(r);
    case ListOf(es) => CollectedAllIs(es, vars, profiles);
    case Bind(x, b, i) =>
      CollectedIs(b, vars, profiles);
      CollectedIs(i, Compile(b, vars, profiles).extVars, profiles);
      ClosedAreMentioned(i);
    case Apply(x, i) => CollectedIs(i, vars, profiles);
    case _ =>
  }

  lemma {:induction false} CollectedAllIs(es: seq<Expr>, vars: set<string>, profiles: map<string, Controller>)
    requires CompileAll(es, vars, profiles).Built?
    ensures CompileAll(es, vars, profiles).extVars == (vars + MentionedAll(es)) - ClosedLastAll(es)
    decreases es, 1
  {
    if es != [] {
      CollectedIs(es[0], vars, profiles);
      CollectedAllIs(es[1..], Compile(es[0], vars, profiles).extVars, profiles);
    }
  }

  lemma {:induction false} ClosedAreMentioned(e: Expr)
    ensures ClosedLast(e) <= Mentioned(e)
    decreases e, 0
  {
    match e
    case Infix(_, l, r) =>
      ClosedAreMentioned(l);
      ClosedAreMentioned(r);
    case ListOf(es) => ClosedAllAreMentioned(es);
    case Bind(x, b, i) =>
      ClosedAreMentioned(b);
      ClosedAreMentioned(i);
    case Apply(_, i) => ClosedAreMentioned(i);
    case _ =>
  }

  lemma {:induction false} ClosedAllAreMentioned(es: seq<Expr>)
    ensures ClosedLastAll(es) <= MentionedAll(es)
    decreases es, 1
  {
    if es != [] {
      ClosedAreMentioned(es[0]);
      ClosedAllAreMentioned(es[1..]);
    }
  }

  /** The names of the bindings. */
  function Bound(e: Expr): set<string>
    decreases e, 0
  {
    match e
    case Infix(_, l, r) => Bound(l) + Bound(r)
    case ListOf(es) => BoundAll(es)
    case Bind(x, b, i) => {x} + Bound(b) + Bound(i)
    case Apply(_, i) => Bound(i)
    case _ => {}
  }

  function BoundAll(es: seq<Expr>): set<string>
    decreases es, 1
  {
    if es == [] then {} else Bound(es[0]) + BoundAll(es[1..])
  }

  lemma {:induction false} ClosedAreBound(e: Expr)
    ensures ClosedLast(e) <= Bound(e)
    decreases e, 0
  {
    match e
    case Infix(_, l, r) =>
      ClosedAreBound(l);
      ClosedAreBound(r);
    case ListOf(es) => ClosedAllAreBound(es);
    case Bind(x, b, i) =>
      ClosedAreBound(b);
      ClosedAreBound(i);
    case Apply(_, i) => ClosedAreBound(i);
    case _ =>
  }

  lemma {:induction false} ClosedAllAreBound(es: seq<Expr>)
    ensures ClosedLastAll(es) <= BoundAll(es)
    decreases es, 1
  {
    if es != [] {
      ClosedAreBound(es[0]);
      ClosedAllAreBound(es[1..]);
    }
  }

  /** A name that is mentioned and not closed last is free; free names are mentioned. */
  lemma {:induction false} OpenIsFree(e: Expr)
    ensures Mentioned(e) - ClosedLast(e) <= Free(e) <= Mentioned(e)
    decreases e, 0
  {
    match e
    case Infix(_, l, r) =>
      OpenIsFree(l);
      OpenIsFree(r);
    case ListOf(es) => OpenAllIsFree(es);
    case Bind(x, b, i) =>
      OpenIsFree(b);
      OpenIsFree(i);
    case Apply(_, i) => OpenIsFree(i);
    case _ =>
  }

  lemma {:induction false} OpenAllIsFree(es: seq<Expr>)
    ensures MentionedAll(es) - ClosedLastAll(es) <= FreeAll(es) <= MentionedAll(es)
    decreases es, 1
  {
    if es != [] {
      OpenIsFree(es[0]);
      OpenAllIsFree(es[1..]);
    }
  }

  /** Nothing but free names is collected, and all of them exactly if no free name
      occurs for the last time as the name of a binding. */
  lemma CollectedIsFreeIff(e: Expr, profiles: map<string, Controller>)
    requires Compile(e, {}, profiles).Built?
    ensures Compile(e, {}, profiles).extVars == Free(e) - ClosedLast(e)
    ensures Compile(e, {}, profiles).extVars == Free(e) <==> Free(e) !! ClosedLast(e)
  {
    CollectedIs(e, {}, profiles);
    OpenIsFree(e);
  }

  /** In particular if no name is both free and bound. */
  lemma CollectedIsFree(e: Expr, profiles: map<string, Controller>)
    requires Compile(e, {}, profiles).Built? && Free(e) !! Bound(e)
    ensures Compile(e, {}, profiles).extVars == Free(e)
  {
    CollectedIsFreeIff(e, profiles);
    ClosedAreBound(e);
  }

  // ----- Evaluation -----

  function Get(ctx: Context, x: string): Value {
    if x in ctx then ctx[x] else NoneV
  }

  /** Missing operands are ignored; a zero divisor leaves the dividend. */
  function Combine(op: Op, l: Value, r: Value): Outcome {
    if l == NoneV then Ret(r)
    else if r == NoneV then Ret(l)
    else if op == Divide && r == NumV(0.0) then Ret(l)
    else if l.NumV? && r.NumV? then
      match op
      case Plus => Ret(NumV(l.r + r.r))
      case Minus => Ret(NumV(l.r - r.r))
      case Multiply => Ret(NumV(l.r * r.r))
      case Divide => Ret(NumV(l.r / r.r))
    else if op == Plus && l.ListV? && r.ListV? then Ret(ListV(l.vs + r.vs))
    else Raise
  }

  predicate Falsy(v: Value) {
    v == NoneV || v == NumV(0.0) || v == ListV([])
  }

  /** `a > b`; None where the comparison raises. */
  function Greater(a: Value, b: Value): Option<bool>
    decreases a
  {
    if a.NumV? && b.NumV? then Some(a.r > b.r)
    else if a.ListV? && b.ListV? then GreaterList(a.vs, b.vs)
    else None
  }

  function GreaterList(xs: seq<Value>, ys: seq<Value>): Option<bool>
    decreases xs
  {
    if xs == [] then Some(false)
    else if ys == [] then Some(true)
    else if xs[0] == ys[0] then GreaterList(xs[1..], ys[1..])
    else Greater(xs[0], ys[0])
  }

  function MaxFrom(m: Value, vs: seq<Value>): Outcome
    decreases vs
  {
    if vs == [] then Ret(m)
    else if Falsy(vs[0]) then MaxFrom(m, vs[1..])
    else if Falsy(m) then MaxFrom(vs[0], vs[1..])
    else
      match Greater(vs[0], m)
      case None => Raise
      case Some(g) => MaxFrom(if g then vs[0] else m, vs[1..])
  }

  method MaxApply(inp: Value) returns (out: Outcome)
    ensures out == if inp.ListV? then MaxFrom(NoneV, inp.vs) else Raise
  {
    if !inp.ListV? {
      return Raise;
    }
    var m := NoneV;
    for k := 0 to |inp.vs|
      invariant MaxFrom(NoneV, inp.vs) == MaxFrom(m, inp.vs[k..])
    {
      var i := inp.vs[k];
      if !Falsy(i) {
        if Falsy(m) {
          m := i;
        } else {
          var greater := Greater(i, m);
          if greater.None? {
            return Raise;
          }
          if greater.value {
            m := i;
          }
        }
      }
    }
    return Ret(m);
  }

  /** Over readings that are numbers or missing, max is the largest non-zero one. */
  lemma {:induction false} MaxIsLargest(m: Value, vs: seq<Value>)
    requires !m.ListV? && forall v :: v in vs ==> !v.ListV?
    ensures MaxFrom(m, vs).Ret?
    ensures var o := MaxFrom(m, vs).v;
            && !o.ListV? && (o == m || (o in vs && !Falsy(o)))
            && (Falsy(o) <==> Falsy(m) && forall v :: v in vs ==> Falsy(v))
            && (forall v :: (v in vs || v == m) && !Falsy(v) ==> o.NumV? && v.r <= o.r)
    decreases vs
  {
    if vs != [] {
      var m' := if Falsy(vs[0]) || (!Falsy(m) && vs[0].r <= m.r) then m else vs[0];
      MaxIsLargest(m', vs[1..]);
      assert vs == [vs[0]] + vs[1..];
    }
  }

  function RunController(c: Controller, inp: Value, dt: Value): (Outcome, Controller) {
    if !inp.NumV? then (Raise, c)
    else
      match c
      case TableC(table, neg, pos, ts) =>
        var ts' := TableStep(table, neg, pos, ts, inp.r);
        (Ret(OptValue(ts'.lastOut)), c.(ts := ts'))
      case PidC(g, ps) =>
        // a time step that is no number raises where a zero one does
        var (raised, ps') := PidStep(g, ps, inp.r, if dt.NumV? then dt.r else 0.0);
        (if raised then Raise else Ret(OptValue(ps'.lastOut)), c.(ps := ps'))
  }

  function OptValue(o: Option<real>): Value {
    match o
    case None => NoneV
    case Some(r) => NumV(r)
  }

  function ApplyOperator(o: Operator, inp: Value, ctx: Context): (Outcome, Operator) {
    match o
    case Hold(last) => if inp != NoneV then (Ret(inp), Hold(inp)) else (Ret(last), o)
    case MaxOf => (if inp.ListV? then MaxFrom(NoneV, inp.vs) else Raise, o)
    case Profile(c) =>
      if inp == NoneV then (Ret(NoneV), o)
      else if "dt" !in ctx then (Raise, o)
      else
        var (out, c') := RunController(c, inp, ctx["dt"]);
        (out, Profile(c'))
  }

  /** The value, or that an exception was raised, with the operators as they
      were left; an exception keeps what was evaluated before it. */
  function Eval(n: Node, ctx: Context): (res: (Outcome, Node))
    decreases n, 0
  {
    match n
    case InfixN(op, l, r) =>
      var (lv, l') := Eval(l, ctx);
      if lv == Raise then (Raise, InfixN(op, l', r))
      else
        var (rv, r') := Eval(r, ctx);
        (if rv == Raise then Raise else Combine(op, lv.v, rv.v), InfixN(op, l', r'))
    case ListN(ns) =>
      var (vs, ns') := EvalAll(ns, ctx);
      (if vs.None? then Raise else Ret(ListV(vs.value)), ListN(ns'))
    case BindN(x, b, i) =>
      var (bv, b') := Eval(b, ctx);
      if bv == Raise then (Raise, BindN(x, b', i))
      else
        var (iv, i') := Eval(i, ctx[x := bv.v]);
        (iv, BindN(x, b', i'))
    case IdentN(x) => (Ret(Get(ctx, x)), n)
    case ConstN(v) => (Ret(NumV(v as real)), n)
    case ApplyN(x, o, i) =>
      var (iv, i') := Eval(i, ctx);
      if iv == Raise then (Raise, ApplyN(x, o, i'))
      else
        var (out, o') := ApplyOperator(o, iv.v, ctx);
        (out, ApplyN(x, o', i'))
  }

  function EvalAll(ns: seq<Node>, ctx: Context): (Option<seq<Value>>, seq<Node>)
    decreases ns, 1
  {
    if ns == [] then (Some([]), [])
    else
      var (v, n') := Eval(ns[0], ctx);
      if v == Raise then (None, [n'] + ns[1..])
      else
        var (vs, ns') := EvalAll(ns[1..], ctx);
        (if vs.None? then None else Some([v.v] + vs.value), [n'] + ns')
  }

  // ----- What evaluation gives -----

  /** Operators on numbers calculate; a zero divisor leaves the dividend. */
  lemma EvalArithmetic(l: Node, r: Node, ctx: Context, a: real, b: real)
    requires Eval(l, ctx).0 == Ret(NumV(a)) && Eval(r, ctx).0 == Ret(NumV(b))
    ensures Eval(InfixN(Plus, l, r), ctx).0 == Ret(NumV(a + b))
    ensures Eval(InfixN(Minus, l, r), ctx).0 == Ret(NumV(a - b))
    ensures Eval(InfixN(Multiply, l, r), ctx).0 == Ret(NumV(a * b))
    ensures b != 0.0 ==> Eval(InfixN(Divide, l, r), ctx).0 == Ret(NumV(a / b))
    ensures b == 0.0 ==> Eval(InfixN(Divide, l, r), ctx).0 == Ret(NumV(a))
  {
    ProductOf(NumV(a), NumV(b), a, b);
  }

  lemma ProductOf(l: Value, r: Value, a: real, b: real)
    requires l == NumV(a) && r == NumV(b)
    ensures Combine(Multiply, l, r) == Ret(NumV(a * b))
  {
    CombineProduct(l, r);
    assert l.r == a && r.r == b;
    assert l.r * r.r == a * b;
    assert NumV(l.r * r.r) == NumV(a * b);
  }

  lemma CombineProduct(l: Value, r: Value)
    requires l.NumV? && r.NumV?
    ensures Combine(Multiply, l, r) == Ret(NumV(l.r * r.r))
  {
  }

  /** An operand that is missing leaves the other; lists can only be added. */
  lemma EvalOperands(op: Op, l: Node, r: Node, ctx: Context)
    ensures var (lv, rv, out) := (Eval(l, ctx).0, Eval(r, ctx).0, Eval(InfixN(op, l, r), ctx).0);
            if lv == Raise || rv == Raise then out == Raise
            else if lv.v == NoneV then out == rv
            else if rv.v == NoneV then out == lv
            else if op == Divide && rv.v == NumV(0.0) then out == lv
            else if op == Plus && lv.v.ListV? && rv.v.ListV? then out == Ret(ListV(lv.v.vs + rv.v.vs))
            else out.Ret? <==> lv.v.NumV? && rv.v.NumV?
  {
  }

  /** Names give what the context holds for them, or are missing; constants themselves;
      a binding holds for its inner expression alone. */
  lemma EvalNames(x: string, v: nat, b: Node, i: Node, ctx: Context)
    ensures Eval(IdentN(x), ctx) == (Ret(if x in ctx then ctx[x] else NoneV), IdentN(x))
    ensures Eval(ConstN(v), ctx) == (Ret(NumV(v as real)), ConstN(v))
    ensures Eval(BindN(x, b, i), ctx).0 ==
            match Eval(b, ctx).0
            case Raise => Raise
            case Ret(bv) => Eval(i, ctx[x := bv]).0
  {
  }

  /** A list has the values of its members, in order, and raises if one does. */
  lemma {:induction false} EvalMembers(ns: seq<Node>, ctx: Context)
    ensures var out := Eval(ListN(ns), ctx).0;
            && (out.Raise? <==> exists k :: 0 <= k < |ns| && Eval(ns[k], ctx).0.Raise?)
            && (out.Ret? ==> out.v.ListV? && |out.v.vs| == |ns| &&
                             forall k :: 0 <= k < |ns| ==> Eval(ns[k], ctx).0 == Ret(out.v.vs[k]))
    decreases ns
  {
    if ns != [] {
      EvalMembers(ns[1..], ctx);
      var rest := EvalAll(ns[1..], ctx).0;
      assert Eval(ListN(ns[1..]), ctx).0 == if rest.None? then Raise else Ret(ListV(rest.value));
      assert forall k :: 1 <= k < |ns| ==> ns[k] == ns[1..][k - 1];
      if rest.None? {
        var k :| 0 <= k < |ns| - 1 && Eval(ns[1..][k], ctx).0.Raise?;
        assert Eval(ns[k + 1], ctx).0.Raise?;
      }
    }
  }

  /** Lists compare by the first members that differ, or else by length. */
  lemma {:induction false} ListsCompare(pre: seq<Value>, a: Value, xs: seq<Value>, b: Value, ys: seq<Value>)
    requires a != b
    ensures Greater(ListV(pre + [a] + xs), ListV(pre + [b] + ys)) == Greater(a, b)
    ensures Greater(ListV(pre + [a] + xs), ListV(pre)) == Some(true)
    ensures Greater(ListV(pre), ListV(pre + [b] + ys)) == Greater(ListV(pre), ListV(pre)) == Some(false)
    decreases pre
  {
    if pre != [] {
      assert (pre + [a] + xs)[1..] == pre[1..] + [a] + xs && (pre + [b] + ys)[1..] == pre[1..] + [b] + ys;
      ListsCompare(pre[1..], a, xs, b, ys);
    }
  }

  /** A number other than 0 beside a non-empty list. */
  predicate Mixed(vs: seq<Value>) {
    (exists v :: v in vs && v.NumV? && v.r != 0.0) && (exists v :: v in vs && v.ListV? && v.vs != [])
  }

  lemma {:induction false} MixedRaises(m: Value, vs: seq<Value>)
    requires Mixed([m] + vs)
    ensures MaxFrom(m, vs) == Raise
    decreases vs
  {
    if vs != [] {
      assert forall v :: v in vs <==> v == vs[0] || v in vs[1..];
      if Falsy(vs[0]) {
        MixedRaises(m, vs[1..]);
      } else if Falsy(m) {
        MixedRaises(vs[0], vs[1..]);
      } else {
        match Greater(vs[0], m)
        case None =>
        case Some(g) => MixedRaises(if g then vs[0] else m, vs[1..]);
      }
    }
  }

  /** max takes a list, and over numbers and missing values gives the largest non-zero
      one, or nothing if there is none; it raises over numbers and lists mixed. */
  lemma EvalMax(x: string, i: Node, ctx: Context)
    ensures var (inp, out) := (Eval(i, ctx).0, Eval(ApplyN(x, MaxOf, i), ctx).0);
            && (inp.Raise? || !inp.v.ListV? || Mixed(inp.v.vs) ==> out == Raise)
            && (inp.Ret? && inp.v.ListV? && (forall v :: v in inp.v.vs ==> !v.ListV?) ==>
                  && out.Ret?
                  && (out.v == NoneV || out.v in inp.v.vs)
                  && (out.v == NoneV <==> forall v :: v in inp.v.vs ==> v == NoneV || v == NumV(0.0))
                  && forall v :: v in inp.v.vs && v.NumV? && v.r != 0.0 ==> out.v.NumV? && v.r <= out.v.r)
  {
    var inp := Eval(i, ctx).0;
    if inp.Ret? && inp.v.ListV? {
      if Mixed(inp.v.vs) {
        assert forall v :: v in inp.v.vs ==> v in [NoneV] + inp.v.vs;
        MixedRaises(NoneV, inp.v.vs);
      }
      if forall v :: v in inp.v.vs ==> !v.ListV? {
        MaxIsLargest(NoneV, inp.v.vs);
      }
    }
  }

  /** The node as a run of evaluations left it, and the values they gave. */
  function NodeAfter(n: Node, ctxs: seq<Context>): Node {
    if ctxs == [] then n else Eval(NodeAfter(n, ctxs[..|ctxs| - 1]), ctxs[|ctxs| - 1]).1
  }

  function Outcomes(n: Node, ctxs: seq<Context>): (outs: seq<Outcome>)
    ensures |outs| == |ctxs|
  {
    if ctxs == [] then []
    else
      var init := ctxs[..|ctxs| - 1];
      Outcomes(n, init) + [Eval(NodeAfter(n, init), ctxs[|ctxs| - 1]).0]
  }

  lemma RunNext(n: Node, ctxs: seq<Context>, ctx: Context)
    ensures NodeAfter(n, ctxs + [ctx]) == Eval(NodeAfter(n, ctxs), ctx).1
    ensures Outcomes(n, ctxs + [ctx]) == Outcomes(n, ctxs) + [Eval(NodeAfter(n, ctxs), ctx).0]
  {
    assert (ctxs + [ctx])[..|ctxs|] == ctxs;
  }

  /** The last value that was there. */
  function LastKnown(outs: seq<Outcome>): Value {
    if outs == [] then NoneV
    else
      var last := outs[|outs| - 1];
      if last.Ret? && last.v != NoneV then last.v else LastKnown(outs[..|outs| - 1])
  }

  lemma LastKnownNext(outs: seq<Outcome>, last: Outcome)
    ensures LastKnown(outs + [last]) == if last.Ret? && last.v != NoneV then last.v else LastKnown(outs)
  {
    assert (outs + [last])[..|outs|] == outs;
  }

  function HoldNode(held: Value, i: Node): Node {
    ApplyN("hold", Hold(held), i)
  }

  lemma {:induction false} HoldRemembers(i: Node, ctxs: seq<Context>)
    ensures NodeAfter(HoldNode(NoneV, i), ctxs) == HoldNode(LastKnown(Outcomes(i, ctxs)), NodeAfter(i, ctxs))
  {
    if ctxs != [] {
      var init, ctx := ctxs[..|ctxs| - 1], ctxs[|ctxs| - 1];
      assert ctxs == init + [ctx];
      HoldRemembers(i, init);
      RunNext(HoldNode(NoneV, i), init, ctx);
      RunNext(i, init, ctx);
      LastKnownNext(Outcomes(i, init), Eval(NodeAfter(i, init), ctx).0);
    }
  }

  /** hold gives, whenever its operand does not raise, the last value the operand had,
      or nothing if it never had one. */
  lemma HoldGivesLastKnown(i: Node, ctxs: seq<Context>, ctx: Context)
    ensures var ins := Outcomes(i, ctxs + [ctx]);
            Outcomes(HoldNode(NoneV, i), ctxs + [ctx])[|ctxs|] ==
            if ins[|ctxs|].Raise? then Raise else Ret(LastKnown(ins))
  {
    HoldRemembers(i, ctxs);
    RunNext(HoldNode(NoneV, i), ctxs, ctx);
    RunNext(i, ctxs, ctx);
    LastKnownNext(Outcomes(i, ctxs), Eval(NodeAfter(i, ctxs), ctx).0);
  }

  /** The numbers among the values, with the time steps they came at. */
  function Samples(outs: seq<Outcome>, ctxs: seq<Context>): seq<Sample>
    requires |outs| == |ctxs|
  {
    if outs == [] then []
    else
      var n := |outs| - 1;
      var before := Samples(outs[..n], ctxs[..n]);
      if outs[n].Ret? && outs[n].v.NumV? then before + [Sample(outs[n].v.r, TimeStep(ctxs[n]))] else before
  }

  function TimeStep(ctx: Context): real {
    match Get(ctx, "dt")
    case NumV(dt) => dt
    case _ => 0.0
  }

  function ValuesOf(xs: seq<Sample>): seq<real> {
    seq(|xs|, k requires 0 <= k < |xs| => xs[k].value)
  }

  ghost predicate NumbersOrMissing(outs: seq<Outcome>) {
    forall o :: o in outs ==> o.Ret? && !o.v.ListV?
  }

  function TableNode(x: string, table: seq<Row>, neg: real, pos: real, ts: TableState, i: Node): Node {
    ApplyN(x, Profile(TableC(table, neg, pos, ts)), i)
  }

  lemma TableRunNext(table: seq<Row>, neg: real, pos: real, xs: seq<Sample>, x: Sample)
    ensures TableRun(table, neg, pos, ValuesOf(xs + [x])) ==
            TableStep(table, neg, pos, TableRun(table, neg, pos, ValuesOf(xs)), x.value)
  {
    assert ValuesOf(xs + [x])[..|xs|] == ValuesOf(xs);
  }

  lemma TableNodeStep(x: string, table: seq<Row>, neg: real, pos: real, ts: TableState, i: Node, ctx: Context)
    requires "dt" in ctx && Eval(i, ctx).0.Ret? && !Eval(i, ctx).0.v.ListV?
    ensures var (v, i') := (Eval(i, ctx).0.v, Eval(i, ctx).1);
            Eval(TableNode(x, table, neg, pos, ts, i), ctx) ==
            if v == NoneV then (Ret(NoneV), TableNode(x, table, neg, pos, ts, i'))
            else
              var ts' := TableStep(table, neg, pos, ts, v.r);
              (Ret(OptValue(ts'.lastOut)), TableNode(x, table, neg, pos, ts', i'))
  {
  }

  lemma {:induction false} TableRemembers(x: string, table: seq<Row>, neg: real, pos: real, i: Node, ctxs: seq<Context>)
    requires (forall ctx :: ctx in ctxs ==> "dt" in ctx) && NumbersOrMissing(Outcomes(i, ctxs))
    ensures var values := ValuesOf(Samples(Outcomes(i, ctxs), ctxs));
            NodeAfter(TableNode(x, table, neg, pos, TableState(0.0, None), i), ctxs) ==
            TableNode(x, table, neg, pos, TableRun(table, neg, pos, values), NodeAfter(i, ctxs))
  {
    if ctxs != [] {
      var init, ctx := ctxs[..|ctxs| - 1], ctxs[|ctxs| - 1];
      assert ctxs == init + [ctx] && ctx in ctxs;
      var ins, last := Outcomes(i, init), Eval(NodeAfter(i, init), ctx).0;
      RunNext(TableNode(x, table, neg, pos, TableState(0.0, None), i), init, ctx);
      RunNext(i, init, ctx);
      assert last in Outcomes(i, ctxs) && forall o :: o in ins ==> o in Outcomes(i, ctxs);
      TableRemembers(x, table, neg, pos, i, init);
      var ts := TableRun(table, neg, pos, ValuesOf(Samples(ins, init)));
      TableNodeStep(x, table, neg, pos, ts, NodeAfter(i, init), ctx);
      if last.v.NumV? {
        TableRunNext(table, neg, pos, Samples(ins, init), Sample(last.v.r, TimeStep(ctx)));
      }
    }
  }

  /** A table profile over an operand that gives numbers or nothing is the table's run
      over the numbers; where the operand gives nothing, so does the profile. */
  lemma TableProfileRuns(x: string, table: seq<Row>, neg: real, pos: real, i: Node, ctxs: seq<Context>, ctx: Context)
    requires (forall c :: c in ctxs ==> "dt" in c) && "dt" in ctx && NumbersOrMissing(Outcomes(i, ctxs + [ctx]))
    ensures var ins := Outcomes(i, ctxs + [ctx]);
            var s := TableRun(table, neg, pos, ValuesOf(Samples(ins, ctxs + [ctx])));
            Outcomes(TableNode(x, table, neg, pos, TableState(0.0, None), i), ctxs + [ctx])[|ctxs|] ==
            if ins[|ctxs|].v == NoneV || s.lastOut.None? then Ret(NoneV) else Ret(NumV(s.lastOut.value))
  {
    var ins, last := Outcomes(i, ctxs), Eval(NodeAfter(i, ctxs), ctx).0;
    RunNext(TableNode(x, table, neg, pos, TableState(0.0, None), i), ctxs, ctx);
    RunNext(i, ctxs, ctx);
    assert forall o :: o in ins + [last] ==> o in Outcomes(i, ctxs + [ctx]);
    TableRemembers(x, table, neg, pos, i, ctxs);
    var ts := TableRun(table, neg, pos, ValuesOf(Samples(ins, ctxs)));
    TableNodeStep(x, table, neg, pos, ts, NodeAfter(i, ctxs), ctx);
    if last.v.NumV? {
      TableRunNext(table, neg, pos, Samples(ins, ctxs), Sample(last.v.r, TimeStep(ctx)));
    }
  }

  function PidNode(x: string, g: Gains, ps: PidState, i: Node): Node {
    ApplyN(x, Profile(PidC(g, ps)), i)
  }

  lemma PidNodeStep(x: string, g: Gains, ps: PidState, i: Node, ctx: Context)
    requires "dt" in ctx && Eval(i, ctx).0.Ret? && !Eval(i, ctx).0.v.ListV?
    ensures var (v, i') := (Eval(i, ctx).0.v, Eval(i, ctx).1);
            Eval(PidNode(x, g, ps, i), ctx) ==
            if v == NoneV then (Ret(NoneV), PidNode(x, g, ps, i'))
            else
              var (raised, ps') := PidStep(g, ps, v.r, TimeStep(ctx));
              (if raised then Raise else Ret(OptValue(ps'.lastOut)), PidNode(x, g, ps', i'))
  {
  }

  lemma PidSamplesLast(g: Gains, i: Node, ctxs: seq<Context>)
    requires ctxs != [] && NumbersOrMissing(Outcomes(i, ctxs))
    ensures var init := ctxs[..|ctxs| - 1];
            var ctx := ctxs[|ctxs| - 1];
            var last := Eval(NodeAfter(i, init), ctx).0;
            var was := PidRun(g, Samples(Outcomes(i, init), init));
            var now := PidRun(g, Samples(Outcomes(i, ctxs), ctxs));
            && NumbersOrMissing(Outcomes(i, init))
            && last == Outcomes(i, ctxs)[|ctxs| - 1] && last.Ret? && !last.v.ListV?
            && (last.v == NoneV ==> now == was)
            && (last.v != NoneV && was.Some? ==>
                  var (raised, s) := PidStep(g, was.value, last.v.r, TimeStep(ctx));
                  now == if raised then None else Some(s))
            && (now.Some? ==> was.Some?)
  {
    var init := ctxs[..|ctxs| - 1];
    assert forall o :: o in Outcomes(i, init) ==> o in Outcomes(i, ctxs);
    assert Outcomes(i, ctxs)[|ctxs| - 1] in Outcomes(i, ctxs);
    PidLastSample(g, Outcomes(i, ctxs), ctxs);
  }

  lemma PidLastSample(g: Gains, outs: seq<Outcome>, ctxs: seq<Context>)
    requires |outs| == |ctxs| > 0
    ensures var n := |outs| - 1;
            var was := PidRun(g, Samples(outs[..n], ctxs[..n]));
            var now := PidRun(g, Samples(outs, ctxs));
            && (now.Some? ==> was.Some?)
            && (if outs[n].Ret? && outs[n].v.NumV? then
                  was.Some? ==>
                    var (raised, s) := PidStep(g, was.value, outs[n].v.r, TimeStep(ctxs[n]));
                    now == if raised then None else Some(s)
                else now == was)
  {
    var n := |outs| - 1;
    if outs[n].Ret? && outs[n].v.NumV? {
      var xs, x := Samples(outs[..n], ctxs[..n]), Sample(outs[n].v.r, TimeStep(ctxs[n]));
      assert (xs + [x])[..|xs|] == xs;
    }
  }

  /** A PID profile is likewise the PID's run over the numbers and their time steps, and
      raises where that does; up to there it remembers what that leaves. */
  lemma {:induction false} PidRemembers(x: string, g: Gains, i: Node, ctxs: seq<Context>)
    requires (forall ctx :: ctx in ctxs ==> "dt" in ctx) && NumbersOrMissing(Outcomes(i, ctxs))
    requires PidRun(g, Samples(Outcomes(i, ctxs), ctxs)).Some?
    ensures NodeAfter(PidNode(x, g, PidState(0.0, 0.0, None), i), ctxs) ==
            PidNode(x, g, PidRun(g, Samples(Outcomes(i, ctxs), ctxs)).value, NodeAfter(i, ctxs))
  {
    if ctxs != [] {
      var init, ctx := ctxs[..|ctxs| - 1], ctxs[|ctxs| - 1];
      PidSamplesLast(g, i, ctxs);
      PidRemembers(x, g, i, init);
      PidNodeStep(x, g, PidRun(g, Samples(Outcomes(i, init), init)).value, NodeAfter(i, init), ctx);
    }
  }

  lemma PidProfileRuns(x: string, g: Gains, i: Node, ctxs: seq<Context>, ctx: Context)
    requires (forall c :: c in ctxs ==> "dt" in c) && "dt" in ctx && NumbersOrMissing(Outcomes(i, ctxs + [ctx]))
    requires PidRun(g, Samples(Outcomes(i, ctxs), ctxs)).Some?
    ensures var ins := Outcomes(i, ctxs + [ctx]);
            var s := PidRun(g, Samples(ins, ctxs + [ctx]));
            Outcomes(PidNode(x, g, PidState(0.0, 0.0, None), i), ctxs + [ctx])[|ctxs|] ==
            if ins[|ctxs|].v == NoneV then Ret(NoneV)
            else if s.None? then Raise
            else if s.value.lastOut.None? then Ret(NoneV)
            else Ret(NumV(s.value.lastOut.value))
  {
    assert (ctxs + [ctx])[..|ctxs|] == ctxs;
    PidSamplesLast(g, i, ctxs + [ctx]);
    PidRemembers(x, g, i, ctxs);
    PidNodeStep(x, g, PidRun(g, Samples(Outcomes(i, ctxs), ctxs)).value, NodeAfter(i, ctxs), ctx);
  }

  /** Names of functions: hold starts with nothing held, max and the profiles as they
      are given; any other name is refused. */
  lemma CompileCall(x: string, i: Expr, vars: set<string>, profiles: map<string, Controller>)
    ensures Compile(Apply(x, i), vars, profiles).Built? <==>
            Compile(i, vars, profiles).Built? && (x == "hold" || x == "max" || x in profiles)
    ensures Compile(Apply(x, i), vars, profiles).Built? ==>
              Compile(Apply(x, i), vars, profiles).value ==
              ApplyN(x, if x == "hold" then Hold(NoneV) else if x == "max" then MaxOf else Profile(profiles[x]),
                     Compile(i, vars, profiles).value)
  {
  }

  ghost predicate Agree(c1: Context, c2: Context, names: set<string>) {
    && (forall x :: x in names ==> Get(c1, x) == Get(c2, x))
    && ("dt" in c1 <==> "dt" in c2) && ("dt" in c1 ==> c1["dt"] == c2["dt"])
  }

  /** Value and new operator states depend only on the free names and on dt. */
  lemma {:induction false} EvalDependsOnFree(n: Node, c1: Context, c2: Context)
    requires Agree(c1, c2, Free(ToExpr(n)))
    ensures Eval(n, c1) == Eval(n, c2)
    decreases n, 0
  {
    match n
    case InfixN(op, l, r) =>
      EvalDependsOnFree(l, c1, c2);
      EvalDependsOnFree(r, c1, c2);
    case ListN(ns) => EvalAllDependsOnFree(ns, c1, c2);
    case BindN(x, b, i) =>
      EvalDependsOnFree(b, c1, c2);
      var bv := Eval(b, c1).0;
      if bv.Ret? {
        forall y | y in Free(ToExpr(i)) ensures Get(c1[x := bv.v], y) == Get(c2[x := bv.v], y) {
          assert y == x || y in Free(ToExpr(n));
        }
        EvalDependsOnFree(i, c1[x := bv.v], c2[x := bv.v]);
      }
    case ApplyN(x, o, i) => EvalDependsOnFree(i, c1, c2);
    case _ =>
  }

  lemma {:induction false} EvalAllDependsOnFree(ns: seq<Node>, c1: Context, c2: Context)
    requires Agree(c1, c2, FreeAll(ToExprs(ns)))
    ensures EvalAll(ns, c1) == EvalAll(ns, c2)
    decreases ns, 1
  {
    if ns != [] {
      assert ToExprs(ns)[1..] == ToExprs(ns[1..]);
      EvalDependsOnFree(ns[0], c1, c2);
      EvalAllDependsOnFree(ns[1..], c1, c2);
    }
  }

  /** What the zone may rely on: a context that fills the collected names and dt
      decides the value, whatever else it holds, on the first run and on any
      later one. */
  lemma CollectedNamesDecide(e: Expr, profiles: map<string, Controller>, n: Node, c1: Context, c2: Context)
    requires Compile(e, {}, profiles).Built? && Free(e) !! ClosedLast(e)
    requires ToExpr(n) == e && Agree(c1, c2, Compile(e, {}, profiles).extVars)
    ensures Eval(n, c1) == Eval(n, c2) && ToExpr(Eval(n, c1).1) == e
  {
    CollectedIsFreeIff(e, profiles);
    EvalDependsOnFree(n, c1, c2);
    EvalKeepsShape(n, c1);
  }

  lemma {:induction false} EvalKeepsShape(n: Node, ctx: Context)
    ensures ToExpr(Eval(n, ctx).1) == ToExpr(n)
    decreases n, 0
  {
    match n
    case InfixN(op, l, r) =>
      EvalKeepsShape(l, ctx);
      EvalKeepsShape(r, ctx);
    case ListN(ns) => EvalAllKeepsShape(ns, ctx);
    case BindN(x, b, i) =>
      EvalKeepsShape(b, ctx);
      var bv := Eval(b, ctx).0;
      if bv.Ret? {
        EvalKeepsShape(i, ctx[x := bv.v]);
      }
    case ApplyN(x, o, i) => EvalKeepsShape(i, ctx);
    case _ =>
  }

  lemma {:induction false} EvalAllKeepsShape(ns: seq<Node>, ctx: Context)
    ensures ToExprs(EvalAll(ns, ctx).1) == ToExprs(ns)
    decreases ns, 1
  {
    if ns != [] {
      EvalKeepsShape(ns[0], ctx);
      EvalAllKeepsShape(ns[1..], ctx);
      assert EvalAll(ns, ctx).1[1..] == if Eval(ns[0], ctx).0 == Raise then ns[1..] else EvalAll(ns[1..], ctx).1;
    }
  }

  /** A name that is free in front of its binding is lost: `x + x = 1; x`
      collects nothing, yet its value depends on the outer x. */
  lemma ClashLosesName()
    ensures var e := Infix(Plus, Ident("x"), Bind("x", Const(1), Ident("x")));
            && Compile(e, {}, map[]).Built? && Compile(e, {}, map[]).extVars == {}
            && Canonical(e) && Free(e) == {"x"}
            && Eval(Compile(e, {}, map[]).value, map["x" := NumV(1.0)]).0 !=
               Eval(Compile(e, {}, map[]).value, map["x" := NumV(2.0)]).0
  {
    var e := Infix(Plus, Ident("x"), Bind("x", Const(1), Ident("x")));
    var n := Compile(e, {}, map[]).value;
    assert n == InfixN(Plus, IdentN("x"), BindN("x", ConstN(1), IdentN("x")));
    assert Eval(n.rhs, map["x" := NumV(1.0)]).0 == Ret(NumV(1.0));
    assert Eval(n.rhs, map["x" := NumV(2.0)]).0 == Ret(NumV(1.0));
    assert Eval(n, map["x" := NumV(1.0)]).0 == Ret(NumV(2.0));
    assert Eval(n, map["x" := NumV(2.0)]).0 == Ret(NumV(3.0));
  }
}
