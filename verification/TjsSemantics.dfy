/**
 What a TernaryJS program does (desktop-metal/src/tjs.rs:739-1285): the tree-walking interpreter as functions on the
 state it carries. Floating-point arithmetic is a parameter, and so is the step limit; error texts are left out.
 */
module TjsSemantics {
  import opened Options
  import opened TjsSyntax

  /** The operations on `f64` the interpreter uses. */
  datatype Arith = Arith(
    add: (Number, Number) -> Number,
    sub: (Number, Number) -> Number,
    mul: (Number, Number) -> Number,
    div: (Number, Number) -> Number,
    rem: (Number, Number) -> Number,
    neg: Number -> Number,
    less: (Number, Number) -> bool,
    equal: (Number, Number) -> bool,
    truthy: Number -> bool,
    toInt: Number -> int,
    fromNat: nat -> Number,
    show: Number -> string)

  datatype Machine = Machine(maxSteps: nat, num: Arith)

  datatype Value =
    | Num(n: Number) | Str(s: string) | Bool(b: bool) | Null
    | Array(items: seq<Value>)
    | Func(params: seq<string>, body: seq<Stmt>)

  /** A result, an error of the program, or the step limit. */
  datatype Outcome<T> = Got(value: T) | Error | OutOfSteps

  datatype Flow = Normal | Returned(v: Value)

  type Scope = seq<(string, Value)>

  /** Scopes from the global one to the innermost, the output lines, and the ticks so far. */
  datatype State = State(scopes: seq<Scope>, out: seq<string>, steps: nat)

  // ---- environment ----

  function NamesOf(sc: Scope): seq<string> {
    if sc == [] then [] else [sc[0].0] + NamesOf(sc[1..])
  }

  function Lookup(sc: Scope, name: string): Option<Value> {
    if sc == [] then None else if sc[0].0 == name then Some(sc[0].1) else Lookup(sc[1..], name)
  }

  /** The first slot called `name` takes the value; the scope is unchanged when there is none. */
  function Store(sc: Scope, name: string, v: Value): (r: Scope)
    ensures NamesOf(r) == NamesOf(sc)
  {
    if sc == [] then []
    else if sc[0].0 == name then [(name, v)] + sc[1..]
    else [sc[0]] + Store(sc[1..], name, v)
  }

  function Bind(sc: Scope, name: string, v: Value): Scope {
    if Lookup(sc, name).Some? then Store(sc, name, v) else sc + [(name, v)]
  }

  function Declare(scopes: seq<Scope>, name: string, v: Value): seq<Scope>
    requires scopes != []
  {
    scopes[..|scopes| - 1] + [Bind(scopes[|scopes| - 1], name, v)]
  }

  function Get(scopes: seq<Scope>, name: string): Option<Value> {
    if scopes == [] then None
    else
      var top := scopes[|scopes| - 1];
      if Lookup(top, name).Some? then Lookup(top, name) else Get(scopes[..|scopes| - 1], name)
  }

  function Set(scopes: seq<Scope>, name: string, v: Value): Option<seq<Scope>> {
    if scopes == [] then None
    else
      var top, rest := scopes[|scopes| - 1], scopes[..|scopes| - 1];
      if Lookup(top, name).Some? then Some(rest + [Store(top, name, v)])
      else
        match Set(rest, name, v)
        case None => None
        case Some(rest') => Some(rest' + [top])
  }

  /** The same names in every scope, in the same order. */
  ghost predicate SameNames(a: seq<Scope>, b: seq<Scope>) {
    |a| == |b| && forall k :: 0 <= k < |a| ==> NamesOf(a[k]) == NamesOf(b[k])
  }

  /** As `SameNames`, but the innermost scope may have gained names, all of them among `gained`. */
  ghost predicate Extends(a: seq<Scope>, b: seq<Scope>, gained: set<string>) {
    && |a| == |b| > 0
    && SameNames(a[..|a| - 1], b[..|b| - 1])
    && var before, after := NamesOf(a[|a| - 1]), NamesOf(b[|b| - 1]);
       before <= after && forall k :: |before| <= k < |after| ==> after[k] in gained
  }

  lemma {:induction false} NamesAppend(sc: Scope, name: string, v: Value)
    ensures NamesOf(sc + [(name, v)]) == NamesOf(sc) + [name]
  {
    if sc == [] {
      assert sc + [(name, v)] == [(name, v)];
    } else {
      NamesAppend(sc[1..], name, v);
      assert (sc + [(name, v)])[1..] == sc[1..] + [(name, v)];
    }
  }

  lemma DeclareExtends(scopes: seq<Scope>, name: string, v: Value)
    requires scopes != []
    ensures Extends(scopes, Declare(scopes, name, v), {name})
  {
    NamesAppend(scopes[|scopes| - 1], name, v);
  }

  lemma {:induction false} SetKeepsNames(scopes: seq<Scope>, name: string, v: Value)
    ensures var r := Set(scopes, name, v); r.Some? ==> SameNames(scopes, r.value)
  {
    if scopes != [] {
      SetKeepsNames(scopes[..|scopes| - 1], name, v);
    }
  }

  lemma SameNamesExtends(a: seq<Scope>, b: seq<Scope>)
    requires SameNames(a, b) && a != []
    ensures Extends(a, b, {})
  {
  }

  lemma ExtendsTransitive(a: seq<Scope>, b: seq<Scope>, c: seq<Scope>, f: set<string>, g: set<string>)
    requires Extends(a, b, f) && Extends(b, c, g)
    ensures Extends(a, c, f + g)
  {
    var n := |a| - 1;
    assert forall k :: 0 <= k < n ==> NamesOf(a[..n][k]) == NamesOf(b[..n][k]) == NamesOf(c[..n][k]);
  }

  lemma ExtendsWeaker(a: seq<Scope>, b: seq<Scope>, f: set<string>, g: set<string>)
    requires Extends(a, b, f) && f <= g
    ensures Extends(a, b, g)
  {
  }

  /** What happened above a pushed scope is forgotten when it is popped. */
  lemma PopForgets(a: seq<Scope>, sc: Scope, b: seq<Scope>, f: set<string>)
    requires Extends(a + [sc], b, f)
    ensures SameNames(a, b[..|b| - 1])
  {
    assert (a + [sc])[..|a|] == a;
  }

  // ---- values ----

  function Truthy(num: Arith, v: Value): bool {
    match v
    case Num(n) => num.truthy(n)
    case Str(s) => s != ""
    case Bool(b) => b
    case Null => false
    case Array(_) => true
    case Func(_, _) => true
  }

  function Display(num: Arith, v: Value): string
    decreases v, 1
  {
    match v
    case Num(n) => num.show(n)
    case Str(s) => s
    case Bool(b) => if b then "true" else "false"
    case Null => "null"
    case Array(items) => JoinDisplays(num, items, ",")
    case Func(_, _) => "[function]"
  }

  function JoinDisplays(num: Arith, vs: seq<Value>, sep: string): string
    decreases vs, 0
  {
    if vs == [] then ""
    else Display(num, vs[0]) + (if |vs| == 1 then "" else sep + JoinDisplays(num, vs[1..], sep))
  }

  function StringLess(x: string, y: string): bool {
    if y == "" then false
    else if x == "" then true
    else x[0] < y[0] || (x[0] == y[0] && StringLess(x[1..], y[1..]))
  }

  /** The balanced-ternary comparison: -1, 0 or +1, for values of one comparable kind. */
  function Compare(num: Arith, a: Value, b: Value): Option<int> {
    match (a, b)
    case (Num(x), Num(y)) => Some(if num.less(x, y) then -1 else if num.less(y, x) then 1 else 0)
    case (Str(x), Str(y)) => Some(if StringLess(x, y) then -1 else if StringLess(y, x) then 1 else 0)
    case (Bool(x), Bool(y)) => Some((if x then 1 else 0) - (if y then 1 else 0))
    case (Null, Null) => Some(0)
    case _ => None
  }

  function TypeTag(v: Value): nat {
    match v
    case Num(_) => 0
    case Str(_) => 1
    case Bool(_) => 2
    case Null => 3
    case Array(_) => 4
    case Func(_, _) => 5
  }

  function EqStrict(num: Arith, a: Value, b: Value): bool {
    TypeTag(a) == TypeTag(b) && Compare(num, a, b) == Some(0)
  }

  function EqLoose(num: Arith, a: Value, b: Value): bool {
    if TypeTag(a) == TypeTag(b) then Compare(num, a, b) == Some(0)
    else
      match (a, b)
      case (Num(x), Bool(y)) => num.equal(x, num.fromNat(if y then 1 else 0))
      case (Bool(y), Num(x)) => num.equal(x, num.fromNat(if y then 1 else 0))
      case _ => false
  }

  function ArithOf(f: (Number, Number) -> Number, l: Value, r: Value): Outcome<Value> {
    if l.Num? && r.Num? then Got(Value.Num(f(l.n, r.n))) else Error
  }

  function BinOf(num: Arith, op: BinOp, l: Value, r: Value): Outcome<Value> {
    match op
    case Add =>
      if l.Num? && r.Num? then Got(Value.Num(num.add(l.n, r.n)))
      else if l.Str? || r.Str? then Got(Value.Str(Display(num, l) + Display(num, r)))
      else Error
    case Sub => ArithOf(num.sub, l, r)
    case Mul => ArithOf(num.mul, l, r)
    case Div => ArithOf(num.div, l, r)
    case Mod => ArithOf(num.rem, l, r)
    case Less | LessEq | Greater | GreaterEq =>
      (match Compare(num, l, r)
       case None => Error
       case Some(c) =>
         Got(Value.Bool(match op
                  case Less => c < 0
                  case LessEq => c <= 0
                  case Greater => c > 0
                  case _ => c >= 0)))
    case EqLoose => Got(Value.Bool(EqLoose(num, l, r)))
    case NeLoose => Got(Value.Bool(!EqLoose(num, l, r)))
    case EqStrict => Got(Value.Bool(EqStrict(num, l, r)))
    case NeStrict => Got(Value.Bool(!EqStrict(num, l, r)))
  }

  function IndexOf(num: Arith, base: Value, idx: Value): Outcome<Value> {
    if !idx.Num? then Error
    else
      var k := num.toInt(idx.n);
      match base
      case Array(items) => Got(if 0 <= k < |items| then items[k] else Value.Null)
      case Str(s) => Got(if 0 <= k < |s| then Value.Str([s[k]]) else Value.Null)
      case _ => Error
  }

  function MemberOf(num: Arith, base: Value, field: string): Outcome<Value> {
    if field != "length" then Error
    else
      match base
      case Array(items) => Got(Value.Num(num.fromNat(|items|)))
      case Str(s) => Got(Value.Num(num.fromNat(|s|)))
      case _ => Error
  }

  function UnaryOf(num: Arith, op: UnOp, v: Value): Outcome<Value> {
    match op
    case Neg => if v.Num? then Got(Value.Num(num.neg(v.n))) else Error
    case Not => Got(Value.Bool(!Truthy(num, v)))
  }

  /** `items` with `v` at `k`, padded with nulls when it is too short. */
  function Put(items: seq<Value>, k: nat, v: Value): seq<Value> {
    (if k < |items| then items else items + seq(k + 1 - |items|, _ => Value.Null))[k := v]
  }

  // ---- execution ----

  /** The scopes, outputs and ticks a step starts from and may leave. */
  ghost predicate Began(m: Machine, s: State) {
    s.scopes != [] && s.steps <= m.maxSteps
  }

  /** The limit stops a run at the first tick beyond it, and no tick comes after. */
  ghost predicate Ticked<T(!new)>(m: Machine, s: State, r: (Outcome<T>, State)) {
    && s.steps <= r.1.steps <= m.maxSteps + 1
    && (r.0.OutOfSteps? <==> r.1.steps == m.maxSteps + 1)
  }

  function Budget(m: Machine, s: State): nat {
    if s.steps <= m.maxSteps then m.maxSteps + 1 - s.steps else 0
  }

  function Tick(s: State): State {
    s.(steps := s.steps + 1)
  }

  function WithScopes(s: State, scopes: seq<Scope>): State {
    s.(scopes := scopes)
  }

  function Push(s: State): State {
    s.(scopes := s.scopes + [[]])
  }

  function Pop(s: State): State {
    s.(scopes := if s.scopes == [] then [] else s.scopes[..|s.scopes| - 1])
  }

  predicate IsConsole(callee: Expr) {
    callee.Member? && callee.obj == Expr.Ident("console") && callee.field in {"log", "error", "warn"}
  }

  ghost function Eval(m: Machine, e: Expr, s: State): (r: (Outcome<Value>, State))
    requires Began(m, s)
    ensures Ticked(m, s, r) && s.steps < r.1.steps
    ensures SameNames(s.scopes, r.1.scopes)
    decreases Budget(m, s), 0, 0
  {
    var s := Tick(s);
    if s.steps > m.maxSteps then (OutOfSteps, s)
    else
      match e
      case Num(n) => (Got(Value.Num(n)), s)
      case Str(t) => (Got(Value.Str(t)), s)
      case Bool(b) => (Got(Value.Bool(b)), s)
      case Null => (Got(Value.Null), s)
      case Ident(name) =>
        (match Get(s.scopes, name) case None => (Error, s) case Some(v) => (Got(v), s))
      case Array(items) =>
        var (vs, s1) := EvalAll(m, items, s);
        (Lift(vs, (vs: seq<Value>) => Got(Value.Array(vs))), s1)
      case Index(base, idx) => EvalTwo(m, base, idx, s, (b, i) => IndexOf(m.num, b, i))
      case Unary(op, x) =>
        var (v, s1) := Eval(m, x, s);
        (Lift(v, v => UnaryOf(m.num, op, v)), s1)
      case Bin(op, l, r) => EvalTwo(m, l, r, s, (l, r) => BinOf(m.num, op, l, r))
      case Logic(op, l, r) =>
        var (lv, s1) := Eval(m, l, s);
        if lv.Got? && Truthy(m.num, lv.value) == (op == And) then Eval(m, r, s1) else (lv, s1)
      case Assign(target, value) =>
        var (v, s1) := Eval(m, value, s);
        if !v.Got? then (v, s1) else EvalStore(m, target, v.value, s1)
      case Call(callee, args) => EvalCall(m, callee, args, s)
      case Member(obj, field) =>
        var (b, s1) := Eval(m, obj, s);
        (Lift(b, b => MemberOf(m.num, b, field)), s1)
  }

  /** An outcome passed on to a computation without side effects. */
  function Lift<A, B>(o: Outcome<A>, f: A -> Outcome<B>): Outcome<B> {
    match o
    case Got(v) => f(v)
    case Error => Error
    case OutOfSteps => OutOfSteps
  }

  ghost function EvalTwo(m: Machine, a: Expr, b: Expr, s: State, f: (Value, Value) -> Outcome<Value>):
    (r: (Outcome<Value>, State))
    requires Began(m, s) && forall x, y :: !f(x, y).OutOfSteps?
    ensures Ticked(m, s, r) && SameNames(s.scopes, r.1.scopes)
    decreases Budget(m, s), 1, 0
  {
    var (x, s1) := Eval(m, a, s);
    if !x.Got? then (x, s1)
    else
      var (y, s2) := Eval(m, b, s1);
      if !y.Got? then (y, s2) else (f(x.value, y.value), s2)
  }

  /** Left to right, up to the first failure. */
  ghost function EvalAll(m: Machine, es: seq<Expr>, s: State): (r: (Outcome<seq<Value>>, State))
    requires Began(m, s)
    ensures Ticked(m, s, r) && SameNames(s.scopes, r.1.scopes)
    ensures r.0.Got? ==> |r.0.value| == |es|
    decreases Budget(m, s), 1, |es|
  {
    if es == [] then (Got([]), s)
    else
      var (v, s1) := Eval(m, es[0], s);
      if !v.Got? then (Lift(v, _ => Error), s1)
      else
        var (vs, s2) := EvalAll(m, es[1..], s1);
        (Lift(vs, vs => Got([v.value] + vs)), s2)
  }

  /** The target of an assignment, once the value is known. */
  ghost function EvalStore(m: Machine, target: Expr, v: Value, s: State): (r: (Outcome<Value>, State))
    requires Began(m, s)
    ensures Ticked(m, s, r) && SameNames(s.scopes, r.1.scopes)
    decreases Budget(m, s), 1, 0
  {
    match target
    case Ident(name) => StoreVariable(s, name, v, v)
    case Index(base, idx) =>
      if !base.Ident? then (Error, s)
      else
        var (i, s1) := Eval(m, idx, s);
        if !i.Got? then (i, s1) else StoreElement(m.num, s1, base.name, i.value, v)
    case _ => (Error, s)
  }

  function StoreVariable(s: State, name: string, v: Value, result: Value): (r: (Outcome<Value>, State))
    ensures SameNames(s.scopes, r.1.scopes) && r.1.steps == s.steps && !r.0.OutOfSteps?
  {
    SetKeepsNames(s.scopes, name, v);
    match Set(s.scopes, name, v)
    case None => (Error, s)
    case Some(scopes) => (Got(result), s.(scopes := scopes))
  }

  function StoreElement(num: Arith, s: State, name: string, i: Value, v: Value): (r: (Outcome<Value>, State))
    ensures SameNames(s.scopes, r.1.scopes) && r.1.steps == s.steps && !r.0.OutOfSteps?
  {
    if !i.Num? then (Error, s)
    else
      match Get(s.scopes, name)
      case Some(Array(items)) =>
        var k := num.toInt(i.n);
        if k < 0 then (Error, s) else StoreVariable(s, name, Value.Array(Put(items, k, v)), v)
      case _ => (Error, s)
  }

  ghost function EvalCall(m: Machine, callee: Expr, args: seq<Expr>, s: State): (r: (Outcome<Value>, State))
    requires Began(m, s)
    ensures Ticked(m, s, r) && SameNames(s.scopes, r.1.scopes)
    decreases Budget(m, s), 2, 0
  {
    if IsConsole(callee) then
      var (vs, s1) := EvalAll(m, args, s);
      if !vs.Got? then (Lift(vs, _ => Error), s1)
      else (Got(Value.Null), s1.(out := s1.out + [JoinDisplays(m.num, vs.value, " ")]))
    else
      var (f, s1) := Eval(m, callee, s);
      if !f.Got? then (f, s1)
      else if !f.value.Func? then (Error, s1)
      else
        var (vs, s2) := EvalAll(m, args, s1);
        if !vs.Got? then (Lift(vs, _ => Error), s2)
        else Invoke(m, f.value.params, f.value.body, vs.value, s2)
  }

  function BindParams(scopes: seq<Scope>, params: seq<string>, args: seq<Value>): seq<Scope>
    requires scopes != []
    decreases |params|
  {
    if params == [] then scopes
    else
      BindParams(Declare(scopes, params[0], if args == [] then Value.Null else args[0]),
                 params[1..], if args == [] then [] else args[1..])
  }

  /** A fresh scope for the call, gone again however the body ends. */
  ghost function Invoke(m: Machine, params: seq<string>, body: seq<Stmt>, args: seq<Value>, s: State):
    (r: (Outcome<Value>, State))
    requires Began(m, s)
    ensures Ticked(m, s, r) && SameNames(s.scopes, r.1.scopes)
    decreases Budget(m, s), 4, 0
  {
    var s1 := WithScopes(s, BindParams(Push(s).scopes, params, args));
    assert Extends(Push(s).scopes, s1.scopes, SetOf(params)) by { BindParamsExtends(Push(s).scopes, params, args); }
    var (flow, s2) := ExecBlock(m, body, s1);
    assert SameNames(s.scopes, Pop(s2).scopes) by {
      ExtendsTransitive(Push(s).scopes, s1.scopes, s2.scopes, SetOf(params), BlockNames(body));
      PopForgets(s.scopes, [], s2.scopes, SetOf(params) + BlockNames(body));
    }
    (Lift(flow, CallResult), Pop(s2))
  }

  function CallResult(flow: Flow): Outcome<Value> {
    match flow
    case Returned(v) => Got(v)
    case Normal => Got(Value.Null)
  }

  ghost function SetOf(names: seq<string>): set<string> {
    set n | n in names
  }

  lemma {:induction false} BindParamsExtends(scopes: seq<Scope>, params: seq<string>, args: seq<Value>)
    requires scopes != []
    ensures Extends(scopes, BindParams(scopes, params, args), SetOf(params))
    decreases |params|
  {
    if params == [] {
      SameNamesExtends(scopes, scopes);
      assert SetOf(params) == {};
    } else {
      var v, rest := if args == [] then Value.Null else args[0], if args == [] then [] else args[1..];
      var scopes' := Declare(scopes, params[0], v);
      DeclareExtends(scopes, params[0], v);
      BindParamsExtends(scopes', params[1..], rest);
      ExtendsTransitive(scopes, scopes', BindParams(scopes', params[1..], rest), {params[0]}, SetOf(params[1..]));
      ExtendsWeaker(scopes, BindParams(scopes, params, args), {params[0]} + SetOf(params[1..]), SetOf(params));
    }
  }

  /** The names a statement may add to the scope it runs in: blocks, loops with `for` and calls add none. */
  function Introduces(st: Stmt): set<string>
    decreases st
  {
    match st
    case Decl(name, _) => {name}
    case Func(name, _, _) => {name}
    case If(_, thn, els) => Introduces(thn) + (match els case None => {} case Some(e) => Introduces(e))
    case While(_, loop) => Introduces(loop)
    case _ => {}
  }

  function BlockNames(body: seq<Stmt>): set<string> {
    if body == [] then {} else Introduces(body[0]) + BlockNames(body[1..])
  }

  /** Function declarations are bound before the block runs. */
  function Hoist(scopes: seq<Scope>, body: seq<Stmt>): seq<Scope>
    requires scopes != []
    decreases |body|
  {
    if body == [] then scopes
    else
      Hoist(if body[0].Func? then Declare(scopes, body[0].name, Value.Func(body[0].params, body[0].body)) else scopes,
            body[1..])
  }

  lemma {:induction false} HoistExtends(scopes: seq<Scope>, body: seq<Stmt>)
    requires scopes != []
    ensures Extends(scopes, Hoist(scopes, body), BlockNames(body))
    decreases |body|
  {
    SameNamesExtends(scopes, scopes);
    if body != [] {
      var f := Value.Func(if body[0].Func? then body[0].params else [], if body[0].Func? then body[0].body else []);
      var scopes' := if body[0].Func? then Declare(scopes, body[0].name, f) else scopes;
      if body[0].Func? {
        DeclareExtends(scopes, body[0].name, f);
      }
      ExtendsWeaker(scopes, scopes', if body[0].Func? then {body[0].name} else {}, Introduces(body[0]));
      HoistExtends(scopes', body[1..]);
      ExtendsTransitive(scopes, scopes', Hoist(scopes', body[1..]), Introduces(body[0]), BlockNames(body[1..]));
    }
  }

  ghost function Exec(m: Machine, st: Stmt, s: State): (r: (Outcome<Flow>, State))
    requires Began(m, s)
    ensures Ticked(m, s, r) && s.steps < r.1.steps
    ensures Extends(s.scopes, r.1.scopes, Introduces(st))
    decreases Budget(m, s), 0, 0
  {
    hide ExecDo, ExecDecl, ExecScoped, ExecIf, ExecWhile, ExecForScoped, ExecReturn, SameNames;
    var s := Tick(s);
    if s.steps > m.maxSteps then
      SameNamesExtends(s.scopes, s.scopes);
      (OutOfSteps, s)
    else
      match st
      case Do(e) => ExecDo(m, e, s)
      case Decl(name, init) => ExecDecl(m, name, init, s)
      case Block(body) => ExecScoped(m, body, s)
      case If(c, thn, els) => ExecIf(m, c, thn, els, s)
      case While(c, loop) => ExecWhile(m, c, loop, s)
      case For(start, test, step, loop) => ExecForScoped(m, start, test, step, loop, s)
      case Func(name, params, body) =>
        DeclareExtends(s.scopes, name, Value.Func(params, body));
        (Got(Normal), WithScopes(s, Declare(s.scopes, name, Value.Func(params, body))))
      case Return(result) => ExecReturn(m, result, s)
  }

  ghost function ExecDo(m: Machine, e: Expr, s: State): (r: (Outcome<Flow>, State))
    requires Began(m, s)
    ensures Ticked(m, s, r) && Extends(s.scopes, r.1.scopes, {})
    decreases Budget(m, s), 2, 0
  {
    var (v, s1) := Eval(m, e, s);
    SameNamesExtends(s.scopes, s1.scopes);
    (Lift(v, _ => Got(Normal)), s1)
  }

  ghost function ExecReturn(m: Machine, result: Option<Expr>, s: State): (r: (Outcome<Flow>, State))
    requires Began(m, s)
    ensures Ticked(m, s, r) && Extends(s.scopes, r.1.scopes, {})
    decreases Budget(m, s), 2, 0
  {
    var (v, s1) := EvalOption(m, result, s);
    SameNamesExtends(s.scopes, s1.scopes);
    (Lift(v, v => Got(Returned(v))), s1)
  }

  /** A block runs in a scope of its own, popped however the block ends. */
  ghost function ExecScoped(m: Machine, body: seq<Stmt>, s: State): (r: (Outcome<Flow>, State))
    requires Began(m, s)
    ensures Ticked(m, s, r) && Extends(s.scopes, r.1.scopes, {})
    decreases Budget(m, s), 4, 0
  {
    var (flow, s1) := ExecBlock(m, body, Push(s));
    PopForgets(s.scopes, [], s1.scopes, BlockNames(body));
    SameNamesExtends(s.scopes, Pop(s1).scopes);
    (flow, Pop(s1))
  }

  ghost function ExecForScoped(m: Machine, start: Option<Stmt>, test: Option<Expr>, step: Option<Stmt>, loop: Stmt,
                               s: State)
    : (r: (Outcome<Flow>, State))
    requires Began(m, s)
    ensures Ticked(m, s, r) && Extends(s.scopes, r.1.scopes, {})
    decreases Budget(m, s), 5, 0
  {
    var (flow, s1) := ExecFor(m, start, test, step, loop, Push(s));
    PopForgets(s.scopes, [], s1.scopes, ForNames(start, step, loop));
    SameNamesExtends(s.scopes, Pop(s1).scopes);
    (flow, Pop(s1))
  }

  ghost function ExecDecl(m: Machine, name: string, init: Option<Expr>, s: State): (r: (Outcome<Flow>, State))
    requires Began(m, s)
    ensures Ticked(m, s, r) && Extends(s.scopes, r.1.scopes, {name})
    decreases Budget(m, s), 2, 0
  {
    var (v, s1) := EvalOption(m, init, s);
    SameNamesExtends(s.scopes, s1.scopes);
    if !v.Got? then (Lift(v, _ => Error), s1)
    else
      DeclareExtends(s1.scopes, name, v.value);
      ExtendsTransitive(s.scopes, s1.scopes, Declare(s1.scopes, name, v.value), {}, {name});
      (Got(Normal), WithScopes(s1, Declare(s1.scopes, name, v.value)))
  }

  ghost function ExecIf(m: Machine, c: Expr, thn: Stmt, els: Option<Stmt>, s: State): (r: (Outcome<Flow>, State))
    requires Began(m, s)
    ensures Ticked(m, s, r) && Extends(s.scopes, r.1.scopes, Introduces(Stmt.If(c, thn, els)))
    decreases Budget(m, s), 2, 0
  {
    var (v, s1) := Eval(m, c, s);
    SameNamesExtends(s.scopes, s1.scopes);
    if !v.Got? then (Lift(v, _ => Error), s1)
    else
      var r := if Truthy(m.num, v.value) then Exec(m, thn, s1) else ExecOption(m, els, s1);
      ExtendsTransitive(s.scopes, s1.scopes, r.1.scopes, {}, Introduces(Stmt.If(c, thn, els)));
      r
  }

  ghost function EvalOption(m: Machine, e: Option<Expr>, s: State): (r: (Outcome<Value>, State))
    requires Began(m, s)
    ensures Ticked(m, s, r) && SameNames(s.scopes, r.1.scopes)
    decreases Budget(m, s), 1, 0
  {
    match e
    case None => (Got(Value.Null), s)
    case Some(e) => Eval(m, e, s)
  }

  ghost function ExecWhile(m: Machine, c: Expr, loop: Stmt, s: State): (r: (Outcome<Flow>, State))
    requires Began(m, s)
    ensures Ticked(m, s, r) && Extends(s.scopes, r.1.scopes, Introduces(loop))
    decreases Budget(m, s), 1, 0
  {
    var (v, s1) := Eval(m, c, s);
    SameNamesExtends(s.scopes, s1.scopes);
    if !v.Got? then (Lift(v, _ => Error), s1)
    else if !Truthy(m.num, v.value) then (Got(Normal), s1)
    else
      var s2 := Tick(s1);
      if s2.steps > m.maxSteps then (OutOfSteps, s2)
      else
        var (flow, s3) := Exec(m, loop, s2);
        ExtendsTransitive(s.scopes, s1.scopes, s3.scopes, {}, Introduces(loop));
        if flow != Got(Normal) then (flow, s3)
        else
          var r := ExecWhile(m, c, loop, s3);
          ExtendsTransitive(s.scopes, s3.scopes, r.1.scopes, Introduces(loop), Introduces(loop));
          r
  }

  function ForNames(start: Option<Stmt>, step: Option<Stmt>, loop: Stmt): set<string> {
    (match start case None => {} case Some(st) => Introduces(st)) + StepNames(step, loop)
  }

  function StepNames(step: Option<Stmt>, loop: Stmt): set<string> {
    Introduces(loop) + (match step case None => {} case Some(st) => Introduces(st))
  }

  ghost function ExecOption(m: Machine, st: Option<Stmt>, s: State): (r: (Outcome<Flow>, State))
    requires Began(m, s)
    ensures Ticked(m, s, r)
    ensures Extends(s.scopes, r.1.scopes, match st case None => {} case Some(st) => Introduces(st))
    decreases Budget(m, s), 1, 0
  {
    SameNamesExtends(s.scopes, s.scopes);
    match st
    case None => (Got(Normal), s)
    case Some(st) => Exec(m, st, s)
  }

  /** The initialiser's own flow is discarded. */
  ghost function ExecFor(m: Machine, start: Option<Stmt>, test: Option<Expr>, step: Option<Stmt>, loop: Stmt, s: State)
    : (r: (Outcome<Flow>, State))
    requires Began(m, s)
    ensures Ticked(m, s, r) && Extends(s.scopes, r.1.scopes, ForNames(start, step, loop))
    decreases Budget(m, s), 4, 0
  {
    var (flow, s1) := ExecOption(m, start, s);
    var f := match start case None => {} case Some(st) => Introduces(st);
    ExtendsWeaker(s.scopes, s1.scopes, f, ForNames(start, step, loop));
    if !flow.Got? then (flow, s1)
    else
      var r := ExecForLoop(m, test, step, loop, s1);
      ExtendsTransitive(s.scopes, s1.scopes, r.1.scopes, f, StepNames(step, loop));
      r
  }

  ghost function EvalTest(m: Machine, test: Option<Expr>, s: State): (r: (Outcome<bool>, State))
    requires Began(m, s)
    ensures Ticked(m, s, r) && SameNames(s.scopes, r.1.scopes)
    decreases Budget(m, s), 1, 0
  {
    match test
    case None => (Got(true), s)
    case Some(c) =>
      var (v, s1) := Eval(m, c, s);
      (Lift(v, v => Got(Truthy(m.num, v))), s1)
  }

  ghost function ExecForLoop(m: Machine, test: Option<Expr>, step: Option<Stmt>, loop: Stmt, s: State)
    : (r: (Outcome<Flow>, State))
    requires Began(m, s)
    ensures Ticked(m, s, r) && Extends(s.scopes, r.1.scopes, StepNames(step, loop))
    decreases Budget(m, s), 3, 0
  {
    var s0 := Tick(s);
    SameNamesExtends(s.scopes, s.scopes);
    if s0.steps > m.maxSteps then (OutOfSteps, s0)
    else
      var (go, s1) := EvalTest(m, test, s0);
      SameNamesExtends(s.scopes, s1.scopes);
      ExtendsWeaker(s.scopes, s1.scopes, {}, StepNames(step, loop));
      if !go.Got? then (Lift(go, _ => Error), s1)
      else if !go.value then (Got(Normal), s1)
      else
        var (flow, s2) := Exec(m, loop, s1);
        ExtendsTransitive(s.scopes, s1.scopes, s2.scopes, {}, Introduces(loop));
        ExtendsWeaker(s.scopes, s2.scopes, Introduces(loop), StepNames(step, loop));
        if flow != Got(Normal) then (flow, s2)
        else
          var (flow', s3) := ExecOption(m, step, s2);
          var g := match step case None => {} case Some(st) => Introduces(st);
          ExtendsTransitive(s.scopes, s2.scopes, s3.scopes, Introduces(loop), g);
          if !flow'.Got? then (flow', s3)
          else
            var r := ExecForLoop(m, test, step, loop, s3);
            ExtendsTransitive(s.scopes, s3.scopes, r.1.scopes, StepNames(step, loop), StepNames(step, loop));
            r
  }

  ghost function ExecBlock(m: Machine, body: seq<Stmt>, s: State): (r: (Outcome<Flow>, State))
    requires Began(m, s)
    ensures Ticked(m, s, r) && Extends(s.scopes, r.1.scopes, BlockNames(body))
    decreases Budget(m, s), 3, 0
  {
    var s1 := WithScopes(s, Hoist(s.scopes, body));
    HoistExtends(s.scopes, body);
    var r := ExecSeq(m, body, s1);
    ExtendsTransitive(s.scopes, s1.scopes, r.1.scopes, BlockNames(body), BlockNames(body));
    r
  }

  /** Statement after statement, up to the first return or failure. */
  ghost function ExecSeq(m: Machine, body: seq<Stmt>, s: State): (r: (Outcome<Flow>, State))
    requires Began(m, s)
    ensures Ticked(m, s, r) && Extends(s.scopes, r.1.scopes, BlockNames(body))
    decreases Budget(m, s), 2, |body|
  {
    SameNamesExtends(s.scopes, s.scopes);
    if body == [] then (Got(Normal), s)
    else
      var (flow, s1) := Exec(m, body[0], s);
      ExtendsWeaker(s.scopes, s1.scopes, Introduces(body[0]), BlockNames(body));
      if flow != Got(Normal) then (flow, s1)
      else
        var r := ExecSeq(m, body[1..], s1);
        ExtendsTransitive(s.scopes, s1.scopes, r.1.scopes, Introduces(body[0]), BlockNames(body[1..]));
        r
  }

  const FRESH := State([[]], [], 0)

  /** A whole program, from an empty global scope. */
  ghost function Run(m: Machine, program: seq<Stmt>): (r: (Outcome<Flow>, State))
    ensures r.1.steps <= m.maxSteps + 1 && |r.1.scopes| == 1
  {
    ExecBlock(m, program, FRESH)
  }

  // ---- loops, one turn at a time ----

  lemma ExecLeavesScopes(m: Machine, st: Stmt, s: State)
    requires Began(m, s)
    ensures Exec(m, st, s).1.scopes != []
  {
  }

  lemma EvalLeavesScopes(m: Machine, e: Expr, s: State)
    requires Began(m, s)
    ensures Eval(m, e, s).1.scopes != []
  {
    hide Eval;
  }

  /** One turn of a `while` loop whose condition holds. */
  lemma WhileTurns(m: Machine, c: Expr, loop: Stmt, s: State)
    requires Began(m, s)
    requires var (v, s1) := Eval(m, c, s); v.Got? && Truthy(m.num, v.value) && s1.steps < m.maxSteps
    ensures var s1 := Eval(m, c, s).1;
      && Began(m, Tick(s1))
      && var (flow, s2) := Exec(m, loop, Tick(s1));
         if flow == Got(Normal) then Began(m, s2) && ExecWhile(m, c, loop, s) == ExecWhile(m, c, loop, s2)
         else ExecWhile(m, c, loop, s) == (flow, s2)
  {
    hide Eval, Exec, Introduces, Truthy, SameNames, Extends;
    var s1 := Eval(m, c, s).1;
    EvalLeavesScopes(m, c, s);
    ExecLeavesScopes(m, loop, Tick(s1));
  }

  lemma WhileEnds(m: Machine, c: Expr, loop: Stmt, s: State)
    requires Began(m, s)
    requires var (v, s1) := Eval(m, c, s); !(v.Got? && Truthy(m.num, v.value) && s1.steps < m.maxSteps)
    ensures var (v, s1) := Eval(m, c, s);
      ExecWhile(m, c, loop, s) ==
        if !v.Got? then (Lift(v, _ => Error), s1)
        else if !Truthy(m.num, v.value) then (Got(Normal), s1)
        else (OutOfSteps, Tick(s1))
  {
    hide Eval, Exec, Introduces, Truthy, Extends, SameNames;
  }

  /** A `while` loop from its condition to the end of the first turn. */
  lemma WhileStep(m: Machine, c: Expr, loop: Stmt, s: State)
    requires Began(m, s)
    ensures var (v, s1) := Eval(m, c, s);
      if !v.Got? then ExecWhile(m, c, loop, s) == (Lift(v, _ => Error), s1)
      else if !Truthy(m.num, v.value) then ExecWhile(m, c, loop, s) == (Got(Normal), s1)
      else if s1.steps == m.maxSteps then ExecWhile(m, c, loop, s) == (OutOfSteps, Tick(s1))
      else
        && Began(m, Tick(s1))
        && var (flow, s2) := Exec(m, loop, Tick(s1));
           if flow == Got(Normal) then Began(m, s2) && ExecWhile(m, c, loop, s) == ExecWhile(m, c, loop, s2)
           else ExecWhile(m, c, loop, s) == (flow, s2)
  {
    hide Eval, Exec, ExecWhile, Introduces, Truthy, SameNames, Extends;
    var (v, s1) := Eval(m, c, s);
    if v.Got? && Truthy(m.num, v.value) && s1.steps < m.maxSteps {
      WhileTurns(m, c, loop, s);
    } else {
      WhileEnds(m, c, loop, s);
    }
  }

  /** One turn of a `for` loop whose condition holds and whose body ends normally. */
  lemma ForTurns(m: Machine, test: Option<Expr>, step: Option<Stmt>, loop: Stmt, s: State)
    requires Began(m, s) && s.steps < m.maxSteps && EvalTest(m, test, Tick(s)).0 == Got(true)
    ensures var s1 := EvalTest(m, test, Tick(s)).1;
      && Began(m, s1)
      && var (flow, s2) := Exec(m, loop, s1);
         if flow == Got(Normal) then
           && Began(m, s2)
           && var (flow', s3) := ExecOption(m, step, s2);
              if flow'.Got? then
                Began(m, s3) && ExecForLoop(m, test, step, loop, s) == ExecForLoop(m, test, step, loop, s3)
              else ExecForLoop(m, test, step, loop, s) == (flow', s3)
         else ExecForLoop(m, test, step, loop, s) == (flow, s2)
  {
    hide EvalTest, Exec, ExecOption, Introduces, StepNames;
  }

  lemma ForEnds(m: Machine, test: Option<Expr>, step: Option<Stmt>, loop: Stmt, s: State)
    requires Began(m, s) && s.steps < m.maxSteps && EvalTest(m, test, Tick(s)).0 != Got(true)
    ensures var (go, s1) := EvalTest(m, test, Tick(s));
      ExecForLoop(m, test, step, loop, s) == if !go.Got? then (Lift(go, _ => Error), s1) else (Got(Normal), s1)
  {
    hide EvalTest, Exec, ExecOption, Introduces, StepNames, Extends, SameNames;
  }

  /** A `for` loop from its tick to the end of the first turn. */
  lemma ForStep(m: Machine, test: Option<Expr>, step: Option<Stmt>, loop: Stmt, s: State)
    requires Began(m, s)
    ensures
      if s.steps == m.maxSteps then ExecForLoop(m, test, step, loop, s) == (OutOfSteps, Tick(s))
      else
        var (go, s1) := EvalTest(m, test, Tick(s));
        if !go.Got? then ExecForLoop(m, test, step, loop, s) == (Lift(go, _ => Error), s1)
        else if !go.value then ExecForLoop(m, test, step, loop, s) == (Got(Normal), s1)
        else
          && Began(m, s1)
          && var (flow, s2) := Exec(m, loop, s1);
             if flow == Got(Normal) then
               && Began(m, s2)
               && var (flow', s3) := ExecOption(m, step, s2);
                  if flow'.Got? then
                    Began(m, s3) && ExecForLoop(m, test, step, loop, s) == ExecForLoop(m, test, step, loop, s3)
                  else ExecForLoop(m, test, step, loop, s) == (flow', s3)
             else ExecForLoop(m, test, step, loop, s) == (flow, s2)
  {
    hide EvalTest, Exec, ExecOption, Introduces, StepNames, SameNames, Extends;
    if s.steps < m.maxSteps {
      hide ExecForLoop;
      if EvalTest(m, test, Tick(s)).0 == Got(true) {
        ForTurns(m, test, step, loop, s);
      } else {
        ForEnds(m, test, step, loop, s);
      }
    }
  }
}
