/**
 TernaryJS as natural semantics: rules that derive the value of an expression and the effect of a statement, without
 steps or limits, on scopes that are maps (the meaning of desktop-metal/src/tjs.rs:757-1294).
 */
module TjsRules {
  import opened Options
  import opened TjsSyntax
  import opened TjsSemantics

  /** Scopes from the global one to the innermost, and the output lines. */
  datatype Config = Config(env: seq<map<string, Value>>, out: seq<string>) {
    function Push(m: map<string, Value>): Config {
      Config(env + [m], out)
    }

    /** A name in the innermost scope. */
    function Declared(name: string, v: Value): Config
      requires env != []
    {
      Config(Extended(env, map[name := v]), out)
    }
  }

  /** The innermost scope with more names, or new values for old ones. */
  function Extended(env: seq<map<string, Value>>, m: map<string, Value>): (env': seq<map<string, Value>>)
    requires env != []
    ensures |env'| == |env|
  {
    env[|env| - 1 := env[|env| - 1] + m]
  }

  /** What is left once the innermost scope of `c` is gone. */
  predicate Popped(c: Config, c': Config) {
    c.env != [] && c' == Config(c.env[..|c.env| - 1], c.out)
  }

  /** Scope `i` is the innermost one that has the name. */
  predicate Bound(env: seq<map<string, Value>>, name: string, i: nat) {
    i < |env| && name in env[i] && forall j :: i < j < |env| ==> name !in env[j]
  }

  predicate Assigned(c: Config, name: string, v: Value, i: nat, c': Config) {
    Bound(c.env, name, i) && c' == Config(c.env[i := c.env[i][name := v]], c.out)
  }

  // ---- values ----

  /** Everything holds but null, false, the empty string, and numbers that do not count as true. */
  predicate Holds(num: Arith, v: Value) {
    v != Value.Null && v != Value.Bool(false) && v != Value.Str("") && (v.Num? ==> num.truthy(v.n))
  }

  function Joined(ts: seq<string>, sep: string): string {
    if ts == [] then ""
    else if |ts| == 1 then ts[0]
    else Joined(ts[..|ts| - 1], sep) + sep + ts[|ts| - 1]
  }

  function Text(num: Arith, v: Value): string
    decreases v, 1
  {
    if v.Num? then num.show(v.n)
    else if v.Str? then v.s
    else if v.Array? then Joined(Texts(num, v.items), ",")
    else if v == Value.Bool(true) then "true"
    else if v == Value.Bool(false) then "false"
    else if v == Value.Null then "null"
    else "[function]"
  }

  function Texts(num: Arith, vs: seq<Value>): (ts: seq<string>)
    ensures |ts| == |vs|
    decreases vs, 0
  {
    seq(|vs|, i requires 0 <= i < |vs| => Text(num, vs[i]))
  }

  predicate Comparable(x: Value, y: Value) {
    (x.Num? && y.Num?) || (x.Str? && y.Str?) || (x.Bool? && y.Bool?) || (x == Value.Null && y == Value.Null)
  }

  /** A proper prefix, or the lower character at the first difference. */
  ghost predicate TextBelow(x: string, y: string) {
    exists i :: 0 <= i <= |x| && i < |y| && x[..i] == y[..i] && (i == |x| || x[i] < y[i])
  }

  ghost predicate Below(num: Arith, x: Value, y: Value)
    requires Comparable(x, y)
  {
    if x.Num? then num.less(x.n, y.n)
    else if x.Str? then TextBelow(x.s, y.s)
    else if x.Bool? then !x.b && y.b
    else false
  }

  /** Of one comparable kind, and neither is below the other. */
  ghost predicate Level(num: Arith, x: Value, y: Value) {
    Comparable(x, y) && !Below(num, x, y) && !Below(num, y, x)
  }

  ghost predicate LooselyEqual(num: Arith, x: Value, y: Value) {
    || Level(num, x, y)
    || (x.Num? && y.Bool? && num.equal(x.n, num.fromNat(if y.b then 1 else 0)))
    || (x.Bool? && y.Num? && num.equal(y.n, num.fromNat(if x.b then 1 else 0)))
  }

  /** The result of a binary operator, if its operands have one. */
  ghost function Operate(num: Arith, op: BinOp, x: Value, y: Value): Option<Value> {
    match op
    case Add =>
      if x.Num? && y.Num? then Some(Value.Num(num.add(x.n, y.n)))
      else if x.Str? || y.Str? then Some(Value.Str(Text(num, x) + Text(num, y)))
      else None
    case Sub => if x.Num? && y.Num? then Some(Value.Num(num.sub(x.n, y.n))) else None
    case Mul => if x.Num? && y.Num? then Some(Value.Num(num.mul(x.n, y.n))) else None
    case Div => if x.Num? && y.Num? then Some(Value.Num(num.div(x.n, y.n))) else None
    case Mod => if x.Num? && y.Num? then Some(Value.Num(num.rem(x.n, y.n))) else None
    case Less => if Comparable(x, y) then Some(Value.Bool(Below(num, x, y))) else None
    case LessEq => if Comparable(x, y) then Some(Value.Bool(Below(num, x, y) || Level(num, x, y))) else None
    case Greater =>
      if Comparable(x, y) then Some(Value.Bool(!Below(num, x, y) && Below(num, y, x))) else None
    case GreaterEq => if Comparable(x, y) then Some(Value.Bool(!Below(num, x, y))) else None
    case EqStrict => Some(Value.Bool(Level(num, x, y)))
    case NeStrict => Some(Value.Bool(!Level(num, x, y)))
    case EqLoose => Some(Value.Bool(LooselyEqual(num, x, y)))
    case NeLoose => Some(Value.Bool(!LooselyEqual(num, x, y)))
  }

  /** An element or a character; null outside, and nothing for what has no elements. */
  function Element(num: Arith, base: Value, idx: Value): Option<Value> {
    if !idx.Num? || !(base.Array? || base.Str?) then None
    else
      var k := num.toInt(idx.n);
      if k < 0 || k >= (if base.Array? then |base.items| else |base.s|) then Some(Value.Null)
      else if base.Array? then Some(base.items[k])
      else Some(Value.Str([base.s[k]]))
  }

  function Length(num: Arith, base: Value): Option<Value> {
    if base.Array? then Some(Value.Num(num.fromNat(|base.items|)))
    else if base.Str? then Some(Value.Num(num.fromNat(|base.s|)))
    else None
  }

  /** An array with element `k` replaced; the gap up to it is filled with nulls. */
  function Stored(items: seq<Value>, k: nat, v: Value): seq<Value> {
    seq(if k < |items| then |items| else k + 1,
        j => if j == k then v else if 0 <= j < |items| then items[j] else Value.Null)
  }

  /** Each parameter with its argument, null when there is none; of equal names the last one counts. */
  function Arguments(params: seq<string>, args: seq<Value>): map<string, Value> {
    if params == [] then map[]
    else
      var n := |params| - 1;
      Arguments(params[..n], args)[params[n] := if n < |args| then args[n] else Value.Null]
  }

  /** The functions a block declares; of equal names the last one counts. */
  function Functions(body: seq<Stmt>): map<string, Value> {
    if body == [] then map[]
    else
      var n := |body| - 1;
      var before := Functions(body[..n]);
      if body[n].Func? then before[body[n].name := Value.Func(body[n].params, body[n].body)] else before
  }

  /** `console.log` and its two siblings. */
  predicate Prints(callee: Expr) {
    callee.Member? && callee.obj == Expr.Ident("console")
    && (callee.field == "log" || callee.field == "warn" || callee.field == "error")
  }

  // ---- rules: a derivation of height `h` is made of derivations that are less high ----

  /** Expression `e` has value `v` and leads from `c` to `c'`. */
  ghost predicate Evaluates(h: nat, num: Arith, e: Expr, c: Config, v: Value, c': Config)
    decreases h, 1
  {
    match e
    case Num(n) => v == Value.Num(n) && c' == c
    case Str(s) => v == Value.Str(s) && c' == c
    case Bool(b) => v == Value.Bool(b) && c' == c
    case Null => v == Value.Null && c' == c
    case Ident(name) => c' == c && exists k: nat :: Bound(c.env, name, k) && v == c.env[k][name]
    case Array(items) => exists i: nat, vs :: i < h && EvaluatesAll(i, num, items, c, vs, c') && v == Value.Array(vs)
    case Index(base, idx) =>
      exists i: nat, j: nat, x, y, c1 ::
        && i < h && Evaluates(i, num, base, c, x, c1)
        && j < h && Evaluates(j, num, idx, c1, y, c')
        && Element(num, x, y) == Some(v)
    case Member(obj, field) =>
      field == "length" && exists i: nat, x :: i < h && Evaluates(i, num, obj, c, x, c') && Length(num, x) == Some(v)
    case Unary(op, x) =>
      exists i: nat, w :: i < h && Evaluates(i, num, x, c, w, c') &&
        (match op
         case Neg => w.Num? && v == Value.Num(num.neg(w.n))
         case Not => v == Value.Bool(!Holds(num, w)))
    case Bin(op, l, r) =>
      exists i: nat, j: nat, x, y, c1 ::
        && i < h && Evaluates(i, num, l, c, x, c1)
        && j < h && Evaluates(j, num, r, c1, y, c')
        && Operate(num, op, x, y) == Some(v)
    case Logic(op, l, r) =>
      exists i: nat, x, c1 :: i < h && Evaluates(i, num, l, c, x, c1) &&
        if Holds(num, x) == (op == And) then exists j: nat :: j < h && Evaluates(j, num, r, c1, v, c')
        else v == x && c' == c1
    case Assign(target, value) => Assigns(h, num, target, value, c, v, c')
    case Call(callee, args) =>
      if Prints(callee) then Logs(h, num, args, c, v, c') else Calls(h, num, callee, args, c, v, c')
  }

  /** Expressions from left to right. */
  ghost predicate EvaluatesAll(h: nat, num: Arith, es: seq<Expr>, c: Config, vs: seq<Value>, c': Config)
    decreases h, 0
  {
    if es == [] then vs == [] && c' == c
    else
      vs != [] &&
      exists i: nat, j: nat, c1 ::
        && i < h && Evaluates(i, num, es[0], c, vs[0], c1)
        && j < h && EvaluatesAll(j, num, es[1..], c1, vs[1..], c')
  }

  /** The value goes to a variable, or into the array that a variable holds. */
  ghost predicate Assigns(h: nat, num: Arith, target: Expr, value: Expr, c: Config, v: Value, c': Config)
    decreases h, 0
  {
    match target
    case Ident(name) =>
      exists i: nat, c1, k: nat :: i < h && Evaluates(i, num, value, c, v, c1) && Assigned(c1, name, v, k, c')
    case Index(base, idx) =>
      base.Ident? &&
      exists i: nat, j: nat, c1, x, c2, k: nat ::
        && i < h && Evaluates(i, num, value, c, v, c1)
        && j < h && Evaluates(j, num, idx, c1, x, c2)
        && Bound(c2.env, base.name, k) && StoredIn(num, c2, base.name, x, v, k, c')
    case _ => false
  }

  /** The array called `name` in scope `i` gets `v` as element `k`. */
  predicate StoredIn(num: Arith, c: Config, name: string, k: Value, v: Value, i: nat, c': Config)
    requires Bound(c.env, name, i)
  {
    && c.env[i][name].Array? && k.Num? && num.toInt(k.n) >= 0
    && Assigned(c, name, Value.Array(Stored(c.env[i][name].items, num.toInt(k.n), v)), i, c')
  }

  /** The arguments make one line of output. */
  ghost predicate Logs(h: nat, num: Arith, args: seq<Expr>, c: Config, v: Value, c': Config)
    decreases h, 0
  {
    v == Value.Null &&
    exists i: nat, vs, c1 ::
      i < h && EvaluatesAll(i, num, args, c, vs, c1) && c' == Config(c1.env, c1.out + [Joined(Texts(num, vs), " ")])
  }

  /** The function first, then the arguments, then its body in a scope with the parameters. */
  ghost predicate Calls(h: nat, num: Arith, callee: Expr, args: seq<Expr>, c: Config, v: Value, c': Config)
    decreases h, 0
  {
    exists i: nat, f, c1, j: nat, vs, c2 ::
      && i < h && Evaluates(i, num, callee, c, f, c1) && f.Func?
      && j < h && EvaluatesAll(j, num, args, c1, vs, c2)
      && exists k: nat, flow, c3 ::
           && k < h && RunsBlock(k, num, f.body, c2.Push(Arguments(f.params, vs)), flow, c3) && Popped(c3, c')
           && v == Returns(flow)
  }

  /** A function that ends without a return has the value null. */
  function Returns(flow: Flow): Value {
    if flow.Returned? then flow.v else Value.Null
  }

  /** Statement `st` ends with `flow` and leads from `c` to `c'`. */
  ghost predicate Executes(h: nat, num: Arith, st: Stmt, c: Config, flow: Flow, c': Config)
    decreases h, 1
  {
    match st
    case Do(e) => flow == Normal && exists i: nat, v :: i < h && Evaluates(i, num, e, c, v, c')
    case Decl(name, init) =>
      flow == Normal &&
      exists i: nat, v, c1 ::
        i < h && EvaluatesMaybe(i, num, init, c, v, c1) && c1.env != [] && c' == c1.Declared(name, v)
    case Block(body) => exists i: nat, c1 :: i < h && RunsBlock(i, num, body, c.Push(map[]), flow, c1) && Popped(c1, c')
    case If(cond, thn, els) =>
      exists i: nat, v, c1 :: i < h && Evaluates(i, num, cond, c, v, c1) &&
        if Holds(num, v) then exists j: nat :: j < h && Executes(j, num, thn, c1, flow, c')
        else exists j: nat :: j < h && ExecutesMaybe(j, num, els, c1, flow, c')
    case While(cond, loop) => Loops(h, num, cond, loop, c, flow, c')
    case For(start, test, step, loop) =>
      exists i: nat, f, c1, j: nat, c2 ::
        && i < h && ExecutesMaybe(i, num, start, c.Push(map[]), f, c1)
        && j < h && ForLoops(j, num, test, step, loop, c1, flow, c2)
        && Popped(c2, c')
    case Func(name, params, body) =>
      flow == Normal && c.env != [] && c' == c.Declared(name, Value.Func(params, body))
    case Return(result) =>
      exists i: nat, v :: i < h && EvaluatesMaybe(i, num, result, c, v, c') && flow == Returned(v)
  }

  /** An expression that may be missing has the value null. */
  ghost predicate EvaluatesMaybe(h: nat, num: Arith, e: Option<Expr>, c: Config, v: Value, c': Config)
    decreases h, 2
  {
    if e.Some? then Evaluates(h, num, e.value, c, v, c') else v == Value.Null && c' == c
  }

  /** A statement that may be missing does nothing. */
  ghost predicate ExecutesMaybe(h: nat, num: Arith, st: Option<Stmt>, c: Config, flow: Flow, c': Config)
    decreases h, 2
  {
    if st.Some? then Executes(h, num, st.value, c, flow, c') else flow == Normal && c' == c
  }

  /** A block's functions are declared first; then its statements run up to the first return. */
  ghost predicate RunsBlock(h: nat, num: Arith, body: seq<Stmt>, c: Config, flow: Flow, c': Config)
    decreases h, 2
  {
    c.env != [] && RunsAll(h, num, body, Config(Extended(c.env, Functions(body)), c.out), flow, c')
  }

  ghost predicate RunsAll(h: nat, num: Arith, body: seq<Stmt>, c: Config, flow: Flow, c': Config)
    decreases h, 0
  {
    if body == [] then flow == Normal && c' == c
    else
      exists i: nat, f, c1 :: i < h && Executes(i, num, body[0], c, f, c1) &&
        if f == Normal then exists j: nat :: j < h && RunsAll(j, num, body[1..], c1, flow, c')
        else flow == f && c' == c1
  }

  ghost predicate Loops(h: nat, num: Arith, cond: Expr, loop: Stmt, c: Config, flow: Flow, c': Config)
    decreases h, 0
  {
    exists i: nat, v, c1 :: i < h && Evaluates(i, num, cond, c, v, c1) &&
      if Holds(num, v) then exists j: nat :: j < h && LoopBody(j, num, cond, loop, c1, flow, c')
      else flow == Normal && c' == c1
  }

  /** The body once, and the loop again unless the body returned. */
  ghost predicate LoopBody(h: nat, num: Arith, cond: Expr, loop: Stmt, c: Config, flow: Flow, c': Config)
    decreases h, 0
  {
    exists i: nat, f, c1 :: i < h && Executes(i, num, loop, c, f, c1) &&
      if f == Normal then exists j: nat :: j < h && Loops(j, num, cond, loop, c1, flow, c')
      else flow == f && c' == c1
  }

  /** A missing condition always holds. */
  ghost predicate ForLoops(h: nat, num: Arith, test: Option<Expr>, step: Option<Stmt>, loop: Stmt, c: Config,
                           flow: Flow, c': Config)
    decreases h, 0
  {
    exists i: nat, v, c1 :: i < h && EvaluatesMaybe(i, num, test, c, v, c1) &&
      if test.None? || Holds(num, v) then exists j: nat :: j < h && ForBody(j, num, test, step, loop, c1, flow, c')
      else flow == Normal && c' == c1
  }

  ghost predicate ForBody(h: nat, num: Arith, test: Option<Expr>, step: Option<Stmt>, loop: Stmt, c: Config, flow: Flow,
                          c': Config)
    decreases h, 0
  {
    exists i: nat, f, c1 :: i < h && Executes(i, num, loop, c, f, c1) &&
      if f == Normal then exists j: nat :: j < h && ForNext(j, num, test, step, loop, c1, flow, c')
      else flow == f && c' == c1
  }

  /** How the step ends does not matter. */
  ghost predicate ForNext(h: nat, num: Arith, test: Option<Expr>, step: Option<Stmt>, loop: Stmt, c: Config, flow: Flow,
                          c': Config)
    decreases h, 0
  {
    exists i: nat, f, j: nat, c1 ::
      && i < h && ExecutesMaybe(i, num, step, c, f, c1)
      && j < h && ForLoops(j, num, test, step, loop, c1, flow, c')
  }
}
