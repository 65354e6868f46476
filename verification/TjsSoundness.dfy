/** Every result the interpreter reaches can be derived by the rules. */
module TjsSoundness {
  import opened Options
  import opened TjsSyntax
  import opened TjsSemantics
  import opened TjsRules
  import opened TjsAbstraction

  /** A height above two others. */
  function Over(i: nat, j: nat): (h: nat)
    ensures i < h && j < h
  {
    if i < j then j + 1 else i + 1
  }

  // ---- one step of the interpreter ----

  lemma TickIs(s: State)
    ensures ConfigOf(Tick(s)) == ConfigOf(s)
  {
  }

  /** Where a value leaves the machine able to go on. */
  lemma EvalGoesOn(m: Machine, e: Expr, s: State)
    requires Began(m, s)
    ensures var (v, s1) := Eval(m, e, s); s1.scopes != [] && (v.Got? ==> Began(m, s1) && s.steps < m.maxSteps)
  {
    hide Eval;
  }

  lemma EvalAllGoesOn(m: Machine, es: seq<Expr>, s: State)
    requires Began(m, s)
    ensures var (vs, s1) := EvalAll(m, es, s); vs.Got? ==> Began(m, s1)
  {
    hide EvalAll;
  }

  lemma ExecGoesOn(m: Machine, st: Stmt, s: State)
    requires Began(m, s)
    ensures var (flow, s1) := Exec(m, st, s); flow.Got? ==> Began(m, s1) && s.steps < m.maxSteps
  {
    hide Exec;
  }

  lemma UnaryStep(m: Machine, op: UnOp, x: Expr, s: State)
    requires Began(m, s) && s.steps < m.maxSteps
    ensures var (v, s1) := Eval(m, x, Tick(s));
      Eval(m, Expr.Unary(op, x), s) == (Lift(v, v => UnaryOf(m.num, op, v)), s1)
  {
    hide SameNames;
  }

  lemma MemberStep(m: Machine, obj: Expr, field: string, s: State)
    requires Began(m, s) && s.steps < m.maxSteps
    ensures var (v, s1) := Eval(m, obj, Tick(s));
      Eval(m, Expr.Member(obj, field), s) == (Lift(v, v => MemberOf(m.num, v, field)), s1)
  {
    hide SameNames;
  }

  lemma BinStep(m: Machine, op: BinOp, l: Expr, r: Expr, s: State)
    requires Began(m, s) && s.steps < m.maxSteps
    ensures var (x, s1) := Eval(m, l, Tick(s));
      if !x.Got? then Eval(m, Expr.Bin(op, l, r), s) == (x, s1)
      else
        Began(m, s1) &&
        var (y, s2) := Eval(m, r, s1);
        Eval(m, Expr.Bin(op, l, r), s) == if !y.Got? then (y, s2) else (BinOf(m.num, op, x.value, y.value), s2)
  {
    hide SameNames, BinOf;
    EvalGoesOn(m, l, Tick(s));
  }

  lemma IndexStep(m: Machine, base: Expr, idx: Expr, s: State)
    requires Began(m, s) && s.steps < m.maxSteps
    ensures var (x, s1) := Eval(m, base, Tick(s));
      if !x.Got? then Eval(m, Expr.Index(base, idx), s) == (x, s1)
      else
        Began(m, s1) &&
        var (y, s2) := Eval(m, idx, s1);
        Eval(m, Expr.Index(base, idx), s) == if !y.Got? then (y, s2) else (IndexOf(m.num, x.value, y.value), s2)
  {
    hide SameNames;
    EvalGoesOn(m, base, Tick(s));
  }

  lemma LogicStep(m: Machine, op: LogicOp, l: Expr, r: Expr, s: State)
    requires Began(m, s) && s.steps < m.maxSteps
    ensures var (x, s1) := Eval(m, l, Tick(s));
      if x.Got? && Truthy(m.num, x.value) == (op == And) then
        Began(m, s1) && Eval(m, Expr.Logic(op, l, r), s) == Eval(m, r, s1)
      else Eval(m, Expr.Logic(op, l, r), s) == (x, s1)
  {
    hide SameNames;
    EvalGoesOn(m, l, Tick(s));
  }

  lemma ArrayStep(m: Machine, items: seq<Expr>, s: State)
    requires Began(m, s) && s.steps < m.maxSteps
    ensures var (vs, s1) := EvalAll(m, items, Tick(s));
      Eval(m, Expr.Array(items), s) == (Lift(vs, (vs: seq<Value>) => Got(Value.Array(vs))), s1)
  {
    hide SameNames;
  }

  lemma AssignStep(m: Machine, target: Expr, value: Expr, s: State)
    requires Began(m, s) && s.steps < m.maxSteps
    ensures var (v, s1) := Eval(m, value, Tick(s));
      if !v.Got? then Eval(m, Expr.Assign(target, value), s) == (v, s1)
      else Began(m, s1) && Eval(m, Expr.Assign(target, value), s) == EvalStore(m, target, v.value, s1)
  {
    hide SameNames, EvalStore, EvalAll, EvalCall, EvalTwo;
    EvalGoesOn(m, value, Tick(s));
  }

  lemma CallStep(m: Machine, callee: Expr, args: seq<Expr>, s: State)
    requires Began(m, s) && s.steps < m.maxSteps
    ensures Eval(m, Expr.Call(callee, args), s) == EvalCall(m, callee, args, Tick(s))
  {
    hide SameNames;
  }

  // ---- expressions ----

  lemma {:induction false} EvalSound(m: Machine, e: Expr, s: State) returns (h: nat)
    requires Began(m, s) && Eval(m, e, s).0.Got?
    ensures var (v, s1) := Eval(m, e, s); Evaluates(h, m.num, e, ConfigOf(s), v.value, ConfigOf(s1))
    decreases Budget(m, s), 0, 1
  {
    hide Eval, Evaluates;
    EvalGoesOn(m, e, s);
    h := 0;
    match e
    case Num(_) => AtomSound(m, e, s);
    case Str(_) => AtomSound(m, e, s);
    case Bool(_) => AtomSound(m, e, s);
    case Null => AtomSound(m, e, s);
    case Ident(_) => AtomSound(m, e, s);
    case Array(items) => h := ArraySound(m, items, s);
    case Index(base, idx) => h := IndexSound(m, base, idx, s);
    case Unary(op, x) => h := UnarySound(m, op, x, s);
    case Bin(op, l, r) => h := BinSound(m, op, l, r, s);
    case Logic(op, l, r) => h := LogicSound(m, op, l, r, s);
    case Assign(target, value) => h := AssignSound(m, target, value, s);
    case Call(callee, args) => h := CallSound(m, callee, args, s);
    case Member(obj, field) => h := MemberSound(m, obj, field, s);
  }

  /** Literals and variables. */
  lemma AtomSound(m: Machine, e: Expr, s: State)
    requires Began(m, s) && s.steps < m.maxSteps && (e.Num? || e.Str? || e.Bool? || e.Null? || e.Ident?)
    requires Eval(m, e, s).0.Got?
    ensures var (v, s1) := Eval(m, e, s); Evaluates(0, m.num, e, ConfigOf(s), v.value, ConfigOf(s1))
  {
    hide SameNames, EnvOf, Get;
    if e.Ident? {
      GetIs(s.scopes, e.name);
    }
  }

  lemma {:induction false} ArraySound(m: Machine, items: seq<Expr>, s: State) returns (h: nat)
    requires Began(m, s) && s.steps < m.maxSteps && Eval(m, Expr.Array(items), s).0.Got?
    ensures var (v, s1) := Eval(m, Expr.Array(items), s);
      Evaluates(h, m.num, Expr.Array(items), ConfigOf(s), v.value, ConfigOf(s1))
    decreases Budget(m, s), 0, 0
  {
    hide Eval, EvalAll, EvaluatesAll;
    ArrayStep(m, items, s);
    var i := EvalAllSound(m, items, Tick(s));
    h := i + 1;
  }

  lemma {:induction false} EvalAllSound(m: Machine, es: seq<Expr>, s: State) returns (h: nat)
    requires Began(m, s) && EvalAll(m, es, s).0.Got?
    ensures var (vs, s1) := EvalAll(m, es, s); EvaluatesAll(h, m.num, es, ConfigOf(s), vs.value, ConfigOf(s1))
    decreases Budget(m, s), 1, |es|
  {
    hide Eval, Evaluates;
    h := 0;
    if es != [] {
      EvalGoesOn(m, es[0], s);
      var i := EvalSound(m, es[0], s);
      var s1 := Eval(m, es[0], s).1;
      var j := EvalAllSound(m, es[1..], s1);
      var vs := EvalAll(m, es, s).0.value;
      assert vs[1..] == EvalAll(m, es[1..], s1).0.value;
      h := AllRule(i, j, m.num, es, ConfigOf(s), ConfigOf(s1), vs, ConfigOf(EvalAll(m, es, s).1));
    }
  }

  lemma AllRule(i: nat, j: nat, num: Arith, es: seq<Expr>, c: Config, c1: Config, vs: seq<Value>, c': Config)
    returns (h: nat)
    requires es != [] && vs != []
    requires Evaluates(i, num, es[0], c, vs[0], c1) && EvaluatesAll(j, num, es[1..], c1, vs[1..], c')
    ensures EvaluatesAll(h, num, es, c, vs, c')
  {
    hide Evaluates;
    h := Over(i, j);
  }

  lemma {:induction false} IndexSound(m: Machine, base: Expr, idx: Expr, s: State) returns (h: nat)
    requires Began(m, s) && s.steps < m.maxSteps && Eval(m, Expr.Index(base, idx), s).0.Got?
    ensures var (v, s1) := Eval(m, Expr.Index(base, idx), s);
      Evaluates(h, m.num, Expr.Index(base, idx), ConfigOf(s), v.value, ConfigOf(s1))
    decreases Budget(m, s), 0, 0
  {
    hide Eval, Evaluates, IndexOf, Element;
    IndexStep(m, base, idx, s);
    var i := EvalSound(m, base, Tick(s));
    var (x, s1) := Eval(m, base, Tick(s));
    var j := EvalSound(m, idx, s1);
    var (y, s2) := Eval(m, idx, s1);
    var v := IndexOf(m.num, x.value, y.value);
    IndexOfIs(m.num, x.value, y.value);
    h := IndexRule(i, j, m.num, base, idx, ConfigOf(s), x.value, ConfigOf(s1), y.value, v.value, ConfigOf(s2));
  }

  lemma IndexRule(i: nat, j: nat, num: Arith, base: Expr, idx: Expr, c: Config, x: Value, c1: Config, y: Value,
                  v: Value, c': Config)
    returns (h: nat)
    requires Evaluates(i, num, base, c, x, c1) && Evaluates(j, num, idx, c1, y, c') && Element(num, x, y) == Some(v)
    ensures Evaluates(h, num, Expr.Index(base, idx), c, v, c')
  {
    hide Element;
    h := Over(i, j);
  }

  lemma {:induction false} UnarySound(m: Machine, op: UnOp, x: Expr, s: State) returns (h: nat)
    requires Began(m, s) && s.steps < m.maxSteps && Eval(m, Expr.Unary(op, x), s).0.Got?
    ensures var (v, s1) := Eval(m, Expr.Unary(op, x), s);
      Evaluates(h, m.num, Expr.Unary(op, x), ConfigOf(s), v.value, ConfigOf(s1))
    decreases Budget(m, s), 0, 0
  {
    hide Eval, Truthy, Holds;
    UnaryStep(m, op, x, s);
    var i := EvalSound(m, x, Tick(s));
    TruthyIs(m.num, Eval(m, x, Tick(s)).0.value);
    h := i + 1;
  }

  lemma {:induction false} BinSound(m: Machine, op: BinOp, l: Expr, r: Expr, s: State) returns (h: nat)
    requires Began(m, s) && s.steps < m.maxSteps && Eval(m, Expr.Bin(op, l, r), s).0.Got?
    ensures var (v, s1) := Eval(m, Expr.Bin(op, l, r), s);
      Evaluates(h, m.num, Expr.Bin(op, l, r), ConfigOf(s), v.value, ConfigOf(s1))
    decreases Budget(m, s), 0, 0
  {
    hide Eval, Evaluates, BinOf, Operate;
    BinStep(m, op, l, r, s);
    var i := EvalSound(m, l, Tick(s));
    var (x, s1) := Eval(m, l, Tick(s));
    var j := EvalSound(m, r, s1);
    var (y, s2) := Eval(m, r, s1);
    var v := BinOf(m.num, op, x.value, y.value);
    BinOfIs(m.num, op, x.value, y.value);
    h := BinRule(i, j, m.num, op, l, r, ConfigOf(s), x.value, ConfigOf(s1), y.value, v.value, ConfigOf(s2));
  }

  lemma BinRule(i: nat, j: nat, num: Arith, op: BinOp, l: Expr, r: Expr, c: Config, x: Value, c1: Config, y: Value,
                v: Value, c': Config)
    returns (h: nat)
    requires Evaluates(i, num, l, c, x, c1) && Evaluates(j, num, r, c1, y, c') && Operate(num, op, x, y) == Some(v)
    ensures Evaluates(h, num, Expr.Bin(op, l, r), c, v, c')
  {
    hide Operate;
    h := Over(i, j);
  }

  lemma {:induction false} LogicSound(m: Machine, op: LogicOp, l: Expr, r: Expr, s: State) returns (h: nat)
    requires Began(m, s) && s.steps < m.maxSteps && Eval(m, Expr.Logic(op, l, r), s).0.Got?
    ensures var (v, s1) := Eval(m, Expr.Logic(op, l, r), s);
      Evaluates(h, m.num, Expr.Logic(op, l, r), ConfigOf(s), v.value, ConfigOf(s1))
    decreases Budget(m, s), 0, 0
  {
    hide Eval, Evaluates, Truthy, Holds;
    LogicStep(m, op, l, r, s);
    var i := EvalSound(m, l, Tick(s));
    var (x, s1) := Eval(m, l, Tick(s));
    TruthyIs(m.num, x.value);
    if Truthy(m.num, x.value) == (op == And) {
      var j := EvalSound(m, r, s1);
      var (v, s2) := Eval(m, r, s1);
      h := LogicRule(i, j, m.num, op, l, r, ConfigOf(s), x.value, ConfigOf(s1), v.value, ConfigOf(s2));
    } else {
      h := LogicShort(i, m.num, op, l, r, ConfigOf(s), x.value, ConfigOf(s1));
    }
  }

  /** The second operand decides. */
  lemma LogicRule(i: nat, j: nat, num: Arith, op: LogicOp, l: Expr, r: Expr, c: Config, x: Value, c1: Config, v: Value,
                  c': Config)
    returns (h: nat)
    requires Evaluates(i, num, l, c, x, c1) && Holds(num, x) == (op == And) && Evaluates(j, num, r, c1, v, c')
    ensures Evaluates(h, num, Expr.Logic(op, l, r), c, v, c')
  {
    hide Holds;
    h := Over(i, j);
  }

  /** The first operand decides. */
  lemma LogicShort(i: nat, num: Arith, op: LogicOp, l: Expr, r: Expr, c: Config, x: Value, c1: Config) returns (h: nat)
    requires Evaluates(i, num, l, c, x, c1) && Holds(num, x) != (op == And)
    ensures Evaluates(h, num, Expr.Logic(op, l, r), c, x, c1)
  {
    hide Holds;
    h := i + 1;
  }

  lemma {:induction false} MemberSound(m: Machine, obj: Expr, field: string, s: State) returns (h: nat)
    requires Began(m, s) && s.steps < m.maxSteps && Eval(m, Expr.Member(obj, field), s).0.Got?
    ensures var (v, s1) := Eval(m, Expr.Member(obj, field), s);
      Evaluates(h, m.num, Expr.Member(obj, field), ConfigOf(s), v.value, ConfigOf(s1))
    decreases Budget(m, s), 0, 0
  {
    hide Eval, MemberOf, Length;
    MemberStep(m, obj, field, s);
    var i := EvalSound(m, obj, Tick(s));
    MemberOfIs(m.num, Eval(m, obj, Tick(s)).0.value, field);
    h := i + 1;
  }

  // ---- assignments ----

  lemma {:induction false} AssignSound(m: Machine, target: Expr, value: Expr, s: State) returns (h: nat)
    requires Began(m, s) && s.steps < m.maxSteps && Eval(m, Expr.Assign(target, value), s).0.Got?
    ensures var (v, s1) := Eval(m, Expr.Assign(target, value), s);
      Evaluates(h, m.num, Expr.Assign(target, value), ConfigOf(s), v.value, ConfigOf(s1))
    decreases Budget(m, s), 0, 0
  {
    hide Eval, StoreVariable, StoreElement, StoredIn;
    AssignStep(m, target, value, s);
    var i := EvalSound(m, value, Tick(s));
    var (v, s1) := Eval(m, value, Tick(s));
    h := i + 1;
    if target.Ident? {
      StoreVariableIs(s1, target.name, v.value, v.value);
    } else {
      var j := EvalSound(m, target.idx, s1);
      var (k, s2) := Eval(m, target.idx, s1);
      StoreElementIs(m.num, s2, target.base.name, k.value, v.value);
      h := Over(i, j);
    }
  }

  lemma StoreVariableIs(s: State, name: string, v: Value, result: Value)
    ensures var (r, s1) := StoreVariable(s, name, v, result);
      if r.Got? then r.value == result && exists i: nat :: Assigned(ConfigOf(s), name, v, i, ConfigOf(s1))
      else forall i: nat :: !Bound(EnvOf(s.scopes), name, i)
    ensures forall i: nat :: Bound(EnvOf(s.scopes), name, i) ==>
      Assigned(ConfigOf(s), name, v, i, ConfigOf(StoreVariable(s, name, v, result).1))
  {
    hide Get, Set, EnvOf;
    GetIs(s.scopes, name);
    if Set(s.scopes, name, v).Some? {
      SetNeeds(s.scopes, name, v);
    }
    forall i: nat | Bound(EnvOf(s.scopes), name, i)
      ensures Set(s.scopes, name, v).Some?
      ensures Assigned(ConfigOf(s), name, v, i, ConfigOf(StoreVariable(s, name, v, result).1))
    {
      SetIs(s.scopes, name, v, i);
    }
    if Set(s.scopes, name, v).Some? {
      var i: nat :| Bound(EnvOf(s.scopes), name, i);
      assert Assigned(ConfigOf(s), name, v, i, ConfigOf(StoreVariable(s, name, v, result).1));
    }
  }

  lemma StoreElementIs(num: Arith, s: State, name: string, k: Value, v: Value)
    ensures var (r, s1) := StoreElement(num, s, name, k, v);
      r.Got? ==>
        r.value == v &&
        exists i: nat :: Bound(EnvOf(s.scopes), name, i) && StoredIn(num, ConfigOf(s), name, k, v, i, ConfigOf(s1))
  {
    hide Get, EnvOf, Put, Stored, StoreVariable;
    GetIs(s.scopes, name);
    var base := Get(s.scopes, name);
    if k.Num? && num.toInt(k.n) >= 0 && base.Some? && base.value.Array? {
      var j := num.toInt(k.n);
      PutIs(base.value.items, j, v);
      StoreVariableIs(s, name, Value.Array(Put(base.value.items, j, v)), v);
      var i: nat :| Bound(EnvOf(s.scopes), name, i);
      assert StoredIn(num, ConfigOf(s), name, k, v, i, ConfigOf(StoreElement(num, s, name, k, v).1));
    }
  }

  // ---- calls ----

  lemma {:induction false} CallSound(m: Machine, callee: Expr, args: seq<Expr>, s: State) returns (h: nat)
    requires Began(m, s) && s.steps < m.maxSteps && Eval(m, Expr.Call(callee, args), s).0.Got?
    ensures var (v, s1) := Eval(m, Expr.Call(callee, args), s);
      Evaluates(h, m.num, Expr.Call(callee, args), ConfigOf(s), v.value, ConfigOf(s1))
    decreases Budget(m, s), 0, 0
  {
    hide Eval, EvalAll, Invoke, IsConsole, Prints, EvaluatesAll, RunsBlock, Popped, EnvOf;
    CallStep(m, callee, args, s);
    PrintsIs(callee);
    var t := Tick(s);
    if IsConsole(callee) {
      var i := EvalAllSound(m, args, t);
      var (vs, s1) := EvalAll(m, args, t);
      JoinDisplaysIs(m.num, vs.value, " ");
      h := i + 1;
    } else {
      var i := EvalSound(m, callee, t);
      var (f, s1) := Eval(m, callee, t);
      var j := EvalAllSound(m, args, s1);
      var (vs, s2) := EvalAll(m, args, s1);
      EvalAllGoesOn(m, args, s1);
      var k := InvokeSound(m, f.value.params, f.value.body, vs.value, s2);
      h := Over(Over(i, j), k);
    }
  }

  /** A call's frame: the parameters in a scope of their own. */
  lemma FrameIs(s: State, params: seq<string>, args: seq<Value>)
    ensures BindParams(Push(s).scopes, params, args) != []
    ensures EnvOf(BindParams(Push(s).scopes, params, args)) == ConfigOf(s).Push(Arguments(params, args)).env
  {
    hide BindParams;
    BindParamsIs(Push(s).scopes, params, args);
    EnvAppend(s.scopes, []);
    assert map[] + Arguments(params, args) == Arguments(params, args);
  }

  lemma PopIs(s: State)
    requires s.scopes != []
    ensures Popped(ConfigOf(s), ConfigOf(Pop(s)))
  {
    EnvAppend(s.scopes[..|s.scopes| - 1], s.scopes[|s.scopes| - 1]);
  }

  lemma InvokeStep(m: Machine, params: seq<string>, body: seq<Stmt>, args: seq<Value>, s: State)
    requires Began(m, s)
    ensures var s1 := WithScopes(s, BindParams(Push(s).scopes, params, args));
      && Began(m, s1) && ConfigOf(s1) == ConfigOf(s).Push(Arguments(params, args))
      && var (flow, s2) := ExecBlock(m, body, s1);
         && Invoke(m, params, body, args, s) == (Lift(flow, CallResult), Pop(s2))
         && Popped(ConfigOf(s2), ConfigOf(Pop(s2)))
  {
    hide ExecBlock, BindParams, EnvOf, Popped;
    FrameIs(s, params, args);
    BlockGoesOn(m, body, WithScopes(s, BindParams(Push(s).scopes, params, args)));
    PopIs(ExecBlock(m, body, WithScopes(s, BindParams(Push(s).scopes, params, args))).1);
  }

  lemma BlockGoesOn(m: Machine, body: seq<Stmt>, s: State)
    requires Began(m, s)
    ensures var (flow, s1) := ExecBlock(m, body, s); s1.scopes != [] && (flow.Got? ==> Began(m, s1))
  {
    hide ExecBlock;
  }

  lemma {:induction false} InvokeSound(m: Machine, params: seq<string>, body: seq<Stmt>, args: seq<Value>, s: State)
    returns (h: nat)
    requires Began(m, s) && Invoke(m, params, body, args, s).0.Got?
    ensures var (v, s1) := Invoke(m, params, body, args, s);
      exists flow, c ::
        && RunsBlock(h, m.num, body, ConfigOf(s).Push(Arguments(params, args)), flow, c)
        && Popped(c, ConfigOf(s1)) && v.value == Returns(flow)
    decreases Budget(m, s), 4, 0
  {
    hide ExecBlock, Invoke, BindParams, RunsBlock;
    InvokeStep(m, params, body, args, s);
    var s1 := WithScopes(s, BindParams(Push(s).scopes, params, args));
    h := BlockSound(m, body, s1);
    assert Popped(ConfigOf(ExecBlock(m, body, s1).1), ConfigOf(Invoke(m, params, body, args, s).1));
  }

  // ---- statements ----

  lemma BlockStep(m: Machine, body: seq<Stmt>, s: State)
    requires Began(m, s)
    ensures var s1 := WithScopes(s, Hoist(s.scopes, body));
      && Began(m, s1) && ConfigOf(s1) == Config(Extended(EnvOf(s.scopes), Functions(body)), s.out)
      && ExecBlock(m, body, s) == ExecSeq(m, body, s1)
  {
    hide ExecSeq, EnvOf, Extended;
    HoistIs(s.scopes, body);
    HoistExtends(s.scopes, body);
  }

  lemma {:induction false} BlockSound(m: Machine, body: seq<Stmt>, s: State) returns (h: nat)
    requires Began(m, s) && ExecBlock(m, body, s).0.Got?
    ensures var (flow, s1) := ExecBlock(m, body, s);
      RunsBlock(h, m.num, body, ConfigOf(s), flow.value, ConfigOf(s1))
    decreases Budget(m, s), 3, 0
  {
    hide ExecBlock, ExecSeq, RunsAll;
    BlockStep(m, body, s);
    h := SeqSound(m, body, WithScopes(s, Hoist(s.scopes, body)));
  }

  lemma SeqStep(m: Machine, body: seq<Stmt>, s: State)
    requires Began(m, s) && body != []
    ensures var (flow, s1) := Exec(m, body[0], s);
      if flow == Got(Normal) then Began(m, s1) && ExecSeq(m, body, s) == ExecSeq(m, body[1..], s1)
      else ExecSeq(m, body, s) == (flow, s1)
  {
    hide Exec;
    ExecGoesOn(m, body[0], s);
  }

  lemma {:induction false} SeqSound(m: Machine, body: seq<Stmt>, s: State) returns (h: nat)
    requires Began(m, s) && ExecSeq(m, body, s).0.Got?
    ensures var (flow, s1) := ExecSeq(m, body, s);
      RunsAll(h, m.num, body, ConfigOf(s), flow.value, ConfigOf(s1))
    decreases Budget(m, s), 2, |body|
  {
    h := 0;
    if body != [] {
      hide Exec, ExecSeq, Executes;
      SeqStep(m, body, s);
      var i := ExecSound(m, body[0], s);
      var (flow, s1) := Exec(m, body[0], s);
      h := i + 1;
      if flow == Got(Normal) {
        ExecGoesOn(m, body[0], s);
        var j := SeqSound(m, body[1..], s1);
        h := Over(i, j);
      }
    }
  }

  lemma {:induction false} ExecSound(m: Machine, st: Stmt, s: State) returns (h: nat)
    requires Began(m, s) && Exec(m, st, s).0.Got?
    ensures var (flow, s1) := Exec(m, st, s); Executes(h, m.num, st, ConfigOf(s), flow.value, ConfigOf(s1))
    decreases Budget(m, s), 0, 1
  {
    hide Exec, Executes;
    ExecGoesOn(m, st, s);
    match st
    case Do(_) => h := SimpleSound(m, st, s);
    case Decl(_, _) => h := SimpleSound(m, st, s);
    case Func(_, _, _) => h := SimpleSound(m, st, s);
    case Return(_) => h := SimpleSound(m, st, s);
    case Block(body) => h := ScopedSound(m, body, s);
    case If(cond, thn, els) => h := IfSound(m, cond, thn, els, s);
    case While(cond, loop) =>
      ExecStep(m, st, s);
      h := WhileSound(m, cond, loop, Tick(s));
      WhileRule(h, m.num, cond, loop, ConfigOf(s), Exec(m, st, s).0.value, ConfigOf(Exec(m, st, s).1));
    case For(start, test, step, loop) => h := ForSound(m, start, test, step, loop, s);
  }

  lemma ExecStep(m: Machine, st: Stmt, s: State)
    requires Began(m, s) && s.steps < m.maxSteps
    ensures var t := Tick(s);
      Exec(m, st, s) ==
        match st
        case Do(e) => ExecDo(m, e, t)
        case Decl(name, init) => ExecDecl(m, name, init, t)
        case Block(body) => ExecScoped(m, body, t)
        case If(c, thn, els) => ExecIf(m, c, thn, els, t)
        case While(c, loop) => ExecWhile(m, c, loop, t)
        case For(start, test, step, loop) => ExecForScoped(m, start, test, step, loop, t)
        case Func(name, params, body) => (Got(Normal), WithScopes(t, Declare(t.scopes, name, Value.Func(params, body))))
        case Return(result) => ExecReturn(m, result, t)
  {
    hide ExecDo, ExecDecl, ExecScoped, ExecIf, ExecWhile, ExecForScoped, ExecReturn, Extends, Introduces;
  }

  lemma WhileRule(h: nat, num: Arith, cond: Expr, loop: Stmt, c: Config, flow: Flow, c': Config)
    requires Loops(h, num, cond, loop, c, flow, c')
    ensures Executes(h, num, Stmt.While(cond, loop), c, flow, c')
  {
    hide Loops;
  }

  lemma EvalOptionGoesOn(m: Machine, e: Option<Expr>, s: State)
    requires Began(m, s)
    ensures var (v, s1) := EvalOption(m, e, s); v.Got? ==> Began(m, s1)
  {
    hide EvalOption;
  }

  lemma {:induction false} EvalOptionSound(m: Machine, e: Option<Expr>, s: State) returns (h: nat)
    requires Began(m, s) && EvalOption(m, e, s).0.Got?
    ensures var (v, s1) := EvalOption(m, e, s); EvaluatesMaybe(h, m.num, e, ConfigOf(s), v.value, ConfigOf(s1))
    decreases Budget(m, s), 1, 0
  {
    hide Eval, Evaluates;
    h := 0;
    if e.Some? {
      h := EvalSound(m, e.value, s);
    }
  }

  lemma {:induction false} ExecOptionSound(m: Machine, st: Option<Stmt>, s: State) returns (h: nat)
    requires Began(m, s) && ExecOption(m, st, s).0.Got?
    ensures var (flow, s1) := ExecOption(m, st, s); ExecutesMaybe(h, m.num, st, ConfigOf(s), flow.value, ConfigOf(s1))
    decreases Budget(m, s), 1, 0
  {
    hide Exec, Executes;
    h := 0;
    if st.Some? {
      h := ExecSound(m, st.value, s);
    }
  }

  /** Expression statements, declarations and returns. */
  lemma {:induction false} SimpleSound(m: Machine, st: Stmt, s: State) returns (h: nat)
    requires Began(m, s) && s.steps < m.maxSteps && Exec(m, st, s).0.Got?
    requires st.Do? || st.Decl? || st.Func? || st.Return?
    ensures var (flow, s1) := Exec(m, st, s); Executes(h, m.num, st, ConfigOf(s), flow.value, ConfigOf(s1))
    decreases Budget(m, s), 0, 0
  {
    hide Exec, Eval, EvalOption, EvaluatesMaybe, Evaluates, EnvOf, Declare;
    ExecStep(m, st, s);
    var t := Tick(s);
    h := 0;
    match st
    case Do(e) =>
      var i := EvalSound(m, e, t);
      h := i + 1;
    case Decl(name, init) =>
      var i := EvalOptionSound(m, init, t);
      EvalOptionGoesOn(m, init, t);
      var (v, s1) := EvalOption(m, init, t);
      DeclareIs(s1.scopes, name, v.value);
      h := i + 1;
    case Func(name, params, body) => DeclareIs(t.scopes, name, Value.Func(params, body));
    case Return(result) =>
      var i := EvalOptionSound(m, result, t);
      h := i + 1;
  }

  lemma PushIs(s: State)
    ensures ConfigOf(Push(s)) == ConfigOf(s).Push(map[])
  {
    EnvAppend(s.scopes, []);
  }

  lemma {:induction false} ScopedSound(m: Machine, body: seq<Stmt>, s: State) returns (h: nat)
    requires Began(m, s) && s.steps < m.maxSteps && Exec(m, Stmt.Block(body), s).0.Got?
    ensures var (flow, s1) := Exec(m, Stmt.Block(body), s);
      Executes(h, m.num, Stmt.Block(body), ConfigOf(s), flow.value, ConfigOf(s1))
    decreases Budget(m, s), 0, 0
  {
    hide Exec, ExecBlock, RunsBlock, EnvOf, Popped;
    ExecStep(m, Stmt.Block(body), s);
    var t := Push(Tick(s));
    PushIs(s);
    var i := BlockSound(m, body, t);
    BlockGoesOn(m, body, t);
    PopIs(ExecBlock(m, body, t).1);
    h := i + 1;
  }

  lemma IfStep(m: Machine, cond: Expr, thn: Stmt, els: Option<Stmt>, s: State)
    requires Began(m, s) && s.steps < m.maxSteps
    ensures var (v, s1) := Eval(m, cond, Tick(s));
      if !v.Got? then Exec(m, Stmt.If(cond, thn, els), s) == (Lift(v, _ => Error), s1)
      else
        && Began(m, s1)
        && Exec(m, Stmt.If(cond, thn, els), s) ==
           if Truthy(m.num, v.value) then Exec(m, thn, s1)
           else if els.Some? then Exec(m, els.value, s1)
           else (Got(Normal), s1)
  {
    hide Exec, Eval, Truthy, Introduces, Extends, SameNames;
    ExecStep(m, Stmt.If(cond, thn, els), s);
    EvalGoesOn(m, cond, Tick(s));
  }

  lemma IfRule(i: nat, j: nat, num: Arith, cond: Expr, thn: Stmt, els: Option<Stmt>, c: Config, v: Value, c1: Config,
               flow: Flow, c': Config)
    returns (h: nat)
    requires Evaluates(i, num, cond, c, v, c1)
    requires if Holds(num, v) then Executes(j, num, thn, c1, flow, c') else ExecutesMaybe(j, num, els, c1, flow, c')
    ensures Executes(h, num, Stmt.If(cond, thn, els), c, flow, c')
  {
    hide Evaluates, ExecutesMaybe, Holds;
    h := Over(i, j);
  }

  lemma {:induction false} IfSound(m: Machine, cond: Expr, thn: Stmt, els: Option<Stmt>, s: State) returns (h: nat)
    requires Began(m, s) && s.steps < m.maxSteps && Exec(m, Stmt.If(cond, thn, els), s).0.Got?
    ensures var (flow, s1) := Exec(m, Stmt.If(cond, thn, els), s);
      Executes(h, m.num, Stmt.If(cond, thn, els), ConfigOf(s), flow.value, ConfigOf(s1))
    decreases Budget(m, s), 0, 0
  {
    hide Exec, Eval, Evaluates, Executes, Truthy, Holds;
    IfStep(m, cond, thn, els, s);
    var t := Tick(s);
    var i := EvalSound(m, cond, t);
    var (v, s1) := Eval(m, cond, t);
    TruthyIs(m.num, v.value);
    var j := 0;
    if Truthy(m.num, v.value) {
      j := ExecSound(m, thn, s1);
    } else if els.Some? {
      j := ExecSound(m, els.value, s1);
    }
    var (flow, s2) := Exec(m, Stmt.If(cond, thn, els), s);
    h := IfRule(i, j, m.num, cond, thn, els, ConfigOf(s), v.value, ConfigOf(s1), flow.value, ConfigOf(s2));
  }

  /** A turn of a `while` loop, and the rest of the loop. */
  lemma LoopsOn(i: nat, j: nat, k: nat, num: Arith, cond: Expr, loop: Stmt, c: Config, v: Value, c1: Config, c2: Config,
                flow: Flow, c': Config)
    returns (h: nat)
    requires Evaluates(i, num, cond, c, v, c1) && Holds(num, v) && Executes(j, num, loop, c1, Normal, c2)
    requires Loops(k, num, cond, loop, c2, flow, c')
    ensures Loops(h, num, cond, loop, c, flow, c')
  {
    hide Evaluates, Executes, Holds;
    var b := Over(j, k);
    assert LoopBody(b, num, cond, loop, c1, flow, c') by { hide Loops; }
    hide LoopBody;
    h := Over(i, b);
  }

  /** The end of a `while` loop: its condition fails or its body returns. */
  lemma LoopEnds(i: nat, j: nat, num: Arith, cond: Expr, loop: Stmt, c: Config, v: Value, c1: Config, flow: Flow,
                 c': Config)
    returns (h: nat)
    requires Evaluates(i, num, cond, c, v, c1)
    requires
      if Holds(num, v) then Executes(j, num, loop, c1, flow, c') && flow != Normal else flow == Normal && c' == c1
    ensures Loops(h, num, cond, loop, c, flow, c')
  {
    hide Evaluates, Executes, Holds;
    var b := j + 1;
    if Holds(num, v) {
      assert LoopBody(b, num, cond, loop, c1, flow, c') by { hide Loops; }
    }
    hide LoopBody;
    h := Over(i, b);
  }

  /** A `while` loop that ends did so at its condition, in its body, or after another turn. */
  lemma WhileGot(m: Machine, cond: Expr, loop: Stmt, s: State)
    requires Began(m, s) && ExecWhile(m, cond, loop, s).0.Got?
    ensures var (v, s1) := Eval(m, cond, s);
      && v.Got? && s.steps < s1.steps
      && if !Truthy(m.num, v.value) then ExecWhile(m, cond, loop, s) == (Got(Normal), s1)
         else
           && Began(m, Tick(s1))
           && var (flow, s2) := Exec(m, loop, Tick(s1));
              && flow.Got? && s1.steps < s2.steps
              && if flow == Got(Normal) then Began(m, s2) && ExecWhile(m, cond, loop, s) == ExecWhile(m, cond, loop, s2)
                 else ExecWhile(m, cond, loop, s) == (flow, s2)
  {
    hide Exec, Eval, ExecWhile, Truthy, SameNames, Extends, Introduces;
    WhileStep(m, cond, loop, s);
    EvalGoesOn(m, cond, s);
    var (v, s1) := Eval(m, cond, s);
    if Truthy(m.num, v.value) {
      ExecGoesOn(m, loop, Tick(s1));
    }
  }

  lemma {:induction false} WhileSound(m: Machine, cond: Expr, loop: Stmt, s: State) returns (h: nat)
    requires Began(m, s) && ExecWhile(m, cond, loop, s).0.Got?
    ensures var (flow, s1) := ExecWhile(m, cond, loop, s);
      Loops(h, m.num, cond, loop, ConfigOf(s), flow.value, ConfigOf(s1))
    decreases Budget(m, s), 1, 0
  {
    hide Exec, Eval, ExecWhile, Evaluates, Executes, Truthy, Holds, Loops, ConfigOf, SameNames, Extends, Introduces,
      Ticked;
    WhileGot(m, cond, loop, s);
    var i := EvalSound(m, cond, s);
    var (v, s1) := Eval(m, cond, s);
    var c, c1 := ConfigOf(s), ConfigOf(s1);
    TruthyIs(m.num, v.value);
    TickIs(s1);
    if Truthy(m.num, v.value) {
      var j := ExecSound(m, loop, Tick(s1));
      var (flow, s2) := Exec(m, loop, Tick(s1));
      if flow == Got(Normal) {
        var k := WhileSound(m, cond, loop, s2);
        var (end, s3) := ExecWhile(m, cond, loop, s2);
        h := LoopsOn(i, j, k, m.num, cond, loop, c, v.value, c1, ConfigOf(s2), end.value, ConfigOf(s3));
      } else {
        h := LoopEnds(i, j, m.num, cond, loop, c, v.value, c1, flow.value, ConfigOf(s2));
      }
    } else {
      h := LoopEnds(i, 0, m.num, cond, loop, c, v.value, c1, Normal, c1);
    }
  }

  lemma ForStartStep(m: Machine, start: Option<Stmt>, test: Option<Expr>, step: Option<Stmt>, loop: Stmt, s: State)
    requires Began(m, s)
    ensures var (flow, s1) := ExecOption(m, start, s);
      if !flow.Got? then ExecFor(m, start, test, step, loop, s) == (flow, s1)
      else Began(m, s1) && ExecFor(m, start, test, step, loop, s) == ExecForLoop(m, test, step, loop, s1)
  {
    hide ExecOption, ExecForLoop, SameNames, Introduces, StepNames;
  }

  lemma ForScopedStep(m: Machine, start: Option<Stmt>, test: Option<Expr>, step: Option<Stmt>, loop: Stmt, s: State)
    requires Began(m, s)
    ensures var (flow, s1) := ExecOption(m, start, Push(s));
      if !flow.Got? then ExecForScoped(m, start, test, step, loop, s) == (flow, Pop(s1))
      else
        && Began(m, s1)
        && var (flow, s2) := ExecForLoop(m, test, step, loop, s1);
           && ExecForScoped(m, start, test, step, loop, s) == (flow, Pop(s2))
           && Popped(ConfigOf(s2), ConfigOf(Pop(s2)))
  {
    hide ExecOption, ExecFor, ExecForLoop, EnvOf, Popped, SameNames, Introduces, ForNames, StepNames;
    ForStartStep(m, start, test, step, loop, Push(s));
    var (flow, s1) := ExecOption(m, start, Push(s));
    if flow.Got? {
      PopIs(ExecForLoop(m, test, step, loop, s1).1);
    }
  }

  lemma {:induction false} ForSound(m: Machine, start: Option<Stmt>, test: Option<Expr>, step: Option<Stmt>,
                                    loop: Stmt, s: State)
    returns (h: nat)
    requires Began(m, s) && s.steps < m.maxSteps && Exec(m, Stmt.For(start, test, step, loop), s).0.Got?
    ensures var (flow, s1) := Exec(m, Stmt.For(start, test, step, loop), s);
      Executes(h, m.num, Stmt.For(start, test, step, loop), ConfigOf(s), flow.value, ConfigOf(s1))
    decreases Budget(m, s), 0, 0
  {
    hide Exec, ExecOption, ExecForLoop, ExecForScoped, ExecutesMaybe, ForLoops, EnvOf, Popped;
    ExecStep(m, Stmt.For(start, test, step, loop), s);
    var t := Tick(s);
    ForScopedStep(m, start, test, step, loop, t);
    PushIs(s);
    var i := ExecOptionSound(m, start, Push(t));
    var j := ForLoopSound(m, test, step, loop, ExecOption(m, start, Push(t)).1);
    h := Over(i, j);
  }

  lemma {:induction false} EvalTestSound(m: Machine, test: Option<Expr>, s: State) returns (h: nat)
    requires Began(m, s) && EvalTest(m, test, s).0.Got?
    ensures var (go, s1) := EvalTest(m, test, s);
      exists v ::
        EvaluatesMaybe(h, m.num, test, ConfigOf(s), v, ConfigOf(s1)) && go.value == (test.None? || Holds(m.num, v))
    decreases Budget(m, s), 1, 0
  {
    hide Eval, Evaluates, Truthy, Holds;
    if test.Some? {
      h := EvalSound(m, test.value, s);
      var (v, s1) := Eval(m, test.value, s);
      TruthyIs(m.num, v.value);
      assert EvaluatesMaybe(h, m.num, test, ConfigOf(s), v.value, ConfigOf(s1));
    } else {
      h := 0;
      assert EvaluatesMaybe(h, m.num, test, ConfigOf(s), Value.Null, ConfigOf(s));
    }
  }

  /** A turn of a `for` loop, and the rest of the loop. */
  lemma ForLoopsOn(i: nat, j: nat, k: nat, l: nat, num: Arith, test: Option<Expr>, step: Option<Stmt>, loop: Stmt,
                   c: Config, v: Value, c1: Config, c2: Config, f: Flow, c3: Config, flow: Flow, c': Config)
    returns (h: nat)
    requires EvaluatesMaybe(i, num, test, c, v, c1) && (test.None? || Holds(num, v))
    requires Executes(j, num, loop, c1, Normal, c2) && ExecutesMaybe(k, num, step, c2, f, c3)
    requires ForLoops(l, num, test, step, loop, c3, flow, c')
    ensures ForLoops(h, num, test, step, loop, c, flow, c')
  {
    hide EvaluatesMaybe, Executes, ExecutesMaybe, ForBody, Holds;
    var b := ForBodyRule(j, k, l, num, test, step, loop, c1, c2, f, c3, flow, c');
    h := Over(i, b);
  }

  lemma ForBodyRule(i: nat, j: nat, k: nat, num: Arith, test: Option<Expr>, step: Option<Stmt>, loop: Stmt, c: Config,
                    c1: Config, f: Flow, c2: Config, flow: Flow, c': Config)
    returns (h: nat)
    requires Executes(i, num, loop, c, Normal, c1) && ExecutesMaybe(j, num, step, c1, f, c2)
    requires ForLoops(k, num, test, step, loop, c2, flow, c')
    ensures ForBody(h, num, test, step, loop, c, flow, c')
  {
    hide Executes, ExecutesMaybe, ForLoops;
    var b := Over(j, k);
    assert ForNext(b, num, test, step, loop, c1, flow, c');
    hide ForNext;
    h := Over(i, b);
  }

  /** The end of a `for` loop: its condition fails or its body returns. */
  lemma ForLoopEnds(i: nat, j: nat, num: Arith, test: Option<Expr>, step: Option<Stmt>, loop: Stmt, c: Config, v: Value,
                    c1: Config, flow: Flow, c': Config)
    returns (h: nat)
    requires EvaluatesMaybe(i, num, test, c, v, c1)
    requires if test.None? || Holds(num, v) then Executes(j, num, loop, c1, flow, c') && flow != Normal
             else flow == Normal && c' == c1
    ensures ForLoops(h, num, test, step, loop, c, flow, c')
  {
    hide EvaluatesMaybe, Executes, ExecutesMaybe, Holds;
    var b := j + 1;
    if test.None? || Holds(num, v) {
      assert ForBody(b, num, test, step, loop, c1, flow, c') by { hide ForLoops, ForNext; }
    }
    hide ForBody;
    h := Over(i, b);
  }

  /** A `for` loop that ends did so at its condition, in its body, or after another turn. */
  lemma ForGot(m: Machine, test: Option<Expr>, step: Option<Stmt>, loop: Stmt, s: State)
    requires Began(m, s) && ExecForLoop(m, test, step, loop, s).0.Got?
    ensures Began(m, Tick(s))
    ensures var (go, s1) := EvalTest(m, test, Tick(s));
      && go.Got? && s.steps < s1.steps
      && if !go.value then ExecForLoop(m, test, step, loop, s) == (Got(Normal), s1)
         else
           && Began(m, s1)
           && var (flow, s2) := Exec(m, loop, s1);
              && flow.Got? && s1.steps < s2.steps
              && if flow == Got(Normal) then
                   && Began(m, s2)
                   && var (f, s3) := ExecOption(m, step, s2);
                      && f.Got? && s2.steps <= s3.steps && Began(m, s3)
                      && ExecForLoop(m, test, step, loop, s) == ExecForLoop(m, test, step, loop, s3)
                 else ExecForLoop(m, test, step, loop, s) == (flow, s2)
  {
    hide Exec, ExecOption, EvalTest, ExecForLoop, SameNames, Extends, Introduces, StepNames;
    ForStep(m, test, step, loop, s);
  }

  lemma {:induction false} ForLoopSound(m: Machine, test: Option<Expr>, step: Option<Stmt>, loop: Stmt, s: State)
    returns (h: nat)
    requires Began(m, s) && ExecForLoop(m, test, step, loop, s).0.Got?
    ensures var (flow, s1) := ExecForLoop(m, test, step, loop, s);
      ForLoops(h, m.num, test, step, loop, ConfigOf(s), flow.value, ConfigOf(s1))
    decreases Budget(m, s), 3, 0
  {
    hide Exec, ExecOption, EvalTest, ExecForLoop, EvaluatesMaybe, Executes, ExecutesMaybe, Holds, ForLoops,
      ConfigOf, SameNames, Extends, Introduces, StepNames, Ticked;
    ForGot(m, test, step, loop, s);
    TickIs(s);
    var i := EvalTestSound(m, test, Tick(s));
    var (go, s1) := EvalTest(m, test, Tick(s));
    var c, c1 := ConfigOf(s), ConfigOf(s1);
    var v :| EvaluatesMaybe(i, m.num, test, c, v, c1) && go.value == (test.None? || Holds(m.num, v));
    if go.value {
      var j := ExecSound(m, loop, s1);
      var (flow, s2) := Exec(m, loop, s1);
      var c2 := ConfigOf(s2);
      if flow == Got(Normal) {
        var k := ExecOptionSound(m, step, s2);
        var (f, s3) := ExecOption(m, step, s2);
        var l := ForLoopSound(m, test, step, loop, s3);
        var (end, s4) := ExecForLoop(m, test, step, loop, s3);
        var c3, c4 := ConfigOf(s3), ConfigOf(s4);
        h := ForLoopsOn(i, j, k, l, m.num, test, step, loop, c, v, c1, c2, f.value, c3, end.value, c4);
      } else {
        h := ForLoopEnds(i, j, m.num, test, step, loop, c, v, c1, flow.value, c2);
      }
    } else {
      h := ForLoopEnds(i, 0, m.num, test, step, loop, c, v, c1, Normal, c1);
    }
  }
}
