/** Whatever the rules derive, the interpreter reaches, once its step limit is high enough. */
module TjsCompleteness {
  import opened Options
  import opened TjsSyntax
  import opened TjsSemantics
  import opened TjsBudget
  import opened TjsRules
  import opened TjsAbstraction
  import opened TjsSoundness

  ghost predicate Reaches<T(!new)>(r: (Outcome<T>, State), v: T, c: Config) {
    r.0 == Got(v) && ConfigOf(r.1) == c
  }

  function Larger(a: nat, b: nat): nat {
    if a < b then b else a
  }

  // ---- a higher limit changes nothing ----

  lemma EvalHigher(num: Arith, low: nat, high: nat, e: Expr, s: State)
    requires low <= high && Began(Machine(low, num), s) && Eval(Machine(low, num), e, s).0.Got?
    ensures Eval(Machine(high, num), e, s) == Eval(Machine(low, num), e, s)
  {
    hide Eval;
    EvalAgrees(Machine(low, num), Machine(high, num), e, s);
  }

  lemma EvalAllHigher(num: Arith, low: nat, high: nat, es: seq<Expr>, s: State)
    requires low <= high && Began(Machine(low, num), s) && EvalAll(Machine(low, num), es, s).0.Got?
    ensures EvalAll(Machine(high, num), es, s) == EvalAll(Machine(low, num), es, s)
  {
    hide EvalAll;
    EvalAllAgrees(Machine(low, num), Machine(high, num), es, s);
  }

  lemma EvalTestHigher(num: Arith, low: nat, high: nat, e: Option<Expr>, s: State)
    requires low <= high && Began(Machine(low, num), s) && EvalTest(Machine(low, num), e, s).0.Got?
    ensures EvalTest(Machine(high, num), e, s) == EvalTest(Machine(low, num), e, s)
  {
    hide EvalTest;
    EvalTestAgrees(Machine(low, num), Machine(high, num), e, s);
  }

  lemma ExecHigher(num: Arith, low: nat, high: nat, st: Stmt, s: State)
    requires low <= high && Began(Machine(low, num), s) && Exec(Machine(low, num), st, s).0.Got?
    ensures Exec(Machine(high, num), st, s) == Exec(Machine(low, num), st, s)
  {
    hide Exec;
    ExecAgrees(Machine(low, num), Machine(high, num), st, s);
  }

  lemma ExecOptionHigher(num: Arith, low: nat, high: nat, st: Option<Stmt>, s: State)
    requires low <= high && Began(Machine(low, num), s) && ExecOption(Machine(low, num), st, s).0.Got?
    ensures ExecOption(Machine(high, num), st, s) == ExecOption(Machine(low, num), st, s)
  {
    hide ExecOption;
    ExecOptionAgrees(Machine(low, num), Machine(high, num), st, s);
  }

  // ---- expressions ----

  /** A limit, not below `floor`, with which the derived value is reached. */
  lemma {:induction false} EvalComplete(h: nat, num: Arith, e: Expr, s: State, v: Value, c': Config, floor: nat)
    returns (limit: nat)
    requires s.scopes != [] && Evaluates(h, num, e, ConfigOf(s), v, c')
    ensures floor <= limit
    ensures var m := Machine(limit, num); Began(m, s) && Reaches(Eval(m, e, s), v, c')
    decreases h, 2
  {
    hide Eval, Reaches;
    match e
    case Num(_) => limit := AtomComplete(h, num, e, s, v, c', floor);
    case Str(_) => limit := AtomComplete(h, num, e, s, v, c', floor);
    case Bool(_) => limit := AtomComplete(h, num, e, s, v, c', floor);
    case Null => limit := AtomComplete(h, num, e, s, v, c', floor);
    case Ident(_) => limit := AtomComplete(h, num, e, s, v, c', floor);
    case Array(items) => limit := ArrayComplete(h, num, items, s, v, c', floor);
    case Index(base, idx) => limit := IndexComplete(h, num, base, idx, s, v, c', floor);
    case Unary(op, x) => limit := UnaryComplete(h, num, op, x, s, v, c', floor);
    case Bin(op, l, r) => limit := BinComplete(h, num, op, l, r, s, v, c', floor);
    case Logic(op, l, r) => limit := LogicComplete(h, num, op, l, r, s, v, c', floor);
    case Assign(target, value) => limit := AssignComplete(h, num, target, value, s, v, c', floor);
    case Call(callee, args) => limit := CallComplete(h, num, callee, args, s, v, c', floor);
    case Member(obj, field) => limit := MemberComplete(h, num, obj, field, s, v, c', floor);
  }

  lemma AtomComplete(h: nat, num: Arith, e: Expr, s: State, v: Value, c': Config, floor: nat) returns (limit: nat)
    requires s.scopes != [] && Evaluates(h, num, e, ConfigOf(s), v, c')
    requires e.Num? || e.Str? || e.Bool? || e.Null? || e.Ident?
    ensures floor <= limit
    ensures var m := Machine(limit, num); Began(m, s) && Reaches(Eval(m, e, s), v, c')
  {
    hide SameNames, EnvOf, Get;
    limit := Larger(floor, s.steps + 1);
    if e.Ident? {
      GetIs(s.scopes, e.name);
    }
  }

  lemma {:induction false} BinComplete(h: nat, num: Arith, op: BinOp, l: Expr, r: Expr, s: State, v: Value, c': Config,
                                       floor: nat)
    returns (limit: nat)
    requires s.scopes != [] && Evaluates(h, num, Expr.Bin(op, l, r), ConfigOf(s), v, c')
    ensures floor <= limit
    ensures var m := Machine(limit, num); Began(m, s) && Reaches(Eval(m, Expr.Bin(op, l, r), s), v, c')
    decreases h, 0
  {
    hide Eval, BinOf, Operate;
    var i: nat, j: nat, x, y, c1 :|
      && i < h && Evaluates(i, num, l, ConfigOf(s), x, c1)
      && j < h && Evaluates(j, num, r, c1, y, c')
      && Operate(num, op, x, y) == Some(v);
    hide Evaluates;
    var a := EvalComplete(i, num, l, Tick(s), x, c1, floor);
    var s1 := Eval(Machine(a, num), l, Tick(s)).1;
    EvalGoesOn(Machine(a, num), l, Tick(s));
    limit := EvalComplete(j, num, r, s1, y, c', a);
    EvalHigher(num, a, limit, l, Tick(s));
    BinStep(Machine(limit, num), op, l, r, s);
    BinOfIs(num, op, x, y);
  }

  lemma {:induction false} IndexComplete(h: nat, num: Arith, base: Expr, idx: Expr, s: State, v: Value, c': Config,
                                         floor: nat)
    returns (limit: nat)
    requires s.scopes != [] && Evaluates(h, num, Expr.Index(base, idx), ConfigOf(s), v, c')
    ensures floor <= limit
    ensures var m := Machine(limit, num); Began(m, s) && Reaches(Eval(m, Expr.Index(base, idx), s), v, c')
    decreases h, 0
  {
    hide Eval, IndexOf, Element;
    var i: nat, j: nat, x, y, c1 :|
      && i < h && Evaluates(i, num, base, ConfigOf(s), x, c1)
      && j < h && Evaluates(j, num, idx, c1, y, c')
      && Element(num, x, y) == Some(v);
    hide Evaluates;
    var a := EvalComplete(i, num, base, Tick(s), x, c1, floor);
    var s1 := Eval(Machine(a, num), base, Tick(s)).1;
    EvalGoesOn(Machine(a, num), base, Tick(s));
    limit := EvalComplete(j, num, idx, s1, y, c', a);
    EvalHigher(num, a, limit, base, Tick(s));
    IndexStep(Machine(limit, num), base, idx, s);
    IndexOfIs(num, x, y);
  }

  lemma {:induction false} UnaryComplete(h: nat, num: Arith, op: UnOp, x: Expr, s: State, v: Value, c': Config,
                                         floor: nat)
    returns (limit: nat)
    requires s.scopes != [] && Evaluates(h, num, Expr.Unary(op, x), ConfigOf(s), v, c')
    ensures floor <= limit
    ensures var m := Machine(limit, num); Began(m, s) && Reaches(Eval(m, Expr.Unary(op, x), s), v, c')
    decreases h, 0
  {
    hide Eval, Truthy, Holds, EnvOf, SameNames;
    var i: nat, w :| i < h && Evaluates(i, num, x, ConfigOf(s), w, c') &&
      match op
      case Neg => w.Num? && v == Value.Num(num.neg(w.n))
      case Not => v == Value.Bool(!Holds(num, w));
    hide Evaluates;
    limit := EvalComplete(i, num, x, Tick(s), w, c', floor);
    UnaryStep(Machine(limit, num), op, x, s);
    TruthyIs(num, w);
  }

  lemma {:induction false} MemberComplete(h: nat, num: Arith, obj: Expr, field: string, s: State, v: Value, c': Config,
                                          floor: nat)
    returns (limit: nat)
    requires s.scopes != [] && Evaluates(h, num, Expr.Member(obj, field), ConfigOf(s), v, c')
    ensures floor <= limit
    ensures var m := Machine(limit, num); Began(m, s) && Reaches(Eval(m, Expr.Member(obj, field), s), v, c')
    decreases h, 0
  {
    hide Eval, MemberOf, Length;
    var i: nat, x :| i < h && Evaluates(i, num, obj, ConfigOf(s), x, c') && Length(num, x) == Some(v);
    hide Evaluates;
    limit := EvalComplete(i, num, obj, Tick(s), x, c', floor);
    MemberStep(Machine(limit, num), obj, field, s);
    MemberOfIs(num, x, field);
  }

  lemma {:induction false} LogicComplete(h: nat, num: Arith, op: LogicOp, l: Expr, r: Expr, s: State, v: Value,
                                         c': Config, floor: nat)
    returns (limit: nat)
    requires s.scopes != [] && Evaluates(h, num, Expr.Logic(op, l, r), ConfigOf(s), v, c')
    ensures floor <= limit
    ensures var m := Machine(limit, num); Began(m, s) && Reaches(Eval(m, Expr.Logic(op, l, r), s), v, c')
    decreases h, 0
  {
    hide Eval, Truthy, Holds, EnvOf, SameNames;
    var i: nat, x, c1 :| i < h && Evaluates(i, num, l, ConfigOf(s), x, c1) &&
      if Holds(num, x) == (op == And) then exists j: nat :: j < h && Evaluates(j, num, r, c1, v, c')
      else v == x && c' == c1;
    hide Evaluates;
    TruthyIs(num, x);
    var a := EvalComplete(i, num, l, Tick(s), x, c1, floor);
    var s1 := Eval(Machine(a, num), l, Tick(s)).1;
    EvalGoesOn(Machine(a, num), l, Tick(s));
    limit := a;
    if Holds(num, x) == (op == And) {
      var j: nat :| j < h && Evaluates(j, num, r, c1, v, c');
      limit := EvalComplete(j, num, r, s1, v, c', a);
    }
    EvalHigher(num, a, limit, l, Tick(s));
    LogicStep(Machine(limit, num), op, l, r, s);
  }

  lemma {:induction false} ArrayComplete(h: nat, num: Arith, items: seq<Expr>, s: State, v: Value, c': Config,
                                         floor: nat)
    returns (limit: nat)
    requires s.scopes != [] && Evaluates(h, num, Expr.Array(items), ConfigOf(s), v, c')
    ensures floor <= limit
    ensures var m := Machine(limit, num); Began(m, s) && Reaches(Eval(m, Expr.Array(items), s), v, c')
    decreases h, 0
  {
    hide Eval, EvalAll;
    var i: nat, vs :| i < h && EvaluatesAll(i, num, items, ConfigOf(s), vs, c') && v == Value.Array(vs);
    hide Evaluates, EvaluatesAll;
    limit := EvalAllComplete(i, num, items, Tick(s), vs, c', Larger(floor, s.steps + 1));
    ArrayStep(Machine(limit, num), items, s);
  }

  lemma {:induction false} EvalAllComplete(h: nat, num: Arith, es: seq<Expr>, s: State, vs: seq<Value>, c': Config,
                                           floor: nat)
    returns (limit: nat)
    requires s.scopes != [] && EvaluatesAll(h, num, es, ConfigOf(s), vs, c')
    ensures floor <= limit
    ensures var m := Machine(limit, num); Began(m, s) && Reaches(EvalAll(m, es, s), vs, c')
    decreases h, 0
  {
    hide Eval, Evaluates;
    limit := Larger(floor, s.steps);
    if es != [] {
      var i: nat, j: nat, c1 :|
        && i < h && Evaluates(i, num, es[0], ConfigOf(s), vs[0], c1)
        && j < h && EvaluatesAll(j, num, es[1..], c1, vs[1..], c');
      var a := EvalComplete(i, num, es[0], s, vs[0], c1, floor);
      var s1 := Eval(Machine(a, num), es[0], s).1;
      EvalGoesOn(Machine(a, num), es[0], s);
      limit := EvalAllComplete(j, num, es[1..], s1, vs[1..], c', a);
      EvalHigher(num, a, limit, es[0], s);
      assert vs == [vs[0]] + vs[1..];
    }
  }

  // ---- assignments and calls ----

  lemma StoreElementTo(num: Arith, s: State, name: string, k: Value, v: Value, i: nat, c': Config)
    requires Bound(EnvOf(s.scopes), name, i) && StoredIn(num, ConfigOf(s), name, k, v, i, c')
    ensures Reaches(StoreElement(num, s, name, k, v), v, c')
  {
    hide Get, EnvOf, Put, Stored, StoreVariable;
    GetIs(s.scopes, name);
    var items := EnvOf(s.scopes)[i][name].items;
    PutIs(items, num.toInt(k.n), v);
    StoreVariableIs(s, name, Value.Array(Put(items, num.toInt(k.n), v)), v);
  }

  lemma {:induction false} AssignComplete(h: nat, num: Arith, target: Expr, value: Expr, s: State, v: Value, c': Config,
                                          floor: nat)
    returns (limit: nat)
    requires s.scopes != [] && Assigns(h, num, target, value, ConfigOf(s), v, c')
    ensures floor <= limit
    ensures var m := Machine(limit, num); Began(m, s) && Reaches(Eval(m, Expr.Assign(target, value), s), v, c')
    decreases h, 1
  {
    hide Eval, StoreVariable, StoreElement, StoredIn, EnvOf, Evaluates;
    if target.Ident? {
      var i: nat, c1, k: nat :|
        i < h && Evaluates(i, num, value, ConfigOf(s), v, c1) && Assigned(c1, target.name, v, k, c');
      limit := EvalComplete(i, num, value, Tick(s), v, c1, floor);
      AssignStep(Machine(limit, num), target, value, s);
      StoreVariableIs(Eval(Machine(limit, num), value, Tick(s)).1, target.name, v, v);
    } else {
      limit := StoreComplete(h, num, target, value, s, v, c', floor);
    }
  }

  lemma {:induction false} StoreComplete(h: nat, num: Arith, target: Expr, value: Expr, s: State, v: Value, c': Config,
                                         floor: nat)
    returns (limit: nat)
    requires s.scopes != [] && target.Index? && Assigns(h, num, target, value, ConfigOf(s), v, c')
    ensures floor <= limit
    ensures var m := Machine(limit, num); Began(m, s) && Reaches(Eval(m, Expr.Assign(target, value), s), v, c')
    decreases h, 0
  {
    hide Eval, Evaluates, StoreVariable, StoreElement, StoredIn, EnvOf;
    var name := target.base.name;
    var i: nat, j: nat, c1, x, c2, k: nat :|
      && i < h && Evaluates(i, num, value, ConfigOf(s), v, c1)
      && j < h && Evaluates(j, num, target.idx, c1, x, c2)
      && Bound(c2.env, name, k) && StoredIn(num, c2, name, x, v, k, c');
    var a := EvalComplete(i, num, value, Tick(s), v, c1, floor);
    var s1 := Eval(Machine(a, num), value, Tick(s)).1;
    EvalGoesOn(Machine(a, num), value, Tick(s));
    limit := EvalComplete(j, num, target.idx, s1, x, c2, a);
    EvalHigher(num, a, limit, value, Tick(s));
    AssignStep(Machine(limit, num), target, value, s);
    StoreElementTo(num, Eval(Machine(limit, num), target.idx, s1).1, name, x, v, k, c');
  }

  lemma {:induction false} CallComplete(h: nat, num: Arith, callee: Expr, args: seq<Expr>, s: State, v: Value,
                                        c': Config, floor: nat)
    returns (limit: nat)
    requires s.scopes != [] && Evaluates(h, num, Expr.Call(callee, args), ConfigOf(s), v, c')
    ensures floor <= limit
    ensures var m := Machine(limit, num); Began(m, s) && Reaches(Eval(m, Expr.Call(callee, args), s), v, c')
    decreases h, 1
  {
    hide Eval, EvalAll, Calls, Logs, IsConsole, Prints;
    PrintsIs(callee);
    var t := Tick(s);
    if Prints(callee) {
      limit := LogComplete(h, num, callee, args, s, v, c', floor);
    } else {
      limit := UserCallComplete(h, num, callee, args, s, v, c', floor);
    }
    CallStep(Machine(limit, num), callee, args, s);
  }

  lemma {:induction false} LogComplete(h: nat, num: Arith, callee: Expr, args: seq<Expr>, s: State, v: Value,
                                       c': Config, floor: nat)
    returns (limit: nat)
    requires s.scopes != [] && Logs(h, num, args, ConfigOf(s), v, c') && Prints(callee)
    ensures floor <= limit && s.steps < limit
    ensures var m := Machine(limit, num); Reaches(EvalCall(m, callee, args, Tick(s)), v, c')
    decreases h, 0
  {
    hide Eval, EvalAll, EvaluatesAll, IsConsole, Prints, Joined, Texts, JoinDisplays, EnvOf;
    PrintsIs(callee);
    var t := Tick(s);
    var i: nat, vs, c1 :|
      && i < h && EvaluatesAll(i, num, args, ConfigOf(s), vs, c1)
      && c' == Config(c1.env, c1.out + [Joined(Texts(num, vs), " ")]);
    limit := EvalAllComplete(i, num, args, t, vs, c1, Larger(floor, t.steps));
    JoinDisplaysIs(num, vs, " ");
  }

  lemma {:induction false} UserCallComplete(h: nat, num: Arith, callee: Expr, args: seq<Expr>, s: State, v: Value,
                                            c': Config, floor: nat)
    returns (limit: nat)
    requires s.scopes != [] && Calls(h, num, callee, args, ConfigOf(s), v, c') && !Prints(callee)
    ensures floor <= limit && s.steps < limit
    ensures var m := Machine(limit, num); Reaches(EvalCall(m, callee, args, Tick(s)), v, c')
    decreases h, 0
  {
    hide Eval, EvalAll, Evaluates, EvaluatesAll, Invoke, IsConsole, Prints, RunsBlock;
    PrintsIs(callee);
    var t := Tick(s);
    var i: nat, f, c1, j: nat, vs, c2 :|
      && i < h && Evaluates(i, num, callee, ConfigOf(s), f, c1) && f.Func?
      && j < h && EvaluatesAll(j, num, args, c1, vs, c2)
      && exists k: nat, flow, c3 ::
           && k < h && RunsBlock(k, num, f.body, c2.Push(Arguments(f.params, vs)), flow, c3) && Popped(c3, c')
           && v == Returns(flow);
    var k: nat, flow, c3 :|
      && k < h && RunsBlock(k, num, f.body, c2.Push(Arguments(f.params, vs)), flow, c3) && Popped(c3, c')
      && v == Returns(flow);
    var a := EvalComplete(i, num, callee, t, f, c1, Larger(floor, t.steps));
    var s1 := Eval(Machine(a, num), callee, t).1;
    EvalGoesOn(Machine(a, num), callee, t);
    var b := EvalAllComplete(j, num, args, s1, vs, c2, a);
    var s2 := EvalAll(Machine(b, num), args, s1).1;
    EvalAllGoesOn(Machine(b, num), args, s1);
    limit := InvokeComplete(k, num, f.params, f.body, vs, s2, flow, c3, c', b);
    EvalHigher(num, a, limit, callee, t);
    EvalAllHigher(num, b, limit, args, s1);
  }

  lemma {:induction false} InvokeComplete(h: nat, num: Arith, params: seq<string>, body: seq<Stmt>, args: seq<Value>,
                                          s: State, flow: Flow, c1: Config, c': Config, floor: nat)
    returns (limit: nat)
    requires s.scopes != [] && Popped(c1, c')
    requires RunsBlock(h, num, body, ConfigOf(s).Push(Arguments(params, args)), flow, c1)
    ensures floor <= limit
    ensures var m := Machine(limit, num); Began(m, s) && Reaches(Invoke(m, params, body, args, s), Returns(flow), c')
    decreases h, 2
  {
    hide ExecBlock, Invoke, BindParams, RunsBlock, EnvOf;
    FrameIs(s, params, args);
    limit := BlockComplete(h, num, body, WithScopes(s, BindParams(Push(s).scopes, params, args)), flow, c1, floor);
    InvokeStep(Machine(limit, num), params, body, args, s);
  }

  // ---- statements ----

  lemma {:induction false} BlockComplete(h: nat, num: Arith, body: seq<Stmt>, s: State, flow: Flow, c': Config,
                                         floor: nat)
    returns (limit: nat)
    requires s.scopes != [] && RunsBlock(h, num, body, ConfigOf(s), flow, c')
    ensures floor <= limit
    ensures var m := Machine(limit, num); Began(m, s) && Reaches(ExecBlock(m, body, s), flow, c')
    decreases h, 1
  {
    hide ExecBlock, ExecSeq, RunsAll, EnvOf, Hoist;
    HoistIs(s.scopes, body);
    HoistNotEmpty(s.scopes, body);
    limit := SeqComplete(h, num, body, WithScopes(s, Hoist(s.scopes, body)), flow, c', floor);
    BlockStep(Machine(limit, num), body, s);
  }

  lemma HoistNotEmpty(scopes: seq<Scope>, body: seq<Stmt>)
    requires scopes != []
    ensures Hoist(scopes, body) != []
  {
    HoistExtends(scopes, body);
  }

  lemma {:induction false} SeqComplete(h: nat, num: Arith, body: seq<Stmt>, s: State, flow: Flow, c': Config,
                                       floor: nat)
    returns (limit: nat)
    requires s.scopes != [] && RunsAll(h, num, body, ConfigOf(s), flow, c')
    ensures floor <= limit
    ensures var m := Machine(limit, num); Began(m, s) && Reaches(ExecSeq(m, body, s), flow, c')
    decreases h, 0
  {
    limit := Larger(floor, s.steps);
    if body != [] {
      hide Exec, ExecSeq, Executes;
      var i: nat, f, c1 :| i < h && Executes(i, num, body[0], ConfigOf(s), f, c1) &&
        if f == Normal then exists j: nat :: j < h && RunsAll(j, num, body[1..], c1, flow, c')
        else flow == f && c' == c1;
      hide RunsAll;
      var a := ExecComplete(i, num, body[0], s, f, c1, floor);
      var s1 := Exec(Machine(a, num), body[0], s).1;
      limit := a;
      if f == Normal {
        var j: nat :| j < h && RunsAll(j, num, body[1..], c1, flow, c');
        ExecGoesOn(Machine(a, num), body[0], s);
        limit := SeqComplete(j, num, body[1..], s1, flow, c', a);
      }
      ExecHigher(num, a, limit, body[0], s);
      SeqStep(Machine(limit, num), body, s);
    }
  }

  lemma {:induction false} ExecComplete(h: nat, num: Arith, st: Stmt, s: State, flow: Flow, c': Config, floor: nat)
    returns (limit: nat)
    requires s.scopes != [] && Executes(h, num, st, ConfigOf(s), flow, c')
    ensures floor <= limit
    ensures var m := Machine(limit, num); Began(m, s) && Reaches(Exec(m, st, s), flow, c')
    decreases h, 2
  {
    hide Exec, Reaches;
    match st
    case Do(_) => limit := SimpleComplete(h, num, st, s, flow, c', floor);
    case Decl(_, _) => limit := SimpleComplete(h, num, st, s, flow, c', floor);
    case Func(_, _, _) => limit := SimpleComplete(h, num, st, s, flow, c', floor);
    case Return(_) => limit := SimpleComplete(h, num, st, s, flow, c', floor);
    case Block(body) => limit := ScopedComplete(h, num, body, s, flow, c', floor);
    case If(cond, thn, els) => limit := IfComplete(h, num, cond, thn, els, s, flow, c', floor);
    case While(cond, loop) =>
      limit := WhileComplete(h, num, cond, loop, Tick(s), flow, c', Larger(floor, s.steps + 1));
      ExecStep(Machine(limit, num), st, s);
    case For(start, test, step, loop) => limit := ForComplete(h, num, start, test, step, loop, s, flow, c', floor);
  }

  lemma {:induction false} EvalOptionComplete(h: nat, num: Arith, e: Option<Expr>, s: State, v: Value, c': Config,
                                              floor: nat)
    returns (limit: nat)
    requires s.scopes != [] && EvaluatesMaybe(h, num, e, ConfigOf(s), v, c')
    ensures floor <= limit
    ensures var m := Machine(limit, num); Began(m, s) && Reaches(EvalOption(m, e, s), v, c')
    decreases h, 3
  {
    hide Eval, Evaluates;
    limit := Larger(floor, s.steps);
    if e.Some? {
      limit := EvalComplete(h, num, e.value, s, v, c', limit);
    }
  }

  lemma {:induction false} ExecOptionComplete(h: nat, num: Arith, st: Option<Stmt>, s: State, flow: Flow, c': Config,
                                              floor: nat)
    returns (limit: nat)
    requires s.scopes != [] && ExecutesMaybe(h, num, st, ConfigOf(s), flow, c')
    ensures floor <= limit
    ensures var m := Machine(limit, num); Began(m, s) && Reaches(ExecOption(m, st, s), flow, c')
    decreases h, 3
  {
    hide Exec, Executes;
    limit := Larger(floor, s.steps);
    if st.Some? {
      limit := ExecComplete(h, num, st.value, s, flow, c', limit);
    }
  }

  lemma {:induction false} SimpleComplete(h: nat, num: Arith, st: Stmt, s: State, flow: Flow, c': Config, floor: nat)
    returns (limit: nat)
    requires s.scopes != [] && Executes(h, num, st, ConfigOf(s), flow, c')
    requires st.Do? || st.Decl? || st.Func? || st.Return?
    ensures floor <= limit
    ensures var m := Machine(limit, num); Began(m, s) && Reaches(Exec(m, st, s), flow, c')
    decreases h, 0
  {
    hide Exec, Eval, EvalOption, Evaluates, EvaluatesMaybe, EnvOf, Declare;
    var t := Tick(s);
    limit := Larger(floor, t.steps);
    match st
    case Do(e) =>
      var i: nat, v :| i < h && Evaluates(i, num, e, ConfigOf(s), v, c');
      limit := EvalComplete(i, num, e, t, v, c', limit);
      ExecStep(Machine(limit, num), st, s);
    case Decl(name, init) =>
      var i: nat, v, c1 :|
        i < h && EvaluatesMaybe(i, num, init, ConfigOf(s), v, c1) && c1.env != [] && c' == c1.Declared(name, v);
      limit := EvalOptionComplete(i, num, init, t, v, c1, limit);
      ExecStep(Machine(limit, num), st, s);
      EvalOptionGoesOn(Machine(limit, num), init, t);
      DeclareIs(EvalOption(Machine(limit, num), init, t).1.scopes, name, v);
    case Func(name, params, body) =>
      ExecStep(Machine(limit, num), st, s);
      DeclareIs(t.scopes, name, Value.Func(params, body));
    case Return(result) =>
      var i: nat, v :| i < h && EvaluatesMaybe(i, num, result, ConfigOf(s), v, c') && flow == Returned(v);
      limit := EvalOptionComplete(i, num, result, t, v, c', limit);
      ExecStep(Machine(limit, num), st, s);
  }

  lemma {:induction false} ScopedComplete(h: nat, num: Arith, body: seq<Stmt>, s: State, flow: Flow, c': Config,
                                          floor: nat)
    returns (limit: nat)
    requires s.scopes != [] && Executes(h, num, Stmt.Block(body), ConfigOf(s), flow, c')
    ensures floor <= limit
    ensures var m := Machine(limit, num); Began(m, s) && Reaches(Exec(m, Stmt.Block(body), s), flow, c')
    decreases h, 0
  {
    hide Exec, ExecBlock, RunsBlock, EnvOf;
    var i: nat, c1 :| i < h && RunsBlock(i, num, body, ConfigOf(s).Push(map[]), flow, c1) && Popped(c1, c');
    hide Executes;
    PushIs(s);
    var t := Push(Tick(s));
    limit := BlockComplete(i, num, body, t, flow, c1, floor);
    ExecStep(Machine(limit, num), Stmt.Block(body), s);
    BlockGoesOn(Machine(limit, num), body, t);
    PopIs(ExecBlock(Machine(limit, num), body, t).1);
  }

  lemma {:induction false} IfComplete(h: nat, num: Arith, cond: Expr, thn: Stmt, els: Option<Stmt>, s: State,
                                      flow: Flow, c': Config, floor: nat)
    returns (limit: nat)
    requires s.scopes != [] && Executes(h, num, Stmt.If(cond, thn, els), ConfigOf(s), flow, c')
    ensures floor <= limit
    ensures var m := Machine(limit, num); Began(m, s) && Reaches(Exec(m, Stmt.If(cond, thn, els), s), flow, c')
    decreases h, 0
  {
    hide Exec, Eval, Evaluates, Truthy, Holds, EnvOf, SameNames, Extends, Introduces;
    var i: nat, v, c1 :| i < h && Evaluates(i, num, cond, ConfigOf(s), v, c1) &&
      if Holds(num, v) then exists j: nat :: j < h && Executes(j, num, thn, c1, flow, c')
      else exists j: nat :: j < h && ExecutesMaybe(j, num, els, c1, flow, c');
    hide Executes;
    TruthyIs(num, v);
    var t := Tick(s);
    var a := EvalComplete(i, num, cond, t, v, c1, floor);
    var s1 := Eval(Machine(a, num), cond, t).1;
    EvalGoesOn(Machine(a, num), cond, t);
    if Holds(num, v) {
      var j: nat :| j < h && Executes(j, num, thn, c1, flow, c');
      limit := ExecComplete(j, num, thn, s1, flow, c', a);
    } else {
      var j: nat :| j < h && ExecutesMaybe(j, num, els, c1, flow, c');
      limit := a;
      if els.Some? {
        limit := ExecComplete(j, num, els.value, s1, flow, c', a);
      }
    }
    EvalHigher(num, a, limit, cond, t);
    IfStep(Machine(limit, num), cond, thn, els, s);
  }

  lemma LoopsParts(h: nat, num: Arith, cond: Expr, loop: Stmt, c: Config, flow: Flow, c': Config)
    returns (i: nat, v: Value, c1: Config, j: nat)
    requires Loops(h, num, cond, loop, c, flow, c')
    ensures i < h && Evaluates(i, num, cond, c, v, c1)
    ensures if Holds(num, v) then j < h && LoopBody(j, num, cond, loop, c1, flow, c') else flow == Normal && c' == c1
  {
    hide Evaluates, LoopBody, Holds;
    i, v, c1 :| i < h && Evaluates(i, num, cond, c, v, c1) &&
      if Holds(num, v) then exists j: nat :: j < h && LoopBody(j, num, cond, loop, c1, flow, c')
      else flow == Normal && c' == c1;
    j := 0;
    if Holds(num, v) {
      j :| j < h && LoopBody(j, num, cond, loop, c1, flow, c');
    }
  }

  lemma LoopBodyParts(h: nat, num: Arith, cond: Expr, loop: Stmt, c: Config, flow: Flow, c': Config)
    returns (i: nat, f: Flow, c1: Config, j: nat)
    requires LoopBody(h, num, cond, loop, c, flow, c')
    ensures i < h && Executes(i, num, loop, c, f, c1)
    ensures if f == Normal then j < h && Loops(j, num, cond, loop, c1, flow, c') else flow == f && c' == c1
  {
    hide Executes, Loops;
    i, f, c1 :| i < h && Executes(i, num, loop, c, f, c1) &&
      if f == Normal then exists j: nat :: j < h && Loops(j, num, cond, loop, c1, flow, c') else flow == f && c' == c1;
    j := 0;
    if f == Normal {
      j :| j < h && Loops(j, num, cond, loop, c1, flow, c');
    }
  }

  lemma {:induction false} WhileComplete(h: nat, num: Arith, cond: Expr, loop: Stmt, s: State, flow: Flow, c': Config,
                                         floor: nat)
    returns (limit: nat)
    requires s.scopes != [] && Loops(h, num, cond, loop, ConfigOf(s), flow, c')
    ensures floor <= limit
    ensures var m := Machine(limit, num); Began(m, s) && Reaches(ExecWhile(m, cond, loop, s), flow, c')
    decreases h, 0
  {
    hide Exec, Eval, ExecWhile, Evaluates, LoopBody, Truthy, Holds, ConfigOf, SameNames, Extends, Introduces;
    var i, v, c1, j := LoopsParts(h, num, cond, loop, ConfigOf(s), flow, c');
    hide Loops;
    TruthyIs(num, v);
    var a := EvalComplete(i, num, cond, s, v, c1, floor);
    var s1 := Eval(Machine(a, num), cond, s).1;
    EvalGoesOn(Machine(a, num), cond, s);
    limit := a;
    if Holds(num, v) {
      TickIs(s1);
      limit := LoopBodyComplete(j, num, cond, loop, Tick(s1), flow, c', a);
    }
    EvalHigher(num, a, limit, cond, s);
    WhileStep(Machine(limit, num), cond, loop, s);
  }

  lemma {:induction false} LoopBodyComplete(h: nat, num: Arith, cond: Expr, loop: Stmt, s: State, flow: Flow,
                                             c': Config, floor: nat)
    returns (limit: nat)
    requires s.scopes != [] && LoopBody(h, num, cond, loop, ConfigOf(s), flow, c')
    ensures floor <= limit
    ensures var m := Machine(limit, num);
      && Began(m, s)
      && var (f, s1) := Exec(m, loop, s);
         if f == Got(Normal) then Began(m, s1) && Reaches(ExecWhile(m, cond, loop, s1), flow, c')
         else Reaches((f, s1), flow, c')
    decreases h, 0
  {
    hide Exec, ExecWhile, Executes, Loops, ConfigOf, SameNames, Extends, Introduces;
    var i, f, c1, j := LoopBodyParts(h, num, cond, loop, ConfigOf(s), flow, c');
    hide LoopBody;
    var a := ExecComplete(i, num, loop, s, f, c1, floor);
    var s1 := Exec(Machine(a, num), loop, s).1;
    ExecGoesOn(Machine(a, num), loop, s);
    limit := a;
    if f == Normal {
      limit := WhileComplete(j, num, cond, loop, s1, flow, c', a);
    }
    ExecHigher(num, a, limit, loop, s);
  }

  lemma {:induction false} ForComplete(h: nat, num: Arith, start: Option<Stmt>, test: Option<Expr>, step: Option<Stmt>,
                                       loop: Stmt, s: State, flow: Flow, c': Config, floor: nat)
    returns (limit: nat)
    requires s.scopes != [] && Executes(h, num, Stmt.For(start, test, step, loop), ConfigOf(s), flow, c')
    ensures floor <= limit
    ensures var m := Machine(limit, num);
      Began(m, s) && Reaches(Exec(m, Stmt.For(start, test, step, loop), s), flow, c')
    decreases h, 0
  {
    hide Exec, ExecOption, ExecForLoop, ExecForScoped, ExecutesMaybe, ForLoops, EnvOf, SameNames, Extends, Introduces,
      ForNames, StepNames;
    var i: nat, f, c1, j: nat, c2 :|
      && i < h && ExecutesMaybe(i, num, start, ConfigOf(s).Push(map[]), f, c1)
      && j < h && ForLoops(j, num, test, step, loop, c1, flow, c2)
      && Popped(c2, c');
    hide Executes;
    PushIs(s);
    var t := Tick(s);
    var a := ExecOptionComplete(i, num, start, Push(t), f, c1, floor);
    var s1 := ExecOption(Machine(a, num), start, Push(t)).1;
    ExecOptionGoesOn(Machine(a, num), start, Push(t));
    limit := ForLoopComplete(j, num, test, step, loop, s1, flow, c2, a);
    ExecOptionHigher(num, a, limit, start, Push(t));
    ForScopedStep(Machine(limit, num), start, test, step, loop, t);
    ExecStep(Machine(limit, num), Stmt.For(start, test, step, loop), s);
  }

  lemma ExecOptionGoesOn(m: Machine, st: Option<Stmt>, s: State)
    requires Began(m, s)
    ensures var (flow, s1) := ExecOption(m, st, s); s1.scopes != [] && (flow.Got? ==> Began(m, s1))
  {
    hide ExecOption;
  }

  /** The condition of a `for` loop, from what it evaluates to. */
  lemma EvalTestIs(m: Machine, test: Option<Expr>, s: State)
    requires Began(m, s) && EvalOption(m, test, s).0.Got?
    ensures var (v, s1) := EvalOption(m, test, s);
      EvalTest(m, test, s) == (Got(test.None? || Holds(m.num, v.value)), s1)
  {
    hide Eval, Truthy, Holds, EnvOf, SameNames;
    TruthyIs(m.num, EvalOption(m, test, s).0.value);
  }

  lemma {:induction false} ForLoopComplete(h: nat, num: Arith, test: Option<Expr>, step: Option<Stmt>, loop: Stmt,
                                           s: State, flow: Flow, c': Config, floor: nat)
    returns (limit: nat)
    requires s.scopes != [] && ForLoops(h, num, test, step, loop, ConfigOf(s), flow, c')
    ensures floor <= limit
    ensures var m := Machine(limit, num); Began(m, s) && Reaches(ExecForLoop(m, test, step, loop, s), flow, c')
    decreases h, 0
  {
    hide Exec, EvalOption, ExecOption, EvalTest, ExecForLoop, EvaluatesMaybe, ForBody, Holds, ConfigOf, SameNames,
      Extends, Introduces, StepNames;
    var t := Tick(s);
    var i: nat, v, c1 :| i < h && EvaluatesMaybe(i, num, test, ConfigOf(s), v, c1) &&
      if test.None? || Holds(num, v) then exists j: nat :: j < h && ForBody(j, num, test, step, loop, c1, flow, c')
      else flow == Normal && c' == c1;
    hide ForLoops;
    TickIs(s);
    var a := EvalOptionComplete(i, num, test, t, v, c1, Larger(floor, t.steps));
    var s1 := EvalOption(Machine(a, num), test, t).1;
    EvalOptionGoesOn(Machine(a, num), test, t);
    EvalTestIs(Machine(a, num), test, t);
    limit := a;
    if test.None? || Holds(num, v) {
      var j: nat :| j < h && ForBody(j, num, test, step, loop, c1, flow, c');
      limit := ForBodyComplete(j, num, test, step, loop, s1, flow, c', a);
    }
    EvalTestHigher(num, a, limit, test, t);
    ForStep(Machine(limit, num), test, step, loop, s);
  }

  lemma {:induction false} ForBodyComplete(h: nat, num: Arith, test: Option<Expr>, step: Option<Stmt>, loop: Stmt,
                                            s: State, flow: Flow, c': Config, floor: nat)
    returns (limit: nat)
    requires s.scopes != [] && ForBody(h, num, test, step, loop, ConfigOf(s), flow, c')
    ensures floor <= limit
    ensures var m := Machine(limit, num);
      && Began(m, s)
      && var (f, s1) := Exec(m, loop, s);
         if f == Got(Normal) then Began(m, s1) && StepReaches(m, test, step, loop, s1, flow, c')
         else Reaches((f, s1), flow, c')
    decreases h, 0
  {
    hide Exec, StepReaches, Executes, ForNext, ConfigOf, SameNames, Extends, Introduces;
    var i: nat, f, c1 :| i < h && Executes(i, num, loop, ConfigOf(s), f, c1) &&
      if f == Normal then exists j: nat :: j < h && ForNext(j, num, test, step, loop, c1, flow, c')
      else flow == f && c' == c1;
    hide ForBody;
    var a := ExecComplete(i, num, loop, s, f, c1, floor);
    var s1 := Exec(Machine(a, num), loop, s).1;
    ExecGoesOn(Machine(a, num), loop, s);
    limit := a;
    if f == Normal {
      var j: nat :| j < h && ForNext(j, num, test, step, loop, c1, flow, c');
      limit := ForNextComplete(j, num, test, step, loop, s1, flow, c', a);
    }
    ExecHigher(num, a, limit, loop, s);
  }

  /** The step of a `for` loop, and the loop again. */
  ghost predicate StepReaches(m: Machine, test: Option<Expr>, step: Option<Stmt>, loop: Stmt, s: State, flow: Flow,
                              c': Config)
    requires Began(m, s)
  {
    var (f, s1) := ExecOption(m, step, s);
    f.Got? && Began(m, s1) && Reaches(ExecForLoop(m, test, step, loop, s1), flow, c')
  }

  lemma {:induction false} ForNextComplete(h: nat, num: Arith, test: Option<Expr>, step: Option<Stmt>, loop: Stmt,
                                            s: State, flow: Flow, c': Config, floor: nat)
    returns (limit: nat)
    requires s.scopes != [] && ForNext(h, num, test, step, loop, ConfigOf(s), flow, c')
    ensures floor <= limit
    ensures var m := Machine(limit, num); Began(m, s) && StepReaches(m, test, step, loop, s, flow, c')
    decreases h, 0
  {
    hide ExecOption, ExecForLoop, ExecutesMaybe, ForLoops, ConfigOf, SameNames, Extends, Introduces, StepNames;
    var i: nat, f, j: nat, c1 :|
      && i < h && ExecutesMaybe(i, num, step, ConfigOf(s), f, c1)
      && j < h && ForLoops(j, num, test, step, loop, c1, flow, c');
    hide ForNext;
    var a := ExecOptionComplete(i, num, step, s, f, c1, floor);
    var s1 := ExecOption(Machine(a, num), step, s).1;
    ExecOptionGoesOn(Machine(a, num), step, s);
    limit := ForLoopComplete(j, num, test, step, loop, s1, flow, c', a);
    ExecOptionHigher(num, a, limit, step, s);
  }
}
