/**
 The interpreter object of desktop-metal/src/tjs.rs:814-1249: scopes, output and tick counter updated in place by
 recursive methods and their loops. Each method computes the function of `TjsSemantics` it names, state and all.
 */
module TjsInterp {
  import opened Options
  import opened TjsSyntax
  import opened TjsSemantics

  class Interp {
    const m: Machine
    var scopes: seq<Scope>
    var out: seq<string>
    var steps: nat

    ghost function View(): State
      reads this
    {
      State(scopes, out, steps)
    }

    /** `r` and the state now are what the semantics says. */
    ghost predicate Does<T(!new)>(spec: (Outcome<T>, State), r: Outcome<T>)
      reads this
    {
      r == spec.0 && View() == spec.1
    }

    constructor (m: Machine)
      ensures this.m == m && View() == FRESH
    {
      this.m := m;
      scopes, out, steps := [[]], [], 0;
    }

    // ---- environment ----

    method PushScope()
      modifies `scopes
      ensures scopes == old(scopes) + [[]]
    {
      scopes := scopes + [[]];
    }

    method PopScope()
      modifies `scopes
      ensures scopes == Pop(old(View())).scopes
    {
      if |scopes| > 0 {
        scopes := scopes[..|scopes| - 1];
      }
    }

    method DeclareName(name: string, v: Value)
      requires scopes != []
      modifies `scopes
      ensures scopes == Declare(old(scopes), name, v)
    {
      var top := scopes[|scopes| - 1];
      var i := 0;
      while i < |top| && top[i].0 != name
        invariant 0 <= i <= |top| && scopes == old(scopes)
        invariant forall j :: 0 <= j < i ==> top[j].0 != name
      {
        i := i + 1;
      }
      BindAt(top, name, v, i);
      if i < |top| {
        top := top[i := (name, v)];
      } else {
        top := top + [(name, v)];
      }
      scopes := scopes[..|scopes| - 1] + [top];
    }

    method GetName(name: string) returns (r: Option<Value>)
      ensures r == Get(scopes, name)
    {
      var i := |scopes|;
      assert scopes[..i] == scopes;
      while i > 0
        invariant 0 <= i <= |scopes|
        invariant Get(scopes, name) == Get(scopes[..i], name)
      {
        i := i - 1;
        assert scopes[..i + 1][i] == scopes[i] && scopes[..i + 1][..i] == scopes[..i];
        r := Lookup(scopes[i], name);
        if r.Some? {
          return;
        }
      }
      r := None;
    }

    method SetName(name: string, v: Value) returns (ok: bool)
      modifies `scopes
      ensures match Set(old(scopes), name, v)
        case None => !ok && scopes == old(scopes)
        case Some(s) => ok && scopes == s
    {
      var i := |scopes|;
      while i > 0
        invariant 0 <= i <= |scopes| && scopes == old(scopes)
        invariant forall k :: i <= k < |scopes| ==> Lookup(scopes[k], name) == None
      {
        i := i - 1;
        if Lookup(scopes[i], name).Some? {
          SetAt(scopes, name, v, i);
          scopes := scopes[i := Store(scopes[i], name, v)];
          return true;
        }
      }
      SetNowhere(scopes, name, v);
      return false;
    }

    // ---- expressions ----

    method TickOnce() returns (ok: bool)
      modifies `steps
      ensures steps == old(steps) + 1 && ok == (steps <= m.maxSteps)
    {
      steps := steps + 1;
      ok := steps <= m.maxSteps;
    }

    method EvalExpr(e: Expr) returns (r: Outcome<Value>)
      requires Began(m, View())
      modifies this
      ensures Does(Eval(m, e, old(View())), r)
      decreases Budget(m, View()), 0, 0
    {
      hide EvalAll, EvalTwo, EvalStore, EvalCall;
      var ok := TickOnce();
      if !ok {
        return OutOfSteps;
      }
      assert View() == Tick(old(View()));
      match e {
        case Num(n) => return Got(Value.Num(n));
        case Str(s) => return Got(Value.Str(s));
        case Bool(b) => return Got(Value.Bool(b));
        case Null => return Got(Value.Null);
        case Ident(name) =>
          var v := GetName(name);
          return if v.Some? then Got(v.value) else Error;
        case Array(items) =>
          var vs := EvalExprs(items);
          return Lift(vs, (vs: seq<Value>) => Got(Value.Array(vs)));
        case Index(base, idx) =>
          var b, i := EvalPair(base, idx, (b, i) => IndexOf(m.num, b, i));
          return if b.Got? && i.Got? then IndexOf(m.num, b.value, i.value) else if b.Got? then i else b;
        case Unary(op, x) =>
          var v := EvalExpr(x);
          return Lift(v, v => UnaryOf(m.num, op, v));
        case Bin(op, l, r) =>
          var lv, rv := EvalPair(l, r, (l, r) => BinOf(m.num, op, l, r));
          return if lv.Got? && rv.Got? then BinOf(m.num, op, lv.value, rv.value) else if lv.Got? then rv else lv;
        case Logic(op, l, r) =>
          var lv := EvalExpr(l);
          if !lv.Got? {
            return lv;
          }
          if op == And {
            if Truthy(m.num, lv.value) {
              var rv := EvalExpr(r);
              return rv;
            }
            return lv;
          } else {
            if Truthy(m.num, lv.value) {
              return lv;
            }
            var rv := EvalExpr(r);
            return rv;
          }
        case Assign(target, value) =>
          var v := EvalExpr(value);
          if !v.Got? {
            return v;
          }
          r := StoreTo(target, v.value);
        case Call(callee, args) =>
          r := CallExpr(callee, args);
        case Member(obj, field) =>
          var b := EvalExpr(obj);
          return Lift(b, b => MemberOf(m.num, b, field));
      }
    }

    /** Two operands in order; the second is evaluated only after the first succeeds. */
    method EvalPair(a: Expr, b: Expr, ghost f: (Value, Value) -> Outcome<Value>)
      returns (x: Outcome<Value>, y: Outcome<Value>)
      requires Began(m, View()) && forall x, y :: !f(x, y).OutOfSteps?
      modifies this
      ensures Does(EvalTwo(m, a, b, old(View()), f),
                   if x.Got? && y.Got? then f(x.value, y.value) else if x.Got? then y else x)
      decreases Budget(m, View()), 1, 0
    {
      hide Eval;
      x := EvalExpr(a);
      y := x;
      if x.Got? {
        y := EvalExpr(b);
      }
    }

    method EvalExprs(es: seq<Expr>) returns (r: Outcome<seq<Value>>)
      requires Began(m, View())
      modifies this
      ensures Does(EvalAll(m, es, old(View())), r)
      decreases Budget(m, View()), 1, |es|
    {
      hide Eval;
      var vs: seq<Value> := [];
      var i := 0;
      assert es[0..] == es;
      PrependNone(EvalAll(m, es, View()));
      while i < |es|
        invariant 0 <= i == |vs| <= |es| && Began(m, View())
        invariant steps > old(steps) || i == 0
        invariant i == 0 ==> View() == old(View())
        invariant EvalAll(m, es, old(View())) == Prepend(vs, EvalAll(m, es[i..], View()))
      {
        assert es[i..][0] == es[i] && es[i..][1..] == es[i + 1..];
        ghost var rest := EvalAll(m, es[i..], View());
        var v := EvalExpr(es[i]);
        if !v.Got? {
          return if v.Error? then Error else OutOfSteps;
        }
        PrependMore(vs, v.value, EvalAll(m, es[i + 1..], View()));
        vs := vs + [v.value];
        i := i + 1;
      }
      assert vs + [] == vs;
      return Got(vs);
    }

    method StoreTo(target: Expr, v: Value) returns (r: Outcome<Value>)
      requires Began(m, View())
      modifies this
      ensures Does(EvalStore(m, target, v, old(View())), r)
      decreases Budget(m, View()), 1, 0
    {
      hide Eval, Get, Set;
      match target {
        case Ident(name) =>
          var ok := SetName(name, v);
          return if ok then Got(v) else Error;
        case Index(base, idx) =>
          if !base.Ident? {
            return Error;
          }
          var i := EvalExpr(idx);
          if !i.Got? {
            return i;
          }
          if !i.value.Num? {
            return Error;
          }
          var k := m.num.toInt(i.value.n);
          var held := GetName(base.name);
          if held.None? || !held.value.Array? {
            return Error;
          }
          if k < 0 {
            return Error;
          }
          var items := held.value.items;
          if k >= |items| {
            items := items + seq(k + 1 - |items|, _ => Value.Null);
          }
          items := items[k := v];
          var ok := SetName(base.name, Value.Array(items));
          return if ok then Got(v) else Error;
        case _ => return Error;
      }
    }

    method CallExpr(callee: Expr, args: seq<Expr>) returns (r: Outcome<Value>)
      requires Began(m, View())
      modifies this
      ensures Does(EvalCall(m, callee, args, old(View())), r)
      decreases Budget(m, View()), 2, 0
    {
      hide Eval, EvalAll, Invoke;
      if IsConsole(callee) {
        var vs := EvalExprs(args);
        if !vs.Got? {
          return if vs.Error? then Error else OutOfSteps;
        }
        out := out + [JoinDisplays(m.num, vs.value, " ")];
        return Got(Value.Null);
      }
      var f := EvalExpr(callee);
      if !f.Got? {
        return f;
      }
      if !f.value.Func? {
        return Error;
      }
      var argv := EvalExprs(args);
      if !argv.Got? {
        return if argv.Error? then Error else OutOfSteps;
      }
      r := InvokeBody(f.value.params, f.value.body, argv.value);
    }

    /** The frame is popped before the outcome of the body is looked at. */
    method InvokeBody(params: seq<string>, body: seq<Stmt>, args: seq<Value>) returns (r: Outcome<Value>)
      requires Began(m, View())
      modifies this
      ensures Does(Invoke(m, params, body, args, old(View())), r)
      decreases Budget(m, View()), 4, 0
    {
      hide ExecBlock;
      PushScope();
      ghost var pushed := scopes;
      var i := 0;
      assert params[0..] == params && args[0..] == args;
      while i < |params|
        invariant 0 <= i <= |params| && scopes != []
        invariant steps == old(steps) && out == old(out)
        invariant BindParams(pushed, params, args) ==
                  BindParams(scopes, params[i..], if i <= |args| then args[i..] else [])
      {
        var v := if i < |args| then args[i] else Value.Null;
        ghost var rest := if i <= |args| then args[i..] else [];
        assert params[i..][0] == params[i] && params[i..][1..] == params[i + 1..];
        assert i < |args| ==> rest[0] == args[i] && rest[1..] == args[i + 1..];
        DeclareName(params[i], v);
        i := i + 1;
      }
      var flow := RunBlock(body);
      PopScope();
      return Lift(flow, CallResult);
    }

    // ---- statements ----

    method RunBlock(body: seq<Stmt>) returns (r: Outcome<Flow>)
      requires Began(m, View())
      modifies this
      ensures Does(ExecBlock(m, body, old(View())), r)
      decreases Budget(m, View()), 3, 0
    {
      hide Exec;
      var i := 0;
      assert body[0..] == body;
      while i < |body|
        invariant 0 <= i <= |body| && scopes != []
        invariant steps == old(steps) && out == old(out)
        invariant Hoist(old(scopes), body) == Hoist(scopes, body[i..])
      {
        assert body[i..][0] == body[i] && body[i..][1..] == body[i + 1..];
        if body[i].Func? {
          DeclareName(body[i].name, Value.Func(body[i].params, body[i].body));
        }
        i := i + 1;
      }
      ghost var hoisted := View();
      i := 0;
      while i < |body|
        invariant 0 <= i <= |body| && Began(m, View())
        invariant (i == 0 && View() == hoisted) || steps > old(steps)
        invariant ExecSeq(m, body, hoisted) == ExecSeq(m, body[i..], View())
      {
        assert body[i..][0] == body[i] && body[i..][1..] == body[i + 1..];
        var flow := RunStmt(body[i]);
        if flow != Got(Normal) {
          return flow;
        }
        i := i + 1;
      }
      return Got(Normal);
    }

    /** A whole program, from the state the constructor leaves. */
    method RunProgram(program: seq<Stmt>) returns (r: Outcome<Flow>)
      requires View() == FRESH
      modifies this
      ensures Does(Run(m, program), r) && steps <= m.maxSteps + 1
    {
      r := RunBlock(program);
    }

    method RunStmt(st: Stmt) returns (r: Outcome<Flow>)
      requires Began(m, View())
      modifies this
      ensures Does(Exec(m, st, old(View())), r) && scopes != []
      decreases Budget(m, View()), 0, 0
    {
      hide Eval, ExecBlock, ExecFor, ExecWhile, Extends, Introduces;
      ExecLeavesScopes(m, st, View());
      var ok := TickOnce();
      if !ok {
        return OutOfSteps;
      }
      assert View() == Tick(old(View()));
      match st {
        case Do(e) =>
          var v := EvalExpr(e);
          return Lift(v, _ => Got(Normal));
        case Decl(name, init) =>
          var v := EvalMaybe(init);
          if !v.Got? {
            return if v.Error? then Error else OutOfSteps;
          }
          DeclareName(name, v.value);
          return Got(Normal);
        case Block(body) =>
          PushScope();
          r := RunBlock(body);
          PopScope();
        case If(c, thn, els) =>
          var v := EvalExpr(c);
          if !v.Got? {
            return if v.Error? then Error else OutOfSteps;
          }
          if Truthy(m.num, v.value) {
            r := RunStmt(thn);
          } else {
            r := RunMaybe(els);
          }
        case While(c, loop) =>
          r := RunWhile(c, loop);
        case For(start, test, step, loop) =>
          PushScope();
          r := RunFor(start, test, step, loop);
          PopScope();
        case Func(name, params, body) =>
          DeclareName(name, Value.Func(params, body));
          return Got(Normal);
        case Return(result) =>
          var v := EvalMaybe(result);
          return Lift(v, v => Got(Returned(v)));
      }
    }

    method EvalMaybe(e: Option<Expr>) returns (r: Outcome<Value>)
      requires Began(m, View())
      modifies this
      ensures Does(EvalOption(m, e, old(View())), r)
      decreases Budget(m, View()), 1, 0
    {
      hide Eval;
      if e.None? {
        return Got(Value.Null);
      }
      r := EvalExpr(e.value);
    }

    method RunMaybe(st: Option<Stmt>) returns (r: Outcome<Flow>)
      requires Began(m, View())
      modifies this
      ensures Does(ExecOption(m, st, old(View())), r) && scopes != []
      decreases Budget(m, View()), 1, 0
    {
      hide Exec;
      if st.None? {
        return Got(Normal);
      }
      r := RunStmt(st.value);
    }

    method RunWhile(c: Expr, loop: Stmt) returns (r: Outcome<Flow>)
      requires Began(m, View())
      modifies this
      ensures Does(ExecWhile(m, c, loop, old(View())), r)
      decreases Budget(m, View()), 1, 0
    {
      hide Eval, Exec, Introduces, ExecWhile, SameNames, Extends;
      while true
        invariant Began(m, View())
        invariant View() == old(View()) || steps > old(steps)
        invariant ExecWhile(m, c, loop, old(View())) == ExecWhile(m, c, loop, View())
        decreases Budget(m, View())
      {
        WhileStep(m, c, loop, View());
        var v := EvalExpr(c);
        if !v.Got? {
          return if v.Error? then Error else OutOfSteps;
        }
        if !Truthy(m.num, v.value) {
          return Got(Normal);
        }
        var ok := TickOnce();
        if !ok {
          return OutOfSteps;
        }
        var flow := RunStmt(loop);
        if flow != Got(Normal) {
          return flow;
        }
      }
    }

    method RunFor(start: Option<Stmt>, test: Option<Expr>, step: Option<Stmt>, loop: Stmt) returns (r: Outcome<Flow>)
      requires Began(m, View())
      modifies this
      ensures Does(ExecFor(m, start, test, step, loop, old(View())), r)
      decreases Budget(m, View()), 4, 0
    {
      hide ExecOption, ExecForLoop, StepNames;
      var first := RunMaybe(start);
      if !first.Got? {
        return first;
      }
      r := RunForLoop(test, step, loop);
    }

    method RunForLoop(test: Option<Expr>, step: Option<Stmt>, loop: Stmt) returns (r: Outcome<Flow>)
      requires Began(m, View())
      modifies this
      ensures Does(ExecForLoop(m, test, step, loop, old(View())), r)
      decreases Budget(m, View()), 3, 0
    {
      hide Exec, EvalTest, ExecOption, ExecForLoop, Introduces, StepNames, SameNames, Extends;
      while true
        invariant Began(m, View())
        invariant View() == old(View()) || steps > old(steps)
        invariant ExecForLoop(m, test, step, loop, old(View())) == ExecForLoop(m, test, step, loop, View())
        decreases Budget(m, View())
      {
        ForStep(m, test, step, loop, View());
        var ok := TickOnce();
        if !ok {
          return OutOfSteps;
        }
        var go := TestMaybe(test);
        if !go.Got? {
          return if go.Error? then Error else OutOfSteps;
        }
        if !go.value {
          return Got(Normal);
        }
        var flow := RunStmt(loop);
        if flow != Got(Normal) {
          return flow;
        }
        var stepped := RunMaybe(step);
        if !stepped.Got? {
          return stepped;
        }
      }
    }

    method TestMaybe(test: Option<Expr>) returns (r: Outcome<bool>)
      requires Began(m, View())
      modifies this
      ensures Does(EvalTest(m, test, old(View())), r) && scopes != []
      decreases Budget(m, View()), 1, 0
    {
      hide Eval;
      if test.None? {
        return Got(true);
      }
      var v := EvalExpr(test.value);
      return Lift(v, v => Got(Truthy(m.num, v)));
    }
  }

  ghost function Prepend(vs: seq<Value>, r: (Outcome<seq<Value>>, State)): (Outcome<seq<Value>>, State) {
    (Lift(r.0, ws => Got(vs + ws)), r.1)
  }

  lemma PrependNone(r: (Outcome<seq<Value>>, State))
    ensures Prepend([], r) == r
  {
    if r.0.Got? {
      assert [] + r.0.value == r.0.value;
    }
  }

  lemma PrependMore(vs: seq<Value>, v: Value, r: (Outcome<seq<Value>>, State))
    ensures Prepend(vs, Prepend([v], r)) == Prepend(vs + [v], r)
  {
    if r.0.Got? {
      assert vs + ([v] + r.0.value) == vs + [v] + r.0.value;
    }
  }

  lemma {:induction false} BindAt(sc: Scope, name: string, v: Value, i: nat)
    requires i <= |sc| && (forall j :: 0 <= j < i ==> sc[j].0 != name) && (i < |sc| ==> sc[i].0 == name)
    ensures Bind(sc, name, v) == if i < |sc| then sc[i := (name, v)] else sc + [(name, v)]
    ensures Lookup(sc, name).Some? <==> i < |sc|
    ensures i < |sc| ==> Store(sc, name, v) == sc[i := (name, v)]
  {
    if i > 0 {
      BindAt(sc[1..], name, v, i - 1);
    }
  }

  lemma {:induction false} SetAt(scopes: seq<Scope>, name: string, v: Value, i: nat)
    requires i < |scopes| && Lookup(scopes[i], name).Some?
    requires forall k :: i < k < |scopes| ==> Lookup(scopes[k], name) == None
    ensures Set(scopes, name, v) == Some(scopes[i := Store(scopes[i], name, v)])
  {
    var rest, top := scopes[..|scopes| - 1], scopes[|scopes| - 1];
    if i < |scopes| - 1 {
      SetAt(rest, name, v, i);
      assert rest[i := Store(scopes[i], name, v)] + [top] == scopes[i := Store(scopes[i], name, v)];
    } else {
      assert rest + [Store(top, name, v)] == scopes[i := Store(scopes[i], name, v)];
    }
  }

  lemma {:induction false} SetNowhere(scopes: seq<Scope>, name: string, v: Value)
    requires forall k :: 0 <= k < |scopes| ==> Lookup(scopes[k], name) == None
    ensures Set(scopes, name, v) == None
  {
    if scopes != [] {
      SetNowhere(scopes[..|scopes| - 1], name, v);
    }
  }
}
