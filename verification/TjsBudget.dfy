/** The step limit is invisible to every run that does not reach it. */
module TjsBudget {
  import opened Options
  import opened TjsSyntax
  import opened TjsSemantics

  /** The same arithmetic with a limit at least as high. */
  ghost predicate Roomier(m: Machine, m': Machine) {
    m'.num == m.num && m.maxSteps <= m'.maxSteps
  }

  /** The second machine did exactly the same, or went beyond the limit the first one stopped at. */
  ghost predicate Agrees<T(!new)>(m: Machine, r: (Outcome<T>, State), r': (Outcome<T>, State)) {
    if r.0.OutOfSteps? then r'.1.steps > m.maxSteps else r' == r
  }

  lemma {:induction false} EvalAgrees(m: Machine, m': Machine, e: Expr, s: State)
    requires Roomier(m, m') && Began(m, s)
    ensures Agrees(m, Eval(m, e, s), Eval(m', e, s))
    decreases Budget(m, s), 0, 1
  {
    hide SameNames;
    var t := Tick(s);
    if e.Index? || e.Bin? {
      TwoOperandsAgree(m, m', e, s);
    } else if t.steps <= m.maxSteps {
      match e
      case Array(items) => EvalAllAgrees(m, m', items, t);
      case Unary(_, x) => EvalAgrees(m, m', x, t);
      case Logic(_, l, r) =>
        EvalAgrees(m, m', l, t);
        EvalLeavesScopes(m, l, t);
        var (lv, s1) := Eval(m, l, t);
        if lv.Got? {
          EvalAgrees(m, m', r, s1);
        }
      case Assign(target, value) =>
        EvalAgrees(m, m', value, t);
        EvalLeavesScopes(m, value, t);
        var (v, s1) := Eval(m, value, t);
        if v.Got? {
          EvalStoreAgrees(m, m', target, v.value, s1);
        }
      case Call(callee, args) => EvalCallAgrees(m, m', callee, args, t);
      case Member(obj, _) => EvalAgrees(m, m', obj, t);
      case _ =>
    }
  }

  lemma {:induction false} TwoOperandsAgree(m: Machine, m': Machine, e: Expr, s: State)
    requires Roomier(m, m') && Began(m, s) && (e.Index? || e.Bin?)
    ensures Agrees(m, Eval(m, e, s), Eval(m', e, s))
    decreases Budget(m, s), 0, 0
  {
    hide SameNames;
    var t := Tick(s);
    if t.steps <= m.maxSteps {
      match e
      case Index(base, idx) =>
        EvalTwoAgrees(m, m', base, idx, t, (b, i) => IndexOf(m.num, b, i), (b, i) => IndexOf(m'.num, b, i));
      case Bin(op, l, r) =>
        EvalTwoAgrees(m, m', l, r, t, (l, r) => BinOf(m.num, op, l, r), (l, r) => BinOf(m'.num, op, l, r));
    }
  }

  lemma {:induction false} EvalTwoAgrees(m: Machine, m': Machine, a: Expr, b: Expr, s: State,
                                         f: (Value, Value) -> Outcome<Value>, f': (Value, Value) -> Outcome<Value>)
    requires Roomier(m, m') && Began(m, s)
    requires forall x, y :: !f(x, y).OutOfSteps? && f'(x, y) == f(x, y)
    ensures Agrees(m, EvalTwo(m, a, b, s, f), EvalTwo(m', a, b, s, f'))
    decreases Budget(m, s), 1, 0
  {
    hide Eval, SameNames;
    EvalAgrees(m, m', a, s);
    EvalLeavesScopes(m, a, s);
    var (x, s1) := Eval(m, a, s);
    if x.Got? {
      EvalAgrees(m, m', b, s1);
    }
  }

  lemma {:induction false} EvalAllAgrees(m: Machine, m': Machine, es: seq<Expr>, s: State)
    requires Roomier(m, m') && Began(m, s)
    ensures Agrees(m, EvalAll(m, es, s), EvalAll(m', es, s))
    decreases Budget(m, s), 1, |es|
  {
    hide Eval;
    if es != [] {
      EvalAgrees(m, m', es[0], s);
      var (v, s1) := Eval(m, es[0], s);
      if v.Got? {
        EvalAllAgrees(m, m', es[1..], s1);
      }
    }
  }

  lemma {:induction false} EvalStoreAgrees(m: Machine, m': Machine, target: Expr, v: Value, s: State)
    requires Roomier(m, m') && Began(m, s)
    ensures Agrees(m, EvalStore(m, target, v, s), EvalStore(m', target, v, s))
    decreases Budget(m, s), 1, 0
  {
    hide Eval;
    if target.Index? {
      EvalAgrees(m, m', target.idx, s);
    }
  }

  lemma {:induction false} EvalCallAgrees(m: Machine, m': Machine, callee: Expr, args: seq<Expr>, s: State)
    requires Roomier(m, m') && Began(m, s)
    ensures Agrees(m, EvalCall(m, callee, args, s), EvalCall(m', callee, args, s))
    decreases Budget(m, s), 2, 0
  {
    hide Eval, EvalAll, Invoke;
    if IsConsole(callee) {
      EvalAllAgrees(m, m', args, s);
    } else {
      EvalAgrees(m, m', callee, s);
      var (f, s1) := Eval(m, callee, s);
      if f.Got? && f.value.Func? {
        EvalAllAgrees(m, m', args, s1);
        var (vs, s2) := EvalAll(m, args, s1);
        if vs.Got? {
          InvokeAgrees(m, m', f.value.params, f.value.body, vs.value, s2);
        }
      }
    }
  }

  lemma {:induction false} InvokeAgrees(m: Machine, m': Machine, params: seq<string>, body: seq<Stmt>,
                                        args: seq<Value>, s: State)
    requires Roomier(m, m') && Began(m, s)
    ensures Agrees(m, Invoke(m, params, body, args, s), Invoke(m', params, body, args, s))
    decreases Budget(m, s), 4, 0
  {
    hide ExecBlock;
    BindParamsExtends(Push(s).scopes, params, args);
    ExecBlockAgrees(m, m', body, WithScopes(s, BindParams(Push(s).scopes, params, args)));
  }

  lemma {:induction false} ExecAgrees(m: Machine, m': Machine, st: Stmt, s: State)
    requires Roomier(m, m') && Began(m, s)
    ensures Agrees(m, Exec(m, st, s), Exec(m', st, s))
    decreases Budget(m, s), 0, 0
  {
    hide Eval, EvalOption, ExecBlock, ExecFor, ExecWhile;
    var t := Tick(s);
    if t.steps <= m.maxSteps {
      match st
      case Do(e) => EvalAgrees(m, m', e, t);
      case Decl(_, init) => EvalOptionAgrees(m, m', init, t);
      case Block(body) => ExecBlockAgrees(m, m', body, Push(t));
      case If(c, thn, els) =>
        EvalAgrees(m, m', c, t);
        var (v, s1) := Eval(m, c, t);
        if v.Got? {
          if Truthy(m.num, v.value) {
            ExecAgrees(m, m', thn, s1);
          } else {
            ExecOptionAgrees(m, m', els, s1);
          }
        }
      case While(c, loop) => ExecWhileAgrees(m, m', c, loop, t);
      case For(start, test, step, loop) => ExecForAgrees(m, m', start, test, step, loop, Push(t));
      case Return(result) => EvalOptionAgrees(m, m', result, t);
      case _ =>
    }
  }

  lemma {:induction false} EvalOptionAgrees(m: Machine, m': Machine, e: Option<Expr>, s: State)
    requires Roomier(m, m') && Began(m, s)
    ensures Agrees(m, EvalOption(m, e, s), EvalOption(m', e, s))
    decreases Budget(m, s), 1, 0
  {
    hide Eval;
    if e.Some? {
      EvalAgrees(m, m', e.value, s);
    }
  }

  lemma {:induction false} EvalTestAgrees(m: Machine, m': Machine, e: Option<Expr>, s: State)
    requires Roomier(m, m') && Began(m, s)
    ensures Agrees(m, EvalTest(m, e, s), EvalTest(m', e, s))
    decreases Budget(m, s), 1, 0
  {
    hide Eval;
    if e.Some? {
      EvalAgrees(m, m', e.value, s);
    }
  }

  lemma {:induction false} ExecOptionAgrees(m: Machine, m': Machine, st: Option<Stmt>, s: State)
    requires Roomier(m, m') && Began(m, s)
    ensures Agrees(m, ExecOption(m, st, s), ExecOption(m', st, s))
    decreases Budget(m, s), 1, 0
  {
    hide Exec;
    if st.Some? {
      ExecAgrees(m, m', st.value, s);
    }
  }

  lemma {:induction false} ExecWhileAgrees(m: Machine, m': Machine, c: Expr, loop: Stmt, s: State)
    requires Roomier(m, m') && Began(m, s)
    ensures Agrees(m, ExecWhile(m, c, loop, s), ExecWhile(m', c, loop, s))
    decreases Budget(m, s), 1, 0
  {
    hide Eval, Exec, ExecWhile, Introduces, Truthy, Extends, SameNames;
    EvalAgrees(m, m', c, s);
    var (v, s1) := Eval(m, c, s);
    if v.Got? && Truthy(m.num, v.value) && s1.steps < m.maxSteps {
      WhileTurns(m, c, loop, s);
      WhileTurns(m', c, loop, s);
      ExecAgrees(m, m', loop, Tick(s1));
      var (flow, s2) := Exec(m, loop, Tick(s1));
      if flow == Got(Normal) {
        ExecWhileAgrees(m, m', c, loop, s2);
      }
    } else {
      WhileEndAgrees(m, m', c, loop, s);
    }
  }

  lemma WhileEndAgrees(m: Machine, m': Machine, c: Expr, loop: Stmt, s: State)
    requires Roomier(m, m') && Began(m, s) && Agrees(m, Eval(m, c, s), Eval(m', c, s))
    requires var (v, s1) := Eval(m, c, s); !(v.Got? && Truthy(m.num, v.value) && s1.steps < m.maxSteps)
    ensures Agrees(m, ExecWhile(m, c, loop, s), ExecWhile(m', c, loop, s))
  {
    hide Eval, Exec, ExecWhile, Introduces, Truthy, Extends, SameNames;
    WhileEnds(m, c, loop, s);
    WhileRunsOn(m', c, loop, s);
    var v := Eval(m, c, s).0;
    if !v.OutOfSteps? && !(v.Got? && Truthy(m.num, v.value)) {
      WhileEnds(m', c, loop, s);
    }
  }

  /** A loop never ends before the tick its condition ended at, and takes one more to go on. */
  lemma WhileRunsOn(m: Machine, c: Expr, loop: Stmt, s: State)
    requires Began(m, s)
    ensures var (v, s1) := Eval(m, c, s);
      && s1.steps <= ExecWhile(m, c, loop, s).1.steps
      && (v.Got? && Truthy(m.num, v.value) ==> s1.steps < ExecWhile(m, c, loop, s).1.steps)
  {
    hide Eval, Exec, Introduces, Truthy;
  }

  lemma {:induction false} ExecForAgrees(m: Machine, m': Machine, start: Option<Stmt>, test: Option<Expr>,
                                         step: Option<Stmt>, loop: Stmt, s: State)
    requires Roomier(m, m') && Began(m, s)
    ensures Agrees(m, ExecFor(m, start, test, step, loop, s), ExecFor(m', start, test, step, loop, s))
    decreases Budget(m, s), 4, 0
  {
    hide ExecOption, ExecForLoop;
    ExecOptionAgrees(m, m', start, s);
    var (flow, s1) := ExecOption(m, start, s);
    if flow.Got? {
      ExecForLoopAgrees(m, m', test, step, loop, s1);
    }
  }

  lemma ForRunsOn(m: Machine, test: Option<Expr>, step: Option<Stmt>, loop: Stmt, s: State)
    requires Began(m, s)
    ensures s.steps < ExecForLoop(m, test, step, loop, s).1.steps
    ensures s.steps == m.maxSteps ==> ExecForLoop(m, test, step, loop, s).0.OutOfSteps?
    ensures s.steps < m.maxSteps ==> EvalTest(m, test, Tick(s)).1.steps <= ExecForLoop(m, test, step, loop, s).1.steps
  {
    hide EvalTest, Exec, ExecOption, Introduces, StepNames;
  }

  lemma ForEndAgrees(m: Machine, m': Machine, test: Option<Expr>, step: Option<Stmt>, loop: Stmt, s: State)
    requires Roomier(m, m') && Began(m, s)
    requires s.steps < m.maxSteps ==>
      var r := EvalTest(m, test, Tick(s)); r.0 != Got(true) && Agrees(m, r, EvalTest(m', test, Tick(s)))
    ensures Agrees(m, ExecForLoop(m, test, step, loop, s), ExecForLoop(m', test, step, loop, s))
  {
    hide EvalTest, Exec, ExecOption, ExecForLoop, Introduces, StepNames, Extends, SameNames;
    ForRunsOn(m, test, step, loop, s);
    ForRunsOn(m', test, step, loop, s);
    if s.steps < m.maxSteps {
      ForEnds(m, test, step, loop, s);
      if !EvalTest(m, test, Tick(s)).0.OutOfSteps? {
        ForEnds(m', test, step, loop, s);
      }
    }
  }

  lemma {:induction false} ExecForLoopAgrees(m: Machine, m': Machine, test: Option<Expr>, step: Option<Stmt>,
                                             loop: Stmt, s: State)
    requires Roomier(m, m') && Began(m, s)
    ensures Agrees(m, ExecForLoop(m, test, step, loop, s), ExecForLoop(m', test, step, loop, s))
    decreases Budget(m, s), 3, 0
  {
    hide EvalTest, Exec, ExecOption, ExecForLoop, Introduces, StepNames, Extends, SameNames;
    if s.steps < m.maxSteps {
      EvalTestAgrees(m, m', test, Tick(s));
    }
    if s.steps < m.maxSteps && EvalTest(m, test, Tick(s)).0 == Got(true) {
      var s1 := EvalTest(m, test, Tick(s)).1;
      ForTurns(m, test, step, loop, s);
      ForTurns(m', test, step, loop, s);
      ExecAgrees(m, m', loop, s1);
      var (flow, s2) := Exec(m, loop, s1);
      if flow == Got(Normal) {
        ExecOptionAgrees(m, m', step, s2);
        var (flow', s3) := ExecOption(m, step, s2);
        if flow'.Got? {
          ExecForLoopAgrees(m, m', test, step, loop, s3);
        }
      }
    } else {
      ForEndAgrees(m, m', test, step, loop, s);
    }
  }

  lemma {:induction false} ExecBlockAgrees(m: Machine, m': Machine, body: seq<Stmt>, s: State)
    requires Roomier(m, m') && Began(m, s)
    ensures Agrees(m, ExecBlock(m, body, s), ExecBlock(m', body, s))
    decreases Budget(m, s), 3, 0
  {
    hide ExecSeq;
    HoistExtends(s.scopes, body);
    ExecSeqAgrees(m, m', body, WithScopes(s, Hoist(s.scopes, body)));
  }

  lemma {:induction false} ExecSeqAgrees(m: Machine, m': Machine, body: seq<Stmt>, s: State)
    requires Roomier(m, m') && Began(m, s)
    ensures Agrees(m, ExecSeq(m, body, s), ExecSeq(m', body, s))
    decreases Budget(m, s), 2, |body|
  {
    hide Exec;
    if body != [] {
      ExecAgrees(m, m', body[0], s);
      var (flow, s1) := Exec(m, body[0], s);
      if flow == Got(Normal) {
        ExecSeqAgrees(m, m', body[1..], s1);
      }
    }
  }

  /**
   A program that stops within one limit needs a definite number of ticks: with any limit from there on it does
   exactly the same, and with any lower limit it runs out of steps.
   */
  lemma StepsNeeded(num: Arith, program: seq<Stmt>, enough: nat, limit: nat)
    requires !Run(Machine(enough, num), program).0.OutOfSteps?
    ensures var r := Run(Machine(enough, num), program);
      if r.1.steps <= limit then Run(Machine(limit, num), program) == r
      else Run(Machine(limit, num), program).0.OutOfSteps?
  {
    hide ExecBlock;
    var a, b := Machine(enough, num), Machine(limit, num);
    if enough <= limit {
      ExecBlockAgrees(a, b, program, FRESH);
    } else {
      ExecBlockAgrees(b, a, program, FRESH);
    }
  }
}
