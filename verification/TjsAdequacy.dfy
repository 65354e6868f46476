/**
 The interpreter and the rules agree: what a program can be derived to do is what it does under every limit that is high
 enough. And what that means for arithmetic and for comparisons.
 */
module TjsAdequacy {
  import opened Options
  import opened TjsSyntax
  import opened TjsSemantics
  import opened TjsBudget
  import opened TjsRules
  import opened TjsAbstraction
  import opened TjsSoundness
  import opened TjsCompleteness

  const START := Config([map[]], [])

  /** The rules derive that the program ends with this flow, these variables and this output. */
  ghost predicate Derivable(num: Arith, program: seq<Stmt>, flow: Flow, c': Config) {
    exists h: nat :: RunsBlock(h, num, program, START, flow, c')
  }

  /** The interpreter ends it so under this limit. */
  ghost predicate Ends(num: Arith, limit: nat, program: seq<Stmt>, flow: Flow, c': Config) {
    Reaches(Run(Machine(limit, num), program), flow, c')
  }

  /** A program can be derived to end in a way exactly when the interpreter ends it so under some limit. */
  lemma ProgramsRunAsDerived(num: Arith, program: seq<Stmt>, flow: Flow, c': Config)
    ensures Derivable(num, program, flow, c') <==> exists limit: nat :: Ends(num, limit, program, flow, c')
  {
    hide ExecBlock, RunsBlock;
    assert ConfigOf(FRESH) == START;
    if h: nat :| RunsBlock(h, num, program, START, flow, c') {
      var limit := BlockComplete(h, num, program, FRESH, flow, c', 0);
      assert Ends(num, limit, program, flow, c');
    }
    if limit: nat :| Ends(num, limit, program, flow, c') {
      var h := BlockSound(Machine(limit, num), program, FRESH);
      assert RunsBlock(h, num, program, START, flow, c');
    }
  }

  /** From some limit on, and with no lower one, the program does what can be derived. */
  lemma DerivedFromALimitOn(num: Arith, program: seq<Stmt>, flow: Flow, c': Config) returns (least: nat)
    requires Derivable(num, program, flow, c')
    ensures forall limit: nat :: Ends(num, limit, program, flow, c') <==> least <= limit
    ensures forall limit: nat :: limit < least ==> Run(Machine(limit, num), program).0.OutOfSteps?
  {
    hide Run, Derivable;
    ProgramsRunAsDerived(num, program, flow, c');
    var enough: nat :| Ends(num, enough, program, flow, c');
    least := Run(Machine(enough, num), program).1.steps;
    forall limit: nat
      ensures Ends(num, limit, program, flow, c') <==> least <= limit
      ensures limit < least ==> Run(Machine(limit, num), program).0.OutOfSteps?
    {
      StepsNeeded(num, program, enough, limit);
    }
  }

  /** At most one end can be derived. */
  lemma DerivationsAgree(num: Arith, program: seq<Stmt>, f: Flow, c: Config, f': Flow, c': Config)
    requires Derivable(num, program, f, c) && Derivable(num, program, f', c')
    ensures f == f' && c == c'
  {
    hide Run, Derivable;
    var a := DerivedFromALimitOn(num, program, f, c);
    var b := DerivedFromALimitOn(num, program, f', c');
    assert Ends(num, Larger(a, b), program, f, c) && Ends(num, Larger(a, b), program, f', c');
  }

  /** A program that fails has no derivation. */
  lemma FailuresAreUnderivable(num: Arith, program: seq<Stmt>, limit: nat, flow: Flow, c': Config)
    requires Run(Machine(limit, num), program).0.Error?
    ensures !Derivable(num, program, flow, c')
  {
    hide Run, Derivable;
    assert !Ends(num, limit, program, flow, c');
    if Derivable(num, program, flow, c') {
      var _ := DerivedFromALimitOn(num, program, flow, c');
    }
  }

  /** The same for an expression in any state. */
  lemma ExpressionsEvaluateAsDerived(num: Arith, e: Expr, s: State, v: Value, c': Config)
    requires s.scopes != []
    ensures (exists h: nat :: Evaluates(h, num, e, ConfigOf(s), v, c')) <==>
            (exists limit: nat :: s.steps <= limit && Reaches(Eval(Machine(limit, num), e, s), v, c'))
  {
    hide Eval, Evaluates;
    if h: nat :| Evaluates(h, num, e, ConfigOf(s), v, c') {
      var limit := EvalComplete(h, num, e, s, v, c', 0);
      assert s.steps <= limit && Reaches(Eval(Machine(limit, num), e, s), v, c');
    }
    if limit: nat :| s.steps <= limit && Reaches(Eval(Machine(limit, num), e, s), v, c') {
      var h := EvalSound(Machine(limit, num), e, s);
      assert Evaluates(h, num, e, ConfigOf(s), v, c');
    }
  }

  // ---- arithmetic ----

  /** Number literals under the five arithmetic operators and negation. */
  predicate IsArithmetic(e: Expr) {
    match e
    case Num(_) => true
    case Unary(op, x) => op == Neg && IsArithmetic(x)
    case Bin(op, l, r) =>
      (op == Add || op == Sub || op == Mul || op == Div || op == Mod) && IsArithmetic(l) && IsArithmetic(r)
    case _ => false
  }

  function Worth(num: Arith, e: Expr): Number
    requires IsArithmetic(e)
  {
    match e
    case Num(n) => n
    case Unary(_, x) => num.neg(Worth(num, x))
    case Bin(op, l, r) =>
      var a, b := Worth(num, l), Worth(num, r);
      match op
      case Add => num.add(a, b)
      case Sub => num.sub(a, b)
      case Mul => num.mul(a, b)
      case Div => num.div(a, b)
      case Mod => num.rem(a, b)
  }

  function Nodes(e: Expr): nat
    requires IsArithmetic(e)
  {
    match e
    case Num(_) => 1
    case Unary(_, x) => 1 + Nodes(x)
    case Bin(_, l, r) => 1 + Nodes(l) + Nodes(r)
  }

  /** Arithmetic costs one tick a node, touches nothing, and yields the number the tree is worth. */
  lemma {:induction false} ArithmeticIsWorth(m: Machine, e: Expr, s: State)
    requires IsArithmetic(e) && Began(m, s)
    ensures var (v, s1) := Eval(m, e, s);
      if s.steps + Nodes(e) <= m.maxSteps then
        v == Got(Value.Num(Worth(m.num, e))) && s1 == s.(steps := s.steps + Nodes(e))
      else v == OutOfSteps
  {
    hide Eval, SameNames;
    var t := Tick(s);
    if s.steps < m.maxSteps {
      match e
      case Num(_) => LiteralStep(m, e, s);
      case Unary(op, x) =>
        ArithmeticIsWorth(m, x, t);
        UnaryStep(m, op, x, s);
      case Bin(op, l, r) =>
        ArithmeticIsWorth(m, l, t);
        var s1 := Eval(m, l, t).1;
        BinStep(m, op, l, r, s);
        if t.steps + Nodes(l) <= m.maxSteps {
          ArithmeticIsWorth(m, r, s1);
        }
    } else {
      NoStepsLeft(m, e, s);
    }
  }

  lemma LiteralStep(m: Machine, e: Expr, s: State)
    requires e.Num? && Began(m, s) && s.steps < m.maxSteps
    ensures Eval(m, e, s) == (Got(Value.Num(e.n)), Tick(s))
  {
    hide SameNames;
  }

  lemma NoStepsLeft(m: Machine, e: Expr, s: State)
    requires Began(m, s) && s.steps == m.maxSteps
    ensures Eval(m, e, s).0 == OutOfSteps
  {
    hide Eval;
  }

  // ---- comparisons ----

  ghost predicate Says(m: Machine, op: BinOp, l: Expr, r: Expr, s: State, b: bool)
    requires Began(m, s)
  {
    Eval(m, Expr.Bin(op, l, r), s).0 == Got(Value.Bool(b))
  }

  /** What an operator's operands evaluate to does not depend on the operator. */
  lemma OperandsOf(m: Machine, l: Expr, r: Expr, s: State) returns (x: Value, y: Value)
    requires Began(m, s) && Eval(m, Expr.Bin(Less, l, r), s).0.Got?
    ensures forall op: BinOp :: ResultOf(Eval(m, Expr.Bin(op, l, r), s).0) == Operate(m.num, op, x, y)
  {
    hide Eval, BinOf, Operate;
    EvalGoesOn(m, Expr.Bin(Less, l, r), s);
    BinStep(m, Less, l, r, s);
    var s1 := Eval(m, l, Tick(s)).1;
    x, y := Eval(m, l, Tick(s)).0.value, Eval(m, r, s1).0.value;
    forall op: BinOp ensures ResultOf(Eval(m, Expr.Bin(op, l, r), s).0) == Operate(m.num, op, x, y) {
      BinStep(m, op, l, r, s);
      BinOfIs(m.num, op, x, y);
    }
  }

  /**
   Whenever `l < r` has a result, so have all comparisons of the same operands: exactly one of `<`, `===` and `>` is
   true, and the others are made of these.
   */
  lemma OneComparisonHolds(m: Machine, l: Expr, r: Expr, s: State) returns (below: bool, same: bool, above: bool)
    requires Began(m, s) && Eval(m, Expr.Bin(Less, l, r), s).0.Got?
    ensures Says(m, Less, l, r, s, below) && Says(m, BinOp.EqStrict, l, r, s, same) && Says(m, Greater, l, r, s, above)
    ensures if below then !same && !above else same != above
    ensures Says(m, LessEq, l, r, s, below || same) && Says(m, GreaterEq, l, r, s, above || same)
    ensures Says(m, BinOp.NeStrict, l, r, s, !same)
  {
    hide Eval, Below;
    var x, y := OperandsOf(m, l, r, s);
    below, same := Below(m.num, x, y), Level(m.num, x, y);
    above := !below && !same;
  }

  /** No two numbers are below each other. */
  ghost predicate Ordered(num: Arith) {
    forall p, q :: num.less(p, q) ==> !num.less(q, p)
  }

  /** Of two variables, the first is below the second exactly when the second is above the first. */
  lemma SwappedVariables(m: Machine, a: string, b: string, s: State)
    requires Ordered(m.num) && Began(m, s) && Eval(m, Expr.Bin(Less, Expr.Ident(a), Expr.Ident(b)), s).0.Got?
    ensures var p, q := Expr.Ident(a), Expr.Ident(b);
      && Eval(m, Expr.Bin(Less, p, q), s) == Eval(m, Expr.Bin(Greater, q, p), s)
      && Eval(m, Expr.Bin(LessEq, p, q), s) == Eval(m, Expr.Bin(GreaterEq, q, p), s)
      && Eval(m, Expr.Bin(BinOp.EqStrict, p, q), s) == Eval(m, Expr.Bin(BinOp.EqStrict, q, p), s)
  {
    hide Eval, Get, Compare;
    BothVariables(m, Less, a, b, s);
    BothVariables(m, LessEq, a, b, s);
    BothVariables(m, BinOp.EqStrict, a, b, s);
    BothVariables(m, Greater, b, a, s);
    BothVariables(m, GreaterEq, b, a, s);
    BothVariables(m, BinOp.EqStrict, b, a, s);
    var x, y := Get(s.scopes, a).value, Get(s.scopes, b).value;
    SwappedCompare(m.num, x, y);
  }

  lemma BothVariables(m: Machine, op: BinOp, a: string, b: string, s: State)
    requires Began(m, s)
    ensures var e, x, y := Expr.Bin(op, Expr.Ident(a), Expr.Ident(b)), Get(s.scopes, a), Get(s.scopes, b);
      if s.steps + 3 <= m.maxSteps then
        x.Some? && y.Some? ==> Eval(m, e, s) == (BinOf(m.num, op, x.value, y.value), s.(steps := s.steps + 3))
      else !Eval(m, e, s).0.Got?
    ensures Eval(m, Expr.Bin(op, Expr.Ident(a), Expr.Ident(b)), s).0.Got? ==>
      Get(s.scopes, a).Some? && Get(s.scopes, b).Some?
  {
    hide Eval, Get, BinOf;
    var t := Tick(s);
    if s.steps < m.maxSteps {
      BinStep(m, op, Expr.Ident(a), Expr.Ident(b), s);
      VariableStep(m, a, t);
      if t.steps < m.maxSteps {
        VariableStep(m, b, Tick(t));
      }
    } else {
      NoStepsLeft(m, Expr.Bin(op, Expr.Ident(a), Expr.Ident(b)), s);
    }
  }

  lemma VariableStep(m: Machine, name: string, s: State)
    requires Began(m, s)
    ensures Eval(m, Expr.Ident(name), s) ==
      if s.steps == m.maxSteps then (OutOfSteps, Tick(s))
      else match Get(s.scopes, name) case None => (Error, Tick(s)) case Some(v) => (Got(v), Tick(s))
  {
    hide SameNames;
  }

  lemma SwappedCompare(num: Arith, x: Value, y: Value)
    requires Ordered(num)
    ensures Compare(num, y, x).Some? <==> Compare(num, x, y).Some?
    ensures Compare(num, x, y).Some? ==>
      var c, d := Compare(num, x, y).value, Compare(num, y, x).value;
      (c < 0 <==> d > 0) && (c == 0 <==> d == 0)
  {
    if x.Str? && y.Str? {
      StringLessOneWay(x.s, y.s);
    }
  }
}
