/** The operator table of TernaryJS, operator by operator (desktop-metal/src/tjs.rs:602-652). */
module TjsOperators {
  import opened TjsSyntax
  import opened TjsGrammar
  import opened TjsRoundTrip
  import opened TjsShortest

  /** From the loosest operators to the tightest. */
  const LEVELS: seq<seq<Tok>> := [
    [OrOr], [AndAnd], [EqEq, NotEq, EqEqEq, NotEqEq], [Lt, Le, Gt, Ge], [Plus, Minus], [Star, Slash, Percent]
  ]

  const OPERATORS: seq<(Tok, BinOp)> := [
    (Plus, Add), (Minus, Sub), (Star, Mul), (Slash, Div), (Percent, Mod), (Lt, Less), (Le, LessEq), (Gt, Greater),
    (Ge, GreaterEq), (EqEq, EqLoose), (NotEq, NeLoose), (EqEqEq, EqStrict), (NotEqEq, NeStrict)
  ]

  lemma LevelOf(i: nat, k: Tok)
    requires i < |LEVELS| && k in LEVELS[i]
    ensures BindingPower(k) == i + 1
  {
  }

  lemma OperatorOf(k: Tok, l: Expr, r: Expr)
    requires BindingPower(k) > 0
    ensures Operator(MkBin(k, l, r)) == k
  {
    match k
    case OrOr | AndAnd =>
    case EqEq | NotEq =>
    case EqEqEq | NotEqEq =>
    case Lt | Le =>
    case Gt | Ge =>
    case Plus | Minus =>
    case Star | Slash | Percent =>
  }

  lemma OperandPrints(k: Tok, l: Expr, r: Expr, q: nat)
    requires BindingPower(k) > 0 && WellFormed(l) && WellFormed(r) && q <= BindingPower(k)
    ensures var e, p := MkBin(k, l, r), BindingPower(k);
      WellFormed(e) && Print(e, q) == Print(l, p) + [k] + Print(r, p + 1)
  {
    hide MkBin, BindingPower, Print, WellFormed, Operator;
    MkBinParts(k, l, r);
    OperatorOf(k, l, r);
    OperatorWellFormed(MkBin(k, l, r));
    PowerOfOperators(k);
    ShapeOperator(MkBin(k, l, r), q);
  }

  lemma VariablePrints(a: string, p: nat)
    requires p <= 9
    ensures Print(Expr.Ident(a), p) == [Tok.Ident(a)] && WellFormed(Expr.Ident(a))
  {
  }

  lemma OneOperator(a: string, b: string, k: Tok)
    requires BindingPower(k) > 0
    ensures var t := [Tok.Ident(a), k, Tok.Ident(b), Eof];
      Stream(t) && ExprAt(t, 0) == Ok(MkBin(k, Expr.Ident(a), Expr.Ident(b)), 3)
  {
    hide ExprAt, MkBin, Print, WellFormed, BindingPower;
    PowerOfOperators(k);
    var x, y, p := Expr.Ident(a), Expr.Ident(b), BindingPower(k);
    VariablePrints(a, p);
    VariablePrints(b, p + 1);
    OperandPrints(k, x, y, 0);
    ParserInvertsPrinter(MkBin(k, x, y));
    assert Print(MkBin(k, x, y), 0) + [Eof] == [Tok.Ident(a), k, Tok.Ident(b), Eof];
  }

  /** Every operator token between two variables makes the tree of its operator. */
  lemma OperatorTable(a: string, b: string, i: nat)
    requires i < |OPERATORS|
    ensures var (k, op) := OPERATORS[i];
      var t := [Tok.Ident(a), k, Tok.Ident(b), Eof];
      Stream(t) && ExprAt(t, 0) == Ok(Bin(op, Expr.Ident(a), Expr.Ident(b)), 3)
  {
    hide ExprAt, Stream;
    OneOperator(a, b, OPERATORS[i].0);
  }

  lemma LogicTable(a: string, b: string, op: LogicOp)
    ensures var t := [Tok.Ident(a), match op case And => AndAnd case Or => OrOr, Tok.Ident(b), Eof];
      Stream(t) && ExprAt(t, 0) == Ok(Logic(op, Expr.Ident(a), Expr.Ident(b)), 3)
  {
    hide ExprAt, Stream;
    OneOperator(a, b, match op case And => AndAnd case Or => OrOr);
  }

  lemma RightFirst(a: string, b: string, c: string, k: Tok, l: Tok)
    requires 0 < BindingPower(k) < BindingPower(l)
    ensures var t := [Tok.Ident(a), k, Tok.Ident(b), l, Tok.Ident(c), Eof];
      Stream(t) && ExprAt(t, 0) == Ok(MkBin(k, Expr.Ident(a), MkBin(l, Expr.Ident(b), Expr.Ident(c))), 5)
  {
    hide MkBin, Print, ExprAt, WellFormed, BindingPower, Stream;
    PowerOfOperators(l);
    var x, y, z, p, q := Expr.Ident(a), Expr.Ident(b), Expr.Ident(c), BindingPower(k), BindingPower(l);
    VariablePrints(a, p);
    VariablePrints(b, q);
    VariablePrints(c, q + 1);
    var e := MkBin(k, x, MkBin(l, y, z));
    OperandPrints(l, y, z, p + 1);
    OperandPrints(k, x, MkBin(l, y, z), 0);
    ParserInvertsPrinter(e);
    assert Print(e, 0) + [Eof] == [Tok.Ident(a), k, Tok.Ident(b), l, Tok.Ident(c), Eof];
  }

  lemma LeftFirst(a: string, b: string, c: string, k: Tok, l: Tok)
    requires 0 < BindingPower(l) <= BindingPower(k)
    ensures var t := [Tok.Ident(a), k, Tok.Ident(b), l, Tok.Ident(c), Eof];
      Stream(t) && ExprAt(t, 0) == Ok(MkBin(l, MkBin(k, Expr.Ident(a), Expr.Ident(b)), Expr.Ident(c)), 5)
  {
    hide MkBin, Print, ExprAt, WellFormed, BindingPower, Stream;
    PowerOfOperators(k);
    var x, y, z, p, q := Expr.Ident(a), Expr.Ident(b), Expr.Ident(c), BindingPower(k), BindingPower(l);
    VariablePrints(a, p);
    VariablePrints(b, p + 1);
    VariablePrints(c, q + 1);
    var e := MkBin(l, MkBin(k, x, y), z);
    OperandPrints(k, x, y, q);
    OperandPrints(l, MkBin(k, x, y), z, 0);
    ParserInvertsPrinter(e);
    assert Print(e, 0) + [Eof] == [Tok.Ident(a), k, Tok.Ident(b), l, Tok.Ident(c), Eof];
  }

  /** Of two operators in a row the tighter one is taken first, and of equally tight ones the left one. */
  lemma TwoOperators(a: string, b: string, c: string, i: nat, k: Tok, j: nat, l: Tok)
    requires i < |LEVELS| && k in LEVELS[i] && j < |LEVELS| && l in LEVELS[j]
    ensures BindingPower(k) > 0 && BindingPower(l) > 0
    ensures var t := [Tok.Ident(a), k, Tok.Ident(b), l, Tok.Ident(c), Eof];
      var x, y, z := Expr.Ident(a), Expr.Ident(b), Expr.Ident(c);
      && Stream(t)
      && ExprAt(t, 0) == Ok(if i < j then MkBin(k, x, MkBin(l, y, z)) else MkBin(l, MkBin(k, x, y), z), 5)
  {
    hide MkBin, ExprAt, BindingPower, Stream;
    LevelOf(i, k);
    LevelOf(j, l);
    if i < j {
      RightFirst(a, b, c, k, l);
    } else {
      LeftFirst(a, b, c, k, l);
    }
  }
}
