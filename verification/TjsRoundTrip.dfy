/** The parser inverts the printer. */
module TjsRoundTrip {
  import opened TjsSyntax
  import opened TjsGrammar

  ghost predicate Occurs(t: seq<Tok>, i: nat, s: seq<Tok>) {
    i + |s| <= |t| && t[i..i + |s|] == s
  }

  lemma OccursSplit(t: seq<Tok>, i: nat, a: seq<Tok>, b: seq<Tok>)
    requires Occurs(t, i, a + b)
    ensures Occurs(t, i, a) && Occurs(t, i + |a|, b)
  {
    var s := t[i..i + |a + b|];
    assert t[i..i + |a|] == s[..|a|] == (a + b)[..|a|] == a;
    assert t[i + |a|..i + |a| + |b|] == s[|a|..] == (a + b)[|a|..] == b;
  }

  lemma OccursAt(t: seq<Tok>, i: nat, s: seq<Tok>)
    requires Occurs(t, i, s) && s != []
    ensures i < |t| && t[i] == s[0]
  {
    assert t[i..i + |s|][0] == t[i];
  }

  /** `a`, the token `k`, and then `b`. */
  lemma OccursAround(t: seq<Tok>, i: nat, a: seq<Tok>, k: Tok, b: seq<Tok>)
    requires Occurs(t, i, a + [k] + b)
    ensures Occurs(t, i, a) && i + |a| < |t| && t[i + |a|] == k && Occurs(t, i + |a| + 1, b)
  {
    OccursSplit(t, i, a + [k], b);
    OccursSplit(t, i, a, [k]);
    OccursAt(t, i + |a|, [k]);
  }

  /** `s` between the tokens `k` and `l`. */
  lemma OccursBetween(t: seq<Tok>, i: nat, k: Tok, s: seq<Tok>, l: Tok)
    requires Occurs(t, i, [k] + s + [l])
    ensures var j := i + 1 + |s|; j < |t| && t[i] == k && Occurs(t, i + 1, s) && t[j] == l
  {
    OccursSplit(t, i, [k] + s, [l]);
    OccursSplit(t, i, [k], s);
    OccursAt(t, i, [k]);
    OccursAt(t, i + 1 + |s|, [l]);
  }

  lemma OccursSuffix(t: seq<Tok>, i: nat, a: seq<Tok>, k: Tok, s: seq<Tok>, l: Tok)
    requires Occurs(t, i, a + [k] + s + [l])
    ensures var j := i + |a|; var n := j + 1 + |s|;
      n < |t| && Occurs(t, i, a) && t[j] == k && Occurs(t, j + 1, s) && t[n] == l
  {
    OccursSplit(t, i, a + [k] + s, [l]);
    OccursAround(t, i, a, k, s);
    OccursAt(t, i + |a| + 1 + |s|, [l]);
  }

  predicate ContinuesPostfix(k: Tok) {
    k == LParen || k == Dot || k == LBrack
  }

  /** A token after which an expression is over. */
  predicate EndsExpr(k: Tok) {
    BindingPower(k) == 0 && !ContinuesPostfix(k) && k != Tok.Assign
  }

  // ---- one turn of each loop of the grammar ----

  lemma ExprStops(t: seq<Tok>, i: nat, e: Expr, j: nat)
    requires Stream(t) && i < |t| && j < |t| && BinAt(t, i, 0) == BinFrom(t, e, j, 0)
    requires BindingPower(t[j]) == 0 && t[j] != Tok.Assign
    ensures ExprAt(t, i) == Ok(e, j)
  {
  }

  lemma ExprAssigns(t: seq<Tok>, i: nat, target: Expr, j: nat, value: Expr, n: nat)
    requires Stream(t) && i < |t| && j + 1 < |t| && BinAt(t, i, 0) == BinFrom(t, target, j, 0)
    requires t[j] == Tok.Assign && (target.Ident? || target.Index?) && ExprAt(t, j + 1) == Ok(value, n)
    ensures ExprAt(t, i) == Ok(Expr.Assign(target, value), n)
  {
  }

  lemma BinStops(t: seq<Tok>, e: Expr, j: nat, m: nat)
    requires Stream(t) && j < |t| && (BindingPower(t[j]) == 0 || BindingPower(t[j]) < m)
    ensures BinFrom(t, e, j, m) == Ok(e, j)
  {
  }

  lemma BinTurns(t: seq<Tok>, l: Expr, j: nat, r: Expr, n: nat, m: nat)
    requires Stream(t) && j + 1 < |t| && n < |t|
    requires var q := BindingPower(t[j]);
      && q > 0 && m <= q && BinAt(t, j + 1, q + 1) == BinFrom(t, r, n, q + 1) && BindingPower(t[n]) <= q
    ensures BinFrom(t, l, j, m) == BinFrom(t, MkBin(t[j], l, r), n, m)
  {
    BinStops(t, r, n, BindingPower(t[j]) + 1);
  }

  lemma PostfixOfPrimary(t: seq<Tok>, i: nat, e: Expr, j: nat)
    requires Stream(t) && i < |t| && PrimaryAt(t, i) == Ok(e, j)
    ensures PostfixAt(t, i) == PostfixFrom(t, e, j)
  {
  }

  lemma PrimaryInParentheses(t: seq<Tok>, i: nat, e: Expr, n: nat)
    requires Stream(t) && i + 1 < |t| && t[i] == LParen && ExprAt(t, i + 1) == Ok(e, n) && t[n] == RParen
    ensures PrimaryAt(t, i) == Ok(e, n + 1)
  {
  }

  lemma PrimaryArray(t: seq<Tok>, i: nat, items: seq<Expr>, n: nat)
    requires Stream(t) && i + 1 < |t| && t[i] == LBrack
    requires ListFrom(t, i + 1, RBrack, []) == Ok(items, n) && t[n] == RBrack
    ensures PrimaryAt(t, i) == Ok(Array(items), n + 1)
  {
  }

  lemma UnaryOperator(t: seq<Tok>, i: nat, x: Expr, n: nat)
    requires Stream(t) && i + 1 < |t| && (t[i] == Minus || t[i] == Bang) && UnaryAt(t, i + 1) == Ok(x, n)
    ensures UnaryAt(t, i) == Ok(Unary(if t[i] == Minus then Neg else Not, x), n)
  {
  }

  lemma BinOfUnary(t: seq<Tok>, i: nat, e: Expr, j: nat, m: nat)
    requires Stream(t) && i < |t| && UnaryAt(t, i) == Ok(e, j)
    ensures BinAt(t, i, m) == BinFrom(t, e, j, m)
  {
  }

  lemma UnaryOfPostfix(t: seq<Tok>, i: nat)
    requires Stream(t) && i < |t| && t[i] != Minus && t[i] != Bang
    ensures UnaryAt(t, i) == PostfixAt(t, i)
  {
  }

  lemma ListCloses(t: seq<Tok>, i: nat, close: Tok, acc: seq<Expr>)
    requires Stream(t) && i < |t| && t[i] == close
    ensures ListFrom(t, i, close, acc) == Ok(acc, i)
  {
  }

  lemma ListTurns(t: seq<Tok>, i: nat, close: Tok, acc: seq<Expr>, e: Expr, j: nat)
    requires Stream(t) && i < |t| && t[i] != close && ExprAt(t, i) == Ok(e, j) && t[j] == Comma
    ensures ListFrom(t, i, close, acc) == ListFrom(t, j + 1, close, acc + [e])
  {
  }

  lemma ListEnds(t: seq<Tok>, i: nat, close: Tok, acc: seq<Expr>, e: Expr, j: nat)
    requires Stream(t) && i < |t| && t[i] != close && ExprAt(t, i) == Ok(e, j) && t[j] != Comma
    ensures ListFrom(t, i, close, acc) == Ok(acc + [e], j)
  {
  }

  // ---- reading back what was printed ----

  lemma {:induction false} PrintStarts(e: Expr, p: nat)
    ensures var s := Print(e, p); s != [] && s[0] != RParen && s[0] != RBrack
    ensures p == 8 ==> Print(e, p)[0] != Minus && Print(e, p)[0] != Bang
    decreases e
  {
    if Precedence(e) >= p {
      match e
      case Index(base, _) => PrintStarts(base, 8);
      case Bin(_, l, _) => PrintStarts(l, Precedence(e));
      case Logic(_, l, _) => PrintStarts(l, Precedence(e));
      case Assign(target, _) => PrintStarts(target, 1);
      case Call(callee, _) => PrintStarts(callee, 8);
      case Member(obj, _) => PrintStarts(obj, 8);
      case _ =>
    }
  }

  // ---- the shapes of printed trees ----

  lemma ShapeParentheses(e: Expr, p: nat)
    requires Precedence(e) < p
    ensures Print(e, p) == [LParen] + Print(e, 0) + [RParen]
  {
  }

  lemma ShapeAssign(e: Expr)
    requires e.Assign? && WellFormed(e)
    ensures Print(e, 0) == Print(e.target, 1) + [Tok.Assign] + Print(e.value, 0)
    ensures (e.target.Ident? || e.target.Index?) && WellFormed(e.target) && WellFormed(e.value)
  {
  }

  function Operator(e: Expr): (k: Tok)
    ensures 1 <= Precedence(e) <= 6 ==> BindingPower(k) == Precedence(e) && !ContinuesPostfix(k)
    ensures 1 <= Precedence(e) <= 6 ==> (e.Bin? || e.Logic?) && MkBin(k, e.l, e.r) == e
  {
    match e
    case Bin(op, _, _) => BinTok(op)
    case Logic(op, _, _) => if op == And then AndAnd else OrOr
    case _ => Eof
  }

  lemma ShapeOperator(e: Expr, p: nat)
    requires p <= Precedence(e) && 1 <= Precedence(e) <= 6 && WellFormed(e)
    ensures (e.Bin? || e.Logic?) && WellFormed(e.l) && WellFormed(e.r)
    ensures Print(e, p) == Print(e.l, Precedence(e)) + [Operator(e)] + Print(e.r, Precedence(e) + 1)
  {
  }

  lemma ShapeUnary(e: Expr)
    requires e.Unary? && WellFormed(e)
    ensures Print(e, 7) == [if e.uop == Neg then Minus else Bang] + Print(e.x, 7) && WellFormed(e.x)
  {
  }

  lemma ShapeCall(e: Expr)
    requires e.Call? && WellFormed(e)
    ensures Print(e, 8) == Print(e.callee, 8) + [LParen] + PrintList(e.args) + [RParen]
    ensures WellFormed(e.callee) && forall k :: 0 <= k < |e.args| ==> WellFormed(e.args[k])
  {
  }

  lemma ShapeIndex(e: Expr)
    requires e.Index? && WellFormed(e)
    ensures Print(e, 8) == Print(e.base, 8) + [LBrack] + Print(e.idx, 0) + [RBrack]
    ensures WellFormed(e.base) && WellFormed(e.idx)
  {
  }

  lemma ShapeMember(e: Expr)
    requires e.Member? && WellFormed(e)
    ensures Print(e, 8) == Print(e.obj, 8) + [Dot] + [Tok.Ident(e.field)] && WellFormed(e.obj)
  {
  }

  lemma ShapeArray(e: Expr)
    requires e.Array? && WellFormed(e)
    ensures Print(e, 8) == [LBrack] + PrintList(e.items) + [RBrack]
    ensures forall k :: 0 <= k < |e.items| ==> WellFormed(e.items[k])
  {
  }

  lemma ShapeList(items: seq<Expr>)
    ensures PrintList(items) ==
      if items == [] then []
      else if |items| == 1 then Print(items[0], 0)
      else Print(items[0], 0) + [Comma] + PrintList(items[1..])
  {
  }

  // ---- where the parts of a printed tree are ----

  lemma PrintBare(e: Expr, p: nat, q: nat)
    requires (p <= Precedence(e) && q <= Precedence(e)) || (Precedence(e) < p && Precedence(e) < q)
    ensures Print(e, p) == Print(e, q)
  {
  }

  lemma SplitParentheses(t: seq<Tok>, i: nat, e: Expr, p: nat)
    requires Precedence(e) < p && Occurs(t, i, Print(e, p))
    ensures var j := i + 1 + |Print(e, 0)|;
      && Occurs(t, i + 1, Print(e, 0)) && j + 1 == i + |Print(e, p)| <= |t|
      && t[i] == LParen && t[j] == RParen
  {
    hide Occurs, Print, PrintList, WellFormed, Precedence;
    ShapeParentheses(e, p);
    OccursBetween(t, i, LParen, Print(e, 0), RParen);
  }

  lemma SplitAssign(t: seq<Tok>, i: nat, e: Expr)
    requires e.Assign? && WellFormed(e) && Occurs(t, i, Print(e, 0))
    ensures (e.target.Ident? || e.target.Index?) && WellFormed(e.target) && WellFormed(e.value)
    ensures var j := i + |Print(e.target, 1)|;
      && Occurs(t, i, Print(e.target, 1)) && j < |t| && t[j] == Tok.Assign
      && Occurs(t, j + 1, Print(e.value, 0)) && j + 1 + |Print(e.value, 0)| == i + |Print(e, 0)|
  {
    hide Occurs, Print, PrintList, WellFormed, Precedence;
    ShapeAssign(e);
    OccursAround(t, i, Print(e.target, 1), Tok.Assign, Print(e.value, 0));
  }

  lemma SplitOperator(t: seq<Tok>, i: nat, e: Expr, p: nat)
    requires p <= Precedence(e) && 1 <= Precedence(e) <= 6 && WellFormed(e) && Occurs(t, i, Print(e, p))
    ensures (e.Bin? || e.Logic?) && WellFormed(e.l) && WellFormed(e.r)
    ensures var j, q := i + |Print(e.l, Precedence(e))|, Precedence(e);
      && Occurs(t, i, Print(e.l, q)) && j < |t|
      && BindingPower(t[j]) == q && !ContinuesPostfix(t[j]) && MkBin(t[j], e.l, e.r) == e
      && Occurs(t, j + 1, Print(e.r, q + 1)) && j + 1 + |Print(e.r, q + 1)| == i + |Print(e, p)|
  {
    hide Occurs, Print, PrintList, WellFormed, Precedence, Operator, MkBin, BindingPower;
    var q := Precedence(e);
    ShapeOperator(e, p);
    OccursAround(t, i, Print(e.l, q), Operator(e), Print(e.r, q + 1));
  }

  lemma SplitUnary(t: seq<Tok>, i: nat, e: Expr)
    requires e.Unary? && WellFormed(e) && Occurs(t, i, Print(e, 7))
    ensures WellFormed(e.x) && i < |t| && t[i] == if e.uop == Neg then Minus else Bang
    ensures Occurs(t, i + 1, Print(e.x, 7)) && i + 1 + |Print(e.x, 7)| == i + |Print(e, 7)|
  {
    hide Occurs, Print, PrintList, WellFormed, Precedence;
    var k := if e.uop == Neg then Minus else Bang;
    ShapeUnary(e);
    OccursSplit(t, i, [k], Print(e.x, 7));
    OccursAt(t, i, [k]);
  }

  lemma SplitCall(t: seq<Tok>, i: nat, e: Expr)
    requires e.Call? && WellFormed(e) && Occurs(t, i, Print(e, 8))
    ensures WellFormed(e.callee) && forall k :: 0 <= k < |e.args| ==> WellFormed(e.args[k])
    ensures var j := i + |Print(e.callee, 8)|; var n := j + 1 + |PrintList(e.args)|;
      && Occurs(t, i, Print(e.callee, 8)) && Occurs(t, j + 1, PrintList(e.args))
      && n + 1 == i + |Print(e, 8)| <= |t| && t[j] == LParen && t[n] == RParen
  {
    hide Occurs, Print, PrintList, WellFormed, Precedence;
    ShapeCall(e);
    OccursSuffix(t, i, Print(e.callee, 8), LParen, PrintList(e.args), RParen);
  }

  lemma SplitIndex(t: seq<Tok>, i: nat, e: Expr)
    requires e.Index? && WellFormed(e) && Occurs(t, i, Print(e, 8))
    ensures WellFormed(e.base) && WellFormed(e.idx)
    ensures var j := i + |Print(e.base, 8)|; var n := j + 1 + |Print(e.idx, 0)|;
      && Occurs(t, i, Print(e.base, 8)) && Occurs(t, j + 1, Print(e.idx, 0))
      && n + 1 == i + |Print(e, 8)| <= |t| && t[j] == LBrack && t[n] == RBrack
  {
    hide Occurs, Print, PrintList, WellFormed, Precedence;
    ShapeIndex(e);
    OccursSuffix(t, i, Print(e.base, 8), LBrack, Print(e.idx, 0), RBrack);
  }

  lemma SplitMember(t: seq<Tok>, i: nat, e: Expr)
    requires e.Member? && WellFormed(e) && Occurs(t, i, Print(e, 8))
    ensures WellFormed(e.obj)
    ensures var j := i + |Print(e.obj, 8)|;
      && Occurs(t, i, Print(e.obj, 8)) && j + 2 == i + |Print(e, 8)| <= |t|
      && t[j] == Dot && t[j + 1] == Tok.Ident(e.field)
  {
    hide Occurs, Print, PrintList, WellFormed, Precedence;
    ShapeMember(e);
    OccursAround(t, i, Print(e.obj, 8), Dot, [Tok.Ident(e.field)]);
    OccursAt(t, i + |Print(e.obj, 8)| + 1, [Tok.Ident(e.field)]);
  }

  lemma SplitArray(t: seq<Tok>, i: nat, e: Expr)
    requires e.Array? && WellFormed(e) && Occurs(t, i, Print(e, 8))
    ensures forall k :: 0 <= k < |e.items| ==> WellFormed(e.items[k])
    ensures var n := i + 1 + |PrintList(e.items)|;
      && Occurs(t, i + 1, PrintList(e.items))
      && n + 1 == i + |Print(e, 8)| <= |t| && t[i] == LBrack && t[n] == RBrack
  {
    hide Occurs, Print, PrintList, WellFormed, Precedence;
    ShapeArray(e);
    OccursBetween(t, i, LBrack, PrintList(e.items), RBrack);
  }

  lemma AtomRead(t: seq<Tok>, i: nat, e: Expr)
    requires Precedence(e) == 9 && !e.Array? && Occurs(t, i, Print(e, 8)) && Stream(t)
    ensures |Print(e, 8)| == 1 && i < |t| && PrimaryAt(t, i) == Ok(e, i + 1)
  {
    assert Print(e, 8) == Body(e) && |Body(e)| == 1;
    OccursAt(t, i, Print(e, 8));
  }

  lemma SplitList(t: seq<Tok>, i: nat, items: seq<Expr>)
    requires items != [] && Occurs(t, i, PrintList(items))
    ensures var j, n := i + |Print(items[0], 0)|, i + |PrintList(items)|;
      && Occurs(t, i, Print(items[0], 0))
      && (|items| == 1 ==> j == n)
      && (|items| > 1 ==> j < |t| && t[j] == Comma && Occurs(t, j + 1, PrintList(items[1..]))
                          && n == j + 1 + |PrintList(items[1..])|)
  {
    hide Occurs, Print, PrintList;
    ShapeList(items);
    if |items| > 1 {
      OccursAround(t, i, Print(items[0], 0), Comma, PrintList(items[1..]));
    }
  }

  lemma PrintedStartsAt(t: seq<Tok>, i: nat, e: Expr, p: nat)
    requires Occurs(t, i, Print(e, p))
    ensures i < |t| && t[i] != RParen && t[i] != RBrack
    ensures p == 8 ==> t[i] != Minus && t[i] != Bang
  {
    PrintStarts(e, p);
    OccursAt(t, i, Print(e, p));
  }

  // ---- the round trip ----

  /** A printed expression followed by a token that ends it is read back, all of it and nothing more. */
  lemma {:induction false} ExprPrinted(t: seq<Tok>, i: nat, e: Expr)
    requires Stream(t) && WellFormed(e) && Occurs(t, i, Print(e, 0))
    requires i + |Print(e, 0)| < |t| && EndsExpr(t[i + |Print(e, 0)|])
    ensures i < |t| && ExprAt(t, i) == Ok(e, i + |Print(e, 0)|)
    decreases e, 0, 5
  {
    hide Stream, ExprAt, BinAt, BinFrom, Occurs, Print, WellFormed;
    PrintedStartsAt(t, i, e, 0);
    var n := i + |Print(e, 0)|;
    if e.Assign? {
      AssignPrinted(t, i, e);
    } else {
      PrintBare(e, 0, 1);
      BinPrinted(t, i, e, 1, 0);
      ExprStops(t, i, e, n);
    }
  }

  lemma {:induction false} AssignPrinted(t: seq<Tok>, i: nat, e: Expr)
    requires Stream(t) && WellFormed(e) && Occurs(t, i, Print(e, 0)) && e.Assign? && i < |t|
    requires i + |Print(e, 0)| < |t| && EndsExpr(t[i + |Print(e, 0)|])
    ensures ExprAt(t, i) == Ok(e, i + |Print(e, 0)|)
    decreases e, 0, 0
  {
    hide Stream, ExprAt, BinAt, BinFrom, Occurs, Print, WellFormed;
    SplitAssign(t, i, e);
    var j := i + |Print(e.target, 1)|;
    BinPrinted(t, i, e.target, 1, 0);
    ExprPrinted(t, j + 1, e.value);
    ExprAssigns(t, i, e.target, j, e.value, i + |Print(e, 0)|);
  }

  /** The parenthesised form is read back as a primary expression. */
  lemma {:induction false} ParenthesesPrinted(t: seq<Tok>, i: nat, e: Expr, p: nat)
    requires Stream(t) && WellFormed(e) && Precedence(e) < p && Occurs(t, i, Print(e, p))
    requires i + |Print(e, p)| < |t|
    ensures i < |t| && t[i] == LParen && PrimaryAt(t, i) == Ok(e, i + |Print(e, p)|)
    decreases e, 1, 0
  {
    hide Stream, ExprAt, PrimaryAt, Occurs, Print, WellFormed, Precedence;
    SplitParentheses(t, i, e, p);
    ExprPrinted(t, i + 1, e);
    PrimaryInParentheses(t, i, e, i + 1 + |Print(e, 0)|);
  }

  /** An operand printed at level `p` becomes the left-hand side of the operator loop. */
  lemma {:induction false} BinPrinted(t: seq<Tok>, i: nat, e: Expr, p: nat, m: nat)
    requires Stream(t) && WellFormed(e) && m <= p && 1 <= p <= 7 && Occurs(t, i, Print(e, p))
    requires i + |Print(e, p)| < |t|
    requires var k := t[i + |Print(e, p)|]; BindingPower(k) <= p && !ContinuesPostfix(k)
    ensures i < |t| && BinAt(t, i, m) == BinFrom(t, e, i + |Print(e, p)|, m)
    decreases e, if Precedence(e) < p then 1 else 0, 4
  {
    hide Stream, Occurs, BinFrom, BinAt, UnaryAt, Print, WellFormed, Precedence, MkBin, BindingPower;
    PrintedStartsAt(t, i, e, p);
    var n := i + |Print(e, p)|;
    if 1 <= Precedence(e) <= 6 && p <= Precedence(e) {
      SplitOperator(t, i, e, p);
      var q := Precedence(e);
      var j := i + |Print(e.l, q)|;
      BinPrinted(t, i, e.l, q, m);
      BinPrinted(t, j + 1, e.r, q + 1, q + 1);
      BinTurns(t, e.l, j, e.r, n, m);
    } else {
      PrecedenceOfRest(e, p);
      PrintBare(e, p, 7);
      UnaryPrinted(t, i, e);
      BinOfUnary(t, i, e, n, m);
    }
  }

  lemma PrecedenceOfRest(e: Expr, p: nat)
    requires 1 <= p <= 7 && !(1 <= Precedence(e) <= 6 && p <= Precedence(e))
    ensures (Precedence(e) < p && Precedence(e) < 7) || (p <= Precedence(e) && 7 <= Precedence(e))
  {
  }

  lemma {:induction false} UnaryPrinted(t: seq<Tok>, i: nat, e: Expr)
    requires Stream(t) && WellFormed(e) && Occurs(t, i, Print(e, 7))
    requires i + |Print(e, 7)| < |t| && !ContinuesPostfix(t[i + |Print(e, 7)|])
    ensures i < |t| && UnaryAt(t, i) == Ok(e, i + |Print(e, 7)|)
    decreases e, if Precedence(e) < 7 then 1 else 0, 3
  {
    hide Stream, Occurs, UnaryAt, PostfixAt, PrimaryAt, PostfixFrom, Print, WellFormed;
    PrintedStartsAt(t, i, e, 7);
    var n := i + |Print(e, 7)|;
    if e.Unary? {
      SplitUnary(t, i, e);
      UnaryPrinted(t, i + 1, e.x);
      UnaryOperator(t, i, e.x, n);
    } else if Precedence(e) < 7 {
      ParenthesesPrinted(t, i, e, 7);
      PostfixOfPrimary(t, i, e, n);
      PostfixStops(t, e, n);
      UnaryOfPostfix(t, i);
    } else {
      PrintBare(e, 7, 8);
      PostfixPrinted(t, i, e);
      PrintedStartsAt(t, i, e, 8);
      PostfixStops(t, e, n);
      UnaryOfPostfix(t, i);
    }
  }

  /** A postfix operand becomes the start of the loop over calls, members and indices. */
  lemma {:induction false} PostfixPrinted(t: seq<Tok>, i: nat, e: Expr)
    requires Stream(t) && WellFormed(e) && Occurs(t, i, Print(e, 8))
    requires i + |Print(e, 8)| < |t|
    ensures i < |t| && PostfixAt(t, i) == PostfixFrom(t, e, i + |Print(e, 8)|)
    decreases e, if Precedence(e) < 8 then 1 else 0, 2
  {
    hide Stream, Occurs, PostfixAt, PostfixFrom, PrimaryAt, ListFrom, ExprAt, Print, PrintList, WellFormed;
    PrintedStartsAt(t, i, e, 8);
    var n := i + |Print(e, 8)|;
    if Precedence(e) < 8 {
      ParenthesesPrinted(t, i, e, 8);
      PostfixOfPrimary(t, i, e, n);
    } else if e.Call? || e.Index? || e.Member? {
      SuffixPrinted(t, i, e);
    } else {
      if e.Array? {
        SplitArray(t, i, e);
        ListPrinted(t, i + 1, e.items, RBrack, []);
        assert [] + e.items == e.items;
        PrimaryArray(t, i, e.items, n - 1);
      } else {
        AtomRead(t, i, e);
      }
      PostfixOfPrimary(t, i, e, n);
    }
  }

  lemma {:induction false} SuffixPrinted(t: seq<Tok>, i: nat, e: Expr)
    requires Stream(t) && WellFormed(e) && Occurs(t, i, Print(e, 8)) && i < |t|
    requires i + |Print(e, 8)| < |t| && (e.Call? || e.Index? || e.Member?)
    ensures PostfixAt(t, i) == PostfixFrom(t, e, i + |Print(e, 8)|)
    decreases e, 0, 1
  {
    hide Stream, Occurs, PostfixAt, PostfixFrom, Print, WellFormed;
    if e.Call? {
      CallPrinted(t, i, e);
    } else if e.Index? {
      IndexPrinted(t, i, e);
    } else {
      SplitMember(t, i, e);
      PostfixPrinted(t, i, e.obj);
      PostfixSelects(t, e.obj, i + |Print(e, 8)| - 2, e.field);
    }
  }

  lemma {:induction false} CallPrinted(t: seq<Tok>, i: nat, e: Expr)
    requires Stream(t) && WellFormed(e) && Occurs(t, i, Print(e, 8)) && i < |t|
    requires i + |Print(e, 8)| < |t| && e.Call?
    ensures PostfixAt(t, i) == PostfixFrom(t, e, i + |Print(e, 8)|)
    decreases e, 0, 0
  {
    hide Stream, Occurs, PostfixAt, PostfixFrom, ListFrom, Print, PrintList, WellFormed;
    SplitCall(t, i, e);
    var j := i + |Print(e.callee, 8)|;
    PostfixPrinted(t, i, e.callee);
    ListPrinted(t, j + 1, e.args, RParen, []);
    assert [] + e.args == e.args;
    PostfixCalls(t, e.callee, j, e.args, i + |Print(e, 8)| - 1);
  }

  lemma {:induction false} IndexPrinted(t: seq<Tok>, i: nat, e: Expr)
    requires Stream(t) && WellFormed(e) && Occurs(t, i, Print(e, 8)) && i < |t|
    requires i + |Print(e, 8)| < |t| && e.Index?
    ensures PostfixAt(t, i) == PostfixFrom(t, e, i + |Print(e, 8)|)
    decreases e, 0, 0
  {
    hide Stream, Occurs, PostfixAt, PostfixFrom, ExprAt, Print, WellFormed;
    SplitIndex(t, i, e);
    var j := i + |Print(e.base, 8)|;
    PostfixPrinted(t, i, e.base);
    ExprPrinted(t, j + 1, e.idx);
    PostfixIndexes(t, e.base, j, e.idx, i + |Print(e, 8)| - 1);
  }

  lemma ListSeparators(close: Tok)
    ensures close == RParen || close == RBrack ==> EndsExpr(close)
    ensures EndsExpr(Comma)
  {
  }

  lemma MoveOne(acc: seq<Expr>, items: seq<Expr>)
    requires items != []
    ensures acc + items == acc + [items[0]] + items[1..]
    ensures |items| == 1 ==> acc + items == acc + [items[0]]
  {
  }

  lemma {:induction false} ListPrinted(t: seq<Tok>, i: nat, items: seq<Expr>, close: Tok, acc: seq<Expr>)
    requires Stream(t) && (forall k :: 0 <= k < |items| ==> WellFormed(items[k]))
    requires close == RParen || close == RBrack
    requires Occurs(t, i, PrintList(items))
    requires i + |PrintList(items)| < |t| && t[i + |PrintList(items)|] == close
    ensures ListFrom(t, i, close, acc) == Ok(acc + items, i + |PrintList(items)|)
    decreases items, 0, 0
  {
    hide Stream, Occurs, ListFrom, ExprAt, Print, PrintList, WellFormed, BindingPower;
    ShapeList(items);
    if items == [] {
      assert acc + items == acc;
      ListCloses(t, i, close, acc);
    } else {
      ListSeparators(close);
      var e, rest := items[0], items[1..];
      var j, n := i + |Print(e, 0)|, i + |PrintList(items)|;
      SplitList(t, i, items);
      PrintedStartsAt(t, i, e, 0);
      ExprPrinted(t, i, e);
      MoveOne(acc, items);
      if |items| == 1 {
        ListEnds(t, i, close, acc, e, j);
      } else {
        ListTurns(t, i, close, acc, e, j);
        ListPrinted(t, j + 1, rest, close, acc + [e]);
        assert ListFrom(t, i, close, acc) == Ok(acc + [e] + rest, n);
      }
    }
  }
}
