/**
 The expression grammar of TernaryJS as functions on a token stream and a position (desktop-metal/src/tjs.rs:584-733).
 The loops of the parser are the recursive functions `BinFrom`, `PostfixFrom` and `ListFrom`.
 */
module TjsGrammar {
  import opened TjsSyntax

  datatype Parsed<T> = Ok(value: T, next: nat) | Err

  /** What the lexer produces: tokens, and one `Eof` at the end. */
  ghost predicate Stream(t: seq<Tok>) {
    && t != [] && t[|t| - 1].Eof?
    && (forall i :: 0 <= i < |t| - 1 ==> !t[i].Eof?)
  }

  /** Binding power of a binary operator; 0 for any other token. */
  function BindingPower(k: Tok): (bp: nat)
    ensures bp <= 6
  {
    match k
    case OrOr => 1
    case AndAnd => 2
    case EqEq | NotEq | EqEqEq | NotEqEq => 3
    case Lt | Le | Gt | Ge => 4
    case Plus | Minus => 5
    case Star | Slash | Percent => 6
    case _ => 0
  }

  function MkBin(k: Tok, l: Expr, r: Expr): Expr
    requires BindingPower(k) > 0
  {
    match k
    case OrOr => Logic(Or, l, r)
    case AndAnd => Logic(And, l, r)
    case Plus => Bin(Add, l, r)
    case Minus => Bin(Sub, l, r)
    case Star => Bin(Mul, l, r)
    case Slash => Bin(Div, l, r)
    case Percent => Bin(Mod, l, r)
    case Lt => Bin(Less, l, r)
    case Le => Bin(LessEq, l, r)
    case Gt => Bin(Greater, l, r)
    case Ge => Bin(GreaterEq, l, r)
    case EqEq => Bin(EqLoose, l, r)
    case NotEq => Bin(NeLoose, l, r)
    case EqEqEq => Bin(EqStrict, l, r)
    case NotEqEq => Bin(NeStrict, l, r)
  }

  ghost function ExprAt(t: seq<Tok>, i: nat): (p: Parsed<Expr>)
    requires Stream(t) && i < |t|
    ensures p.Ok? ==> i < p.next < |t|
    decreases |t| - i, 5
  {
    var lhs := BinAt(t, i, 0);
    if lhs.Err? || t[lhs.next] != Tok.Assign then lhs
    else if !lhs.value.Ident? && !lhs.value.Index? then Err
    else
      var rhs := ExprAt(t, lhs.next + 1);
      if rhs.Err? then Err else Ok(Expr.Assign(lhs.value, rhs.value), rhs.next)
  }

  ghost function BinAt(t: seq<Tok>, i: nat, minBp: nat): (p: Parsed<Expr>)
    requires Stream(t) && i < |t|
    ensures p.Ok? ==> i < p.next < |t|
    decreases |t| - i, 4
  {
    var lhs := UnaryAt(t, i);
    if lhs.Err? then Err else BinFrom(t, lhs.value, lhs.next, minBp)
  }

  ghost function BinFrom(t: seq<Tok>, lhs: Expr, i: nat, minBp: nat): (p: Parsed<Expr>)
    requires Stream(t) && i < |t|
    ensures p.Ok? ==> i <= p.next < |t|
    decreases |t| - i, 4
  {
    var lbp := BindingPower(t[i]);
    if lbp == 0 || lbp < minBp then Ok(lhs, i)
    else
      var rhs := BinAt(t, i + 1, lbp + 1);
      if rhs.Err? then Err else BinFrom(t, MkBin(t[i], lhs, rhs.value), rhs.next, minBp)
  }

  ghost function UnaryAt(t: seq<Tok>, i: nat): (p: Parsed<Expr>)
    requires Stream(t) && i < |t|
    ensures p.Ok? ==> i < p.next < |t|
    decreases |t| - i, 3
  {
    if t[i] == Minus || t[i] == Bang then
      var x := UnaryAt(t, i + 1);
      if x.Err? then Err else Ok(Unary(if t[i] == Minus then Neg else Not, x.value), x.next)
    else PostfixAt(t, i)
  }

  ghost function PostfixAt(t: seq<Tok>, i: nat): (p: Parsed<Expr>)
    requires Stream(t) && i < |t|
    ensures p.Ok? ==> i < p.next < |t|
    decreases |t| - i, 2
  {
    var e := PrimaryAt(t, i);
    if e.Err? then Err else PostfixFrom(t, e.value, e.next)
  }

  ghost function PostfixFrom(t: seq<Tok>, e: Expr, i: nat): (p: Parsed<Expr>)
    requires Stream(t) && i < |t|
    ensures p.Ok? ==> i <= p.next < |t|
    decreases |t| - i, 2
  {
    if t[i] == LParen then
      var args := ListFrom(t, i + 1, RParen, []);
      if args.Err? || t[args.next] != RParen then Err
      else PostfixFrom(t, Call(e, args.value), args.next + 1)
    else if t[i] == Dot then
      if !t[i + 1].Ident? then Err else PostfixFrom(t, Member(e, t[i + 1].name), i + 2)
    else if t[i] == LBrack then
      var idx := ExprAt(t, i + 1);
      if idx.Err? || t[idx.next] != RBrack then Err
      else PostfixFrom(t, Index(e, idx.value), idx.next + 1)
    else Ok(e, i)
  }

  /** Comma-separated expressions up to `close`, which is not consumed; a trailing comma is accepted. */
  ghost function ListFrom(t: seq<Tok>, i: nat, close: Tok, acc: seq<Expr>): (p: Parsed<seq<Expr>>)
    requires Stream(t) && i < |t|
    ensures p.Ok? ==> i <= p.next < |t|
    decreases |t| - i, 6
  {
    if t[i] == close then Ok(acc, i)
    else
      var e := ExprAt(t, i);
      if e.Err? then Err
      else if t[e.next] == Comma then ListFrom(t, e.next + 1, close, acc + [e.value])
      else Ok(acc + [e.value], e.next)
  }

  ghost function PrimaryAt(t: seq<Tok>, i: nat): (p: Parsed<Expr>)
    requires Stream(t) && i < |t|
    ensures p.Ok? ==> i < p.next < |t|
    decreases |t| - i, 1
  {
    match t[i]
    case Num(n) => Ok(Expr.Num(n), i + 1)
    case Str(s) => Ok(Expr.Str(s), i + 1)
    case Kw(True) => Ok(Bool(true), i + 1)
    case Kw(False) => Ok(Bool(false), i + 1)
    case Kw(Null) => Ok(Expr.Null, i + 1)
    case Ident(name) => Ok(Expr.Ident(name), i + 1)
    case LParen =>
      var e := ExprAt(t, i + 1);
      if e.Err? || t[e.next] != RParen then Err else Ok(e.value, e.next + 1)
    case LBrack =>
      var items := ListFrom(t, i + 1, RBrack, []);
      if items.Err? || t[items.next] != RBrack then Err else Ok(Array(items.value), items.next + 1)
    case _ => Err
  }

  // ---- the postfix loop, one turn at a time ----

  /** One turn of the postfix loop. */
  lemma PostfixStep(t: seq<Tok>, e: Expr, i: nat)
    requires Stream(t) && i < |t|
    ensures PostfixFrom(t, e, i) ==
      if t[i] == LParen then
        var args := ListFrom(t, i + 1, RParen, []);
        if args.Err? || t[args.next] != RParen then Err
        else PostfixFrom(t, Call(e, args.value), args.next + 1)
      else if t[i] == Dot then
        if !t[i + 1].Ident? then Err else PostfixFrom(t, Member(e, t[i + 1].name), i + 2)
      else if t[i] == LBrack then
        var idx := ExprAt(t, i + 1);
        if idx.Err? || t[idx.next] != RBrack then Err
        else PostfixFrom(t, Index(e, idx.value), idx.next + 1)
      else Ok(e, i)
  {
    hide ListFrom, ExprAt;
  }

  lemma PostfixStops(t: seq<Tok>, e: Expr, j: nat)
    requires Stream(t) && j < |t| && t[j] != LParen && t[j] != Dot && t[j] != LBrack
    ensures PostfixFrom(t, e, j) == Ok(e, j)
  {
    hide PostfixFrom;
    PostfixStep(t, e, j);
  }

  lemma PostfixCalls(t: seq<Tok>, e: Expr, j: nat, args: seq<Expr>, n: nat)
    requires Stream(t) && j + 1 < |t| && n + 1 < |t| && t[j] == LParen && t[n] == RParen
    requires ListFrom(t, j + 1, RParen, []) == Ok(args, n)
    ensures PostfixFrom(t, e, j) == PostfixFrom(t, Call(e, args), n + 1)
  {
    hide PostfixFrom;
    PostfixStep(t, e, j);
  }

  lemma PostfixIndexes(t: seq<Tok>, e: Expr, j: nat, idx: Expr, n: nat)
    requires Stream(t) && j + 1 < |t| && n + 1 < |t| && t[j] == LBrack && t[n] == RBrack
    requires ExprAt(t, j + 1) == Ok(idx, n)
    ensures PostfixFrom(t, e, j) == PostfixFrom(t, Index(e, idx), n + 1)
  {
    hide PostfixFrom;
    PostfixStep(t, e, j);
  }

  lemma PostfixSelects(t: seq<Tok>, e: Expr, j: nat, field: string)
    requires Stream(t) && j + 2 < |t| && t[j] == Dot && t[j + 1] == Tok.Ident(field)
    ensures PostfixFrom(t, e, j) == PostfixFrom(t, Member(e, field), j + 2)
  {
    hide PostfixFrom;
    PostfixStep(t, e, j);
  }

  // ---- the printer ----

  /** How tightly a tree holds together: 0 for assignment, 1 to 6 for the operator table, then unary, postfix, atoms. */
  function Precedence(e: Expr): (p: nat)
    ensures p <= 9
  {
    match e
    case Assign(_, _) => 0
    case Logic(Or, _, _) => 1
    case Logic(And, _, _) => 2
    case Bin(EqLoose, _, _) | Bin(NeLoose, _, _) | Bin(EqStrict, _, _) | Bin(NeStrict, _, _) => 3
    case Bin(Less, _, _) | Bin(LessEq, _, _) | Bin(Greater, _, _) | Bin(GreaterEq, _, _) => 4
    case Bin(Add, _, _) | Bin(Sub, _, _) => 5
    case Bin(Mul, _, _) | Bin(Div, _, _) | Bin(Mod, _, _) => 6
    case Unary(_, _) => 7
    case Call(_, _) | Index(_, _) | Member(_, _) => 8
    case _ => 9
  }

  function BinTok(op: BinOp): Tok {
    match op
    case Add => Plus
    case Sub => Minus
    case Mul => Star
    case Div => Slash
    case Mod => Percent
    case Less => Lt
    case LessEq => Le
    case Greater => Gt
    case GreaterEq => Ge
    case EqLoose => EqEq
    case NeLoose => NotEq
    case EqStrict => EqEqEq
    case NeStrict => NotEqEq
  }

  /** `e` as an operand that must hold together at least at level `p`: parenthesised only when it does not. */
  function Print(e: Expr, p: nat): seq<Tok>
    decreases e, 1
  {
    if Precedence(e) < p then [LParen] + Body(e) + [RParen] else Body(e)
  }

  function Body(e: Expr): seq<Tok>
    decreases e, 0
  {
    match e
    case Num(n) => [Tok.Num(n)]
    case Str(s) => [Tok.Str(s)]
    case Bool(b) => [Kw(if b then True else False)]
    case Null => [Kw(Keyword.Null)]
    case Ident(name) => [Tok.Ident(name)]
    case Array(items) => [LBrack] + PrintList(items) + [RBrack]
    case Index(base, idx) => Print(base, 8) + [LBrack] + Print(idx, 0) + [RBrack]
    case Unary(op, x) => [if op == Neg then Minus else Bang] + Print(x, 7)
    case Bin(op, l, r) => Print(l, Precedence(e)) + [BinTok(op)] + Print(r, Precedence(e) + 1)
    case Logic(op, l, r) => Print(l, Precedence(e)) + [if op == And then AndAnd else OrOr] + Print(r, Precedence(e) + 1)
    case Assign(target, value) => Print(target, 1) + [Tok.Assign] + Print(value, 0)
    case Call(callee, args) => Print(callee, 8) + [LParen] + PrintList(args) + [RParen]
    case Member(obj, field) => Print(obj, 8) + [Dot] + [Tok.Ident(field)]
  }

  function PrintList(items: seq<Expr>): seq<Tok> {
    if items == [] then []
    else Print(items[0], 0) + (if |items| == 1 then [] else [Comma] + PrintList(items[1..]))
  }

  /** The trees there are: only a variable or an indexed place can be assigned to. */
  predicate WellFormed(e: Expr) {
    match e
    case Array(items) => forall k :: 0 <= k < |items| ==> WellFormed(items[k])
    case Index(base, idx) => WellFormed(base) && WellFormed(idx)
    case Unary(_, x) => WellFormed(x)
    case Bin(_, l, r) => WellFormed(l) && WellFormed(r)
    case Logic(_, l, r) => WellFormed(l) && WellFormed(r)
    case Assign(target, value) => (target.Ident? || target.Index?) && WellFormed(target) && WellFormed(value)
    case Call(callee, args) => WellFormed(callee) && forall k :: 0 <= k < |args| ==> WellFormed(args[k])
    case Member(obj, _) => WellFormed(obj)
    case _ => true
  }
}
