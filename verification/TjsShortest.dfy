/** Of all token sequences the parser reads as a given tree, the printed one is the shortest. */
module TjsShortest {
  import opened TjsSyntax
  import opened TjsGrammar
  import opened TjsRoundTrip

  /** `p` is a well-formed tree read, since `start`, from at least as many tokens as printing it at `level` takes. */
  ghost predicate Earned(p: Parsed<Expr>, level: nat, start: int) {
    p.Ok? ==> WellFormed(p.value) && |Print(p.value, level)| <= p.next - start
  }

  lemma PrintGrowsWithLevel(e: Expr, p: nat, q: nat)
    requires p <= q
    ensures |Print(e, p)| <= |Print(e, q)| <= |Print(e, 0)| + 2
  {
  }

  lemma MkBinParts(k: Tok, l: Expr, r: Expr)
    requires BindingPower(k) > 0
    ensures var e := MkBin(k, l, r);
      Precedence(e) == BindingPower(k) && (e.Bin? || e.Logic?) && e.l == l && e.r == r
  {
    match k
    case OrOr | AndAnd =>
    case EqEq | NotEq =>
    case EqEqEq | NotEqEq =>
    case Lt | Le =>
    case Gt | Ge =>
    case Plus | Minus =>
    case Star | Slash | Percent =>
  }

  lemma OperatorWellFormed(e: Expr)
    requires (e.Bin? || e.Logic?) && WellFormed(e.l) && WellFormed(e.r)
    ensures WellFormed(e)
  {
  }

  lemma MkBinShape(k: Tok, l: Expr, r: Expr, level: nat)
    requires BindingPower(k) > 0 && level <= BindingPower(k) && WellFormed(l) && WellFormed(r)
    ensures var e, q := MkBin(k, l, r), BindingPower(k);
      |Print(e, level)| == |Print(l, q)| + 1 + |Print(r, q + 1)| && WellFormed(e)
  {
    hide Print, WellFormed, MkBin, Precedence, BindingPower;
    MkBinParts(k, l, r);
    OperatorWellFormed(MkBin(k, l, r));
    PowerOfOperators(k);
    ShapeOperator(MkBin(k, l, r), level);
  }

  lemma PowerOfOperators(k: Tok)
    ensures BindingPower(k) <= 6
  {
  }

  lemma AssignWellFormed(target: Expr, value: Expr)
    requires (target.Ident? || target.Index?) && WellFormed(target) && WellFormed(value)
    ensures WellFormed(Expr.Assign(target, value))
  {
  }

  lemma {:induction false} ExprEarned(t: seq<Tok>, i: nat)
    requires Stream(t) && i < |t|
    ensures Earned(ExprAt(t, i), 0, i)
    decreases |t| - i, 5
  {
    hide Print, WellFormed, BinAt;
    BinEarned(t, i, 0);
    var lhs := BinAt(t, i, 0);
    if lhs.Ok? && t[lhs.next] == Tok.Assign {
      ExprEarned(t, lhs.next + 1);
      var rhs := ExprAt(t, lhs.next + 1);
      if (lhs.value.Ident? || lhs.value.Index?) && rhs.Ok? {
        var e := Expr.Assign(lhs.value, rhs.value);
        AssignWellFormed(lhs.value, rhs.value);
        ShapeAssign(e);
        PrintBare(lhs.value, 0, 1);
      }
    }
  }

  lemma {:induction false} BinEarned(t: seq<Tok>, i: nat, m: nat)
    requires Stream(t) && i < |t| && m <= 7
    ensures Earned(BinAt(t, i, m), m, i)
    ensures var p := BinAt(t, i, m); p.Ok? ==> BindingPower(t[p.next]) < m || BindingPower(t[p.next]) == 0
    decreases |t| - i, 4
  {
    hide Print, WellFormed, UnaryAt, BinFrom;
    UnaryEarned(t, i);
    var lhs := UnaryAt(t, i);
    if lhs.Ok? {
      var bp := BindingPower(t[lhs.next]);
      PrintGrowsWithLevel(lhs.value, if bp < m then m else bp, 7);
      BinFromEarned(t, lhs.value, lhs.next, m, i);
    }
  }

  lemma {:induction false} BinFromEarned(t: seq<Tok>, lhs: Expr, i: nat, m: nat, start: nat)
    requires Stream(t) && i < |t| && m <= 7 && WellFormed(lhs)
    requires var bp := BindingPower(t[i]); |Print(lhs, if bp < m then m else bp)| <= i - start
    ensures Earned(BinFrom(t, lhs, i, m), m, start)
    ensures var p := BinFrom(t, lhs, i, m); p.Ok? ==> BindingPower(t[p.next]) < m || BindingPower(t[p.next]) == 0
    decreases |t| - i, 4
  {
    hide Print, WellFormed, MkBin;
    var q := BindingPower(t[i]);
    if q == 0 || q < m {
      PrintGrowsWithLevel(lhs, m, if q < m then m else q);
    } else {
      BinEarned(t, i + 1, q + 1);
      var rhs := BinAt(t, i + 1, q + 1);
      if rhs.Ok? {
        var bp := BindingPower(t[rhs.next]);
        MkBinShape(t[i], lhs, rhs.value, if bp < m then m else bp);
        BinFromEarned(t, MkBin(t[i], lhs, rhs.value), rhs.next, m, start);
      }
    }
  }

  lemma {:induction false} UnaryEarned(t: seq<Tok>, i: nat)
    requires Stream(t) && i < |t|
    ensures Earned(UnaryAt(t, i), 7, i)
    decreases |t| - i, 3
  {
    if t[i] == Minus || t[i] == Bang {
      UnaryEarned(t, i + 1);
    } else {
      PostfixEarned(t, i);
      var p := PostfixAt(t, i);
      if p.Ok? {
        PrintGrowsWithLevel(p.value, 7, 8);
      }
    }
  }

  lemma {:induction false} PostfixEarned(t: seq<Tok>, i: nat)
    requires Stream(t) && i < |t|
    ensures Earned(PostfixAt(t, i), 8, i)
    decreases |t| - i, 2
  {
    PrimaryEarned(t, i);
    var e := PrimaryAt(t, i);
    if e.Ok? {
      PrintGrowsWithLevel(e.value, 8, 9);
      PostfixFromEarned(t, e.value, e.next, i);
    }
  }

  lemma SuffixShapes(e: Expr, args: seq<Expr>, idx: Expr, field: string)
    ensures |Print(Call(e, args), 8)| == |Print(e, 8)| + 2 + |PrintList(args)|
    ensures |Print(Index(e, idx), 8)| == |Print(e, 8)| + 2 + |Print(idx, 0)|
    ensures |Print(Member(e, field), 8)| == |Print(e, 8)| + 2
    ensures WellFormed(e) ==> WellFormed(Member(e, field)) && (WellFormed(idx) ==> WellFormed(Index(e, idx)))
    ensures WellFormed(e) && (forall k :: 0 <= k < |args| ==> WellFormed(args[k])) ==> WellFormed(Call(e, args))
  {
  }

  lemma {:induction false} PostfixFromEarned(t: seq<Tok>, e: Expr, i: nat, start: nat)
    requires Stream(t) && i < |t| && WellFormed(e) && |Print(e, 8)| <= i - start
    ensures Earned(PostfixFrom(t, e, i), 8, start)
    decreases |t| - i, 2
  {
    hide Print, WellFormed, PrintList, ListFrom, ExprAt, PostfixFrom;
    PostfixStep(t, e, i);
    if t[i] == LParen {
      CallEarned(t, e, i, start);
    } else if t[i] == Dot {
      if t[i + 1].Ident? {
        SuffixShapes(e, [], e, t[i + 1].name);
        PostfixFromEarned(t, Member(e, t[i + 1].name), i + 2, start);
      }
    } else if t[i] == LBrack {
      ExprEarned(t, i + 1);
      var idx := ExprAt(t, i + 1);
      if idx.Ok? && t[idx.next] == RBrack {
        SuffixShapes(e, [], idx.value, "");
        PostfixFromEarned(t, Index(e, idx.value), idx.next + 1, start);
      }
    }
  }

  lemma {:induction false} CallEarned(t: seq<Tok>, e: Expr, i: nat, start: nat)
    requires Stream(t) && i + 1 < |t| && t[i] == LParen && WellFormed(e) && |Print(e, 8)| <= i - start
    ensures Earned(PostfixFrom(t, e, i), 8, start)
    decreases |t| - i, 1
  {
    hide Print, WellFormed, PrintList, ListFrom, ExprAt, PostfixFrom;
    PostfixStep(t, e, i);
    ListEarned(t, i + 1, RParen, []);
    var args := ListFrom(t, i + 1, RParen, []);
    if args.Ok? && t[args.next] == RParen {
      assert args.value[0..] == args.value;
      SuffixShapes(e, args.value, e, "");
      PostfixFromEarned(t, Call(e, args.value), args.next + 1, start);
    }
  }

  lemma {:induction false} ListEarned(t: seq<Tok>, i: nat, close: Tok, acc: seq<Expr>)
    requires Stream(t) && i < |t| && forall k :: 0 <= k < |acc| ==> WellFormed(acc[k])
    ensures var p := ListFrom(t, i, close, acc);
      p.Ok? ==>
        && (forall k :: 0 <= k < |p.value| ==> WellFormed(p.value[k]))
        && acc <= p.value && |PrintList(p.value[|acc|..])| <= p.next - i
    decreases |t| - i, 6
  {
    hide WellFormed, Print, PrintList, ExprAt;
    if t[i] == close {
      ShapeList([]);
      assert acc[|acc|..] == [];
    } else {
      ExprEarned(t, i);
      var e := ExprAt(t, i);
      if e.Ok? {
        var acc' := acc + [e.value];
        if t[e.next] == Comma {
          ListEarned(t, e.next + 1, close, acc');
          var p := ListFrom(t, e.next + 1, close, acc');
          if p.Ok? {
            var items := p.value[|acc|..];
            assert items[0] == acc'[|acc|] == e.value && items[1..] == p.value[|acc'|..];
            ShapeList(items);
            assert |items| == 1 ==> items[1..] == [];
          }
        } else {
          assert acc'[|acc|..] == [e.value];
          ShapeList([e.value]);
        }
      }
    }
  }

  lemma {:induction false} PrimaryEarned(t: seq<Tok>, i: nat)
    requires Stream(t) && i < |t|
    ensures Earned(PrimaryAt(t, i), 9, i)
    decreases |t| - i, 1
  {
    hide ExprAt, ListFrom, Print, WellFormed;
    if t[i] == LParen {
      ExprEarned(t, i + 1);
      var e := ExprAt(t, i + 1);
      if e.Ok? {
        PrintGrowsWithLevel(e.value, 9, 9);
      }
    } else if t[i] == LBrack {
      ListEarned(t, i + 1, RBrack, []);
      var items := ListFrom(t, i + 1, RBrack, []);
      if items.Ok? {
        assert items.value[0..] == items.value;
        ArrayEarned(items.value);
      }
    } else if PrimaryAt(t, i).Ok? {
      AtomEarned(PrimaryAt(t, i).value);
    }
  }

  lemma AtomEarned(e: Expr)
    requires Precedence(e) == 9 && !e.Array?
    ensures WellFormed(e) && |Print(e, 9)| == 1
  {
  }

  lemma ArrayEarned(items: seq<Expr>)
    requires forall k :: 0 <= k < |items| ==> WellFormed(items[k])
    ensures WellFormed(Array(items)) && |Print(Array(items), 9)| == |PrintList(items)| + 2
  {
  }

  // ---- consequences ----

  lemma {:induction false} NoEofPrinted(e: Expr, p: nat)
    ensures Tok.Eof !in Print(e, p)
    decreases e, 1, p
  {
    if Precedence(e) < p {
      NoEofPrinted(e, 0);
    } else {
      match e
      case Array(items) => NoEofInList(items);
      case Index(base, idx) => NoEofPrinted(base, 8); NoEofPrinted(idx, 0);
      case Unary(_, x) => NoEofPrinted(x, 7);
      case Bin(_, l, r) => NoEofPrinted(l, Precedence(e)); NoEofPrinted(r, Precedence(e) + 1);
      case Logic(_, l, r) => NoEofPrinted(l, Precedence(e)); NoEofPrinted(r, Precedence(e) + 1);
      case Assign(target, value) => NoEofPrinted(target, 1); NoEofPrinted(value, 0);
      case Call(callee, args) => NoEofPrinted(callee, 8); NoEofInList(args);
      case Member(obj, _) => NoEofPrinted(obj, 8);
      case _ =>
    }
  }

  lemma {:induction false} NoEofInList(items: seq<Expr>)
    ensures Tok.Eof !in PrintList(items)
    decreases items, 0, 0
  {
    if items != [] {
      NoEofPrinted(items[0], 0);
      NoEofInList(items[1..]);
      ShapeList(items);
    }
  }

  /** Printed on its own, a well-formed tree is read back whole. */
  lemma ParserInvertsPrinter(e: Expr)
    requires WellFormed(e)
    ensures var s := Print(e, 0);
      Stream(s + [Tok.Eof]) && ExprAt(s + [Tok.Eof], 0) == Ok(e, |s|)
  {
    hide Print, ExprAt, WellFormed;
    var s := Print(e, 0);
    NoEofPrinted(e, 0);
    var t := s + [Tok.Eof];
    assert t[0..0 + |s|] == s;
    ExprPrinted(t, 0, e);
  }

  /** Different trees are printed differently. */
  lemma PrinterIsInjective(e: Expr, f: Expr)
    requires WellFormed(e) && WellFormed(f) && Print(e, 0) == Print(f, 0)
    ensures e == f
  {
    ParserInvertsPrinter(e);
    ParserInvertsPrinter(f);
  }

  /** Whatever text the parser accepts, the printed form of the tree is accepted as the same tree and is no longer. */
  lemma PrintedFormIsShortest(t: seq<Tok>, i: nat)
    requires Stream(t) && i < |t| && ExprAt(t, i).Ok?
    ensures var p := ExprAt(t, i); var s := Print(p.value, 0);
      && WellFormed(p.value) && |s| <= p.next - i
      && Stream(s + [Tok.Eof]) && ExprAt(s + [Tok.Eof], 0) == Ok(p.value, |s|)
  {
    ExprEarned(t, i);
    ParserInvertsPrinter(ExprAt(t, i).value);
  }
}
