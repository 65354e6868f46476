/**
 The parser object of desktop-metal/src/tjs.rs:397-733: a cursor over the tokens, advanced by recursive methods
 and their loops. Each method computes the grammar function of the same name. Error texts are left out.
 */
module TjsParser {
  import opened TjsSyntax
  import opened TjsGrammar

  datatype Answer<T> = Got(value: T) | Failed

  /** The method's answer and final position are those of the grammar function. */
  ghost predicate Computes<T>(p: Parsed<T>, r: Answer<T>, i: nat) {
    match p
    case Ok(value, next) => r == Got(value) && i == next
    case Err => r == Failed
  }

  class Parser {
    const t: seq<Tok>
    var i: nat

    ghost predicate Ready()
      reads this
    {
      Stream(t) && i < |t|
    }

    constructor (t: seq<Tok>)
      requires Stream(t)
      ensures this.t == t && i == 0 && Ready()
    {
      this.t := t;
      i := 0;
    }

    function Peek(): Tok
      requires Ready()
      reads this
    {
      t[i]
    }

    /** The cursor never moves past the last token. */
    method Bump() returns (k: Tok)
      requires Ready()
      modifies this
      ensures Ready() && k == t[old(i)]
      ensures i == if k == Eof then old(i) else old(i) + 1
    {
      k := t[i];
      if i + 1 < |t| {
        i := i + 1;
      }
    }

    method Eat(k: Tok) returns (ok: bool)
      requires Ready() && k != Eof
      modifies this
      ensures Ready() && ok == (t[old(i)] == k)
      ensures i == if ok then old(i) + 1 else old(i)
    {
      ok := Peek() == k;
      if ok {
        var _ := Bump();
      }
    }

    method ParseExpr() returns (r: Answer<Expr>)
      requires Ready()
      modifies this
      ensures Ready() && Computes(ExprAt(t, old(i)), r, i)
      decreases |t| - i, 5
    {
      hide BinAt;
      var lhs := ParseBin(0);
      if lhs.Failed? {
        return Failed;
      }
      if Peek() == Tok.Assign {
        var _ := Bump();
        if !lhs.value.Ident? && !lhs.value.Index? {
          return Failed;
        }
        var rhs := ParseExpr();
        if rhs.Failed? {
          return Failed;
        }
        return Got(Expr.Assign(lhs.value, rhs.value));
      }
      return lhs;
    }

    method ParseBin(minBp: nat) returns (r: Answer<Expr>)
      requires Ready()
      modifies this
      ensures Ready() && Computes(BinAt(t, old(i), minBp), r, i)
      decreases |t| - i, 4
    {
      hide UnaryAt;
      var first := ParseUnary();
      if first.Failed? {
        return Failed;
      }
      var lhs := first.value;
      while true
        invariant Ready() && i > old(i)
        invariant BinAt(t, old(i), minBp) == BinFrom(t, lhs, i, minBp)
        decreases |t| - i
      {
        var lbp := BindingPower(Peek());
        if lbp == 0 {
          break;
        }
        if lbp < minBp {
          break;
        }
        var op := Bump();
        var rhs := ParseBin(lbp + 1);
        if rhs.Failed? {
          return Failed;
        }
        lhs := MkBin(op, lhs, rhs.value);
      }
      return Got(lhs);
    }

    method ParseUnary() returns (r: Answer<Expr>)
      requires Ready()
      modifies this
      ensures Ready() && Computes(UnaryAt(t, old(i)), r, i)
      decreases |t| - i, 3
    {
      hide PostfixAt;
      if Peek() == Minus {
        var _ := Bump();
        var x := ParseUnary();
        if x.Failed? {
          return Failed;
        }
        return Got(Unary(Neg, x.value));
      } else if Peek() == Bang {
        var _ := Bump();
        var x := ParseUnary();
        if x.Failed? {
          return Failed;
        }
        return Got(Unary(Not, x.value));
      }
      r := ParsePostfix();
    }

    method ParsePostfix() returns (r: Answer<Expr>)
      requires Ready()
      modifies this
      ensures Ready() && Computes(PostfixAt(t, old(i)), r, i)
      decreases |t| - i, 2
    {
      hide PrimaryAt, ExprAt, ListFrom, PostfixFrom;
      var first := ParsePrimary();
      if first.Failed? {
        return Failed;
      }
      var e := first.value;
      while Peek() == LParen || Peek() == Dot || Peek() == LBrack
        invariant Ready() && i > old(i)
        invariant PostfixAt(t, old(i)) == PostfixFrom(t, e, i)
        decreases |t| - i
      {
        var suffixed := ParseSuffix(e);
        if suffixed.Failed? {
          return Failed;
        }
        e := suffixed.value;
      }
      PostfixStep(t, e, i);
      return Got(e);
    }

    /** One turn of the loop: a call, a member or an index behind `e`. */
    method ParseSuffix(e: Expr) returns (r: Answer<Expr>)
      requires Ready() && (Peek() == LParen || Peek() == Dot || Peek() == LBrack)
      modifies this
      ensures Ready() && (r.Got? ==> i > old(i))
      ensures PostfixFrom(t, e, old(i)) == match r case Got(e') => PostfixFrom(t, e', i) case Failed => Err
      decreases |t| - i, 2
    {
      hide ExprAt, ListFrom, PostfixFrom;
      PostfixStep(t, e, i);
      var opening := Bump();
      if opening == LParen {
        var args := ParseList(RParen);
        if args.Failed? {
          return Failed;
        }
        var ok := Eat(RParen);
        return if ok then Got(Call(e, args.value)) else Failed;
      } else if opening == Dot {
        var k := Bump();
        return if k.Ident? then Got(Member(e, k.name)) else Failed;
      } else {
        var idx := ParseExpr();
        if idx.Failed? {
          return Failed;
        }
        var ok := Eat(RBrack);
        return if ok then Got(Index(e, idx.value)) else Failed;
      }
    }

    /** The loop shared by call arguments and array items. */
    method ParseList(close: Tok) returns (r: Answer<seq<Expr>>)
      requires Ready()
      modifies this
      ensures Ready() && Computes(ListFrom(t, old(i), close, []), r, i)
      decreases |t| - i, 6
    {
      hide ExprAt;
      var v: seq<Expr> := [];
      while Peek() != close
        invariant Ready() && i >= old(i)
        invariant ListFrom(t, old(i), close, []) == ListFrom(t, i, close, v)
        decreases |t| - i
      {
        var e := ParseExpr();
        if e.Failed? {
          return Failed;
        }
        ghost var before := v;
        v := v + [e.value];
        if Peek() == Comma {
          var _ := Bump();
        } else {
          return Got(v);
        }
      }
      return Got(v);
    }

    method ParsePrimary() returns (r: Answer<Expr>)
      requires Ready()
      modifies this
      ensures Ready() && Computes(PrimaryAt(t, old(i)), r, i)
      decreases |t| - i, 1
    {
      hide ExprAt, ListFrom;
      var k := Bump();
      match k {
        case Num(n) => return Got(Expr.Num(n));
        case Str(s) => return Got(Expr.Str(s));
        case Kw(True) => return Got(Bool(true));
        case Kw(False) => return Got(Bool(false));
        case Kw(Null) => return Got(Expr.Null);
        case Ident(name) => return Got(Expr.Ident(name));
        case LParen =>
          var e := ParseExpr();
          if e.Failed? {
            return Failed;
          }
          var ok := Eat(RParen);
          return if ok then e else Failed;
        case LBrack =>
          var items := ParseList(RBrack);
          if items.Failed? {
            return Failed;
          }
          var ok := Eat(RBrack);
          return if ok then Got(Array(items.value)) else Failed;
        case _ => return Failed;
      }
    }
  }
}
