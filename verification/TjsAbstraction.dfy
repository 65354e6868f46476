/**
 From the interpreter's state to the configurations of the rules: a scope that is a list of slots becomes a map, ticks
 are forgotten, and what the interpreter computes on values is what the rules say.
 */
module TjsAbstraction {
  import opened Options
  import opened TjsSyntax
  import opened TjsSemantics
  import opened TjsRules

  /** The first slot of a name counts. */
  function MapOf(sc: Scope): map<string, Value> {
    if sc == [] then map[] else MapOf(sc[1..])[sc[0].0 := sc[0].1]
  }

  function EnvOf(scopes: seq<Scope>): (env: seq<map<string, Value>>)
    ensures |env| == |scopes|
  {
    seq(|scopes|, i requires 0 <= i < |scopes| => MapOf(scopes[i]))
  }

  function ConfigOf(s: State): Config {
    Config(EnvOf(s.scopes), s.out)
  }

  function ResultOf<T>(o: Outcome<T>): Option<T> {
    if o.Got? then Some(o.value) else None
  }

  // ---- scopes ----

  lemma {:induction false} LookupIs(sc: Scope, name: string)
    ensures Lookup(sc, name) == if name in MapOf(sc) then Some(MapOf(sc)[name]) else None
  {
    if sc != [] {
      LookupIs(sc[1..], name);
    }
  }

  lemma {:induction false} StoreIs(sc: Scope, name: string, v: Value)
    requires name in MapOf(sc)
    ensures MapOf(Store(sc, name, v)) == MapOf(sc)[name := v]
  {
    if sc[0].0 != name {
      StoreIs(sc[1..], name, v);
    }
  }

  lemma {:induction false} AppendIs(sc: Scope, name: string, v: Value)
    requires name !in MapOf(sc)
    ensures MapOf(sc + [(name, v)]) == MapOf(sc)[name := v]
  {
    if sc == [] {
      assert sc + [(name, v)] == [(name, v)];
    } else {
      AppendIs(sc[1..], name, v);
      assert (sc + [(name, v)])[1..] == sc[1..] + [(name, v)];
    }
  }

  lemma BindIs(sc: Scope, name: string, v: Value)
    ensures MapOf(Bind(sc, name, v)) == MapOf(sc)[name := v]
  {
    LookupIs(sc, name);
    if name in MapOf(sc) {
      StoreIs(sc, name, v);
    } else {
      AppendIs(sc, name, v);
    }
  }

  lemma EnvAppend(scopes: seq<Scope>, sc: Scope)
    ensures EnvOf(scopes + [sc]) == EnvOf(scopes) + [MapOf(sc)]
  {
  }

  lemma DeclareIs(scopes: seq<Scope>, name: string, v: Value)
    requires scopes != []
    ensures Declare(scopes, name, v) != []
    ensures EnvOf(Declare(scopes, name, v)) == Extended(EnvOf(scopes), map[name := v])
  {
    var n := |scopes| - 1;
    BindIs(scopes[n], name, v);
    EnvAppend(scopes[..n], Bind(scopes[n], name, v));
    assert MapOf(scopes[n])[name := v] == MapOf(scopes[n]) + map[name := v];
  }

  lemma ExtendedTwice(env: seq<map<string, Value>>, m: map<string, Value>, m': map<string, Value>)
    requires env != []
    ensures Extended(Extended(env, m), m') == Extended(env, m + m')
  {
    assert env[|env| - 1] + m + m' == env[|env| - 1] + (m + m');
  }

  lemma ExtendedByNone(env: seq<map<string, Value>>)
    requires env != []
    ensures Extended(env, map[]) == env
  {
    assert env[|env| - 1] + map[] == env[|env| - 1];
  }

  /** Reading a variable, in both directions. */
  lemma {:induction false} GetIs(scopes: seq<Scope>, name: string)
    ensures Get(scopes, name).None? <==> forall i :: 0 <= i < |scopes| ==> name !in EnvOf(scopes)[i]
    ensures forall i: nat :: Bound(EnvOf(scopes), name, i) ==> Get(scopes, name) == Some(EnvOf(scopes)[i][name])
    ensures Get(scopes, name).Some? ==> exists i: nat :: Bound(EnvOf(scopes), name, i)
  {
    if scopes != [] {
      var n := |scopes| - 1;
      var rest := scopes[..n];
      LookupIs(scopes[n], name);
      GetIs(rest, name);
      assert forall i :: 0 <= i < n ==> EnvOf(rest)[i] == EnvOf(scopes)[i];
      if name in EnvOf(scopes)[n] {
        assert Bound(EnvOf(scopes), name, n);
      } else {
        forall i: nat ensures Bound(EnvOf(scopes), name, i) <==> Bound(EnvOf(rest), name, i) {
        }
      }
    }
  }

  /** Writing a variable: the innermost scope that has it. */
  lemma {:induction false} SetIs(scopes: seq<Scope>, name: string, v: Value, i: nat)
    requires Bound(EnvOf(scopes), name, i)
    ensures Set(scopes, name, v).Some?
    ensures EnvOf(Set(scopes, name, v).value) == EnvOf(scopes)[i := EnvOf(scopes)[i][name := v]]
  {
    hide MapOf, EnvOf;
    var n := |scopes| - 1;
    var rest := scopes[..n];
    assert scopes == rest + [scopes[n]];
    EnvAppend(rest, scopes[n]);
    LookupIs(scopes[n], name);
    assert EnvOf(scopes)[n] == MapOf(scopes[n]);
    assert forall j :: 0 <= j < n ==> EnvOf(rest)[j] == EnvOf(scopes)[j];
    if i == n {
      StoreIs(scopes[n], name, v);
      EnvAppend(rest, Store(scopes[n], name, v));
    } else {
      SetIs(rest, name, v, i);
      EnvAppend(Set(rest, name, v).value, scopes[n]);
    }
  }

  lemma {:induction false} SetNeeds(scopes: seq<Scope>, name: string, v: Value)
    requires Set(scopes, name, v).Some?
    ensures Get(scopes, name).Some?
  {
    if Lookup(scopes[|scopes| - 1], name).None? {
      SetNeeds(scopes[..|scopes| - 1], name, v);
    }
  }

  // ---- calls and blocks ----

  lemma {:induction false} ArgumentsFront(params: seq<string>, args: seq<Value>)
    requires params != []
    ensures var a, rest := if args == [] then Value.Null else args[0], if args == [] then [] else args[1..];
      Arguments(params, args) == map[params[0] := a] + Arguments(params[1..], rest)
  {
    var n := |params| - 1;
    if n > 0 {
      ArgumentsFront(params[..n], args);
      assert params[..n][1..] == params[1..][..n - 1];
    }
  }

  lemma {:induction false} BindParamsIs(scopes: seq<Scope>, params: seq<string>, args: seq<Value>)
    requires scopes != []
    ensures EnvOf(BindParams(scopes, params, args)) == Extended(EnvOf(scopes), Arguments(params, args))
    decreases |params|
  {
    hide EnvOf, Declare, Extended;
    if params == [] {
      ExtendedByNone(EnvOf(scopes));
    } else {
      var a, rest := if args == [] then Value.Null else args[0], if args == [] then [] else args[1..];
      ArgumentsFront(params, args);
      DeclareIs(scopes, params[0], a);
      BindParamsIs(Declare(scopes, params[0], a), params[1..], rest);
      ExtendedTwice(EnvOf(scopes), map[params[0] := a], Arguments(params[1..], rest));
    }
  }

  lemma {:induction false} FunctionsFront(body: seq<Stmt>)
    requires body != []
    ensures Functions(body) == Functions(body[..1]) + Functions(body[1..])
  {
    var n := |body| - 1;
    if n == 0 {
      assert body[..1] == body;
    } else {
      FunctionsFront(body[..n]);
      assert body[..n][..1] == body[..1];
      assert body[..n][1..] == body[1..][..n - 1];
    }
  }

  lemma {:induction false} HoistIs(scopes: seq<Scope>, body: seq<Stmt>)
    requires scopes != []
    ensures EnvOf(Hoist(scopes, body)) == Extended(EnvOf(scopes), Functions(body))
    decreases |body|
  {
    hide EnvOf, Declare, Extended;
    if body == [] {
      ExtendedByNone(EnvOf(scopes));
    } else {
      FunctionsFront(body);
      assert body[..1][..0] == [];
      if body[0].Func? {
        var f := Value.Func(body[0].params, body[0].body);
        DeclareIs(scopes, body[0].name, f);
        HoistIs(Declare(scopes, body[0].name, f), body[1..]);
        ExtendedTwice(EnvOf(scopes), map[body[0].name := f], Functions(body[1..]));
        assert Functions(body[..1]) == map[body[0].name := f];
      } else {
        HoistIs(scopes, body[1..]);
        assert map[] + Functions(body[1..]) == Functions(body[1..]);
      }
    }
  }

  // ---- values ----

  lemma TruthyIs(num: Arith, v: Value)
    ensures Truthy(num, v) == Holds(num, v)
  {
  }

  lemma {:induction false} JoinedFront(ts: seq<string>, sep: string)
    requires |ts| > 1
    ensures Joined(ts, sep) == ts[0] + sep + Joined(ts[1..], sep)
  {
    var n := |ts| - 1;
    if n > 1 {
      JoinedFront(ts[..n], sep);
      assert ts[..n][1..] == ts[1..][..n - 1];
      var middle := Joined(ts[1..][..n - 1], sep);
      assert ts[0] + sep + middle + sep + ts[n] == ts[0] + sep + (middle + sep + ts[n]);
    }
  }

  lemma {:induction false} DisplayIs(num: Arith, v: Value)
    ensures Display(num, v) == Text(num, v)
    decreases v, 1
  {
    if v.Array? {
      JoinDisplaysIs(num, v.items, ",");
    }
  }

  lemma {:induction false} JoinDisplaysIs(num: Arith, vs: seq<Value>, sep: string)
    ensures JoinDisplays(num, vs, sep) == Joined(Texts(num, vs), sep)
    decreases vs, 0
  {
    if vs != [] {
      DisplayIs(num, vs[0]);
      JoinDisplaysIs(num, vs[1..], sep);
      if |vs| > 1 {
        JoinedFront(Texts(num, vs), sep);
        assert Texts(num, vs)[1..] == Texts(num, vs[1..]);
      }
    }
  }

  lemma {:induction false} StringLessIs(x: string, y: string)
    ensures StringLess(x, y) <==> TextBelow(x, y)
  {
    if y == "" {
    } else if x == "" || x[0] < y[0] {
      assert x[..0] == y[..0];
    } else if x[0] == y[0] {
      StringLessIs(x[1..], y[1..]);
      TextBelowRest(x, y);
    } else {
      assert forall i :: 0 < i <= |x| && i <= |y| ==> x[..i][0] != y[..i][0];
    }
  }

  lemma TextBelowRest(x: string, y: string)
    requires x != "" && y != "" && x[0] == y[0]
    ensures TextBelow(x, y) <==> TextBelow(x[1..], y[1..])
  {
    var p, q := x[1..], y[1..];
    if i :| 0 <= i <= |p| && i < |q| && p[..i] == q[..i] && (i == |p| || p[i] < q[i]) {
      assert x[..i + 1] == [x[0]] + p[..i] && y[..i + 1] == [y[0]] + q[..i];
    }
    if i :| 0 <= i <= |x| && i < |y| && x[..i] == y[..i] && (i == |x| || x[i] < y[i]) {
      assert i > 0;
      assert p[..i - 1] == x[..i][1..] && q[..i - 1] == y[..i][1..];
    }
  }

  lemma {:induction false} StringLessOneWay(x: string, y: string)
    ensures !(StringLess(x, y) && StringLess(y, x))
  {
    if x != "" && y != "" {
      StringLessOneWay(x[1..], y[1..]);
    }
  }

  lemma CompareIs(num: Arith, x: Value, y: Value)
    ensures Compare(num, x, y).Some? <==> Comparable(x, y)
    ensures Comparable(x, y) ==>
      var c := Compare(num, x, y).value;
      && (c < 0 <==> Below(num, x, y))
      && (c == 0 <==> Level(num, x, y))
      && (c > 0 <==> !Below(num, x, y) && Below(num, y, x))
  {
    if x.Str? && y.Str? {
      StringLessIs(x.s, y.s);
      StringLessIs(y.s, x.s);
      StringLessOneWay(x.s, y.s);
    }
  }

  lemma BinOfIs(num: Arith, op: BinOp, x: Value, y: Value)
    ensures ResultOf(BinOf(num, op, x, y)) == Operate(num, op, x, y)
  {
    hide Below, Compare, Text, Display;
    CompareIs(num, x, y);
    CompareIs(num, y, x);
    DisplayIs(num, x);
    DisplayIs(num, y);
  }

  lemma IndexOfIs(num: Arith, base: Value, idx: Value)
    ensures ResultOf(IndexOf(num, base, idx)) == Element(num, base, idx)
  {
  }

  lemma MemberOfIs(num: Arith, base: Value, field: string)
    ensures ResultOf(MemberOf(num, base, field)) == if field == "length" then Length(num, base) else None
  {
  }

  lemma PutIs(items: seq<Value>, k: nat, v: Value)
    ensures Put(items, k, v) == Stored(items, k, v)
  {
  }

  lemma PrintsIs(callee: Expr)
    ensures IsConsole(callee) == Prints(callee)
  {
  }
}
