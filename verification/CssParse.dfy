/**
 Selectors and stylesheets (desktop-metal/src/tcss.rs:94-220): the parser as functions on tokens, the loops that
 compute them, and the round trip through the tokenizer.
 */
module CssParse {
  import opened Options
  import opened CssText

  datatype Selector = Universal | Tag(name: string) | Class(name: string) | Id(name: string)

  datatype Rule = Rule(selectors: seq<Selector>, decls: seq<(string, string)>)

  function ParseSelector(text: string): Option<Selector> {
    var s := Trim(text);
    if s == "" then None
    else if s == "*" then Some(Universal)
    else if s[0] == '.' then (if |s| == 1 then None else Some(Class(s[1..])))
    else if s[0] == '#' then (if |s| == 1 then None else Some(Id(s[1..])))
    else Some(Tag(s))
  }

  predicate SplitsSelectors(c: char) {
    c == ',' || c == ' ' || c == '\t' || c == '\n'
  }

  function OneSelector(piece: string): seq<Selector> {
    match ParseSelector(piece)
    case None => []
    case Some(sel) => [sel]
  }

  /** The selectors in `s`, split at commas and blanks, when the piece read so far is `cur`. */
  function SelectorsIn(s: string, cur: string): seq<Selector>
    decreases |s|
  {
    if s == "" then OneSelector(cur)
    else if SplitsSelectors(s[0]) then OneSelector(cur) + SelectorsIn(s[1..], "")
    else SelectorsIn(s[1..], cur + [s[0]])
  }

  function AllSelectors(idents: seq<string>): seq<Selector> {
    if idents == [] then [] else SelectorsIn(idents[0], "") + AllSelectors(idents[1..])
  }

  /** The identifiers before the next `{`, and the tokens after it; none when there is no block any more. */
  function Prelude(ts: seq<Tok>): (r: Option<(seq<string>, seq<Tok>)>)
    ensures r.Some? ==> |r.value.1| < |ts|
  {
    if ts == [] then None
    else if ts[0] == LBrace then Some(([], ts[1..]))
    else
      match Prelude(ts[1..])
      case None => None
      case Some((idents, rest)) => Some(((if ts[0].Ident? then [ts[0].s] else []) + idents, rest))
  }

  /** The declarations up to `}`, when the property name read so far is `prop`. */
  function Block(ts: seq<Tok>, prop: Option<string>): (r: (seq<(string, string)>, seq<Tok>))
    ensures |r.1| <= |ts|
    decreases |ts|
  {
    if ts == [] then ([], [])
    else
      match ts[0]
      case RBrace => ([], ts[1..])
      case Ident(s) =>
        (match prop
         case None => Block(ts[1..], Some(s))
         case Some(p) =>
           var (decls, rest) := Block(ts[1..], None);
           ([(Lower(p), Trim(s))] + decls, rest))
      case Semi => Block(ts[1..], None)
      case _ => Block(ts[1..], prop)
  }

  /** A block whose prelude holds no selector is dropped. */
  function Rules(ts: seq<Tok>): seq<Rule>
    decreases |ts|
  {
    match Prelude(ts)
    case None => []
    case Some((idents, body)) =>
      var (decls, rest) := Block(body, None);
      var selectors := AllSelectors(idents);
      (if selectors == [] then [] else [Rule(selectors, decls)]) + Rules(rest)
  }

  function ParseSheet(src: string): seq<Rule> {
    Rules(Tokens(src, ""))
  }

  // ---- the loops ----

  method CollectSelectors(raw: string) returns (r: seq<Selector>)
    ensures r == SelectorsIn(raw, "")
  {
    r := [];
    var i, start := 0, 0;
    assert raw[0..] == raw;
    while i < |raw|
      invariant 0 <= start <= i <= |raw|
      invariant SelectorsIn(raw, "") == r + SelectorsIn(raw[i..], raw[start..i])
    {
      assert raw[i..][0] == raw[i] && raw[i..][1..] == raw[i + 1..];
      if SplitsSelectors(raw[i]) {
        r := r + OneSelector(raw[start..i]);
        start := i + 1;
        assert raw[start..i + 1] == "";
      } else {
        assert raw[start..i + 1] == raw[start..i] + [raw[i]];
      }
      i := i + 1;
    }
    r := r + OneSelector(raw[start..i]);
  }

  method Parse(src: string) returns (rules: seq<Rule>)
    ensures rules == ParseSheet(src)
  {
    hide Block, AllSelectors, Prelude;
    var toks := Tokenize(src);
    rules := [];
    var i := 0;
    assert toks[0..] == toks && [] + Rules(toks) == Rules(toks);
    while i < |toks|
      invariant 0 <= i <= |toks|
      invariant Rules(toks) == rules + Rules(toks[i..])
    {
      var found, idents;
      ghost var from, before := i, rules;
      found, idents, i := ParsePrelude(toks, i);
      if !found {
        assert rules + [] == rules;
        return;
      }
      var selectors := CollectAll(idents);
      var decls;
      decls, i := ParseBlock(toks, i);
      if selectors != [] {
        rules := rules + [Rule(selectors, decls)];
      }
      assert rules + Rules(toks[i..]) == before + Rules(toks[from..]);
    }
    NoMoreRules(toks[i..]);
  }

  lemma NoMoreRules(ts: seq<Tok>)
    requires ts == []
    ensures Rules(ts) == []
  {
  }

  method ParsePrelude(toks: seq<Tok>, from: nat) returns (found: bool, idents: seq<string>, i: nat)
    requires from < |toks|
    ensures from <= i <= |toks|
    ensures Prelude(toks[from..]) == if found then Some((idents, toks[i..])) else None
    ensures found ==> from < i
  {
    idents := [];
    i := from;
    PreludeStart(toks[from..]);
    while i < |toks| && toks[i] != LBrace
      invariant from <= i <= |toks|
      invariant PreludeFrom(toks[from..], idents, toks[i..])
    {
      assert toks[i..][0] == toks[i] && toks[i..][1..] == toks[i + 1..];
      PreludeStep(toks[from..], idents, toks[i..]);
      if toks[i].Ident? {
        idents := idents + [toks[i].s];
      } else {
        assert idents + [] == idents;
      }
      i := i + 1;
    }
    PreludeStop(toks[from..], idents, toks[i..]);
    found := i < |toks|;
    if found {
      assert toks[i..][1..] == toks[i + 1..];
      i := i + 1;
    }
  }

  method CollectAll(idents: seq<string>) returns (selectors: seq<Selector>)
    ensures selectors == AllSelectors(idents)
  {
    selectors := [];
    var k := 0;
    assert idents[0..] == idents;
    while k < |idents|
      invariant 0 <= k <= |idents|
      invariant AllSelectors(idents) == selectors + AllSelectors(idents[k..])
    {
      assert idents[k..][0] == idents[k] && idents[k..][1..] == idents[k + 1..];
      var more := CollectSelectors(idents[k]);
      selectors := selectors + more;
      k := k + 1;
    }
  }

  /** `idents` were read from the front of `ts`, and `rest` is to come. */
  ghost predicate PreludeFrom(ts: seq<Tok>, idents: seq<string>, rest: seq<Tok>) {
    match Prelude(rest)
    case None => Prelude(ts) == None
    case Some((more, after)) => Prelude(ts) == Some((idents + more, after))
  }

  lemma PreludeStart(ts: seq<Tok>)
    ensures PreludeFrom(ts, [], ts)
  {
    if Prelude(ts).Some? {
      assert [] + Prelude(ts).value.0 == Prelude(ts).value.0;
    }
  }

  lemma PreludeStep(ts: seq<Tok>, idents: seq<string>, rest: seq<Tok>)
    requires PreludeFrom(ts, idents, rest) && rest != [] && rest[0] != LBrace
    ensures PreludeFrom(ts, idents + (if rest[0].Ident? then [rest[0].s] else []), rest[1..])
  {
    var one := if rest[0].Ident? then [rest[0].s] else [];
    if Prelude(rest[1..]).Some? {
      assert idents + (one + Prelude(rest[1..]).value.0) == idents + one + Prelude(rest[1..]).value.0;
    }
  }

  lemma PreludeStop(ts: seq<Tok>, idents: seq<string>, rest: seq<Tok>)
    requires PreludeFrom(ts, idents, rest) && (rest == [] || rest[0] == LBrace)
    ensures Prelude(ts) == if rest == [] then None else Some((idents, rest[1..]))
  {
    assert idents + [] == idents;
  }

  method ParseBlock(toks: seq<Tok>, from: nat) returns (decls: seq<(string, string)>, i: nat)
    requires from <= |toks|
    ensures from <= i <= |toks| && Block(toks[from..], None) == (decls, toks[i..])
  {
    decls := [];
    i := from;
    var prop: Option<string> := None;
    BlockFrom([], Block(toks[from..], None));
    while i < |toks|
      invariant from <= i <= |toks|
      invariant Block(toks[from..], None) == After(decls, Block(toks[i..], prop))
    {
      assert toks[i..][0] == toks[i] && toks[i..][1..] == toks[i + 1..];
      match toks[i] {
        case RBrace =>
          BlockFrom(decls, ([], toks[i + 1..]));
          i := i + 1;
          return;
        case Ident(s) =>
          if prop.None? {
            prop := Some(s);
          } else {
            BlockMore(decls, (Lower(prop.value), Trim(s)), Block(toks[i + 1..], None));
            decls := decls + [(Lower(prop.value), Trim(s))];
            prop := None;
          }
        case Colon =>
        case Semi =>
          prop := None;
        case LBrace =>
      }
      i := i + 1;
    }
    BlockFrom(decls, ([], []));
    assert toks[i..] == [];
  }

  function After(decls: seq<(string, string)>, r: (seq<(string, string)>, seq<Tok>)):
    (seq<(string, string)>, seq<Tok>)
  {
    (decls + r.0, r.1)
  }

  lemma BlockFrom(decls: seq<(string, string)>, r: (seq<(string, string)>, seq<Tok>))
    ensures decls == [] ==> After(decls, r) == r
    ensures r.0 == [] ==> After(decls, r) == (decls, r.1)
  {
    assert decls == [] ==> decls + r.0 == r.0;
    assert r.0 == [] ==> decls + r.0 == decls;
  }

  lemma BlockMore(decls: seq<(string, string)>, d: (string, string), r: (seq<(string, string)>, seq<Tok>))
    ensures After(decls, ([d] + r.0, r.1)) == After(decls + [d], r)
  {
    assert decls + ([d] + r.0) == decls + [d] + r.0;
  }

  // ---- the printer ----

  function SelectorText(sel: Selector): string {
    match sel
    case Universal => "*"
    case Tag(name) => name
    case Class(name) => "." + name
    case Id(name) => "#" + name
  }

  /** `gap` is the white space put between any two pieces. */
  function SelectorListText(sels: seq<Selector>, gap: string): string {
    if sels == [] then ""
    else if |sels| == 1 then SelectorText(sels[0])
    else SelectorText(sels[0]) + [','] + gap + SelectorListText(sels[1..], gap)
  }

  function DeclsText(decls: seq<(string, string)>, pad: seq<Filler>, end: string): string {
    if decls == [] then end
    else
      PadText(pad) + (decls[0].0 + (PadText(pad) + ([':'] +
      (PadText(pad) + (decls[0].1 + (PadText(pad) + ([';'] + DeclsText(decls[1..], pad, end))))))))
  }

  /** A sheet printed with `gap` after the commas between selectors and `pad` everywhere else. */
  function SheetText(rules: seq<Rule>, gap: string, pad: seq<Filler>): string {
    if rules == [] then PadText(pad)
    else
      PadText(pad) + (SelectorListText(rules[0].selectors, gap) + (PadText(pad) + (['{'] +
      DeclsText(rules[0].decls, pad, PadText(pad) + (['}'] + SheetText(rules[1..], gap, pad))))))
  }

  // ---- well-formed sheets ----

  /** A name without white space, commas, structural characters or comment openers. */
  predicate IsName(name: string) {
    name != "" && Plain(name) && forall i :: 0 <= i < |name| ==> !IsSpace(name[i]) && name[i] != ','
  }

  predicate WellFormedSelector(sel: Selector) {
    match sel
    case Universal => true
    case Tag(name) => IsName(name) && name != "*" && name[0] != '.' && name[0] != '#'
    case Class(name) => IsName(name)
    case Id(name) => IsName(name)
  }

  predicate WellFormedDecl(d: (string, string)) {
    Trimmed(d.0) && Plain(d.0) && Lower(d.0) == d.0 && Trimmed(d.1) && Plain(d.1)
  }

  predicate WellFormedRule(r: Rule) {
    && r.selectors != []
    && (forall i :: 0 <= i < |r.selectors| ==> WellFormedSelector(r.selectors[i]))
    && (forall i :: 0 <= i < |r.decls| ==> WellFormedDecl(r.decls[i]))
  }

  // ---- the round trip ----

  lemma SelectorTextIsName(sel: Selector)
    requires WellFormedSelector(sel)
    ensures IsName(SelectorText(sel))
  {
    if sel.Class? || sel.Id? {
      var s := SelectorText(sel);
      forall i | 0 <= i < |s|
        ensures !IsStructural(s[i]) && !OpensComment(s, i) && !IsSpace(s[i]) && s[i] != ','
      {
        if i > 0 {
          assert s[i] == sel.name[i - 1] && !OpensComment(sel.name, i - 1);
          assert !IsStructural(sel.name[i - 1]) && !IsSpace(sel.name[i - 1]);
        }
      }
    }
  }

  lemma SelectorReadBack(sel: Selector, pad: string)
    requires WellFormedSelector(sel) && AllSpace(pad)
    ensures ParseSelector(pad + SelectorText(sel)) == Some(sel)
  {
    SelectorTextIsName(sel);
    TrimPadded(pad, SelectorText(sel), "");
    assert pad + SelectorText(sel) + "" == pad + SelectorText(sel);
  }

  /** A name is collected character by character. */
  lemma {:induction false} NameCollected(name: string, rest: string, cur: string)
    requires forall i :: 0 <= i < |name| ==> !IsSpace(name[i]) && name[i] != ','
    ensures SelectorsIn(name + rest, cur) == SelectorsIn(rest, cur + name)
    decreases |name|
  {
    if name == "" {
      assert name + rest == rest && cur + name == cur;
    } else {
      assert (name + rest)[1..] == name[1..] + rest;
      NameCollected(name[1..], rest, cur + [name[0]]);
      assert cur + [name[0]] + name[1..] == cur + name;
    }
  }

  lemma BlankPiece(cur: string)
    requires AllSpace(cur)
    ensures OneSelector(cur) == []
  {
    TrimSpace(cur);
  }

  /** White space before a name only pads it. */
  lemma {:induction false} GapCollected(gap: string, rest: string, cur: string) returns (pad: string)
    requires AllSpace(gap) && AllSpace(cur)
    ensures AllSpace(pad) && SelectorsIn(gap + rest, cur) == SelectorsIn(rest, pad)
    decreases |gap|
  {
    if gap == "" {
      assert gap + rest == rest;
      pad := cur;
    } else {
      assert (gap + rest)[1..] == gap[1..] + rest;
      BlankPiece(cur);
      pad := GapCollected(gap[1..], rest, if SplitsSelectors(gap[0]) then "" else cur + [gap[0]]);
    }
  }

  lemma {:induction false} SelectorListReadBack(sels: seq<Selector>, gap: string, pad: string)
    requires sels != [] && AllSpace(gap) && AllSpace(pad)
    requires forall i :: 0 <= i < |sels| ==> WellFormedSelector(sels[i])
    ensures SelectorsIn(SelectorListText(sels, gap), pad) == sels
    decreases |sels|
  {
    hide ParseSelector, SelectorText, WellFormedSelector, AllSpace;
    var name := SelectorText(sels[0]);
    SelectorTextIsName(sels[0]);
    SelectorReadBack(sels[0], pad);
    if |sels| == 1 {
      NameCollected(name, "", pad);
      assert name + "" == name;
    } else {
      var more := SelectorListText(sels[1..], gap);
      NameCollected(name, [','] + (gap + more), pad);
      assert SelectorListText(sels, gap) == name + ([','] + (gap + more));
      CommaSplits(gap + more, pad + name);
      NoSpace();
      var pad' := GapCollected(gap, more, "");
      SelectorListReadBack(sels[1..], gap, pad');
      assert [sels[0]] + sels[1..] == sels;
    }
  }

  lemma CommaSplits(rest: string, cur: string)
    ensures SelectorsIn([','] + rest, cur) == OneSelector(cur) + SelectorsIn(rest, "")
  {
    assert ([','] + rest)[1..] == rest;
  }

  lemma {:induction false} SelectorListIsText(sels: seq<Selector>, gap: string)
    requires sels != [] && AllSpace(gap)
    requires forall i :: 0 <= i < |sels| ==> WellFormedSelector(sels[i])
    ensures Trimmed(SelectorListText(sels, gap)) && Plain(SelectorListText(sels, gap))
    decreases |sels|
  {
    var name := SelectorText(sels[0]);
    SelectorTextIsName(sels[0]);
    if |sels| > 1 {
      var more := SelectorListText(sels[1..], gap);
      SelectorListIsText(sels[1..], gap);
      JoinedIsPlain(name, gap, more);
      assert name + [','] + gap + more == name + ([','] + gap + more);
    }
  }

  lemma JoinedIsPlain(name: string, gap: string, more: string)
    requires Plain(name) && AllSpace(gap) && Plain(more)
    ensures Plain(name + [','] + gap + more)
  {
    var s, g := name + [','] + gap + more, |name| + 1 + |gap|;
    forall i | 0 <= i < |s|
      ensures !IsStructural(s[i]) && !OpensComment(s, i)
    {
      if i < |name| {
        assert s[i] == name[i] && !IsStructural(name[i]) && !OpensComment(name, i);
        assert i + 1 < |name| ==> s[i + 1] == name[i + 1];
      } else if i >= g {
        assert s[i] == more[i - g] && !IsStructural(more[i - g]) && !OpensComment(more, i - g);
        assert i + 1 < |s| ==> s[i + 1] == more[i + 1 - g];
      }
    }
  }

  function DeclToks(decls: seq<(string, string)>): seq<Tok> {
    if decls == [] then []
    else [Ident(decls[0].0), Colon] + ([Ident(decls[0].1), Semi] + DeclToks(decls[1..]))
  }

  lemma {:induction false} DeclsTokenized(decls: seq<(string, string)>, pad: seq<Filler>, rest: string)
    requires WellFormedPad(pad) && forall i :: 0 <= i < |decls| ==> WellFormedDecl(decls[i])
    ensures Tokens(DeclsText(decls, pad, PadText(pad) + (['}'] + rest)), "")
         == DeclToks(decls) + ([RBrace] + Tokens(rest, ""))
    decreases |decls|
  {
    hide WellFormedPad, Tokens, Plain, Trimmed, PadText;
    var close := PadText(pad) + (['}'] + rest);
    if decls == [] {
      PadOnly(pad, '}', rest);
      assert DeclToks(decls) + ([RBrace] + Tokens(rest, "")) == [RBrace] + Tokens(rest, "");
    } else {
      var (k, v) := decls[0];
      assert WellFormedDecl(decls[0]);
      var more, after := DeclsText(decls[1..], pad, close), [RBrace] + Tokens(rest, "");
      var value := PadText(pad) + (v + (PadText(pad) + ([';'] + more)));
      PaddedIdent(pad, k, pad, ':', value);
      PaddedIdent(pad, v, pad, ';', more);
      DeclsTokenized(decls[1..], pad, rest);
      RegroupDecl(k, v, DeclToks(decls[1..]), after);
    }
  }

  lemma RegroupDecl(k: string, v: string, more: seq<Tok>, after: seq<Tok>)
    ensures [Ident(k), Colon] + ([Ident(v), Semi] + more) + after
         == [Ident(k), Colon] + ([Ident(v), Semi] + (more + after))
  {
  }

  lemma {:induction false} DeclsReadBack(decls: seq<(string, string)>, rest: seq<Tok>)
    requires forall i :: 0 <= i < |decls| ==> WellFormedDecl(decls[i])
    ensures Block(DeclToks(decls) + ([RBrace] + rest), None) == (decls, rest)
    decreases |decls|
  {
    var end := [RBrace] + rest;
    if decls == [] {
      assert DeclToks(decls) + end == end;
    } else {
      var (k, v) := decls[0];
      assert WellFormedDecl(decls[0]);
      var more := DeclToks(decls[1..]) + end;
      assert DeclToks(decls) + end == [Ident(k)] + ([Colon] + ([Ident(v)] + ([Semi] + more)));
      DeclsReadBack(decls[1..], rest);
      assert "" + v + "" == v;
      TrimPadded("", v, "");
      BlockOfDecl(k, v, more);
      assert [(k, v)] + decls[1..] == decls;
    }
  }

  lemma BlockOfDecl(k: string, v: string, more: seq<Tok>)
    requires Lower(k) == k && Trim(v) == v
    ensures var (decls, rest) := Block(more, None);
      Block([Ident(k)] + ([Colon] + ([Ident(v)] + ([Semi] + more))), None) == ([(k, v)] + decls, rest)
  {
    var t3 := [Semi] + more;
    var t2 := [Ident(v)] + t3;
    var t1 := [Colon] + t2;
    var t0 := [Ident(k)] + t1;
    assert t0[1..] == t1 && t1[1..] == t2 && t2[1..] == t3 && t3[1..] == more;
    assert Block(t0, None) == Block(t1, Some(k)) == Block(t2, Some(k));
    assert Block(t3, None) == Block(more, None);
  }

  /**
   Printing a well-formed stylesheet, with any white space and any comments between its pieces, and parsing the text
   gives back the same rules in the same order.
   */
  lemma {:induction false} SheetReadBack(rules: seq<Rule>, gap: string, pad: seq<Filler>)
    requires AllSpace(gap) && WellFormedPad(pad) && forall i :: 0 <= i < |rules| ==> WellFormedRule(rules[i])
    ensures ParseSheet(SheetText(rules, gap, pad)) == rules
    decreases |rules|
  {
    hide AllSpace, Plain, Trimmed, Tokens, Block, SelectorsIn, WellFormedSelector, WellFormedDecl, WellFormedPad;
    if rules == [] {
      PadAlone(pad);
    } else {
      var r, more := rules[0], SheetText(rules[1..], gap, pad);
      var text, rest := SelectorListText(r.selectors, gap), Tokens(more, "");
      assert WellFormedRule(r);
      RuleTokenized(r, gap, pad, more);
      RuleReadBack(r, text, rest, gap);
      SheetReadBack(rules[1..], gap, pad);
      assert [r] + rules[1..] == rules;
    }
  }

  /** Comments and white space alone are no rules. */
  lemma PadAlone(pad: seq<Filler>)
    requires WellFormedPad(pad)
    ensures ParseSheet(PadText(pad)) == []
  {
    hide AllSpace, Flush, WellFormedPad, PadText;
    NoSpace();
    var run := PadBefore(pad, "", "");
    assert PadText(pad) + "" == PadText(pad);
    BlankFlush(run);
  }

  function RuleToks(r: Rule, text: string, rest: seq<Tok>): seq<Tok> {
    [Ident(text), LBrace] + (DeclToks(r.decls) + ([RBrace] + rest))
  }

  lemma RuleTokenized(r: Rule, gap: string, pad: seq<Filler>, more: string)
    requires WellFormedRule(r) && AllSpace(gap) && WellFormedPad(pad)
    ensures var text := SelectorListText(r.selectors, gap);
      Tokens(PadText(pad) + (text + (PadText(pad) +
        (['{'] + DeclsText(r.decls, pad, PadText(pad) + (['}'] + more))))), "")
      == RuleToks(r, text, Tokens(more, ""))
  {
    hide AllSpace, Plain, Trimmed, Tokens, WellFormedPad, PadText;
    var text := SelectorListText(r.selectors, gap);
    SelectorListIsText(r.selectors, gap);
    PaddedIdent(pad, text, pad, '{', DeclsText(r.decls, pad, PadText(pad) + (['}'] + more)));
    DeclsTokenized(r.decls, pad, more);
  }

  /** The tokens of one rule are read back as that rule, and parsing goes on after it. */
  lemma RuleReadBack(r: Rule, text: string, rest: seq<Tok>, gap: string)
    requires WellFormedRule(r) && AllSpace(gap) && text == SelectorListText(r.selectors, gap)
    ensures Rules(RuleToks(r, text, rest)) == [r] + Rules(rest)
  {
    hide AllSpace, Block, SelectorsIn, WellFormedSelector, WellFormedDecl;
    var body := DeclToks(r.decls) + ([RBrace] + rest);
    PreludeOfOne(text, body);
    DeclsReadBack(r.decls, rest);
    NoSpace();
    SelectorListReadBack(r.selectors, gap, "");
    assert AllSelectors([text]) == r.selectors + [] == r.selectors;
  }

  lemma PreludeOfOne(text: string, body: seq<Tok>)
    ensures Prelude([Ident(text), LBrace] + body) == Some(([text], body))
  {
    var ts := [Ident(text), LBrace] + body;
    assert ts[1..][0] == LBrace && ts[1..][1..] == body;
    assert Prelude(ts[1..]) == Some(([], body));
    assert [text] + [] == [text];
  }
}
