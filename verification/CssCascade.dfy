/**
 The cascade (desktop-metal/src/tcss.rs:94-129, 222-281, 440-535): matching, specificity, the in-place insertion sort
 and sequential overwriting, against the declarative winner of section 6.4.1 of CSS 2.1.
 */
module CssCascade {
  import opened Options
  import opened CssParse
  import opened CssValues

  datatype Element = Element(tag: string, id: Option<string>, classes: seq<string>)

  predicate Matches(sel: Selector, el: Element) {
    match sel
    case Universal => true
    case Tag(name) => el.tag == name
    case Id(name) => el.id == Some(name)
    case Class(name) => name in el.classes
  }

  /** (ids, classes, tags), as in section 6.4.3 of CSS 2.1. */
  function Specificity(sel: Selector): (nat, nat, nat) {
    match sel
    case Id(_) => (1, 0, 0)
    case Class(_) => (0, 1, 0)
    case Tag(_) => (0, 0, 1)
    case Universal => (0, 0, 0)
  }

  function Clamp(n: nat): nat {
    if n > 255 then 255 else n
  }

  /** The three counts side by side in one word, eight bits each. */
  function Pack(ids: nat, classes: nat, tags: nat): nat {
    Clamp(ids) * 0x1_0000 + Clamp(classes) * 0x100 + Clamp(tags)
  }

  function SpecCmp(a: nat, b: nat): int {
    (if a > b then 1 else 0) - (if a < b then 1 else 0)
  }

  predicate TripleLess(a: (nat, nat, nat), b: (nat, nat, nat)) {
    a.0 < b.0 || (a.0 == b.0 && (a.1 < b.1 || (a.1 == b.1 && a.2 < b.2)))
  }

  /** One comparison of packed words orders specificities as the triples are ordered, up to 255 of a kind. */
  lemma PackOrders(a: (nat, nat, nat), b: (nat, nat, nat))
    ensures var ca, cb := (Clamp(a.0), Clamp(a.1), Clamp(a.2)), (Clamp(b.0), Clamp(b.1), Clamp(b.2));
      var c := SpecCmp(Pack(a.0, a.1, a.2), Pack(b.0, b.1, b.2));
      (c == -1 <==> TripleLess(ca, cb)) && (c == 1 <==> TripleLess(cb, ca)) && (c == 0 <==> ca == cb)
  {
  }

  function SpecOf(sel: Selector): nat {
    var (i, c, t) := Specificity(sel);
    Pack(i, c, t)
  }

  predicate Dormant(r: Rule, el: Element) {
    forall sel :: sel in r.selectors ==> !Matches(sel, el)
  }

  /** The highest specificity among the matching selectors. */
  function BestSpec(sels: seq<Selector>, el: Element): Option<nat> {
    if sels == [] then None
    else
      var last := sels[|sels| - 1];
      var best := BestSpec(sels[..|sels| - 1], el);
      if !Matches(last, el) then best
      else
        match best
        case Some(b) => Some(if SpecCmp(SpecOf(last), b) == 1 then SpecOf(last) else b)
        case None => Some(SpecOf(last))
  }

  lemma {:induction false} BestSpecIsBest(sels: seq<Selector>, el: Element)
    ensures BestSpec(sels, el).None? <==> forall sel :: sel in sels ==> !Matches(sel, el)
    ensures BestSpec(sels, el).Some? ==>
      && (exists sel :: sel in sels && Matches(sel, el) && SpecOf(sel) == BestSpec(sels, el).value)
      && (forall sel :: sel in sels && Matches(sel, el) ==> SpecOf(sel) <= BestSpec(sels, el).value)
  {
    hide SpecOf, Matches;
    if sels != [] {
      var n := |sels| - 1;
      var rest, last := sels[..n], sels[n];
      BestSpecIsBest(rest, el);
      assert forall sel :: sel in sels <==> sel in rest || sel == last;
      if BestSpec(rest, el).Some? {
        var best :| best in rest && Matches(best, el) && SpecOf(best) == BestSpec(rest, el).value;
        assert best in sels;
      }
    }
  }

  // ---- the declarative meaning ----

  /** Rule `j` applies to the element and effectively declares `p`. */
  predicate Declares(rules: seq<Rule>, el: Element, p: Property, j: nat) {
    j < |rules| && BestSpec(rules[j].selectors, el).Some? && LastEffect(rules[j].decls, p).Some?
  }

  function Spec(rules: seq<Rule>, el: Element, j: nat): nat
    requires j < |rules|
  {
    match BestSpec(rules[j].selectors, el)
    case None => 0
    case Some(s) => s
  }

  /** Rule `i` comes before rule `j` in cascading order. */
  predicate Below(rules: seq<Rule>, el: Element, i: nat, j: nat)
    requires i < |rules| && j < |rules|
  {
    Spec(rules, el, i) < Spec(rules, el, j) || (Spec(rules, el, i) == Spec(rules, el, j) && i < j)
  }

  /** Among the rules that declare `p`, the one of highest specificity, and of those the last. */
  ghost predicate Wins(rules: seq<Rule>, el: Element, p: Property, w: nat) {
    && Declares(rules, el, p, w)
    && (forall j: nat :: Declares(rules, el, p, j) && j != w ==> Below(rules, el, j, w))
  }

  /** `v` is the cascaded value of `p`: from the inline style, else from the winning rule, else from the base. */
  ghost predicate Cascaded(rules: seq<Rule>, el: Element, inline: seq<(string, string)>, base: Style, p: Property,
                           v: Value)
  {
    if LastEffect(inline, p).Some? then v == LastEffect(inline, p).value
    else if exists w: nat :: Wins(rules, el, p, w) then
      exists w: nat :: Wins(rules, el, p, w) && v == LastEffect(rules[w].decls, p).value
    else v == Field(base, p)
  }

  ghost predicate IsCascade(rules: seq<Rule>, el: Element, inline: seq<(string, string)>, base: Style, cs: Style) {
    forall p :: Cascaded(rules, el, inline, base, p, Field(cs, p))
  }

  lemma NeverBothBelow(rules: seq<Rule>, el: Element, i: nat, j: nat)
    requires i < |rules| && j < |rules|
    ensures !(Below(rules, el, i, j) && Below(rules, el, j, i))
  {
  }

  lemma OneWinner(rules: seq<Rule>, el: Element, p: Property, v: nat, w: nat)
    requires Wins(rules, el, p, v) && Wins(rules, el, p, w)
    ensures v == w
  {
    NeverBothBelow(rules, el, v, w);
  }

  /** The description leaves no choice. */
  lemma CascadeIsUnique(rules: seq<Rule>, el: Element, inline: seq<(string, string)>, base: Style, a: Style, b: Style)
    requires IsCascade(rules, el, inline, base, a) && IsCascade(rules, el, inline, base, b)
    ensures a == b
  {
    forall p
      ensures Field(a, p) == Field(b, p)
    {
      assert Cascaded(rules, el, inline, base, p, Field(a, p)) && Cascaded(rules, el, inline, base, p, Field(b, p));
      forall v: nat, w: nat | Wins(rules, el, p, v) && Wins(rules, el, p, w)
        ensures v == w
      {
        OneWinner(rules, el, p, v, w);
      }
    }
    StyleByFields(a, b);
  }

  // ---- matched rules in cascading order ----

  datatype Entry = Entry(spec: nat, order: nat, decls: seq<(string, string)>)

  predicate EntryGreater(a: Entry, b: Entry) {
    var c := SpecCmp(a.spec, b.spec);
    c == 1 || (c == 0 && a.order > b.order)
  }

  ghost predicate Sorted(es: seq<Entry>) {
    forall i, j :: 0 <= i < j < |es| ==> !EntryGreater(es[i], es[j])
  }

  function EntryOf(rules: seq<Rule>, el: Element, j: nat): Entry
    requires j < |rules|
  {
    Entry(Spec(rules, el, j), j, rules[j].decls)
  }

  /** `es` lists the matching rules, each of them once, in some order. */
  ghost predicate ListsMatching(rules: seq<Rule>, el: Element, es: seq<Entry>) {
    && (forall i :: 0 <= i < |es| ==>
          && es[i].order < |rules| && es[i] == EntryOf(rules, el, es[i].order)
          && BestSpec(rules[es[i].order].selectors, el).Some?)
    && (forall j :: 0 <= j < |rules| && BestSpec(rules[j].selectors, el).Some? ==> EntryOf(rules, el, j) in es)
  }

  function ApplyEntries(cs: Style, es: seq<Entry>): Style
    decreases |es|
  {
    if es == [] then cs else ApplyEntries(ApplyAll(cs, es[0].decls), es[1..])
  }

  /** The last entry from `k` down that effectively declares `p`. */
  lemma {:induction false} ApplyEntriesKeepsLast(cs: Style, es: seq<Entry>, p: Property) returns (k: int)
    ensures -1 <= k < |es|
    ensures forall i :: k < i < |es| ==> LastEffect(es[i].decls, p) == None
    ensures k == -1 ==> Field(ApplyEntries(cs, es), p) == Field(cs, p)
    ensures k >= 0 ==> LastEffect(es[k].decls, p) == Some(Field(ApplyEntries(cs, es), p))
    decreases |es|
  {
    if es == [] {
      k := -1;
    } else {
      var cs' := ApplyAll(cs, es[0].decls);
      var k' := ApplyEntriesKeepsLast(cs', es[1..], p);
      ApplyAllKeepsLast(cs, es[0].decls, p);
      if k' >= 0 {
        k := k' + 1;
      } else {
        k := if LastEffect(es[0].decls, p).Some? then 0 else -1;
      }
      forall i | k < i < |es|
        ensures LastEffect(es[i].decls, p) == None
      {
        if i > 0 {
          assert es[i] == es[1..][i - 1];
        }
      }
    }
  }

  /** Overwriting in sorted order is the cascade. */
  lemma SortedOverwritingCascades(rules: seq<Rule>, el: Element, es: seq<Entry>, inline: seq<(string, string)>,
                                  base: Style)
    requires ListsMatching(rules, el, es) && Sorted(es)
    ensures IsCascade(rules, el, inline, base, ApplyAll(ApplyEntries(base, es), inline))
  {
    forall p
      ensures Cascaded(rules, el, inline, base, p, Field(ApplyAll(ApplyEntries(base, es), inline), p))
    {
      ApplyAllKeepsLast(ApplyEntries(base, es), inline, p);
      if LastEffect(inline, p).None? {
        SheetPart(rules, el, es, inline, base, p);
      }
    }
  }

  lemma SheetPart(rules: seq<Rule>, el: Element, es: seq<Entry>, inline: seq<(string, string)>, base: Style,
                  p: Property)
    requires ListsMatching(rules, el, es) && Sorted(es) && LastEffect(inline, p).None?
    ensures Cascaded(rules, el, inline, base, p, Field(ApplyEntries(base, es), p))
  {
    var k := ApplyEntriesKeepsLast(base, es, p);
    if k >= 0 {
      var w := es[k].order;
      forall j: nat | Declares(rules, el, p, j) && j != w
        ensures Below(rules, el, j, w)
      {
        EntryBelow(rules, el, es, p, k, j);
      }
      assert Wins(rules, el, p, w);
    } else {
      forall w: nat
        ensures !Declares(rules, el, p, w)
      {
        UndeclaredEverywhere(rules, el, es, p, w);
      }
    }
  }

  lemma UndeclaredEverywhere(rules: seq<Rule>, el: Element, es: seq<Entry>, p: Property, w: nat)
    requires ListsMatching(rules, el, es) && forall i :: 0 <= i < |es| ==> LastEffect(es[i].decls, p) == None
    ensures !Declares(rules, el, p, w)
  {
    if w < |rules| && BestSpec(rules[w].selectors, el).Some? {
      assert EntryOf(rules, el, w) in es;
    }
  }

  lemma EntryBelow(rules: seq<Rule>, el: Element, es: seq<Entry>, p: Property, k: nat, j: nat)
    requires ListsMatching(rules, el, es) && Sorted(es) && k < |es|
    requires forall i :: k < i < |es| ==> LastEffect(es[i].decls, p) == None
    requires Declares(rules, el, p, j) && j != es[k].order
    ensures Below(rules, el, j, es[k].order)
  {
    assert EntryOf(rules, el, j) in es;
    var i :| 0 <= i < |es| && es[i] == EntryOf(rules, el, j);
    assert i < k;
    assert !EntryGreater(es[i], es[k]);
  }

  // ---- the algorithm ----

  method MatchedRules(rules: seq<Rule>, el: Element) returns (es: seq<Entry>)
    ensures ListsMatching(rules, el, es)
  {
    hide BestSpec;
    es := [];
    var order := 0;
    while order < |rules|
      invariant 0 <= order <= |rules|
      invariant forall i :: 0 <= i < |es| ==>
        && es[i].order < order && es[i] == EntryOf(rules, el, es[i].order)
        && BestSpec(rules[es[i].order].selectors, el).Some?
      invariant forall j :: 0 <= j < order && BestSpec(rules[j].selectors, el).Some? ==> EntryOf(rules, el, j) in es
    {
      var best := BestMatch(rules[order].selectors, el);
      if best.Some? {
        es := es + [Entry(best.value, order, rules[order].decls)];
      }
      order := order + 1;
    }
  }

  /** The loop over one rule's selectors. */
  method BestMatch(sels: seq<Selector>, el: Element) returns (best: Option<nat>)
    ensures best == BestSpec(sels, el)
  {
    hide BestSpec, Matches, SpecOf, SpecCmp;
    best := None;
    var k := 0;
    NoSelectors(el);
    while k < |sels|
      invariant 0 <= k <= |sels| && best == BestSpec(sels[..k], el)
    {
      BestSpecStep(sels, k, el);
      if Matches(sels[k], el) {
        var s := SpecOf(sels[k]);
        best := match best
          case Some(b) => Some(if SpecCmp(s, b) == 1 then s else b)
          case None => Some(s);
      }
      k := k + 1;
    }
    assert sels[..k] == sels;
  }

  lemma NoSelectors(el: Element)
    ensures BestSpec([], el) == None
  {
  }

  lemma BestSpecStep(sels: seq<Selector>, k: nat, el: Element)
    requires k < |sels|
    ensures BestSpec(sels[..k + 1], el) ==
      if !Matches(sels[k], el) then BestSpec(sels[..k], el)
      else
        match BestSpec(sels[..k], el)
        case Some(b) => Some(if SpecCmp(SpecOf(sels[k]), b) == 1 then SpecOf(sels[k]) else b)
        case None => Some(SpecOf(sels[k]))
  {
    hide Matches, SpecOf, SpecCmp;
    assert sels[..k + 1][..k] == sels[..k];
  }

  /** Insertion sort in place. */
  method SortEntries(a: array<Entry>)
    modifies a
    ensures Sorted(a[..]) && multiset(a[..]) == multiset(old(a[..]))
  {
    var n := 1;
    while n < a.Length
      invariant 1 <= n && (n <= a.Length || a.Length == 0)
      invariant forall x, y :: 0 <= x < y < n && y < a.Length ==> !EntryGreater(a[x], a[y])
      invariant multiset(a[..]) == multiset(old(a[..]))
    {
      InsertEntry(a, n);
      n := n + 1;
    }
  }

  /** Swaps entry `n` down to its place among the sorted entries before it. */
  method InsertEntry(a: array<Entry>, n: nat)
    requires n < a.Length && forall x, y :: 0 <= x < y < n ==> !EntryGreater(a[x], a[y])
    modifies a
    ensures forall x, y :: 0 <= x < y <= n ==> !EntryGreater(a[x], a[y])
    ensures multiset(a[..]) == multiset(old(a[..]))
  {
    var j := n;
    while j > 0 && EntryGreater(a[j - 1], a[j])
      invariant 0 <= j <= n < a.Length
      invariant forall x, y :: 0 <= x < y <= n && y != j ==> !EntryGreater(a[x], a[y])
      invariant multiset(a[..]) == multiset(old(a[..]))
    {
      a[j - 1], a[j] := a[j], a[j - 1];
      j := j - 1;
    }
  }

  method ResolveWithBase(rules: seq<Rule>, el: Element, inline: string, base: Style) returns (cs: Style)
    ensures IsCascade(rules, el, ParseDecls(inline), base, cs)
  {
    hide ListsMatching, IsCascade, Sorted, ApplyAll, ParseDecls;
    var es := MatchedRules(rules, el);
    var a := new Entry[|es|](i requires 0 <= i < |es| => es[i]);
    assert a[..] == es;
    SortEntries(a);
    ghost var sorted := a[..];
    ListsMatchingPermuted(rules, el, es, sorted);
    cs := base;
    var k := 0;
    assert sorted[0..] == sorted;
    while k < a.Length
      invariant 0 <= k <= a.Length && a[..] == sorted
      invariant ApplyEntries(base, sorted) == ApplyEntries(cs, sorted[k..])
    {
      assert sorted[k..][0] == a[k] && sorted[k..][1..] == sorted[k + 1..];
      cs := Overwrite(cs, a[k].decls);
      k := k + 1;
    }
    cs := Overwrite(cs, ParseDecls(inline));
    SortedOverwritingCascades(rules, el, sorted, ParseDecls(inline), base);
  }

  method Overwrite(from: Style, decls: seq<(string, string)>) returns (cs: Style)
    ensures cs == ApplyAll(from, decls)
  {
    cs := from;
    var i := 0;
    assert decls[0..] == decls;
    while i < |decls|
      invariant 0 <= i <= |decls| && ApplyAll(from, decls) == ApplyAll(cs, decls[i..])
    {
      assert decls[i..][0] == decls[i] && decls[i..][1..] == decls[i + 1..];
      cs := ApplyDecl(cs, decls[i].0, decls[i].1);
      i := i + 1;
    }
  }

  lemma ListsMatchingPermuted(rules: seq<Rule>, el: Element, a: seq<Entry>, b: seq<Entry>)
    requires ListsMatching(rules, el, a) && multiset(a) == multiset(b)
    ensures ListsMatching(rules, el, b)
  {
    forall e
      ensures e in a <==> e in b
    {
      assert e in a <==> e in multiset(a);
      assert e in b <==> e in multiset(b);
    }
    forall i | 0 <= i < |b|
      ensures b[i].order < |rules| && b[i] == EntryOf(rules, el, b[i].order)
      ensures BestSpec(rules[b[i].order].selectors, el).Some?
    {
      assert b[i] in a;
      var k :| 0 <= k < |a| && a[k] == b[i];
    }
  }

  // ---- dormant rules ----

  function WithoutDormant(rules: seq<Rule>, el: Element): seq<Rule> {
    if rules == [] then []
    else
      var rest := WithoutDormant(rules[..|rules| - 1], el);
      var last := rules[|rules| - 1];
      if Dormant(last, el) then rest else rest + [last]
  }

  /** Taking out one dormant rule shifts the later ones and nothing else. */
  lemma ShiftedDeclares(rules: seq<Rule>, el: Element, p: Property, k: nat, j: nat)
    requires k < |rules| && Dormant(rules[k], el) && j != k
    ensures var rest := rules[..k] + rules[k + 1..];
      Declares(rest, el, p, if j < k then j else j - 1) == Declares(rules, el, p, j)
  {
  }

  lemma DormantNeverDeclares(rules: seq<Rule>, el: Element, p: Property, k: nat)
    requires k < |rules| && Dormant(rules[k], el)
    ensures !Declares(rules, el, p, k)
  {
    BestSpecIsBest(rules[k].selectors, el);
  }

  lemma ShiftedWins(rules: seq<Rule>, el: Element, p: Property, k: nat, w: nat)
    requires k < |rules| && Dormant(rules[k], el) && w != k && w < |rules|
    ensures var rest := rules[..k] + rules[k + 1..];
      Wins(rest, el, p, if w < k then w else w - 1) <==> Wins(rules, el, p, w)
  {
    hide BestSpec, LastEffect;
    var rest := rules[..k] + rules[k + 1..];
    var w' := if w < k then w else w - 1;
    DormantNeverDeclares(rules, el, p, k);
    ShiftedDeclares(rules, el, p, k, w);
    if Wins(rules, el, p, w) {
      forall j': nat | Declares(rest, el, p, j') && j' != w'
        ensures Below(rest, el, j', w')
      {
        var j := if j' < k then j' else j' + 1;
        ShiftedDeclares(rules, el, p, k, j);
        assert Below(rules, el, j, w);
      }
    }
    if Wins(rest, el, p, w') {
      forall j: nat | Declares(rules, el, p, j) && j != w
        ensures Below(rules, el, j, w)
      {
        ShiftedDeclares(rules, el, p, k, j);
        assert Below(rest, el, if j < k then j else j - 1, w');
      }
    }
  }

  lemma OneDormantRule(rules: seq<Rule>, el: Element, inline: seq<(string, string)>, base: Style, k: nat, cs: Style)
    requires k < |rules| && Dormant(rules[k], el) && IsCascade(rules, el, inline, base, cs)
    ensures IsCascade(rules[..k] + rules[k + 1..], el, inline, base, cs)
  {
    hide LastEffect;
    var rest := rules[..k] + rules[k + 1..];
    forall p
      ensures Cascaded(rest, el, inline, base, p, Field(cs, p))
    {
      assert Cascaded(rules, el, inline, base, p, Field(cs, p));
      if LastEffect(inline, p).None? {
        if w: nat :| Wins(rules, el, p, w) && Field(cs, p) == LastEffect(rules[w].decls, p).value {
          WinnerIsAwake(rules, el, p, k, w);
          ShiftedWins(rules, el, p, k, w);
          assert rest[if w < k then w else w - 1] == rules[w];
        } else {
          NoWinnerLeft(rules, el, p, k, rest);
        }
      }
    }
  }

  lemma WinnerIsAwake(rules: seq<Rule>, el: Element, p: Property, k: nat, w: nat)
    requires k < |rules| && Dormant(rules[k], el) && Wins(rules, el, p, w)
    ensures w != k && w < |rules|
  {
    DormantNeverDeclares(rules, el, p, k);
  }

  lemma NoWinnerLeft(rules: seq<Rule>, el: Element, p: Property, k: nat, rest: seq<Rule>)
    requires k < |rules| && Dormant(rules[k], el) && rest == rules[..k] + rules[k + 1..]
    requires forall w: nat :: !Wins(rules, el, p, w)
    ensures forall w: nat :: !Wins(rest, el, p, w)
  {
    hide Wins;
    forall w': nat
      ensures !Wins(rest, el, p, w')
    {
      if w' < |rest| {
        ShiftedWins(rules, el, p, k, if w' < k then w' else w' + 1);
      } else {
        BeyondTheEnd(rest, el, p, w');
      }
    }
  }

  lemma BeyondTheEnd(rules: seq<Rule>, el: Element, p: Property, w: nat)
    requires w >= |rules|
    ensures !Wins(rules, el, p, w)
  {
  }

  /** Leaving out the dormant rules never changes the style, whatever the inline style and the base. */
  lemma {:induction false} DormantRulesAreIrrelevant(rules: seq<Rule>, tail: seq<Rule>, el: Element,
                                                     inline: seq<(string, string)>, base: Style, cs: Style)
    requires IsCascade(rules + tail, el, inline, base, cs)
    ensures IsCascade(WithoutDormant(rules, el) + tail, el, inline, base, cs)
    decreases |rules|
  {
    if rules == [] {
      assert rules + tail == WithoutDormant(rules, el) + tail;
    } else {
      var n := |rules| - 1;
      var front, last := rules[..n], rules[n];
      assert (rules + tail)[..n] == front && (rules + tail)[n + 1..] == tail && (rules + tail)[n] == last;
      if Dormant(last, el) {
        OneDormantRule(rules + tail, el, inline, base, n, cs);
        DormantRulesAreIrrelevant(front, tail, el, inline, base, cs);
      } else {
        assert rules + tail == front + ([last] + tail);
        DormantRulesAreIrrelevant(front, [last] + tail, el, inline, base, cs);
        assert WithoutDormant(rules, el) + tail == WithoutDormant(front, el) + ([last] + tail);
      }
    }
  }
}
