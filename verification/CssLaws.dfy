/**
 What style values mean in the words of CSS: selector kinds in the cascade (section 6.4.3 of CSS 2.1), printed colours,
 sizes and inline declarations read back (desktop-metal/src/tcss.rs:109-119, 231-294, 338-438).
 */
module CssLaws {
  import opened Options
  import opened CssText
  import opened CssParse
  import opened CssValues
  import opened CssCascade

  /** The selectors that match an element: its tag, its id, each of its classes, and the universal one. */
  lemma MatchingSelectors(sel: Selector, el: Element)
    ensures Matches(sel, el) <==>
      || sel == Universal || sel == Tag(el.tag)
      || (el.id.Some? && sel == Id(el.id.value))
      || exists c :: c in el.classes && sel == Class(c)
  {
  }

  // ---- the cascade by kinds of selectors ----

  datatype Kind = ById | ByClass | ByTag | ByAny

  predicate OfKind(sel: Selector, k: Kind) {
    match k
    case ById => sel.Id?
    case ByClass => sel.Class?
    case ByTag => sel.Tag?
    case ByAny => sel.Universal?
  }

  /** Rule `j` effectively declares `p` and one of its selectors of kind `k` matches. */
  ghost predicate SetsBy(rules: seq<Rule>, el: Element, p: Property, k: Kind, j: nat) {
    && j < |rules| && LastEffect(rules[j].decls, p).Some?
    && exists sel :: sel in rules[j].selectors && OfKind(sel, k) && Matches(sel, el)
  }

  ghost predicate NoneBy(rules: seq<Rule>, el: Element, p: Property, k: Kind) {
    forall j: nat :: !SetsBy(rules, el, p, k, j)
  }

  ghost predicate LastBy(rules: seq<Rule>, el: Element, p: Property, k: Kind, w: nat) {
    SetsBy(rules, el, p, k, w) && forall j: nat :: SetsBy(rules, el, p, k, j) ==> j <= w
  }

  /** No rule sets `p` by a kind that outranks `k`: ids outrank classes, classes tags, tags the universal selector. */
  ghost predicate Foremost(rules: seq<Rule>, el: Element, p: Property, k: Kind) {
    match k
    case ById => true
    case ByClass => NoneBy(rules, el, p, ById)
    case ByTag => NoneBy(rules, el, p, ById) && NoneBy(rules, el, p, ByClass)
    case ByAny => NoneBy(rules, el, p, ById) && NoneBy(rules, el, p, ByClass) && NoneBy(rules, el, p, ByTag)
  }

  function Rank(k: Kind): nat {
    match k
    case ById => 0x1_0000
    case ByClass => 0x100
    case ByTag => 1
    case ByAny => 0
  }

  lemma RankOfSelector(sel: Selector, k: Kind)
    requires OfKind(sel, k)
    ensures SpecOf(sel) == Rank(k)
  {
    hide Pack;
    Packs();
  }

  lemma Packs()
    ensures Pack(1, 0, 0) == 0x1_0000 && Pack(0, 1, 0) == 0x100 && Pack(0, 0, 1) == 1 && Pack(0, 0, 0) == 0
  {
  }

  lemma KindOfRank(sel: Selector) returns (k: Kind)
    ensures OfKind(sel, k) && SpecOf(sel) == Rank(k)
  {
    k := match sel case Id(_) => ById case Class(_) => ByClass case Tag(_) => ByTag case Universal => ByAny;
  }

  /** A rule's specificity is the rank of the foremost kind by which it matches. */
  lemma SpecOfKind(rules: seq<Rule>, el: Element, p: Property, j: nat) returns (k: Kind)
    requires Declares(rules, el, p, j)
    ensures SetsBy(rules, el, p, k, j) && Spec(rules, el, j) == Rank(k)
    ensures forall k' :: SetsBy(rules, el, p, k', j) ==> Rank(k') <= Rank(k)
  {
    hide SpecOf, Matches, OfKind, Rank;
    var sels := rules[j].selectors;
    BestSpecIsBest(sels, el);
    var best :| best in sels && Matches(best, el) && SpecOf(best) == BestSpec(sels, el).value;
    k := KindOfRank(best);
    forall k' | SetsBy(rules, el, p, k', j)
      ensures Rank(k') <= Rank(k)
    {
      var sel :| sel in sels && OfKind(sel, k') && Matches(sel, el);
      RankOfSelector(sel, k');
    }
  }

  lemma SetsByDeclares(rules: seq<Rule>, el: Element, p: Property, k: Kind, j: nat)
    requires SetsBy(rules, el, p, k, j)
    ensures Declares(rules, el, p, j)
  {
    BestSpecIsBest(rules[j].selectors, el);
  }

  lemma ForemostWins(rules: seq<Rule>, el: Element, p: Property, k: Kind, w: nat)
    requires Foremost(rules, el, p, k) && LastBy(rules, el, p, k, w)
    ensures Wins(rules, el, p, w)
  {
    hide SetsBy, Declares, Spec;
    SetsByDeclares(rules, el, p, k, w);
    var kw := SpecOfKind(rules, el, p, w);
    assert kw == k by { NoHigher(rules, el, p, k, kw, w); }
    forall j: nat | Declares(rules, el, p, j) && j != w
      ensures j < |rules| && w < |rules| && Below(rules, el, j, w)
    {
      var kj := SpecOfKind(rules, el, p, j);
      DeclaresInside(rules, el, p, j);
      DeclaresInside(rules, el, p, w);
      NoHigher(rules, el, p, k, kj, j);
    }
  }

  lemma DeclaresInside(rules: seq<Rule>, el: Element, p: Property, j: nat)
    requires Declares(rules, el, p, j)
    ensures j < |rules|
  {
  }

  lemma NoHigher(rules: seq<Rule>, el: Element, p: Property, k: Kind, k': Kind, j: nat)
    requires Foremost(rules, el, p, k) && SetsBy(rules, el, p, k', j)
    ensures Rank(k') <= Rank(k) && (Rank(k') == Rank(k) ==> k' == k)
    ensures Rank(k') >= Rank(k) ==> k' == k
  {
    hide SetsBy;
  }

  /**
   Without an inline declaration, a property comes from the last rule that sets it by an id; if there is none, from
   the last one by a class, then by a tag, then by the universal selector; and from the base if no rule sets it.
   */
  lemma KindDecides(rules: seq<Rule>, el: Element, inline: seq<(string, string)>, base: Style, cs: Style, p: Property,
                    k: Kind, w: nat)
    requires IsCascade(rules, el, inline, base, cs) && LastEffect(inline, p) == None
    ensures Foremost(rules, el, p, k) && LastBy(rules, el, p, k, w) ==>
      w < |rules| && LastEffect(rules[w].decls, p) == Some(Field(cs, p))
    ensures Foremost(rules, el, p, ByAny) && NoneBy(rules, el, p, ByAny) ==> Field(cs, p) == Field(base, p)
  {
    hide Foremost, LastBy, NoneBy, Cascaded, Field, LastEffect;
    assert Cascaded(rules, el, inline, base, p, Field(cs, p));
    if Foremost(rules, el, p, k) && LastBy(rules, el, p, k, w) {
      ForemostWins(rules, el, p, k, w);
      FromWinner(rules, el, inline, base, p, Field(cs, p), w);
    }
    if Foremost(rules, el, p, ByAny) && NoneBy(rules, el, p, ByAny) {
      NoWinner(rules, el, p);
      FromBase(rules, el, inline, base, p, Field(cs, p));
    }
  }

  lemma FromWinner(rules: seq<Rule>, el: Element, inline: seq<(string, string)>, base: Style, p: Property, v: Value,
                   w: nat)
    requires Cascaded(rules, el, inline, base, p, v) && LastEffect(inline, p) == None && Wins(rules, el, p, w)
    ensures w < |rules| && LastEffect(rules[w].decls, p) == Some(v)
  {
    hide LastEffect, Below, BestSpec;
    var u: nat :| Wins(rules, el, p, u) && v == LastEffect(rules[u].decls, p).value;
    OneWinner(rules, el, p, u, w);
  }

  lemma FromBase(rules: seq<Rule>, el: Element, inline: seq<(string, string)>, base: Style, p: Property, v: Value)
    requires Cascaded(rules, el, inline, base, p, v) && LastEffect(inline, p) == None
    requires forall w: nat :: !Wins(rules, el, p, w)
    ensures v == Field(base, p)
  {
    hide LastEffect, Wins, Field;
  }

  lemma NoWinner(rules: seq<Rule>, el: Element, p: Property)
    requires Foremost(rules, el, p, ByAny) && NoneBy(rules, el, p, ByAny)
    ensures forall w: nat :: !Wins(rules, el, p, w)
  {
    hide SetsBy;
    forall w: nat
      ensures !Wins(rules, el, p, w)
    {
      if Declares(rules, el, p, w) {
        var k := SpecOfKind(rules, el, p, w);
        match k
        case ById =>
        case ByClass =>
        case ByTag =>
        case ByAny =>
      }
    }
  }

  // ---- colours ----

  function HexChar(d: nat): char
    requires d < 16
  {
    "0123456789abcdef"[d]
  }

  lemma HexCharReads(d: nat)
    requires d < 16
    ensures HexDigit(HexChar(d)) == Some(d) && HexChar(d) != '+' && !IsSpace(HexChar(d))
  {
  }

  function Hex2(b: nat): string
    requires b < 256
  {
    [HexChar(b / 16), HexChar(b % 16)]
  }

  lemma DigitsStep(s: string, radix: nat, acc: nat, d: nat)
    requires s != "" && HexDigit(s[0]) == Some(d) && d < radix && acc < 0x1_0000_0000
    ensures Digits(s, radix, acc) == Digits(s[1..], radix, acc * radix + d)
  {
  }

  lemma Hex2Reads(b: nat, rest: string, acc: nat)
    requires b < 256 && acc * 16 + 16 <= 0x1_0000_0000
    ensures Digits(Hex2(b) + rest, 16, acc) == Digits(rest, 16, acc * 256 + b)
  {
    hide HexChar, Digits, HexDigit;
    var s := Hex2(b) + rest;
    HexCharReads(b / 16);
    HexCharReads(b % 16);
    DigitsStep(s, 16, acc, b / 16);
    assert s[1..][0] == HexChar(b % 16) && s[1..][1..] == rest;
    DigitsStep(s[1..], 16, acc * 16 + b / 16, b % 16);
  }

  /** A colour printed as six digits, red first, is read back, whatever white space is around it. */
  lemma HexReadBack(r: nat, g: nat, b: nat, before: string, after: string)
    requires r < 256 && g < 256 && b < 256 && AllSpace(before) && AllSpace(after)
    ensures ParseColor(before + ("#" + Hex2(r) + Hex2(g) + Hex2(b)) + after) == Some(r * 0x1_0000 + g * 0x100 + b)
  {
    hide HexChar, Digits, HexDigit, Trim;
    var s, digits := "#" + Hex2(r) + Hex2(g) + Hex2(b), Hex2(r) + (Hex2(g) + (Hex2(b) + ""));
    HexCharReads(r / 16);
    HexCharReads(b % 16);
    NoSpace();
    TrimPadded(before, s, after);
    TrimPadded("", s, "");
    assert "" + s + "" == s && s[1..] == digits && digits[0] == HexChar(r / 16);
    Hex2Reads(r, Hex2(g) + (Hex2(b) + ""), 0);
    Hex2Reads(g, Hex2(b) + "", r);
    Hex2Reads(b, "", r * 256 + g);
    NoDigitsLeft((r * 256 + g) * 256 + b);
  }

  lemma NoDigitsLeft(acc: nat)
    requires acc < 0x1_0000_0000
    ensures Digits("", 16, acc) == Some(acc) && Digits("", 10, acc) == Some(acc)
  {
  }

  /** The short form stands for its digits doubled. */
  lemma ShortColour(x: nat, y: nat, z: nat)
    requires x < 16 && y < 16 && z < 16
    ensures ParseColor(['#', HexChar(x), HexChar(y), HexChar(z)])
      == ParseColor("#" + Hex2(x * 17) + Hex2(y * 17) + Hex2(z * 17))
  {
    hide HexChar, Digits, HexDigit, Trim;
    var s := ['#', HexChar(x), HexChar(y), HexChar(z)];
    HexCharReads(x);
    HexCharReads(y);
    HexCharReads(z);
    NoSpace();
    TrimPadded("", s, "");
    assert "" + s + "" == s;
    HexReadBack(x * 17, y * 17, z * 17, "", "");
    var t := "#" + Hex2(x * 17) + Hex2(y * 17) + Hex2(z * 17);
    assert "" + t + "" == t;
  }

  // ---- sizes ----

  function Decimal(n: nat): (s: string)
    ensures s != "" && forall i :: 0 <= i < |s| ==> '0' <= s[i] <= '9'
  {
    (if n < 10 then "" else Decimal(n / 10)) + [('0' as nat + n % 10) as char]
  }

  lemma {:induction false} DecimalReads(n: nat, rest: string)
    requires n < 0x1_0000_0000
    ensures Digits(Decimal(n) + rest, 10, 0) == Digits(rest, 10, n)
  {
    hide Digits;
    var d := [('0' as nat + n % 10) as char];
    var s := d + rest;
    assert s[1..] == rest && HexDigit(s[0]) == Some(n % 10);
    if n < 10 {
      assert Decimal(n) + rest == s;
      DigitsStep(s, 10, 0, n);
    } else {
      DecimalReads(n / 10, s);
      assert Decimal(n) + rest == Decimal(n / 10) + s;
      DigitsStep(s, 10, n / 10, n % 10);
    }
  }

  lemma DecimalParses(n: nat)
    requires n < 0x1_0000_0000
    ensures ParseU32(Decimal(n), 10) == Some(n)
  {
    hide Digits;
    DecimalReads(n, "");
    NoDigitsLeft(n);
    assert Decimal(n) + "" == Decimal(n);
  }

  lemma LowerKeeps(s: string)
    requires forall i :: 0 <= i < |s| ==> !('A' <= s[i] <= 'Z')
    ensures Lower(s) == s
  {
  }

  /** A size in pixels or points falls into one of three tiers: up to 12, up to 20, and above. */
  lemma SizeTiers(n: nat, unit: string)
    requires n < 0x1_0000_0000 && (unit == "px" || unit == "pt" || unit == "")
    ensures ParseFontSize(Decimal(n) + unit) == Some(if n <= 12 then AA_T else if n <= 20 then AA_S else AA_L)
  {
    hide Trim, Digits, ParseU32, Decimal, Lower, DropSuffix, ParseFontSize;
    var num := Decimal(n);
    var s := num + unit;
    NoSpace();
    TrimPadded("", s, "");
    TrimPadded("", num, "");
    assert "" + s + "" == s && "" + num + "" == num;
    LowerKeeps(s);
    assert '0' <= s[0] <= '9';
    Dropped(num, "px");
    Dropped(num, "pt");
    if unit == "pt" {
      NotDropped(s, "px");
      DroppedOnce(num, "pt");
    } else if unit == "px" {
      DroppedOnce(num, "px");
    } else {
      assert s == num;
    }
    DecimalParses(n);
    TierOf(s, n);
  }

  lemma TierOf(s: string, n: nat)
    requires Lower(Trim(s)) == s && s != "" && '0' <= s[0] <= '9'
    requires ParseU32(Trim(DropSuffix(DropSuffix(s, "px"), "pt")), 10) == Some(n)
    ensures ParseFontSize(s) == Some(if n <= 12 then AA_T else if n <= 20 then AA_S else AA_L)
  {
    hide Trim, ParseU32, Lower, DropSuffix;
    NoKeyword(s);
  }

  lemma NoKeyword(s: string)
    requires s != "" && '0' <= s[0] <= '9'
    ensures s != "xx-small" && s != "x-small" && s != "small" && s != "smaller" && s != "medium"
    ensures s != "large" && s != "x-large" && s != "xx-large" && s != "larger"
  {
    assert "xx-small"[0] == "x-small"[0] == "x-large"[0] == "xx-large"[0] == 'x' && "medium"[0] == 'm';
    assert "small"[0] == "smaller"[0] == 's' && "large"[0] == "larger"[0] == 'l';
  }

  lemma Dropped(num: string, suffix: string)
    requires num != "" && '0' <= num[|num| - 1] <= '9' && (suffix == "px" || suffix == "pt")
    ensures DropSuffix(num, suffix) == num
  {
    if |num| >= 2 {
      assert num[|num| - 2..][1] == num[|num| - 1];
    }
  }

  lemma NotDropped(s: string, suffix: string)
    requires |s| >= 2 && suffix == "px" && s[|s| - 1] == 't'
    ensures DropSuffix(s, suffix) == s
  {
    assert s[|s| - 2..][1] == 't';
  }

  lemma DroppedOnce(num: string, suffix: string)
    requires num != "" && '0' <= num[|num| - 1] <= '9' && (suffix == "px" || suffix == "pt")
    ensures DropSuffix(num + suffix, suffix) == num
  {
    var s := num + suffix;
    assert s[|s| - |suffix|..] == suffix && s[..|s| - |suffix|] == num;
    Dropped(num, suffix);
  }

  /** Numeric weights are bold from 600 on. */
  lemma WeightIsBold(n: nat)
    requires n < 0x1_0000_0000
    ensures IsBold(Decimal(n)) <==> n >= 600
  {
    hide Trim, Digits, ParseU32, Decimal, Lower;
    var num := Decimal(n);
    NoSpace();
    TrimPadded("", num, "");
    assert "" + num + "" == num && '0' <= num[0] <= '9';
    LowerKeeps(num);
    DecimalParses(n);
  }

  // ---- inline styles ----

  predicate WithoutChar(s: string, c: char) {
    forall i :: 0 <= i < |s| ==> s[i] != c
  }

  /** A property in lower case and a value, both trimmed; the value may hold a colon. */
  predicate WellFormedInline(d: (string, string)) {
    && Trimmed(d.0) && Lower(d.0) == d.0 && WithoutChar(d.0, ':') && WithoutChar(d.0, ';')
    && Trimmed(d.1) && WithoutChar(d.1, ';')
  }

  function InlineText(decls: seq<(string, string)>, gap: string, last: string): string {
    if decls == [] then ""
    else
      gap + decls[0].0 + gap + ":" + (gap + decls[0].1 + gap) +
      (if |decls| == 1 then last else ";" + InlineText(decls[1..], gap, last))
  }

  lemma {:induction false} FindSkips(a: string, c: char, b: string)
    requires WithoutChar(a, c) && (b == "" || b[0] == c)
    ensures Find(a + b, c) == |a|
  {
    if a == "" {
      assert a + b == b;
    } else {
      assert (a + b)[1..] == a[1..] + b;
      FindSkips(a[1..], c, b);
    }
  }

  lemma ChunkReads(k: string, v: string, gap: string)
    requires WellFormedInline((k, v)) && AllSpace(gap)
    ensures var chunk := gap + k + gap + ":" + (gap + v + gap);
      InlineDecl(chunk) == [(k, v)] && WithoutChar(chunk, ';')
  {
    hide Trim, Find, Lower;
    var left, right := gap + k + gap, gap + v + gap;
    var chunk := left + ":" + right;
    assert chunk == left + (":" + right);
    FindSkips(left, ':', ":" + right);
    assert chunk[..|left|] == left && chunk[|left| + 1..] == right;
    TrimPadded(gap, k, gap);
    TrimPadded(gap, v, gap);
  }

  /**
   A printed inline style is read back, with any white space around names and values, and with or without a last
   semicolon.
   */
  lemma {:induction false} InlineReadBack(decls: seq<(string, string)>, gap: string, last: string)
    requires AllSpace(gap) && (forall i :: 0 <= i < |decls| ==> WellFormedInline(decls[i]))
    requires last == "" || last == ";"
    ensures ParseDecls(InlineText(decls, gap, last)) == decls
    decreases |decls|
  {
    hide InlineDecl, Find, WellFormedInline, AllSpace, WithoutChar;
    NothingInline();
    if decls != [] {
      var (k, v) := decls[0];
      assert WellFormedInline(decls[0]);
      var chunk := gap + k + gap + ":" + (gap + v + gap);
      var rest := if |decls| == 1 then last else ";" + InlineText(decls[1..], gap, last);
      var s := chunk + rest;
      ChunkReads(k, v, gap);
      FindSkips(chunk, ';', rest);
      assert s[..|chunk|] == chunk;
      if rest != "" {
        assert s[|chunk| + 1..] == rest[1..];
      }
      if |decls| == 1 {
        assert [(k, v)] + [] == decls;
      } else {
        assert rest[1..] == InlineText(decls[1..], gap, last);
        InlineReadBack(decls[1..], gap, last);
        assert [(k, v)] + decls[1..] == decls;
      }
    }
  }

  lemma NothingInline()
    ensures ParseDecls("") == []
  {
  }
}
