/**
 Declared values and what they do to a computed style (desktop-metal/src/tcss.rs:283-294, 313-438).
 */
module CssValues {
  import opened Options
  import opened CssText

  datatype Style = Style(color: nat, fontSize: nat, bold: bool, align: int, hidden: bool)

  datatype Property = Color | FontSize | FontWeight | TextAlign | Display

  /** The value of one property. */
  datatype Value = Rgb(rgb: nat) | Tier(tier: nat) | Flag(on: bool) | Trit(trit: int)

  function Field(cs: Style, p: Property): Value {
    match p
    case Color => Rgb(cs.color)
    case FontSize => Tier(cs.fontSize)
    case FontWeight => Flag(cs.bold)
    case TextAlign => Trit(cs.align)
    case Display => Flag(cs.hidden)
  }

  lemma StyleByFields(a: Style, b: Style)
    requires forall p :: Field(a, p) == Field(b, p)
    ensures a == b
  {
    assert Field(a, Color) == Field(b, Color) && Field(a, FontSize) == Field(b, FontSize);
    assert Field(a, FontWeight) == Field(b, FontWeight) && Field(a, TextAlign) == Field(b, TextAlign);
    assert Field(a, Display) == Field(b, Display);
  }

  // ---- value forms ----

  const AA_T := 0
  const AA_S := 1
  const AA_L := 2

  function HexDigit(c: char): Option<nat> {
    if '0' <= c <= '9' then Some(c as nat - '0' as nat)
    else if 'a' <= c <= 'f' then Some(c as nat - 'a' as nat + 10)
    else if 'A' <= c <= 'F' then Some(c as nat - 'A' as nat + 10)
    else None
  }

  /** Digits of `s` in `radix`, after the value `acc`; nothing when one is not a digit or 32 bits overflow. */
  function Digits(s: string, radix: nat, acc: nat): Option<nat> {
    if acc >= 0x1_0000_0000 then None
    else if s == "" then Some(acc)
    else
      match HexDigit(s[0])
      case None => None
      case Some(d) => if d >= radix then None else Digits(s[1..], radix, acc * radix + d)
  }

  /** `u32::from_str_radix`: an optional plus sign and at least one digit. */
  function ParseU32(s: string, radix: nat): Option<nat> {
    var digits := if s != "" && s[0] == '+' then s[1..] else s;
    if digits == "" then None else Digits(digits, radix, 0)
  }

  function ParseHex(v: string): Option<nat> {
    var s := Trim(v);
    if s == "" || s[0] != '#' then None
    else if |s| == 4 then
      (match (HexDigit(s[1]), HexDigit(s[2]), HexDigit(s[3]))
       case (Some(r), Some(g), Some(b)) => Some(r * 17 * 0x1_0000 + g * 17 * 0x100 + b * 17)
       case _ => None)
    else if |s| == 7 then ParseU32(s[1..], 16)
    else None
  }

  function NamedColor(name: string): Option<nat> {
    var n := Trim(name);
    if n == "black" then Some(0x000000)
    else if n == "silver" then Some(0xC0C0C0)
    else if n == "gray" || n == "grey" then Some(0x808080)
    else if n == "white" then Some(0xFFFFFF)
    else if n == "maroon" then Some(0x800000)
    else if n == "red" then Some(0xFF0000)
    else if n == "purple" then Some(0x800080)
    else if n == "fuchsia" || n == "magenta" then Some(0xFF00FF)
    else if n == "green" then Some(0x008000)
    else if n == "lime" then Some(0x00FF00)
    else if n == "olive" then Some(0x808000)
    else if n == "yellow" then Some(0xFFFF00)
    else if n == "navy" then Some(0x000080)
    else if n == "blue" then Some(0x0000FF)
    else if n == "teal" then Some(0x008080)
    else if n == "aqua" || n == "cyan" then Some(0x00FFFF)
    else if n == "orange" then Some(0xFFA500)
    else None
  }

  function ParseColor(val: string): Option<nat> {
    var v := Trim(val);
    if v != "" && v[0] == '#' then ParseHex(v) else NamedColor(Lower(v))
  }

  function DropSuffix(s: string, suffix: string): string
    requires suffix != ""
    decreases |s|
  {
    if |s| >= |suffix| && s[|s| - |suffix|..] == suffix then DropSuffix(s[..|s| - |suffix|], suffix) else s
  }

  function ParseFontSize(val: string): Option<nat> {
    var v := Lower(Trim(val));
    if v == "xx-small" || v == "x-small" || v == "small" || v == "smaller" then Some(AA_T)
    else if v == "medium" then Some(AA_S)
    else if v == "large" || v == "x-large" || v == "xx-large" || v == "larger" then Some(AA_L)
    else
      match ParseU32(Trim(DropSuffix(DropSuffix(v, "px"), "pt")), 10)
      case None => None
      case Some(px) => Some(if px <= 12 then AA_T else if px <= 20 then AA_S else AA_L)
  }

  function IsBold(val: string): bool {
    var v := Lower(Trim(val));
    v == "bold" || v == "bolder" ||
    match ParseU32(v, 10)
    case None => false
    case Some(n) => n >= 600
  }

  function ParseAlign(val: string): Option<int> {
    var v := Lower(Trim(val));
    if v == "left" || v == "start" then Some(-1)
    else if v == "center" then Some(0)
    else if v == "right" || v == "end" then Some(1)
    else None
  }

  function IsNone(val: string): bool {
    Lower(Trim(val)) == "none"
  }

  // ---- declarations ----

  /** One declaration applied; a colour, size or alignment that cannot be read changes nothing. */
  function ApplyDecl(cs: Style, key: string, val: string): Style {
    if key == "color" then
      (match ParseColor(val) case None => cs case Some(c) => cs.(color := c))
    else if key == "font-size" then
      (match ParseFontSize(val) case None => cs case Some(t) => cs.(fontSize := t))
    else if key == "font-weight" then cs.(bold := IsBold(val))
    else if key == "text-align" then
      (match ParseAlign(val) case None => cs case Some(a) => cs.(align := a))
    else if key == "display" then cs.(hidden := IsNone(val))
    else cs
  }

  /** The value a declaration gives to `p`, if it is an effective declaration of `p`. */
  function Effect(d: (string, string), p: Property): Option<Value> {
    match p
    case Color =>
      if d.0 != "color" then None else (match ParseColor(d.1) case None => None case Some(c) => Some(Rgb(c)))
    case FontSize =>
      if d.0 != "font-size" then None else (match ParseFontSize(d.1) case None => None case Some(t) => Some(Tier(t)))
    case FontWeight => if d.0 == "font-weight" then Some(Flag(IsBold(d.1))) else None
    case TextAlign =>
      if d.0 != "text-align" then None else (match ParseAlign(d.1) case None => None case Some(a) => Some(Trit(a)))
    case Display => if d.0 == "display" then Some(Flag(IsNone(d.1))) else None
  }

  function Or(o: Option<Value>, v: Value): Value {
    match o
    case None => v
    case Some(w) => w
  }

  /** An effective declaration sets its own property and no other. */
  lemma ApplyDeclSets(cs: Style, d: (string, string), p: Property)
    ensures Field(ApplyDecl(cs, d.0, d.1), p) == Or(Effect(d, p), Field(cs, p))
  {
    hide ParseColor, ParseFontSize, ParseAlign, IsBold, IsNone;
    DistinctKeys();
  }

  lemma DistinctKeys()
    ensures "color" != "font-size" && "color" != "font-weight" && "color" != "text-align" && "color" != "display"
    ensures "font-size" != "font-weight" && "font-size" != "text-align" && "font-size" != "display"
    ensures "font-weight" != "text-align" && "font-weight" != "display" && "text-align" != "display"
  {
    assert "font-size"[5] == 's' && "font-weight"[5] == 'w';
    assert "text-align"[0] == 't' && "font-size"[0] == 'f' && "display"[0] == 'd' && "color"[0] == 'c';
  }

  function ApplyAll(cs: Style, decls: seq<(string, string)>): Style
    decreases |decls|
  {
    if decls == [] then cs else ApplyAll(ApplyDecl(cs, decls[0].0, decls[0].1), decls[1..])
  }

  /** The last effective declaration of `p`. */
  function LastEffect(decls: seq<(string, string)>, p: Property): Option<Value> {
    if decls == [] then None
    else
      var last := decls[|decls| - 1];
      if Effect(last, p).Some? then Effect(last, p) else LastEffect(decls[..|decls| - 1], p)
  }

  lemma {:induction false} ApplyAllAppend(cs: Style, a: seq<(string, string)>, b: seq<(string, string)>)
    ensures ApplyAll(cs, a + b) == ApplyAll(ApplyAll(cs, a), b)
    decreases |a|
  {
    if a == [] {
      assert a + b == b;
    } else {
      assert (a + b)[1..] == a[1..] + b;
      ApplyAllAppend(ApplyDecl(cs, a[0].0, a[0].1), a[1..], b);
    }
  }

  /** Sequential overwriting keeps the last effective declaration of every property. */
  lemma {:induction false} ApplyAllKeepsLast(cs: Style, decls: seq<(string, string)>, p: Property)
    ensures Field(ApplyAll(cs, decls), p) == Or(LastEffect(decls, p), Field(cs, p))
    decreases |decls|
  {
    if decls != [] {
      var n := |decls| - 1;
      var before := ApplyAll(cs, decls[..n]);
      assert decls == decls[..n] + [decls[n]];
      ApplyAllAppend(cs, decls[..n], [decls[n]]);
      assert ApplyAll(before, [decls[n]]) == ApplyDecl(before, decls[n].0, decls[n].1);
      ApplyDeclSets(before, decls[n], p);
      ApplyAllKeepsLast(cs, decls[..n], p);
    }
  }

  // ---- inline style ----

  /** The index of the first `c`, or the length. */
  function Find(s: string, c: char): (i: nat)
    ensures i <= |s|
  {
    if s == "" || s[0] == c then 0 else 1 + Find(s[1..], c)
  }

  /** One `property: value` piece; dropped when a side is missing or blank. */
  function InlineDecl(chunk: string): seq<(string, string)> {
    var i := Find(chunk, ':');
    if i == |chunk| then []
    else
      var k, v := Trim(chunk[..i]), Trim(chunk[i + 1..]);
      if k == "" || v == "" then [] else [(Lower(k), v)]
  }

  function ParseDecls(s: string): seq<(string, string)>
    decreases |s|
  {
    var i := Find(s, ';');
    InlineDecl(s[..i]) + if i == |s| then [] else ParseDecls(s[i + 1..])
  }
}
