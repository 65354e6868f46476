/**
 * The text editor as a flat text with one offset, and the line buffer that represents it
 * (desktop-metal/src/editor.rs:84-209). A `char` stands for one byte of ASCII text.
 */
module EditorText {
  import opened MachineWords
  import opened Options
  import opened Ansi

  const TAB_WIDTH := 4

  // ---- the flat editor ----

  datatype Doc = Doc(text: string, pos: nat, clip: Option<string>, dirty: bool) {
    predicate Valid() {
      pos <= |text|
    }

    function Insert(s: string): (d: Doc)
      requires Valid()
      ensures d.Valid()
    {
      Doc(text[..pos] + s + text[pos..], pos + |s|, clip, true)
    }

    /** Removes the character at `i` and stands there. */
    function RemoveAt(i: nat): (d: Doc)
      requires Valid() && i < |text|
      ensures d.Valid()
    {
      Doc(text[..i] + text[i + 1..], i, clip, true)
    }
  }

  /** Where the line of offset `p` starts. */
  function LineStart(t: string, p: nat): (r: nat)
    requires p <= |t|
    ensures r <= p
  {
    if p == 0 || t[p - 1] == '\n' then p else LineStart(t, p - 1)
  }

  /** Where the line of offset `p` ends. */
  function LineEnd(t: string, p: nat): (r: nat)
    requires p <= |t|
    ensures p <= r <= |t|
    decreases |t| - p
  {
    if p == |t| || t[p] == '\n' then p else LineEnd(t, p + 1)
  }

  predicate Printable(c: char) {
    ' ' <= c <= '~'
  }

  /** The characters of the clipboard that a paste keeps. */
  function Kept(s: string): string {
    if s == "" then ""
    else (if s[0] == '\n' || Printable(s[0]) then [s[0]] else "") + Kept(s[1..])
  }

  function Spaces(n: nat): (s: string)
    ensures |s| == n
  {
    if n == 0 then "" else Spaces(n - 1) + " "
  }

  /** One line up or down keeps the column where the other line is long enough. */
  function UpFrom(t: string, p: nat): (r: nat)
    requires p <= |t|
    ensures r <= |t|
  {
    var start := LineStart(t, p);
    if start == 0 then p
    else
      var above := LineStart(t, start - 1);
      above + Min(p - start, start - 1 - above)
  }

  function DownFrom(t: string, p: nat): (r: nat)
    requires p <= |t|
    ensures r <= |t|
  {
    var end := LineEnd(t, p);
    if end == |t| then p
    else end + 1 + Min(p - LineStart(t, p), LineEnd(t, end + 1) - (end + 1))
  }

  /** What each key does to the flat text. */
  function Apply(d: Doc, k: Key): (r: Doc)
    requires d.Valid()
    ensures r.Valid()
  {
    match k
    case NoKey => d
    case Up => d.(pos := UpFrom(d.text, d.pos))
    case Down => d.(pos := DownFrom(d.text, d.pos))
    case Right => if d.pos < |d.text| then d.(pos := d.pos + 1) else d
    case Left => if d.pos > 0 then d.(pos := d.pos - 1) else d
    case Home => d.(pos := LineStart(d.text, d.pos))
    case End => d.(pos := LineEnd(d.text, d.pos))
    case Delete => if d.pos < |d.text| then d.RemoveAt(d.pos) else d
    case Char(c) =>
      if c == 0x03 then d.(clip := Some(d.text[LineStart(d.text, d.pos)..LineEnd(d.text, d.pos)]))
      else if c == 0x16 then if d.clip.Some? then d.Insert(Kept(d.clip.value)) else d
      else if c == 10 || c == 13 then d.Insert("\n")
      else if c == 0x08 || c == 0x7F then if d.pos > 0 then d.RemoveAt(d.pos - 1) else d
      else if c == 9 then d.Insert(Spaces(TAB_WIDTH))
      else if 32 <= c <= 126 then d.Insert([c as char])
      else d
  }

  // ---- the line buffer ----

  predicate NoBreak(s: string) {
    forall k :: 0 <= k < |s| ==> s[k] != '\n'
  }

  predicate ValidLines(lines: seq<string>) {
    lines != [] && forall k :: 0 <= k < |lines| ==> NoBreak(lines[k])
  }

  /** The text before a line: every earlier line with its newline. */
  function Before(ls: seq<string>): string {
    if ls == [] then "" else Before(ls[..|ls| - 1]) + ls[|ls| - 1] + "\n"
  }

  /** The text after a line: every later line behind a newline. */
  function After(ls: seq<string>): string {
    if ls == [] then "" else "\n" + ls[0] + After(ls[1..])
  }

  /** `lines.join("\n")`. */
  function Join(lines: seq<string>): string
    requires lines != []
  {
    lines[0] + After(lines[1..])
  }

  function Offset(lines: seq<string>, line: nat, col: nat): nat
    requires line < |lines|
  {
    |Before(lines[..line])| + col
  }

  /** The text around line `l`. */
  lemma {:induction false} JoinAround(lines: seq<string>, l: nat)
    requires l < |lines|
    ensures Join(lines) == Before(lines[..l]) + lines[l] + After(lines[l + 1..])
  {
    if l == 0 {
      assert Before(lines[..0]) == "";
    } else {
      JoinAround(lines, l - 1);
      BeforeNext(lines, l - 1);
      assert lines[l..][0] == lines[l] && lines[l..][1..] == lines[l + 1..];
    }
  }

  lemma BeforeNext(lines: seq<string>, l: nat)
    requires l < |lines|
    ensures Before(lines[..l + 1]) == Before(lines[..l]) + lines[l] + "\n"
  {
    assert lines[..l + 1][..l] == lines[..l];
  }

  lemma AfterNext(lines: seq<string>, l: nat)
    requires l + 1 < |lines|
    ensures After(lines[l + 1..]) == "\n" + lines[l + 1] + After(lines[l + 2..])
  {
    assert lines[l + 1..][1..] == lines[l + 2..];
  }

  lemma BeforeEnds(ls: seq<string>)
    ensures Before(ls) == "" <==> ls == []
    ensures ls != [] ==> Before(ls)[|Before(ls)| - 1] == '\n'
  {
  }

  /** The line of an offset is found from the text alone. */
  lemma LineBounds(lines: seq<string>, l: nat, c: nat)
    requires ValidLines(lines) && l < |lines| && c <= |lines[l]|
    ensures Offset(lines, l, c) <= |Join(lines)|
    ensures LineStart(Join(lines), Offset(lines, l, c)) == Offset(lines, l, 0)
    ensures LineEnd(Join(lines), Offset(lines, l, c)) == Offset(lines, l, |lines[l]|)
  {
    hide Join, Before, After, LineStart, LineEnd;
    JoinAround(lines, l);
    var (b, s, a) := (Before(lines[..l]), lines[l], After(lines[l + 1..]));
    BeforeEnds(lines[..l]);
    StartWithin(b, s, a, c);
    AfterStarts(lines[l + 1..]);
    EndWithin(b, s, a, c);
  }

  lemma AfterStarts(ls: seq<string>)
    ensures After(ls) == "" <==> ls == []
    ensures ls != [] ==> After(ls)[0] == '\n'
  {
  }

  lemma {:induction false} StartWithin(b: string, s: string, a: string, c: nat)
    requires NoBreak(s) && c <= |s| && (b == "" || b[|b| - 1] == '\n')
    ensures LineStart(b + s + a, |b| + c) == |b|
  {
    var t := b + s + a;
    if c == 0 {
      assert b != "" ==> t[|b| - 1] == b[|b| - 1];
    } else {
      assert t[|b| + c - 1] == s[c - 1];
      StartWithin(b, s, a, c - 1);
    }
  }

  lemma {:induction false} EndWithin(b: string, s: string, a: string, c: nat)
    requires NoBreak(s) && c <= |s| && (a == "" || a[0] == '\n')
    ensures LineEnd(b + s + a, |b| + c) == |b| + |s|
    decreases |s| - c
  {
    var t := b + s + a;
    if c == |s| {
      assert a != "" ==> t[|b| + c] == a[0];
    } else {
      assert t[|b| + c] == s[c];
      EndWithin(b, s, a, c + 1);
    }
  }

  // ---- edits of the line buffer ----

  lemma SpliceWithin(b: string, s: string, a: string, c: nat, x: string)
    requires c <= |s|
    ensures var t := b + s + a;
      t[..|b| + c] + x + t[|b| + c..] == b + (s[..c] + x + s[c..]) + a
  {
    var t := b + s + a;
    assert t[..|b| + c] == b + s[..c];
    assert t[|b| + c..] == s[c..] + a;
  }

  lemma RemoveWithin(b: string, s: string, a: string, c: nat)
    requires c < |s|
    ensures var t := b + s + a;
      t[..|b| + c] + t[|b| + c + 1..] == b + (s[..c] + s[c + 1..]) + a
  {
    var t := b + s + a;
    assert t[..|b| + c] == b + s[..c];
    assert t[|b| + c + 1..] == s[c + 1..] + a;
  }

  /** Replacing one line. */
  lemma ReplaceLine(lines: seq<string>, l: nat, s: string)
    requires l < |lines|
    ensures Join(lines[l := s]) == Before(lines[..l]) + s + After(lines[l + 1..])
    ensures Before(lines[l := s][..l]) == Before(lines[..l])
  {
    hide Join, Before, After;
    JoinAround(lines[l := s], l);
    assert lines[l := s][..l] == lines[..l] && lines[l := s][l + 1..] == lines[l + 1..];
  }

  lemma InsertInLine(lines: seq<string>, l: nat, c: nat, x: string)
    requires ValidLines(lines) && l < |lines| && c <= |lines[l]| && NoBreak(x)
    ensures var after := lines[l := lines[l][..c] + x + lines[l][c..]]; var p := Offset(lines, l, c);
      && ValidLines(after) && p <= |Join(lines)|
      && Join(after) == Join(lines)[..p] + x + Join(lines)[p..]
      && Offset(after, l, c + |x|) == p + |x|
  {
    hide Join, Before, After;
    JoinAround(lines, l);
    ReplaceLine(lines, l, lines[l][..c] + x + lines[l][c..]);
    SpliceWithin(Before(lines[..l]), lines[l], After(lines[l + 1..]), c, x);
  }

  lemma RemoveInLine(lines: seq<string>, l: nat, c: nat)
    requires ValidLines(lines) && l < |lines| && c < |lines[l]|
    ensures var after := lines[l := lines[l][..c] + lines[l][c + 1..]]; var p := Offset(lines, l, c);
      && ValidLines(after) && p < |Join(lines)|
      && Join(after) == Join(lines)[..p] + Join(lines)[p + 1..]
      && Offset(after, l, c) == p
  {
    hide Join, Before, After;
    JoinAround(lines, l);
    ReplaceLine(lines, l, lines[l][..c] + lines[l][c + 1..]);
    RemoveWithin(Before(lines[..l]), lines[l], After(lines[l + 1..]), c);
  }

  function Broken(lines: seq<string>, l: nat, c: nat): seq<string>
    requires l < |lines| && c <= |lines[l]|
  {
    lines[..l] + [lines[l][..c], lines[l][c..]] + lines[l + 1..]
  }

  lemma BreakInLine(lines: seq<string>, l: nat, c: nat)
    requires ValidLines(lines) && l < |lines| && c <= |lines[l]|
    ensures var after := Broken(lines, l, c); var p := Offset(lines, l, c);
      && ValidLines(after) && p <= |Join(lines)|
      && Join(after) == Join(lines)[..p] + "\n" + Join(lines)[p..]
      && Offset(after, l + 1, 0) == p + 1
  {
    hide Join, Before, After;
    var after := Broken(lines, l, c);
    var (b, s, a) := (Before(lines[..l]), lines[l], After(lines[l + 1..]));
    JoinAround(lines, l);
    JoinAround(after, l);
    AfterNext(after, l);
    BeforeNext(after, l);
    assert after[..l] == lines[..l] && after[l + 2..] == lines[l + 1..];
    SpliceWithin(b, s, a, c, "\n");
    assert Join(after) == b + (s[..c] + "\n" + s[c..]) + a;
  }

  function Merged(lines: seq<string>, l: nat): seq<string>
    requires l + 1 < |lines|
  {
    lines[..l] + [lines[l] + lines[l + 1]] + lines[l + 2..]
  }

  /** Merging a line with the next one removes the newline at its end. */
  lemma MergeLines(lines: seq<string>, l: nat)
    requires ValidLines(lines) && l + 1 < |lines|
    ensures var after := Merged(lines, l); var p := Offset(lines, l, |lines[l]|);
      && ValidLines(after) && p < |Join(lines)|
      && Join(after) == Join(lines)[..p] + Join(lines)[p + 1..]
      && Offset(after, l, |lines[l]|) == p && Offset(lines, l + 1, 0) == p + 1
  {
    hide Join, Before, After;
    var after := Merged(lines, l);
    var (b, s, a) := (Before(lines[..l]), lines[l], After(lines[l + 2..]));
    JoinAround(lines, l);
    AfterNext(lines, l);
    BeforeNext(lines, l);
    JoinAround(after, l);
    assert after[..l] == lines[..l] && after[l + 1..] == lines[l + 2..];
    var t := s + "\n" + lines[l + 1];
    assert t[..|s|] + t[|s| + 1..] == s + lines[l + 1];
    assert Join(lines) == b + t + a;
    RemoveWithin(b, t, a, |s|);
  }
}
