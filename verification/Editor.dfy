/** The text editor over its line buffer (desktop-metal/src/editor.rs:33-209); each method refines the flat text. */
module Editor {
  import opened MachineWords
  import opened Options
  import opened Ansi
  import opened EditorText

  class TextEditor {
    var lines: seq<string>
    var cursorLine: nat
    var cursorCol: nat
    var dirty: bool
    var clipboard: Option<string>
    const ansi: AnsiParser

    /** The cursor stands in the document and no line holds a newline. */
    ghost predicate Valid()
      reads this
    {
      ValidLines(lines) && cursorLine < |lines| && cursorCol <= |lines[cursorLine]|
    }

    ghost function View(): (d: Doc)
      requires Valid()
      reads this
      ensures d.Valid()
    {
      LineBounds(lines, cursorLine, cursorCol);
      Doc(Join(lines), Offset(lines, cursorLine, cursorCol), clipboard, dirty)
    }

    /** Opens a file with the given contents. */
    constructor (content: string, clipboard: Option<string>)
      ensures Valid() && fresh(ansi) && ansi.state == Nothing
      ensures lines == OpenedLines(content) && View().pos == 0 && !dirty && this.clipboard == clipboard
    {
      OpenedLinesValid(content);
      lines := OpenedLines(content);
      cursorLine, cursorCol, dirty := 0, 0, false;
      this.clipboard := clipboard;
      ansi := new AnsiParser();
      new;
      assert lines[..0] == [];
    }

    method Save() returns (content: string)
      requires Valid()
      modifies this`dirty
      ensures Valid() && !dirty && content == View().text == old(View().text)
    {
      content := Join(lines);
      dirty := false;
    }

    /** One byte from the keyboard. */
    method SendKey(key: byte)
      requires Valid()
      modifies this, ansi
      ensures Valid()
      ensures var (s, k) := Step(old(ansi.state), key);
        ansi.state == s && View() == Apply(old(View()), k)
    {
      hide Join, Before, After, LineStart, LineEnd, UpFrom, DownFrom, Kept, Spaces, Step;
      var k := ansi.Feed(key);
      match k {
        case NoKey =>
        case Up => MoveUp();
        case Down => MoveDown();
        case Right => MoveRight();
        case Left => MoveLeft();
        case Home =>
          LineBounds(lines, cursorLine, cursorCol);
          cursorCol := 0;
        case End =>
          LineBounds(lines, cursorLine, cursorCol);
          cursorCol := |lines[cursorLine]|;
        case Delete => DeleteForward();
        case Char(c) => SendChar(c);
      }
      ClampCursor();
    }

    /** A literal byte: copy, paste, line break, erase, tab, or a printable character. */
    method SendChar(c: byte)
      requires Valid()
      modifies this
      ensures Valid() && View() == Apply(old(View()), Char(c))
    {
      hide Join, Before, After, LineStart, LineEnd, Kept, Spaces, Doc.RemoveAt;
      if c == 0x03 {
        CopyLine();
      } else if c == 0x16 {
        if clipboard.Some? {
          Paste(clipboard.value);
        }
      } else if c == 10 || c == 13 {
        BreakLine();
        dirty := true;
      } else if c == 0x08 || c == 0x7F {
        Backspace();
      } else if c == 9 {
        InsertSpaces();
      } else if 32 <= c <= 126 {
        InsertChar(c as char);
        dirty := true;
      }
    }

    /** Every byte stream edits the flat text as its decoded keys do. */
    method SendKeys(bytes: seq<byte>)
      requires Valid()
      modifies this, ansi
      ensures Valid()
      ensures View() == ApplyAll(old(View()), Decode(old(ansi.state), bytes))
      ensures ansi.state == StateAfter(old(ansi.state), bytes)
    {
      hide Join, Before, After, Step, Apply, ApplyAll, Decode, StateAfter;
      var i := 0;
      assert bytes[0..] == bytes;
      while i < |bytes|
        invariant 0 <= i <= |bytes| && Valid()
        invariant ApplyAll(old(View()), Decode(old(ansi.state), bytes)) ==
                  ApplyAll(View(), Decode(ansi.state, bytes[i..]))
        invariant StateAfter(old(ansi.state), bytes) == StateAfter(ansi.state, bytes[i..])
      {
        assert bytes[i..][0] == bytes[i] && bytes[i..][1..] == bytes[i + 1..];
        StreamStep(View(), ansi.state, bytes[i..]);
        SendKey(bytes[i]);
        i := i + 1;
      }
      assert bytes[i..] == [];
      StreamEnds(View(), ansi.state);
    }

    /** Brings the cursor back into the document. */
    method ClampCursor()
      requires lines != []
      modifies this`cursorLine, this`cursorCol
      ensures cursorLine == Min(old(cursorLine), |lines| - 1)
      ensures cursorCol == Min(old(cursorCol), |lines[cursorLine]|)
    {
      if cursorLine >= |lines| {
        cursorLine := |lines| - 1;
      }
      var maxCol := |lines[cursorLine]|;
      if cursorCol > maxCol {
        cursorCol := maxCol;
      }
    }

    method MoveUp()
      requires Valid()
      modifies this`cursorLine, this`cursorCol
      ensures Valid() && View() == Apply(old(View()), Up)
    {
      hide Join, Before, After, LineStart, LineEnd;
      LineBounds(lines, cursorLine, cursorCol);
      BeforeEnds(lines[..cursorLine]);
      if cursorLine > 0 {
        BeforeNext(lines, cursorLine - 1);
        LineBounds(lines, cursorLine - 1, |lines[cursorLine - 1]|);
        cursorLine := cursorLine - 1;
        ClampCursor();
      }
    }

    method MoveDown()
      requires Valid()
      modifies this`cursorLine, this`cursorCol
      ensures Valid() && View() == Apply(old(View()), Down)
    {
      hide Join, Before, After, LineStart, LineEnd;
      LineBounds(lines, cursorLine, cursorCol);
      LineEndsText(lines, cursorLine);
      if cursorLine + 1 < |lines| {
        BeforeNext(lines, cursorLine);
        LineBounds(lines, cursorLine + 1, 0);
        cursorLine := cursorLine + 1;
        ClampCursor();
      }
    }

    method MoveRight()
      requires Valid()
      modifies this`cursorLine, this`cursorCol
      ensures Valid() && View() == Apply(old(View()), Right)
    {
      hide Join, Before, After;
      LineEndsText(lines, cursorLine);
      if cursorCol < |lines[cursorLine]| {
        LineBounds(lines, cursorLine, cursorCol + 1);
        cursorCol := cursorCol + 1;
      } else if cursorLine + 1 < |lines| {
        BeforeNext(lines, cursorLine);
        cursorLine := cursorLine + 1;
        cursorCol := 0;
      }
    }

    method MoveLeft()
      requires Valid()
      modifies this`cursorLine, this`cursorCol
      ensures Valid() && View() == Apply(old(View()), Left)
    {
      hide Join, Before, After;
      BeforeEnds(lines[..cursorLine]);
      if cursorCol > 0 {
        cursorCol := cursorCol - 1;
      } else if cursorLine > 0 {
        BeforeNext(lines, cursorLine - 1);
        cursorLine := cursorLine - 1;
        cursorCol := |lines[cursorLine]|;
      }
    }

    method DeleteForward()
      requires Valid()
      modifies this`lines, this`dirty
      ensures Valid() && View() == Apply(old(View()), Delete)
    {
      hide Join, Before, After;
      LineEndsText(lines, cursorLine);
      var line := lines[cursorLine];
      if cursorCol < |line| {
        RemoveInLine(lines, cursorLine, cursorCol);
        lines := lines[cursorLine := line[..cursorCol] + line[cursorCol + 1..]];
        dirty := true;
      } else if cursorLine + 1 < |lines| {
        MergeLines(lines, cursorLine);
        lines := Merged(lines, cursorLine);
        dirty := true;
      }
    }

    method Backspace()
      requires Valid()
      modifies this`lines, this`cursorLine, this`cursorCol, this`dirty
      ensures Valid() && View() == Apply(old(View()), Char(0x08))
    {
      hide Join, Before, After;
      BeforeEnds(lines[..cursorLine]);
      var line := lines[cursorLine];
      if cursorCol > 0 {
        RemoveInLine(lines, cursorLine, cursorCol - 1);
        lines := lines[cursorLine := line[..cursorCol - 1] + line[cursorCol..]];
        cursorCol := cursorCol - 1;
        dirty := true;
      } else if cursorLine > 0 {
        MergeLines(lines, cursorLine - 1);
        cursorCol := |lines[cursorLine - 1]|;
        lines := Merged(lines, cursorLine - 1);
        cursorLine := cursorLine - 1;
        dirty := true;
      }
    }

    /** Puts a character at the cursor and steps over it. */
    method InsertChar(ch: char)
      requires Valid() && ch != '\n'
      modifies this`lines, this`cursorCol
      ensures Valid() && View() == old(View()).Insert([ch]).(dirty := old(dirty))
    {
      hide Join, Before, After;
      var line := lines[cursorLine];
      InsertInLine(lines, cursorLine, cursorCol, [ch]);
      lines := lines[cursorLine := line[..cursorCol] + [ch] + line[cursorCol..]];
      cursorCol := cursorCol + 1;
    }

    /** Moves the rest of the line to a new line and follows it. */
    method BreakLine()
      requires Valid()
      modifies this`lines, this`cursorLine, this`cursorCol
      ensures Valid() && View() == old(View()).Insert("\n").(dirty := old(dirty))
    {
      hide Join, Before, After;
      BreakInLine(lines, cursorLine, cursorCol);
      lines := Broken(lines, cursorLine, cursorCol);
      cursorLine := cursorLine + 1;
      cursorCol := 0;
    }

    method InsertSpaces()
      requires Valid()
      modifies this`lines, this`cursorCol, this`dirty
      ensures Valid() && View() == Apply(old(View()), Char(9))
    {
      hide Join, Before, After;
      var i := 0;
      InsertNothing(View());
      while i < TAB_WIDTH
        invariant 0 <= i <= TAB_WIDTH && Valid()
        invariant View() == old(View()).Insert(Spaces(i)).(dirty := old(dirty))
      {
        InsertTwice(old(View()), Spaces(i), " ");
        InsertChar(' ');
        i := i + 1;
      }
      dirty := true;
    }

    method Paste(text: string)
      requires Valid()
      modifies this`lines, this`cursorLine, this`cursorCol, this`dirty
      ensures Valid() && View() == old(View()).Insert(Kept(text))
    {
      hide Join, Before, After;
      var k := 0;
      InsertNothing(View());
      while k < |text|
        invariant 0 <= k <= |text| && Valid()
        invariant View() == old(View()).Insert(Kept(text[..k])).(dirty := old(dirty))
      {
        var ch := text[k];
        KeptNext(text, k);
        InsertTwice(old(View()), Kept(text[..k]), [ch]);
        if ch == '\n' {
          BreakLine();
        } else if ' ' <= ch && ch < 0x7F as char {
          InsertChar(ch);
        }
        k := k + 1;
      }
      assert text[..k] == text;
      dirty := true;
    }

    method CopyLine()
      requires Valid()
      modifies this`clipboard
      ensures Valid() && View() == Apply(old(View()), Char(0x03))
    {
      hide Join, Before, After, LineStart, LineEnd;
      LineBounds(lines, cursorLine, cursorCol);
      JoinAround(lines, cursorLine);
      clipboard := Some(lines[cursorLine]);
    }
  }

  lemma InsertNothing(d: Doc)
    requires d.Valid()
    ensures d.Insert("").(dirty := d.dirty) == d
  {
    assert d.text[..d.pos] + "" + d.text[d.pos..] == d.text;
  }

  lemma InsertTwice(d: Doc, a: string, b: string)
    requires d.Valid()
    ensures d.Insert(a).Insert(b) == d.Insert(a + b)
    ensures d.Insert(a).(dirty := d.dirty).Insert(b) == d.Insert(a + b)
  {
    var t := d.text[..d.pos] + a + d.text[d.pos..];
    assert t[..d.pos + |a|] == d.text[..d.pos] + a && t[d.pos + |a|..] == d.text[d.pos..];
    assert t[..d.pos + |a|] + b + t[d.pos + |a|..] == d.text[..d.pos] + (a + b) + d.text[d.pos..];
  }

  lemma {:induction false} KeptNext(s: string, k: nat)
    requires k < |s|
    ensures Kept(s[..k + 1]) == Kept(s[..k]) + (if s[k] == '\n' || Printable(s[k]) then [s[k]] else "")
    decreases |s|
  {
    if k == 0 {
      assert s[..1][1..] == "" && s[..0] == "";
    } else {
      KeptNext(s[1..], k - 1);
      assert s[..k + 1][1..] == s[1..][..k] && s[..k][1..] == s[1..][..k - 1];
    }
  }

  /** A line ends where the text does exactly when it is the last one. */
  lemma LineEndsText(lines: seq<string>, l: nat)
    requires l < |lines|
    ensures Offset(lines, l, |lines[l]|) <= |Join(lines)|
    ensures l + 1 < |lines| <==> Offset(lines, l, |lines[l]|) < |Join(lines)|
  {
    hide Join, Before, After;
    JoinAround(lines, l);
    AfterStarts(lines[l + 1..]);
  }

  // ---- opening and saving ----

  predicate EndsWith(s: string, c: char) {
    s != "" && s[|s| - 1] == c
  }

  /** A line break may be "\r\n": the '\r' before a newline goes with it. */
  function StripCr(s: string): string {
    if EndsWith(s, '\r') then s[..|s| - 1] else s
  }

  function BreakAt(t: string): (k: nat)
    ensures k <= |t| && NoBreak(t[..k]) && (k < |t| ==> t[k] == '\n')
  {
    if t == "" || t[0] == '\n' then 0 else 1 + BreakAt(t[1..])
  }

  /** Rust's `str::lines`: every piece up to a newline, and a last piece without one unless it is empty. */
  function StrLines(t: string): (ls: seq<string>)
    ensures forall k :: 0 <= k < |ls| ==> NoBreak(ls[k])
    decreases |t|
  {
    var k := BreakAt(t);
    if t == "" then []
    else if k == |t| then [t]
    else [StripCr(t[..k])] + StrLines(t[k + 1..])
  }

  function OpenedLines(t: string): seq<string> {
    var ls := StrLines(t);
    if ls == [] then [""] else ls
  }

  lemma OpenedLinesValid(t: string)
    ensures ValidLines(OpenedLines(t))
  {
  }

  /** Every line but the last loses a '\r' at its end, and an empty last line is lost. */
  function Reread(lines: seq<string>): seq<string>
    requires lines != []
  {
    if |lines| == 1 then (if lines[0] == "" then [] else lines)
    else [StripCr(lines[0])] + Reread(lines[1..])
  }

  lemma JoinCons(line: string, rest: seq<string>)
    requires rest != []
    ensures Join([line] + rest) == line + "\n" + Join(rest)
  {
    assert ([line] + rest)[1..] == rest;
    assert After(rest) == "\n" + rest[0] + After(rest[1..]);
  }

  lemma {:induction false} SavedLines(lines: seq<string>)
    requires ValidLines(lines)
    ensures StrLines(Join(lines)) == Reread(lines)
  {
    hide Join, NoBreak;
    var t, line := Join(lines), lines[0];
    if |lines| == 1 {
      assert t == line + "" by {
        JoinAround(lines, 0);
      }
      BreakAfter(line, "");
      assert line + "" == line == t;
    } else {
      var rest := lines[1..];
      assert lines == [line] + rest;
      JoinCons(line, rest);
      assert t == line + ("\n" + Join(rest));
      BreakAfter(line, "\n" + Join(rest));
      assert t[..|line|] == line && t[|line| + 1..] == Join(rest);
      SavedLines(rest);
    }
  }

  lemma {:induction false} BreakAfter(s: string, a: string)
    requires NoBreak(s) && (a == "" || a[0] == '\n')
    ensures BreakAt(s + a) == |s|
  {
    if s == "" {
      assert s + a == a;
    } else {
      assert (s + a)[1..] == s[1..] + a;
      BreakAfter(s[1..], a);
    }
  }

  /** The documents that come back as they were. */
  predicate Survives(lines: seq<string>)
    requires lines != []
  {
    && (|lines| == 1 || lines[|lines| - 1] != "")
    && forall k :: 0 <= k < |lines| - 1 ==> !EndsWith(lines[k], '\r')
  }

  /** A saved document opens to the same lines if and only if it survives. */
  lemma SaveThenOpen(lines: seq<string>)
    requires ValidLines(lines)
    ensures OpenedLines(Join(lines)) == lines <==> Survives(lines)
  {
    hide Join, StrLines, Reread, NoBreak;
    SavedLines(lines);
    RereadIs(lines);
    var r, n := Reread(lines), |lines| - 1;
    if lines[n] == "" {
      assert n > 0 ==> !Survives(lines) && |r| > 0 && |OpenedLines(Join(lines))| == n;
      assert n == 0 ==> lines == [""] && r == [];
    } else if Survives(lines) {
      assert r == lines;
    } else {
      var k :| 0 <= k < n && EndsWith(lines[k], '\r');
      assert r[k] != lines[k];
    }
  }

  /** An empty last line is lost, the shortest such document. */
  lemma EmptyLastLineIsLost()
    ensures ValidLines(["a", ""]) && OpenedLines(Join(["a", ""])) != ["a", ""]
  {
    SaveThenOpen(["a", ""]);
  }

  /** A carriage return before a line break is lost. */
  lemma CarriageReturnIsLost()
    ensures ValidLines(["\r", "a"]) && OpenedLines(Join(["\r", "a"])) != ["\r", "a"]
  {
    var lines := ["\r", "a"];
    SaveThenOpen(lines);
    assert EndsWith(lines[0], '\r');
  }

  lemma {:induction false} RereadIs(lines: seq<string>)
    requires lines != []
    ensures var r := Reread(lines);
      && |r| == (if lines[|lines| - 1] == "" then |lines| - 1 else |lines|)
      && (forall k :: 0 <= k < |lines| - 1 ==> r[k] == StripCr(lines[k]))
      && (lines[|lines| - 1] != "" ==> r[|r| - 1] == lines[|lines| - 1])
  {
    if |lines| > 1 {
      RereadIs(lines[1..]);
    }
  }

  /** The lines of a text, a last empty one included. */
  function AllLines(t: string): (ls: seq<string>)
    ensures ls != []
    decreases |t|
  {
    var k := BreakAt(t);
    if k == |t| then [t] else [t[..k]] + AllLines(t[k + 1..])
  }

  lemma {:induction false} AllLinesJoin(t: string)
    ensures ValidLines(AllLines(t)) && Join(AllLines(t)) == t
    decreases |t|
  {
    hide NoBreak, Join;
    var k := BreakAt(t);
    if k == |t| {
      assert t[..k] == t;
      JoinAround([t], 0);
    } else {
      AllLinesJoin(t[k + 1..]);
      JoinCons(t[..k], AllLines(t[k + 1..]));
      assert t == t[..k] + "\n" + t[k + 1..];
    }
  }

  /** A file that is opened and saved unchanged keeps its contents exactly if its text survives as lines. */
  lemma OpenThenSave(t: string)
    ensures ValidLines(OpenedLines(t)) && (Join(OpenedLines(t)) == t <==> Survives(AllLines(t)))
  {
    hide Join, StrLines, Survives;
    AllLinesJoin(t);
    OpenedLinesValid(t);
    SaveThenOpen(AllLines(t));
    if Join(OpenedLines(t)) == t {
      JoinIsInjective(OpenedLines(t), AllLines(t));
    }
  }

  /** A file that ends in a newline, as text files do, loses it. */
  lemma LastNewlineIsLost()
    ensures ValidLines(OpenedLines("a\n")) && Join(OpenedLines("a\n")) != "a\n"
  {
    var t := "a\n";
    OpenThenSave(t);
    BreakAfter("a", "\n");
    assert "a" + "\n" == t;
    assert t[2..] == "" && t[..1] == "a";
    assert AllLines("") == [""] by { assert BreakAt("") == 0; }
    assert AllLines(t) == ["a", ""];
  }

  lemma {:induction false} JoinIsInjective(a: seq<string>, b: seq<string>)
    requires ValidLines(a) && ValidLines(b) && Join(a) == Join(b)
    ensures a == b
  {
    BreakAfter(a[0], After(a[1..]));
    BreakAfter(b[0], After(b[1..]));
    AfterStarts(a[1..]);
    AfterStarts(b[1..]);
    var t := Join(a);
    assert a[0] == t[..|a[0]|] == b[0];
    if |a| > 1 {
      JoinCons(a[0], a[1..]);
      JoinCons(b[0], b[1..]);
      assert a == [a[0]] + a[1..] && b == [b[0]] + b[1..];
      assert t[|a[0]| + 1..] == Join(a[1..]) == Join(b[1..]);
      JoinIsInjective(a[1..], b[1..]);
    }
  }

  // ---- whole key streams ----

  function ApplyAll(d: Doc, ks: seq<Key>): (r: Doc)
    requires d.Valid()
    ensures r.Valid()
    decreases |ks|
  {
    if ks == [] then d else ApplyAll(Apply(d, ks[0]), ks[1..])
  }

  /** The first byte of a stream acts first. */
  lemma StreamStep(d: Doc, s: Seen, bytes: seq<byte>)
    requires d.Valid() && bytes != []
    ensures var (s', k) := Step(s, bytes[0]);
      && ApplyAll(d, Decode(s, bytes)) == ApplyAll(Apply(d, k), Decode(s', bytes[1..]))
      && StateAfter(s, bytes) == StateAfter(s', bytes[1..])
  {
    hide Step, Apply;
    var (s', k) := Step(s, bytes[0]);
    DecodeStep(s, bytes);
    if k == NoKey {
      NoKeyKeeps(d);
      assert [] + Decode(s', bytes[1..]) == Decode(s', bytes[1..]);
    } else {
      assert ([k] + Decode(s', bytes[1..]))[1..] == Decode(s', bytes[1..]);
    }
  }

  lemma StreamEnds(d: Doc, s: Seen)
    requires d.Valid()
    ensures ApplyAll(d, Decode(s, [])) == d && StateAfter(s, []) == s
  {
  }

  lemma NoKeyKeeps(d: Doc)
    requires d.Valid()
    ensures Apply(d, NoKey) == d
  {
  }

  /** What a typed byte adds to the text. */
  function Shown(b: byte): string {
    if b == 10 || b == 13 then "\n"
    else if b == 9 then Spaces(TAB_WIDTH)
    else if 32 <= b <= 126 then [b as char]
    else ""
  }

  function ShownAll(bytes: seq<byte>): string {
    if bytes == [] then "" else Shown(bytes[0]) + ShownAll(bytes[1..])
  }

  /** Bytes that only add text: no ESC, copy, paste or erase. */
  predicate Adds(b: byte) {
    b != ESC && b != 0x03 && b != 0x16 && b != 0x08 && b != 0x7F
  }

  /** Typing inserts what the bytes show at the cursor and leaves everything around it. */
  lemma {:induction false} TypingInserts(d: Doc, bytes: seq<byte>)
    requires d.Valid() && forall b :: b in bytes ==> Adds(b)
    ensures var r, all := ApplyAll(d, Decode(Nothing, bytes)), ShownAll(bytes);
      r.text == d.text[..d.pos] + all + d.text[d.pos..] && r.pos == d.pos + |all|
    decreases |bytes|
  {
    hide Apply, Shown, Decode, ApplyAll;
    if bytes == [] {
      StreamEnds(d, Nothing);
      InsertNothing(d);
    } else {
      var d' := Apply(d, Char(bytes[0]));
      TypedByte(d, bytes[0]);
      StreamStep(d, Nothing, bytes);
      TypingInserts(d', bytes[1..]);
      var (x, y) := (Shown(bytes[0]), ShownAll(bytes[1..]));
      assert d'.text[..d'.pos] == d.text[..d.pos] + x && d'.text[d'.pos..] == d.text[d.pos..];
      assert d.text[..d.pos] + x + y == d.text[..d.pos] + (x + y);
    }
  }

  lemma TypedByte(d: Doc, b: byte)
    requires d.Valid() && Adds(b)
    ensures Step(Nothing, b) == (Nothing, Char(b))
    ensures var r := Apply(d, Char(b));
      r.text == d.text[..d.pos] + Shown(b) + d.text[d.pos..] && r.pos == d.pos + |Shown(b)|
  {
    hide Spaces;
    InsertNothing(d);
  }

  /** One Backspace per shown character takes a typed text back. */
  lemma {:induction false} BackspacesUndo(d: Doc, x: string)
    requires d.Valid()
    ensures var r := ApplyAll(d.Insert(x), seq(|x|, _ => Char(0x08)));
      r.text == d.text && r.pos == d.pos && r.clip == d.clip
  {
    if x == "" {
      InsertNothing(d);
    } else {
      var n := |x| - 1;
      var ks := seq(|x|, _ => Char(0x08));
      assert ks[1..] == seq(n, _ => Char(0x08));
      var once := d.Insert(x).RemoveAt(d.pos + n);
      assert once.text == d.Insert(x[..n]).text by {
        var t := d.text[..d.pos] + x + d.text[d.pos..];
        assert t[..d.pos + n] == d.text[..d.pos] + x[..n];
        assert t[d.pos + n + 1..] == d.text[d.pos..];
      }
      assert Apply(d.Insert(x), Char(0x08)) == d.Insert(x[..n]);
      BackspacesUndo(d, x[..n]);
    }
  }

  /** One Delete per inserted character, from the place of the insertion, takes a text back, newlines included. */
  lemma {:induction false} DeletesUndo(d: Doc, x: string)
    requires d.Valid()
    ensures var r := ApplyAll(d.Insert(x).(pos := d.pos), seq(|x|, _ => Delete));
      r.text == d.text && r.pos == d.pos && r.clip == d.clip
  {
    var before := d.Insert(x).(pos := d.pos);
    if x == "" {
      InsertNothing(d);
    } else {
      var ks, after := seq(|x|, _ => Delete), d.Insert(x[1..]).(pos := d.pos);
      assert ks[1..] == seq(|x| - 1, _ => Delete);
      var t := before.text;
      assert t[..d.pos] == d.text[..d.pos] && t[d.pos + 1..] == x[1..] + d.text[d.pos..];
      assert Apply(before, Delete) == after by {
        assert t[..d.pos] + t[d.pos + 1..] == d.text[..d.pos] + x[1..] + d.text[d.pos..];
      }
      DeletesUndo(d, x[1..]);
    }
  }

  /** Delete is Backspace behind the next character, wherever there is one, and nothing at the end of the text. */
  lemma DeleteIsRightBackspace(d: Doc)
    requires d.Valid()
    ensures d.pos < |d.text| ==> Apply(d, Delete) == Apply(Apply(d, Right), Char(0x08))
    ensures d.pos < |d.text| ==> |Apply(d, Delete).text| == |d.text| - 1
    ensures d.pos == |d.text| ==> Apply(d, Delete) == d == Apply(d, Right)
  {
  }

  /** Left and Right are inverse steps, over line ends too, and stop at the two ends of the text. */
  lemma StepsAreInverse(d: Doc)
    requires d.Valid()
    ensures d.pos < |d.text| ==> Apply(d, Right).pos == d.pos + 1 && Apply(Apply(d, Right), Left) == d
    ensures d.pos > 0 ==> Apply(d, Left).pos == d.pos - 1 && Apply(Apply(d, Left), Right) == d
    ensures d.pos == 0 ==> Apply(d, Left) == d
  {
  }

  /** Home and End stand at the ends of the stretch without newlines around the cursor, which is what copying takes. */
  lemma LineOfCursor(d: Doc)
    requires d.Valid()
    ensures var a, b := Apply(d, Home), Apply(d, End);
      && a.text == b.text == d.text && a.pos <= d.pos <= b.pos && NoBreak(d.text[a.pos..b.pos])
      && (a.pos == 0 || d.text[a.pos - 1] == '\n') && (b.pos == |d.text| || d.text[b.pos] == '\n')
      && Apply(d, Char(0x03)) == d.(clip := Some(d.text[a.pos..b.pos]))
  {
    StartIs(d.text, d.pos);
    EndIs(d.text, d.pos);
  }

  lemma {:induction false} StartIs(t: string, p: nat)
    requires p <= |t|
    ensures var a := LineStart(t, p); (a == 0 || t[a - 1] == '\n') && forall k :: a <= k < p ==> t[k] != '\n'
  {
    if p > 0 && t[p - 1] != '\n' {
      StartIs(t, p - 1);
    }
  }

  lemma {:induction false} EndIs(t: string, p: nat)
    requires p <= |t|
    ensures var b := LineEnd(t, p); (b == |t| || t[b] == '\n') && forall k :: p <= k < b ==> t[k] != '\n'
    decreases |t| - p
  {
    if p < |t| && t[p] != '\n' {
      EndIs(t, p + 1);
    }
  }

  /** Up and Down go to the line above or below, in the same column or at its end; the outer lines are kept. */
  lemma VerticalMoves(lines: seq<string>, l: nat, c: nat)
    requires ValidLines(lines) && l < |lines| && c <= |lines[l]|
    ensures var t, p := Join(lines), Offset(lines, l, c);
      && p <= |t|
      && UpFrom(t, p) == (if l == 0 then p else Offset(lines, l - 1, Min(c, |lines[l - 1]|)))
      && DownFrom(t, p) == (if l == |lines| - 1 then p else Offset(lines, l + 1, Min(c, |lines[l + 1]|)))
  {
    hide Join, Before, After, LineStart, LineEnd;
    LineBounds(lines, l, c);
    BeforeEnds(lines[..l]);
    LineEndsText(lines, l);
    if l > 0 {
      BeforeNext(lines, l - 1);
      LineBounds(lines, l - 1, |lines[l - 1]|);
    }
    if l + 1 < |lines| {
      BeforeNext(lines, l);
      LineBounds(lines, l + 1, 0);
    }
  }

  predicate Pasteable(c: char) {
    c == '\n' || ' ' <= c <= '~'
  }

  /** A paste keeps a text of newlines and printable characters as it is. */
  lemma {:induction false} KeptWhole(s: string)
    requires forall k :: 0 <= k < |s| ==> Pasteable(s[k])
    ensures Kept(s) == s
  {
    if s != "" {
      KeptWhole(s[1..]);
      assert s == [s[0]] + s[1..];
    }
  }

  /** It drops any other character and nothing else. */
  lemma {:induction false} KeptDrops(a: string, c: char, b: string)
    requires !Pasteable(c)
    ensures Kept(a + [c] + b) == Kept(a + b)
  {
    if a == "" {
      assert (a + [c] + b)[1..] == b && a + b == b && (a + [c] + b)[0] == c;
      assert Kept(a + [c] + b) == "" + Kept(b);
    } else {
      KeptDrops(a[1..], c, b);
      assert (a + [c] + b)[1..] == a[1..] + [c] + b && (a + b)[1..] == a[1..] + b;
    }
  }

  /** What each adding byte shows. */
  lemma ShownIs(b: byte)
    ensures Shown(9) == "    " && Shown(10) == Shown(13) == "\n"
    ensures 32 <= b <= 126 ==> Shown(b) == [b as char]
    ensures b < 9 || b == 11 || b == 12 || 13 < b < 32 || b > 126 ==> Shown(b) == ""
  {
    assert Spaces(1) == " " && Spaces(2) == "  " && Spaces(3) == "   " && Spaces(4) == "    ";
  }
}
