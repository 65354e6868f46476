/**
 Characters, trimming and tokens of the CSS engine (desktop-metal/src/tcss.rs:38-92). A `char` stands for one byte.
 */
module CssText {
  datatype Tok = Ident(s: string) | LBrace | RBrace | Colon | Semi

  /** The white space that `str::trim` removes, within ASCII. */
  predicate IsSpace(c: char) {
    c == ' ' || '\t' <= c <= '\r'
  }

  predicate AllSpace(s: string) {
    forall i :: 0 <= i < |s| ==> IsSpace(s[i])
  }

  function TrimStart(s: string): string {
    if s != "" && IsSpace(s[0]) then TrimStart(s[1..]) else s
  }

  function TrimEnd(s: string): string {
    if s != "" && IsSpace(s[|s| - 1]) then TrimEnd(s[..|s| - 1]) else s
  }

  function Trim(s: string): string {
    TrimEnd(TrimStart(s))
  }

  function LowerChar(c: char): char {
    if 'A' <= c <= 'Z' then c - 'A' + 'a' else c
  }

  function Lower(s: string): string {
    seq(|s|, i requires 0 <= i < |s| => LowerChar(s[i]))
  }

  /** A text with no white space at either end. */
  predicate Trimmed(s: string) {
    s != "" && !IsSpace(s[0]) && !IsSpace(s[|s| - 1])
  }

  lemma {:induction false} TrimStartPadded(a: string, s: string)
    requires AllSpace(a) && (s == "" || !IsSpace(s[0]))
    ensures TrimStart(a + s) == s
  {
    if a == "" {
      assert a + s == s;
    } else {
      assert (a + s)[1..] == a[1..] + s;
      TrimStartPadded(a[1..], s);
    }
  }

  lemma {:induction false} TrimEndPadded(s: string, b: string)
    requires AllSpace(b) && (s == "" || !IsSpace(s[|s| - 1]))
    ensures TrimEnd(s + b) == s
  {
    if b == "" {
      assert s + b == s;
    } else {
      assert (s + b)[..|s + b| - 1] == s + b[..|b| - 1];
      TrimEndPadded(s, b[..|b| - 1]);
    }
  }

  /** Trimming removes exactly the padding. */
  lemma TrimPadded(a: string, s: string, b: string)
    requires AllSpace(a) && AllSpace(b) && Trimmed(s)
    ensures Trim(a + s + b) == s
  {
    assert a + s + b == a + (s + b);
    assert (s + b)[0] == s[0];
    TrimStartPadded(a, s + b);
    TrimEndPadded(s, b);
  }

  lemma TrimSpace(a: string)
    requires AllSpace(a)
    ensures Trim(a) == ""
  {
    assert a + "" == a;
    TrimStartPadded(a, "");
  }

  // ---- tokenizer ----

  predicate IsStructural(c: char) {
    c == '{' || c == '}' || c == ':' || c == ';'
  }

  function StructuralTok(c: char): Tok
    requires IsStructural(c)
  {
    if c == '{' then LBrace else if c == '}' then RBrace else if c == ':' then Colon else Semi
  }

  predicate OpensComment(s: string, i: nat) {
    i + 1 < |s| && s[i] == '/' && s[i + 1] == '*'
  }

  /** What follows the end of a comment; nothing when it is not closed. */
  function AfterComment(s: string): (r: string)
    ensures |r| <= |s|
  {
    if |s| < 2 then ""
    else if s[0] == '*' && s[1] == '/' then s[2..]
    else AfterComment(s[1..])
  }

  function Flush(run: string): seq<Tok> {
    if Trim(run) == "" then [] else [Ident(Trim(run))]
  }

  /** The tokens of `s` when the identifier run before it reads `run`. */
  function Tokens(s: string, run: string): seq<Tok>
    decreases |s|
  {
    if s == "" then Flush(run)
    else if OpensComment(s, 0) then Flush(run) + Tokens(AfterComment(s[2..]), "")
    else if IsStructural(s[0]) then Flush(run) + [StructuralTok(s[0])] + Tokens(s[1..], "")
    else Tokens(s[1..], run + [s[0]])
  }

  /** Text that the tokenizer takes as it is: nothing structural, no comment opened. */
  predicate Plain(u: string) {
    forall i :: 0 <= i < |u| ==> !IsStructural(u[i]) && !OpensComment(u, i)
  }

  /** Plain text is taken into the run, if it does not open a comment with what follows. */
  lemma {:induction false} PlainRun(u: string, rest: string, run: string)
    requires Plain(u) && (u != "" && rest != "" ==> u[|u| - 1] != '/' || rest[0] != '*')
    ensures Tokens(u + rest, run) == Tokens(rest, run + u)
    decreases |u|
  {
    var s := u + rest;
    if u == "" {
      assert s == rest && run + u == run;
    } else {
      assert s[0] == u[0] && (|u| > 1 ==> s[1] == u[1]) && (|u| == 1 && rest != "" ==> s[1] == rest[0]);
      assert !OpensComment(u, 0);
      assert s[1..] == u[1..] + rest;
      forall i | 0 <= i < |u[1..]|
        ensures !IsStructural(u[1..][i]) && !OpensComment(u[1..], i)
      {
        assert !OpensComment(u, i + 1) && !IsStructural(u[i + 1]);
      }
      PlainRun(u[1..], rest, run + [u[0]]);
      assert run + [u[0]] + u[1..] == run + u;
    }
  }

  lemma StructuralEnds(c: char, rest: string, run: string)
    requires IsStructural(c)
    ensures Tokens([c] + rest, run) == Flush(run) + [StructuralTok(c)] + Tokens(rest, "")
  {
    assert ([c] + rest)[1..] == rest;
  }

  // ---- padding: white space and comments ----

  /** A piece of padding; a comment's text does not contain its own end. */
  datatype Filler = Blanks(s: string) | Comment(text: string) {
    predicate WellFormed() {
      match this
      case Blanks(s) => AllSpace(s)
      case Comment(text) => forall i :: 0 <= i < |text| - 1 ==> text[i] != '*' || text[i + 1] != '/'
    }

    function Text(): string {
      match this
      case Blanks(s) => s
      case Comment(text) => "/*" + text + "*/"
    }
  }

  predicate WellFormedPad(pad: seq<Filler>) {
    forall f :: f in pad ==> f.WellFormed()
  }

  function PadText(pad: seq<Filler>): string {
    if pad == [] then "" else pad[0].Text() + PadText(pad[1..])
  }

  /** A comment ends at its first end mark. */
  lemma {:induction false} CommentSkipped(text: string, rest: string)
    requires Comment(text).WellFormed()
    ensures AfterComment(text + "*/" + rest) == rest
  {
    var s := text + "*/" + rest;
    if text == "" {
      assert s == "*/" + rest && s[2..] == rest;
    } else {
      assert s[0] == text[0] && s[1] == (if |text| > 1 then text[1] else '*');
      assert s[1..] == text[1..] + "*/" + rest;
      CommentSkipped(text[1..], rest);
    }
  }

  lemma CommentTokens(text: string, rest: string, run: string)
    requires Comment(text).WellFormed()
    ensures Tokens("/*" + text + "*/" + rest, run) == Flush(run) + Tokens(rest, "")
  {
    hide AfterComment;
    var s := "/*" + text + "*/" + rest;
    assert s[0] == '/' && s[1] == '*' && s[2..] == text + "*/" + rest;
    CommentSkipped(text, rest);
  }

  lemma SpaceIsPlain(a: string)
    requires AllSpace(a)
    ensures Plain(a)
    ensures a != "" ==> a[|a| - 1] != '/'
  {
  }

  lemma SpacesJoin(a: string, b: string)
    requires AllSpace(a) && AllSpace(b)
    ensures AllSpace(a + b)
  {
  }

  lemma BlankFlush(run: string)
    requires AllSpace(run)
    ensures Flush(run) == []
  {
    TrimSpace(run);
  }

  /** The first piece of a padding, before the others. */
  lemma PadFirst(pad: seq<Filler>, rest: string)
    requires pad != [] && WellFormedPad(pad)
    ensures WellFormedPad(pad[1..]) && pad[0].WellFormed()
    ensures var more := PadText(pad[1..]) + rest;
      PadText(pad) + rest == match pad[0] case Blanks(s) => s + more case Comment(text) => "/*" + text + "*/" + more
  {
    assert pad[0] in pad;
  }

  lemma PadNone(rest: string)
    ensures PadText([]) + rest == rest
  {
    assert "" + rest == rest;
  }

  /** Padding before anything leaves at most white space in the run. */
  lemma {:induction false} PadBefore(pad: seq<Filler>, rest: string, run: string) returns (run': string)
    requires WellFormedPad(pad) && AllSpace(run)
    ensures AllSpace(run') && Tokens(PadText(pad) + rest, run) == Tokens(rest, run')
    decreases |pad|
  {
    hide Tokens, AllSpace, Plain, Flush, PadText, WellFormedPad;
    if pad == [] {
      PadNone(rest);
      run' := run;
    } else {
      var more := PadText(pad[1..]) + rest;
      PadFirst(pad, rest);
      match pad[0]
      case Blanks(s) =>
        SpaceIsPlain(s);
        PlainRun(s, more, run);
        SpacesJoin(run, s);
        run' := PadBefore(pad[1..], rest, run + s);
      case Comment(text) =>
        CommentTokens(text, more, run);
        BlankFlush(run);
        NoSpace();
        run' := PadBefore(pad[1..], rest, "");
    }
  }

  lemma NoSpace()
    ensures AllSpace("")
  {
  }

  /** Padding between text and a structural character leaves the text as one identifier. */
  lemma {:induction false} PadAfter(a: string, u: string, b: string, pad: seq<Filler>, c: char, rest: string)
    requires AllSpace(a) && AllSpace(b) && Trimmed(u) && WellFormedPad(pad) && IsStructural(c)
    ensures Tokens(PadText(pad) + ([c] + rest), a + u + b) == [Ident(u), StructuralTok(c)] + Tokens(rest, "")
    decreases |pad|
  {
    hide Tokens, AllSpace, Plain, Trim, Trimmed, IsStructural, StructuralTok, Flush, PadText, WellFormedPad;
    TrimPadded(a, u, b);
    TextFlush(a + u + b, u);
    if pad == [] {
      PadNone([c] + rest);
      StructuralEnds(c, rest, a + u + b);
    } else {
      var more := PadText(pad[1..]) + ([c] + rest);
      PadFirst(pad, [c] + rest);
      match pad[0]
      case Blanks(s) =>
        SpaceIsPlain(s);
        PlainRun(s, more, a + u + b);
        SpacesJoin(b, s);
        assert a + u + b + s == a + u + (b + s);
        PadAfter(a, u, b + s, pad[1..], c, rest);
      case Comment(text) =>
        CommentTokens(text, more, a + u + b);
        PadOnly(pad[1..], c, rest);
    }
  }

  lemma TextFlush(run: string, u: string)
    requires Trim(run) == u && Trimmed(u)
    ensures Flush(run) == [Ident(u)]
  {
  }

  /** Padding alone before a structural character leaves no trace. */
  lemma PadOnly(pad: seq<Filler>, c: char, rest: string)
    requires WellFormedPad(pad) && IsStructural(c)
    ensures Tokens(PadText(pad) + ([c] + rest), "") == [StructuralTok(c)] + Tokens(rest, "")
  {
    hide Tokens, AllSpace, Flush, IsStructural;
    NoSpace();
    var run := PadBefore(pad, [c] + rest, "");
    StructuralEnds(c, rest, run);
    BlankFlush(run);
  }

  /** Padded text before a structural character becomes one identifier. */
  lemma PaddedIdent(a: seq<Filler>, u: string, b: seq<Filler>, c: char, rest: string)
    requires WellFormedPad(a) && WellFormedPad(b) && Plain(u) && Trimmed(u) && IsStructural(c)
    ensures Tokens(PadText(a) + (u + (PadText(b) + ([c] + rest))), "") ==
      [Ident(u), StructuralTok(c)] + Tokens(rest, "")
  {
    hide Tokens, AllSpace, Plain, IsStructural;
    NoSpace();
    var after := PadText(b) + ([c] + rest);
    var run := PadBefore(a, u + after, "");
    PadStarts(b, c, rest);
    PlainRun(u, after, run);
    assert run + u + "" == run + u;
    PadAfter(run, u, "", b, c, rest);
  }

  /** What follows a text does not continue a comment mark. */
  lemma {:induction false} PadStarts(pad: seq<Filler>, c: char, rest: string)
    requires WellFormedPad(pad) && IsStructural(c)
    ensures (PadText(pad) + ([c] + rest))[0] != '*'
    decreases |pad|
  {
    if pad != [] {
      assert pad[0] in pad;
      if pad[0] == Blanks("") {
        assert PadText(pad) == PadText(pad[1..]);
        PadStarts(pad[1..], c, rest);
      }
    }
  }

  function Tail(s: string, i: nat): string {
    if i <= |s| then s[i..] else ""
  }

  lemma Regroup(a: seq<Tok>, b: seq<Tok>, c: seq<Tok>, d: seq<Tok>)
    ensures a + b + c + d == a + (b + c + d)
    ensures c == [] ==> a + b + d == a + (b + d)
  {
  }

  lemma WholeTail(src: string)
    ensures Tail(src, 0) == src
  {
  }

  /** One turn of the tokenizer at position `i`. */
  lemma TokensAt(src: string, i: nat, run: string)
    requires i < |src|
    ensures OpensComment(src, i) ==> i + 2 <= |src|
    ensures Tokens(Tail(src, i), run) ==
      if OpensComment(src, i) then Flush(run) + Tokens(AfterComment(src[i + 2..]), "")
      else if IsStructural(src[i]) then Flush(run) + [StructuralTok(src[i])] + Tokens(Tail(src, i + 1), "")
      else Tokens(Tail(src, i + 1), run + [src[i]])
  {
    var s := src[i..];
    assert s[0] == src[i] && s[1..] == src[i + 1..] && OpensComment(s, 0) == OpensComment(src, i);
    assert OpensComment(src, i) ==> s[2..] == src[i + 2..];
  }

  /** The tokenizer, with a cursor, the start of the current run and a flag for it. */
  method Tokenize(src: string) returns (out: seq<Tok>)
    ensures out == Tokens(src, "")
  {
    hide Flush, AfterComment, StructuralTok, IsStructural, OpensComment, Tokens, Tail;
    out := [];
    var i, start, have := 0, 0, false;
    WholeTail(src);
    assert out + Tokens(src, "") == Tokens(src, "");
    while i < |src|
      invariant have ==> start < i <= |src|
      invariant Tokens(src, "") == out + Tokens(Tail(src, i), if have then src[start..i] else "")
    {
      ghost var run, before := if have then src[start..i] else "", out;
      TokensAt(src, i, run);
      if OpensComment(src, i) {
        out := FlushRun(out, src, start, i, have);
        have := false;
        i := SkipComment(src, i + 2);
        Regroup(before, Flush(run), [], Tokens(Tail(src, i), ""));
      } else if IsStructural(src[i]) {
        out := FlushRun(out, src, start, i, have);
        have := false;
        out := out + [StructuralTok(src[i])];
        i := i + 1;
        Regroup(before, Flush(run), [StructuralTok(src[i - 1])], Tokens(Tail(src, i), ""));
      } else {
        if !have {
          start := i;
          have := true;
        }
        assert src[start..i + 1] == run + [src[i]];
        i := i + 1;
      }
    }
    TokensAtEnd(src, i, if have then src[start..i] else "");
    out := FlushRun(out, src, start, |src|, have);
  }

  lemma TokensAtEnd(src: string, i: nat, run: string)
    requires i >= |src|
    ensures Tokens(Tail(src, i), run) == Flush(run)
  {
  }

  method SkipComment(src: string, body: nat) returns (i: nat)
    requires body <= |src|
    ensures i > body && Tail(src, i) == AfterComment(src[body..])
  {
    i := body;
    while i + 1 < |src| && !(src[i] == '*' && src[i + 1] == '/')
      invariant body <= i <= |src|
      invariant AfterComment(src[body..]) == AfterComment(src[i..])
    {
      assert src[i..][1..] == src[i + 1..];
      i := i + 1;
    }
    assert i + 1 < |src| ==> src[i..][2..] == src[i + 2..];
    i := i + 2;
  }

  method FlushRun(out: seq<Tok>, src: string, start: nat, end: nat, have: bool) returns (r: seq<Tok>)
    requires have ==> start <= end <= |src|
    ensures r == out + Flush(if have then src[start..end] else "")
  {
    r := out;
    if have {
      var s := Trim(src[start..end]);
      if s != "" {
        r := r + [Ident(s)];
      }
    }
  }
}
