/**
 What the sizes of the disk syscalls cost: exactly when a written file is found again after a reboot, with inputs for
 which it is not (desktop-metal/src/vfs.rs:198-227, kernel/src/syscall.rs:550-579).
 */
module VfsLimits {
  import opened Options
  import opened VfsSpec
  import opened VfsCrash

  /** The text behind the last newline. */
  function LastPiece(s: Bytes): string {
    if s == [] || s[|s| - 1] == '\n' then "" else LastPiece(s[..|s| - 1]) + [s[|s| - 1]]
  }

  /** A manifest as the disk keeps it: its length is taken modulo 2^16. */
  function Stored(m: Bytes): Bytes {
    m[..|m| % LENGTH_RANGE]
  }

  /**
   The last line of a manifest is still read: the manifest fits, or it is cut off just behind the same text.
   */
  predicate LastLineRead(m: Bytes, name: string) {
    |m| <= READ_BUFFER || LastPiece(Stored(m)) == name
  }

  /**
   The promise that a saved file survives a reboot, and exactly when it is kept: the contents fit the syscall, the
   name is not one that only a directory has, and the manifest with a new name in it fits as well.
   */
  lemma WriteSurvivesReboot(b: BuiltIns, d: Disk, es: seq<Entry>, name: string, data: Bytes)
    requires Synced(b, d, es) && UserName(name)
    ensures
      Read(Boot(b, Apply(d, DiskWrites(es, Write(name, data)))), name) == Some(data)
      <==>
      && Storable(data)
      && if Exists(es, name) then Read(es, name).Some? else LastLineRead(Manifest(PutFile(es, name, data)), name)
  {
    hide DiskWrites, Boot, Synced, Manifest;
    var op := Write(name, data);
    if !Storable(data) || (Exists(es, name) && Read(es, name) == None) {
      LostWrite(b, d, es, name, data);
    } else if Exists(es, name) || |Manifest(PutFile(es, name, data))| <= READ_BUFFER {
      KeptWrite(b, d, es, name, data);
    } else {
      CutWrite(b, d, es, name, data);
    }
  }

  lemma KeptWrite(b: BuiltIns, d: Disk, es: seq<Entry>, name: string, data: Bytes)
    requires Synced(b, d, es) && UserName(name) && Storable(data)
    requires if Exists(es, name) then Read(es, name).Some? else |Manifest(PutFile(es, name, data))| <= READ_BUFFER
    ensures Read(Boot(b, Apply(d, DiskWrites(es, Write(name, data)))), name) == Some(data)
  {
    hide Boot, Manifest, WellNamed;
    var op := Write(name, data);
    CompletedIsSynced(b, d, es, op);
    ReadAfter(es, op, name);
  }

  lemma LostWrite(b: BuiltIns, d: Disk, es: seq<Entry>, name: string, data: Bytes)
    requires Synced(b, d, es) && UserName(name)
    requires !Storable(data) || (Exists(es, name) && Read(es, name) == None)
    ensures Read(Boot(b, Apply(d, DiskWrites(es, Write(name, data)))), name) != Some(data)
  {
    hide Boot, Manifest, WellNamed, SplitLines;
    var d' := Apply(d, DiskWrites(es, Write(name, data)));
    RecoveredFile(b, d', name);
    RecoveredFile(b, d, name);
    assert |DiskRead(d', name)| <= READ_BUFFER;
    if Storable(data) {
      ApplyOne(d, (name, data));
      OtherKeysUnread(d, name, data, MANIFEST);
    }
  }

  // ---- a manifest that does not fit ----

  /** What a boot reads after a new file whose manifest is too long. */
  lemma CutManifest(b: BuiltIns, d: Disk, es: seq<Entry>, name: string, data: Bytes)
    requires UserName(name) && Storable(data) && !Exists(es, name)
    ensures var m, d' := Manifest(PutFile(es, name, data)), Apply(d, DiskWrites(es, Write(name, data)));
      |m| > READ_BUFFER ==> ManifestNames(d') == SplitLines(Stored(m), "") && DiskRead(d', name) == data
  {
    hide Manifest, SplitLines, PutFile;
    var op := Write(name, data);
    var m, d1 := Manifest(PutFile(es, name, data)), DiskWrite(d, name, data);
    var d' := DiskWrite(d1, MANIFEST, m);
    ApplyTwo(d, DiskWrites(es, op));
    StoredIsRead(d, name, data);
    OtherKeysUnread(d1, MANIFEST, m, name);
    if |m| > READ_BUFFER {
      assert d'[MANIFEST] == Stored(m);
    }
  }

  lemma CutWrite(b: BuiltIns, d: Disk, es: seq<Entry>, name: string, data: Bytes)
    requires Synced(b, d, es) && UserName(name) && Storable(data) && !Exists(es, name)
    requires |Manifest(PutFile(es, name, data))| > READ_BUFFER
    ensures Read(Boot(b, Apply(d, DiskWrites(es, Write(name, data)))), name) == Some(data)
      <==> LastPiece(Stored(Manifest(PutFile(es, name, data)))) == name
  {
    hide Boot, SplitLines, LastPiece, PutFile, DiskWrites, Preserves, CleanDisk, DiskRead;
    var m, front := Manifest(PutFile(es, name, data)), ListedNames(es);
    NewLineLast(es, name, data);
    CutManifest(b, d, es, name, data);
    RecoveredFile(b, Apply(d, DiskWrites(es, Write(name, data))), name);
    var r := |m| % LENGTH_RANGE;
    assert m[..r] == JoinLines(front)[..r];
    ListedIff(es, name);
    forall n | n in front
      ensures NewlineFree(n) && n != ""
    {
      ListedIff(es, n);
    }
    CutLines(front, r, name);
  }

  /** A new file's name is the last line of the manifest. */
  lemma NewLineLast(es: seq<Entry>, name: string, data: Bytes)
    requires Persistable(name) && !Exists(es, name)
    ensures PutFile(es, name, data) == es + [Entry(name, data, false)]
    ensures Manifest(PutFile(es, name, data)) == JoinLines(ListedNames(es)) + name + ['\n']
  {
    forall i | 0 <= i < |es|
      ensures es[i].name != name
    {
      assert es[i] in es;
    }
    PutFileAppends(es, name, data);
    ListedAppend(es, Entry(name, data, false));
    JoinAppend(ListedNames(es), name);
  }

  lemma {:induction false} ListedAppend(es: seq<Entry>, e: Entry)
    requires !e.isDir && Persistable(e.name)
    ensures ListedNames(es + [e]) == ListedNames(es) + [e.name]
  {
    if es == [] {
      assert es + [e] == [e] && ListedNames([e]) == [e.name] + ListedNames([]);
    } else {
      ListedAppend(es[1..], e);
      assert (es + [e])[1..] == es[1..] + [e];
    }
  }

  lemma {:induction false} JoinAppend(names: seq<string>, name: string)
    ensures JoinLines(names + [name]) == JoinLines(names) + name + ['\n']
  {
    if names == [] {
      assert names + [name] == [name] && JoinLines([name]) == name + ['\n'] + JoinLines([]);
    } else {
      JoinAppend(names[1..], name);
      assert (names + [name])[1..] == names[1..] + [name];
    }
  }

  /** Of names that are not lines of the manifest, a cut brings up just the piece it ends in. */
  lemma {:induction false} CutLines(names: seq<string>, r: nat, x: string)
    requires forall n :: n in names ==> NewlineFree(n) && n != ""
    requires r <= |JoinLines(names)| && x !in names && x != ""
    ensures x in SplitLines(JoinLines(names)[..r], "") <==> LastPiece(JoinLines(names)[..r]) == x
  {
    hide SplitLines, LastPiece;
    var cut := JoinLines(names)[..r];
    if names == [] {
      assert cut == [];
      NoPieces();
    } else {
      var line, rest := names[0], JoinLines(names[1..]);
      assert JoinLines(names) == line + ['\n'] + rest;
      if r <= |line| {
        assert cut == line[..r] && names[0] in names && forall c :: c in cut ==> c in line;
        OnePiece(cut, "");
        assert "" + cut == cut;
      } else {
        var more := rest[..r - |line| - 1];
        assert cut == line + ['\n'] + more;
        SplitOneLine(line, more, "");
        assert "" + line == line;
        PieceBehindBreak(line, more);
        CutLines(names[1..], |more|, x);
      }
    }
  }

  lemma NoPieces()
    ensures SplitLines([], "") == [] && LastPiece([]) == ""
  {
  }

  lemma {:induction false} OnePiece(s: Bytes, cur: string)
    requires NewlineFree(s)
    ensures SplitLines(s, cur) == (if cur + s == "" then [] else [cur + s]) && LastPiece(s) == s
  {
    if s == [] {
      assert cur + s == cur;
    } else {
      var n := |s| - 1;
      assert s == [s[0]] + s[1..] && s == s[..n] + [s[n]];
      assert cur + [s[0]] + s[1..] == cur + s;
      OnePiece(s[1..], cur + [s[0]]);
      WholePiece(s);
    }
  }

  lemma {:induction false} WholePiece(s: Bytes)
    requires NewlineFree(s)
    ensures LastPiece(s) == s
  {
    if s != [] {
      var n := |s| - 1;
      WholePiece(s[..n]);
      assert s[n] in s && s == s[..n] + [s[n]];
    }
  }

  lemma {:induction false} PieceBehindBreak(a: Bytes, s: Bytes)
    ensures LastPiece(a + ['\n'] + s) == LastPiece(s)
  {
    var t := a + ['\n'] + s;
    if s == [] {
      assert t[|t| - 1] == '\n';
    } else {
      var n := |s| - 1;
      assert t[|t| - 1] == s[n] && t[..|t| - 1] == a + ['\n'] + s[..n];
      if s[n] != '\n' {
        PieceBehindBreak(a, s[..n]);
      }
    }
  }

  // ---- files that are lost ----

  /** A disk never written to is clean. */
  lemma EmptyDiskIsClean()
    ensures CleanDisk(map[])
  {
    assert ManifestNames(map[]) == [];
  }

  /** An empty file does not survive: the first write on a new machine. */
  lemma EmptyFileIsLost(b: BuiltIns)
    ensures var es := Boot(b, map[]);
      && Synced(b, map[], es) && UserName("a") && !Exists(es, "a")
      && Read(Boot(b, Apply(map[], DiskWrites(es, Write("a", [])))), "a") != Some([])
  {
    hide Boot, Synced;
    EmptyDiskIsClean();
    BootIsSynced(b, map[]);
    ShortName();
    FirstEntries(b);
    LostWrite(b, map[], Boot(b, map[]), "a", []);
  }

  /** Nor does a file named like a directory: nothing in memory holds its contents under a listed name. */
  lemma DirectoryNameIsLost(b: BuiltIns)
    ensures var es := After(Boot(b, map[]), MakeDir("a"));
      && Synced(b, map[], es) && UserName("a") && Storable("x")
      && Read(Boot(b, Apply(map[], DiskWrites(es, Write("a", "x")))), "a") != Some("x")
  {
    hide Boot, Synced, DiskWrites;
    var es, made := Boot(b, map[]), MakeDir("a");
    EmptyDiskIsClean();
    BootIsSynced(b, map[]);
    ShortName();
    FirstEntries(b);
    MakeDirWritesNothing(es, "a");
    CompletedIsSynced(b, map[], es, made);
    var es' := After(es, made);
    assert Entry("a", [], true) in es';
    ReadAppend(es, Entry("a", [], true), "a");
    LostWrite(b, map[], es', "a", "x");
  }

  lemma MakeDirWritesNothing(es: seq<Entry>, name: string)
    ensures DiskWrites(es, MakeDir(name)) == [] && Supported(es, MakeDir(name))
    ensures Apply(map[], []) == map[]
  {
  }

  lemma ShortName()
    ensures UserName("a") && "a" != SETTINGS && !IsBuiltIn("a")
  {
    assert |"a"| == 1;
  }

  /** The entries of a new machine are the built-in files. */
  lemma FirstEntries(b: BuiltIns)
    ensures Boot(b, map[]) == BuiltInEntries(b)
    ensures forall n :: !IsBuiltIn(n) ==> !Exists(Boot(b, map[]), n) && Read(Boot(b, map[]), n) == None
  {
    var es := BuiltInEntries(b);
    assert ManifestNames(map[]) == [];
    assert DiskRead(map[], SETTINGS) == [];
    forall n | !IsBuiltIn(n)
      ensures !Exists(es, n) && Read(es, n) == None
    {
      ReadIsMember(es, n);
    }
  }

  // ---- too many files ----

  /** Names as long as names may be. */
  function FileName(i: nat): (name: string)
    requires i < 64 * 64
    ensures |name| == MAX_KEY
  {
    [(48 + i / 64) as char, (48 + i % 64) as char] + seq(49, _ => 'x')
  }

  lemma FileNamesDiffer(i: nat, j: nat)
    requires i < 64 * 64 && j < 64 * 64 && FileName(i) == FileName(j)
    ensures i == j
  {
    assert FileName(i)[0] == FileName(j)[0] && FileName(i)[1] == FileName(j)[1];
    assert i / 64 == j / 64 && i % 64 == j % 64;
  }

  lemma FileNameIsUserName(i: nat)
    requires i < 64 * 64
    ensures UserName(FileName(i)) && !IsBuiltIn(FileName(i))
  {
    var name := FileName(i);
    assert |"readme.txt"| < 51 && |"motd.txt"| < 51 && |"QUICKSTART.txt"| < 51 && |"demo.psh"| < 51;
    assert |SETTINGS| < 51 && |MANIFEST| < 51;
  }

  /** A new machine after `n` files of one byte each. */
  function Filled(b: BuiltIns, n: nat): (Disk, seq<Entry>)
    requires n < 64 * 64
  {
    if n == 0 then (map[], Boot(b, map[]))
    else
      var (d, es) := Filled(b, n - 1);
      var op := Write(FileName(n - 1), "x");
      (Apply(d, DiskWrites(es, op)), After(es, op))
  }

  lemma {:induction false} FilledUp(b: BuiltIns, n: nat)
    requires n <= 1259
    ensures var (d, es) := Filled(b, n);
      && Synced(b, d, es) && |JoinLines(ListedNames(es))| == 44 + 52 * n
      && forall i :: n <= i < 64 * 64 ==> !Exists(es, FileName(i))
  {
    hide Boot, Synced, DiskWrites, Apply, After, FileName, JoinLines, ListedNames, PutFile, Manifest;
    if n == 0 {
      EmptyDiskIsClean();
      BootIsSynced(b, map[]);
      FirstEntries(b);
      FirstManifest(b);
      forall i | 0 <= i < 64 * 64
        ensures !Exists(Boot(b, map[]), FileName(i))
      {
        FileNameIsUserName(i);
      }
    } else {
      FilledUp(b, n - 1);
      var (d, es) := Filled(b, n - 1);
      OneMoreFile(b, d, es, n - 1);
    }
  }

  lemma OneMoreFile(b: BuiltIns, d: Disk, es: seq<Entry>, k: nat)
    requires k < 1259 && Synced(b, d, es) && |JoinLines(ListedNames(es))| == 44 + 52 * k
    requires forall i :: k <= i < 64 * 64 ==> !Exists(es, FileName(i))
    ensures var op := Write(FileName(k), "x"); var es' := After(es, op);
      && Synced(b, Apply(d, DiskWrites(es, op)), es') && |JoinLines(ListedNames(es'))| == 44 + 52 * (k + 1)
      && forall i :: k + 1 <= i < 64 * 64 ==> !Exists(es', FileName(i))
  {
    hide Boot, Synced, Apply, FileName, JoinLines, ListedNames, PutFile, Exists;
    var name := FileName(k);
    var op := Write(name, "x");
    FileNameIsUserName(k);
    NewLineLast(es, name, "x");
    ListedAppend(es, Entry(name, "x", false));
    JoinAppend(ListedNames(es), name);
    CompletedIsSynced(b, d, es, op);
    forall i | k + 1 <= i < 64 * 64
      ensures !Exists(After(es, op), FileName(i))
    {
      NotAdded(es, Entry(name, "x", false), FileName(i));
      if FileName(i) == name {
        FileNamesDiffer(i, k);
      }
    }
  }

  lemma NotAdded(es: seq<Entry>, e: Entry, n: string)
    ensures Exists(es + [e], n) <==> Exists(es, n) || e.name == n
  {
    assert e in es + [e] && forall x :: x in es + [e] <==> x in es || x == e;
  }

  lemma FirstManifest(b: BuiltIns)
    ensures |JoinLines(ListedNames(BuiltInEntries(b)))| == 44
  {
    var names := ["readme.txt", "motd.txt", "QUICKSTART.txt", "demo.psh"];
    var es := BuiltInEntries(b);
    assert |MANIFEST| == 12 && names[2][0] == 'Q';
    assert ListedNames(es[3..]) == names[3..] by { assert es[3..][1..] == []; }
    assert ListedNames(es[2..]) == names[2..] by { assert es[2..][1..] == es[3..]; }
    assert ListedNames(es[1..]) == names[1..] by { assert es[1..][1..] == es[2..]; }
    assert ListedNames(es) == names;
    JoinAppend([], names[0]);
    JoinAppend(names[..1], names[1]);
    JoinAppend(names[..2], names[2]);
    JoinAppend(names[..3], names[3]);
    assert names[..1] + [names[1]] == names[..2] && names[..2] + [names[2]] == names[..3];
    assert names[..3] + [names[3]] == names && [] + [names[0]] == names[..1];
  }

  /** The 1260th file of this kind is stored, but its manifest is cut to 28 bytes, and a boot finds none of them. */
  lemma ManifestOverflows(b: BuiltIns, data: Bytes)
    requires Storable(data)
    ensures var (d, es) := Filled(b, 1259); var name := FileName(1259);
      && Synced(b, d, es) && UserName(name) && !Exists(es, name)
      && |Manifest(PutFile(es, name, data))| == 65564
      && Read(Boot(b, Apply(d, DiskWrites(es, Write(name, data)))), name) == None
      && forall i :: 0 <= i < 1259 ==> Read(Boot(b, Apply(d, DiskWrites(es, Write(name, data)))), FileName(i)) == None
  {
    hide Boot, Synced, DiskWrites, Apply, FileName, Filled, JoinLines, ListedNames, PutFile, Manifest, SplitLines;
    FilledUp(b, 1259);
    var (d, es) := Filled(b, 1259);
    var name := FileName(1259);
    FileNameIsUserName(1259);
    NewLineLast(es, name, data);
    CutManifest(b, d, es, name, data);
    var m, d' := Manifest(PutFile(es, name, data)), Apply(d, DiskWrites(es, Write(name, data)));
    assert |Stored(m)| == 28;
    PiecesAreShort(Stored(m), "");
    forall i | 0 <= i <= 1259
      ensures Read(Boot(b, d'), FileName(i)) == None
    {
      FileNameIsUserName(i);
      RecoveredFile(b, d', FileName(i));
    }
  }

  lemma {:induction false} PiecesAreShort(s: Bytes, cur: string)
    ensures forall n :: n in SplitLines(s, cur) ==> |n| <= |cur| + |s|
  {
    if s != [] {
      PiecesAreShort(s[1..], if s[0] == '\n' then "" else cur + [s[0]]);
    }
  }
}
