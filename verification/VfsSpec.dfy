/**
 What the desktop's file system means (desktop-metal/src/vfs.rs): its entries in memory, the disk below it as a
 map from names to contents, and the entries a boot recovers from a disk. A `char` stands for one byte.
 */
module VfsSpec {
  import opened Options

  type Bytes = seq<char>
  type Disk = map<string, Bytes>

  datatype Entry = Entry(name: string, data: Bytes, isDir: bool) {
    predicate IsFile(n: string) { name == n && !isDir }
  }

  const MANIFEST := ".vfsmanifest"
  const SETTINGS := ".config/rusty-penguin/settings.ini"
  const MAX_KEY := 51

  /** The length field of the two disk syscalls is 16 bits wide. */
  const LENGTH_RANGE := 0x1_0000
  const READ_BUFFER := 65535

  predicate Persistable(name: string) {
    name != "" && |name| <= MAX_KEY && name != MANIFEST
  }

  // ---- the two disk syscalls ----

  function DiskWrite(d: Disk, name: string, data: Bytes): Disk {
    if name == "" || |name| > MAX_KEY || data == [] then d
    else d[name := data[..|data| % LENGTH_RANGE]]
  }

  /** What `persist_read` puts into its buffer; nothing when the name is not on disk. */
  function DiskRead(d: Disk, name: string): Bytes {
    if name == "" || |name| > MAX_KEY || name !in d then []
    else if |d[name]| <= READ_BUFFER then d[name] else d[name][..READ_BUFFER]
  }

  // ---- entries in memory ----

  predicate Exists(es: seq<Entry>, name: string) {
    exists e :: e in es && e.name == name
  }

  function Read(es: seq<Entry>, name: string): Option<Bytes> {
    if es == [] then None
    else if es[0].IsFile(name) then Some(es[0].data)
    else Read(es[1..], name)
  }

  function PutFile(es: seq<Entry>, name: string, data: Bytes): seq<Entry> {
    if es == [] then [Entry(name, data, false)]
    else if es[0].IsFile(name) then [es[0].(data := data)] + es[1..]
    else [es[0]] + PutFile(es[1..], name, data)
  }

  function Without(es: seq<Entry>, name: string): seq<Entry> {
    if es == [] then []
    else if es[0].name == name then Without(es[1..], name)
    else [es[0]] + Without(es[1..], name)
  }

  /** The first entry called `from`, file or directory, takes the name `to`. */
  function Renamed(es: seq<Entry>, from: string, to: string): seq<Entry> {
    if es == [] then []
    else if es[0].name == from then [es[0].(name := to)] + es[1..]
    else [es[0]] + Renamed(es[1..], from, to)
  }

  function FirstNamed(es: seq<Entry>, name: string): Option<Entry> {
    if es == [] then None
    else if es[0].name == name then Some(es[0])
    else FirstNamed(es[1..], name)
  }

  function AddDir(es: seq<Entry>, name: string): seq<Entry> {
    if Exists(es, name) then es else es + [Entry(name, [], true)]
  }

  // ---- the manifest ----

  function ListedNames(es: seq<Entry>): seq<string> {
    if es == [] then []
    else (if !es[0].isDir && Persistable(es[0].name) then [es[0].name] else []) + ListedNames(es[1..])
  }

  function JoinLines(names: seq<string>): Bytes {
    if names == [] then [] else names[0] + ['\n'] + JoinLines(names[1..])
  }

  function Manifest(es: seq<Entry>): Bytes {
    var list := JoinLines(ListedNames(es));
    if list == [] then ['\n'] else list
  }

  /** `split('\n')` with the empty pieces dropped; `cur` is the piece read so far. */
  function SplitLines(s: Bytes, cur: string): seq<string> {
    if s == [] then (if cur == "" then [] else [cur])
    else if s[0] == '\n' then (if cur == "" then [] else [cur]) + SplitLines(s[1..], "")
    else SplitLines(s[1..], cur + [s[0]])
  }

  function ManifestNames(d: Disk): seq<string> {
    SplitLines(DiskRead(d, MANIFEST), "")
  }

  // ---- boot ----

  datatype BuiltIns = BuiltIns(readme: Bytes, motd: Bytes, quickstart: Bytes, demo: Bytes)

  function BuiltInEntries(b: BuiltIns): seq<Entry> {
    [Entry("readme.txt", b.readme, false), Entry("motd.txt", b.motd, false),
     Entry("QUICKSTART.txt", b.quickstart, false), Entry("demo.psh", b.demo, false)]
  }

  predicate IsBuiltIn(name: string) {
    name in {"readme.txt", "motd.txt", "QUICKSTART.txt", "demo.psh"}
  }

  /** Directory markers for the prefixes of `name` that end before a '/' at `i` or later. */
  function WithParents(es: seq<Entry>, name: string, i: nat): seq<Entry>
    requires i <= |name|
    decreases |name| - i
  {
    if i == |name| then es
    else WithParents(if name[i] == '/' && i > 0 then AddDir(es, name[..i]) else es, name, i + 1)
  }

  function LoadOne(es: seq<Entry>, d: Disk, name: string): seq<Entry> {
    if DiskRead(d, name) == [] then es else PutFile(WithParents(es, name, 0), name, DiskRead(d, name))
  }

  function LoadAll(es: seq<Entry>, d: Disk, names: seq<string>): seq<Entry>
    decreases |names|
  {
    if names == [] then es else LoadAll(LoadOne(es, d, names[0]), d, names[1..])
  }

  /** The entries after boot: built-in files, then everything the manifest lists, then legacy settings. */
  function Boot(b: BuiltIns, d: Disk): seq<Entry> {
    var es := LoadAll(BuiltInEntries(b), d, ManifestNames(d));
    if Exists(es, SETTINGS) then es else LoadOne(es, d, SETTINGS)
  }

  // ---- what a user may expect ----

  predicate NewlineFree(s: string) {
    '\n' !in s
  }

  /** Names of files the user owns: not a built-in file, not the settings file, fit for the manifest. */
  predicate UserName(n: string) {
    Persistable(n) && NewlineFree(n) && !IsBuiltIn(n) && n != SETTINGS
  }

  /** Booting from `d` gives back exactly the user files of `es`. */
  ghost predicate Preserves(b: BuiltIns, d: Disk, es: seq<Entry>) {
    forall n :: UserName(n) ==> Read(Boot(b, d), n) == Read(es, n)
  }

  predicate OneFileEach(es: seq<Entry>) {
    forall i, j :: 0 <= i < j < |es| && !es[i].isDir && !es[j].isDir ==> es[i].name != es[j].name
  }

  predicate CleanNames(es: seq<Entry>) {
    forall e :: e in es && !e.isDir && Persistable(e.name) ==> NewlineFree(e.name)
  }

  /** No user file is listed without its contents: true of an empty disk, and kept by every operation. */
  ghost predicate CleanDisk(d: Disk) {
    forall n :: UserName(n) && n in ManifestNames(d) ==> DiskRead(d, n) != []
  }

  /** The invariant of a running session. */
  ghost predicate Synced(b: BuiltIns, d: Disk, es: seq<Entry>) {
    Preserves(b, d, es) && WellNamed(es) && CleanDisk(d)
  }

  lemma {:induction false} ReadPut(es: seq<Entry>, name: string, data: Bytes, n: string)
    ensures Read(PutFile(es, name, data), n) == if n == name then Some(data) else Read(es, n)
  {
    if es != [] && !es[0].IsFile(name) {
      ReadPut(es[1..], name, data, n);
    }
  }

  lemma {:induction false} ReadAppend(es: seq<Entry>, e: Entry, n: string)
    ensures Read(es + [e], n) == if Read(es, n) == None && e.IsFile(n) then Some(e.data) else Read(es, n)
  {
    if es == [] {
      assert es + [e] == [e];
    } else {
      ReadAppend(es[1..], e, n);
      assert (es + [e])[1..] == es[1..] + [e];
    }
  }

  lemma {:induction false} ReadWithout(es: seq<Entry>, name: string, n: string)
    ensures Read(Without(es, name), n) == if n == name then None else Read(es, n)
  {
    if es != [] {
      ReadWithout(es[1..], name, n);
    }
  }

  lemma {:induction false} PutFileAppends(es: seq<Entry>, name: string, data: Bytes)
    requires forall i :: 0 <= i < |es| ==> es[i].name != name
    ensures PutFile(es, name, data) == es + [Entry(name, data, false)]
  {
    if es != [] {
      PutFileAppends(es[1..], name, data);
    }
  }

  // ---- every operation keeps names clean and files unique ----

  lemma OneFileCons(e: Entry, es: seq<Entry>)
    ensures OneFileEach([e] + es) <==>
      OneFileEach(es) && forall x :: x in es && !x.isDir && !e.isDir ==> x.name != e.name
  {
    var cs := [e] + es;
    if OneFileEach(cs) {
      forall x | x in es && !x.isDir && !e.isDir
        ensures x.name != e.name
      {
        var i :| 0 <= i < |es| && es[i] == x;
        assert cs[i + 1] == x && cs[0] == e;
      }
      forall i, j | 0 <= i < j < |es| && !es[i].isDir && !es[j].isDir
        ensures es[i].name != es[j].name
      {
        assert cs[i + 1] == es[i] && cs[j + 1] == es[j];
      }
    }
  }

  ghost predicate WellNamed(es: seq<Entry>) {
    OneFileEach(es) && CleanNames(es)
  }

  lemma WellNamedCons(e: Entry, es: seq<Entry>)
    ensures WellNamed([e] + es) <==>
      && WellNamed(es)
      && (forall x :: x in es && !x.isDir && !e.isDir ==> x.name != e.name)
      && (!e.isDir && Persistable(e.name) ==> NewlineFree(e.name))
  {
    OneFileCons(e, es);
    assert forall x :: x in [e] + es <==> x == e || x in es;
    assert e in [e] + es;
  }

  lemma {:induction false} PutFileKeeps(es: seq<Entry>, name: string, data: Bytes)
    requires WellNamed(es) && (Persistable(name) ==> NewlineFree(name))
    ensures WellNamed(PutFile(es, name, data))
    ensures forall e :: e in PutFile(es, name, data) ==> e in es || e == Entry(name, data, false)
  {
    if es == [] {
      WellNamedCons(Entry(name, data, false), []);
    } else {
      assert es == [es[0]] + es[1..];
      WellNamedCons(es[0], es[1..]);
      if es[0].IsFile(name) {
        WellNamedCons(es[0].(data := data), es[1..]);
      } else {
        PutFileKeeps(es[1..], name, data);
        WellNamedCons(es[0], PutFile(es[1..], name, data));
      }
    }
  }

  lemma {:induction false} WithoutKeeps(es: seq<Entry>, name: string)
    requires WellNamed(es)
    ensures WellNamed(Without(es, name))
    ensures forall e :: e in Without(es, name) ==> e in es
  {
    if es != [] {
      assert es == [es[0]] + es[1..];
      WellNamedCons(es[0], es[1..]);
      WithoutKeeps(es[1..], name);
      WellNamedCons(es[0], Without(es[1..], name));
    }
  }

  lemma {:induction false} RenamedKeeps(es: seq<Entry>, from: string, to: string)
    requires WellNamed(es) && !Exists(es, to) && (Persistable(to) ==> NewlineFree(to))
    ensures WellNamed(Renamed(es, from, to))
    ensures forall e :: e in Renamed(es, from, to) ==> e in es || e.name == to
  {
    if es != [] {
      assert es == [es[0]] + es[1..];
      WellNamedCons(es[0], es[1..]);
      assert forall e :: e in es[1..] ==> e in es;
      if es[0].name == from {
        WellNamedCons(es[0].(name := to), es[1..]);
      } else {
        RenamedKeeps(es[1..], from, to);
        WellNamedCons(es[0], Renamed(es[1..], from, to));
      }
    }
  }

  lemma {:induction false} AppendDirKeeps(es: seq<Entry>, name: string)
    requires WellNamed(es)
    ensures WellNamed(es + [Entry(name, [], true)])
  {
    if es == [] {
      WellNamedCons(Entry(name, [], true), []);
    } else {
      assert es == [es[0]] + es[1..];
      WellNamedCons(es[0], es[1..]);
      AppendDirKeeps(es[1..], name);
      WellNamedCons(es[0], es[1..] + [Entry(name, [], true)]);
      assert es + [Entry(name, [], true)] == [es[0]] + (es[1..] + [Entry(name, [], true)]);
    }
  }

  lemma {:induction false} WithParentsKeeps(es: seq<Entry>, name: string, i: nat)
    requires i <= |name| && WellNamed(es)
    ensures WellNamed(WithParents(es, name, i))
    decreases |name| - i
  {
    if i < |name| {
      AppendDirKeeps(es, name[..i]);
      WithParentsKeeps(if name[i] == '/' && i > 0 then AddDir(es, name[..i]) else es, name, i + 1);
    }
  }

  lemma LoadOneKeeps(es: seq<Entry>, d: Disk, name: string)
    requires WellNamed(es) && NewlineFree(name)
    ensures WellNamed(LoadOne(es, d, name))
  {
    WithParentsKeeps(es, name, 0);
    PutFileKeeps(WithParents(es, name, 0), name, DiskRead(d, name));
  }

  lemma {:induction false} LoadAllKeeps(es: seq<Entry>, d: Disk, names: seq<string>)
    requires WellNamed(es) && forall n :: n in names ==> NewlineFree(n)
    ensures WellNamed(LoadAll(es, d, names))
    decreases |names|
  {
    if names != [] {
      LoadOneKeeps(es, d, names[0]);
      LoadAllKeeps(LoadOne(es, d, names[0]), d, names[1..]);
    }
  }

  lemma {:induction false} PiecesAreLines(s: Bytes, cur: string)
    requires NewlineFree(cur)
    ensures forall n :: n in SplitLines(s, cur) ==> NewlineFree(n)
  {
    if s != [] {
      PiecesAreLines(s[1..], if s[0] == '\n' then "" else cur + [s[0]]);
    }
  }

  lemma NoNewlineInEmpty()
    ensures NewlineFree("")
  {
  }

  lemma SettingsNewlineFree()
    ensures NewlineFree(SETTINGS)
  {
  }

  lemma BuiltInsWellNamed(b: BuiltIns)
    ensures WellNamed(BuiltInEntries(b))
  {
    var es := BuiltInEntries(b);
    assert "readme.txt"[0] == 'r' && "motd.txt"[0] == 'm' && "QUICKSTART.txt"[0] == 'Q' && "demo.psh"[0] == 'd';
    assert NewlineFree("readme.txt") && NewlineFree("motd.txt");
    assert NewlineFree("QUICKSTART.txt") && NewlineFree("demo.psh");
    assert OneFileEach(es);
  }

  /** A session starts synced with its disk. */
  lemma BootIsSynced(b: BuiltIns, d: Disk)
    requires CleanDisk(d)
    ensures Synced(b, d, Boot(b, d))
  {
    hide BuiltInEntries, NewlineFree, WellNamed, LoadAll, SplitLines;
    var built, names := BuiltInEntries(b), ManifestNames(d);
    assert NewlineFree("") by { NoNewlineInEmpty(); }
    PiecesAreLines(DiskRead(d, MANIFEST), "");
    BuiltInsWellNamed(b);
    SettingsNewlineFree();
    LoadAllKeeps(built, d, names);
    var es := LoadAll(built, d, names);
    LoadOneKeeps(es, d, SETTINGS);
  }

  lemma {:induction false} ReadIsMember(es: seq<Entry>, n: string)
    ensures Read(es, n).Some? <==> exists e :: e in es && e.IsFile(n)
    ensures Read(es, n).Some? ==> Entry(n, Read(es, n).value, false) in es
  {
    if es != [] {
      ReadIsMember(es[1..], n);
      assert forall e :: e in es <==> e == es[0] || e in es[1..];
    }
  }

  lemma FirstFileIsOnly(es: seq<Entry>)
    requires OneFileEach(es) && es != []
    ensures !es[0].isDir ==> Read(es[1..], es[0].name) == None
  {
    ReadIsMember(es[1..], es[0].name);
    forall j | 0 <= j < |es[1..]|
      ensures !es[0].isDir ==> !es[1..][j].IsFile(es[0].name)
    {
      assert es[1..][j] == es[j + 1];
    }
  }

  lemma {:induction false} ReadRenamed(es: seq<Entry>, from: string, to: string, n: string)
    requires OneFileEach(es) && !Exists(es, to) && FirstNamed(es, from).Some?
    ensures var e := FirstNamed(es, from).value;
      Read(Renamed(es, from, to), n) ==
        if e.isDir then Read(es, n)
        else if n == to then Some(e.data)
        else if n == from then None
        else Read(es, n)
    ensures FirstNamed(es, from).value in es && FirstNamed(es, from).value.name == from
  {
    assert es[0] in es;
    if es[0].name == from {
      ReadIsMember(es[1..], n);
      assert forall e :: e in es[1..] ==> e in es;
      FirstFileIsOnly(es);
    } else {
      assert forall e :: e in es[1..] ==> e in es;
      ReadRenamed(es[1..], from, to, n);
    }
  }

  lemma {:induction false} ReadWithParents(es: seq<Entry>, name: string, i: nat, n: string)
    requires i <= |name|
    ensures Read(WithParents(es, name, i), n) == Read(es, n)
    decreases |name| - i
  {
    if i < |name| {
      var es' := if name[i] == '/' && i > 0 then AddDir(es, name[..i]) else es;
      ReadWithParents(es', name, i + 1, n);
      ReadAppend(es, Entry(name[..i], [], true), n);
    }
  }

  lemma ReadLoadOne(es: seq<Entry>, d: Disk, name: string, n: string)
    ensures Read(LoadOne(es, d, name), n) ==
      if n == name && DiskRead(d, name) != [] then Some(DiskRead(d, name)) else Read(es, n)
  {
    ReadWithParents(es, name, 0, n);
    ReadPut(WithParents(es, name, 0), name, DiskRead(d, name), n);
  }

  lemma {:induction false} ReadLoadAll(es: seq<Entry>, d: Disk, names: seq<string>, n: string)
    ensures Read(LoadAll(es, d, names), n) ==
      if n in names && DiskRead(d, n) != [] then Some(DiskRead(d, n)) else Read(es, n)
    decreases |names|
  {
    if names != [] {
      ReadLoadOne(es, d, names[0], n);
      ReadLoadAll(LoadOne(es, d, names[0]), d, names[1..], n);
    }
  }

  /** A user file is recovered exactly when it is listed and its contents are on disk. */
  lemma RecoveredFile(b: BuiltIns, d: Disk, n: string)
    requires UserName(n)
    ensures Read(Boot(b, d), n) ==
      if n in ManifestNames(d) && DiskRead(d, n) != [] then Some(DiskRead(d, n)) else None
  {
    var built := BuiltInEntries(b);
    ReadIsMember(built, n);
    ReadLoadAll(built, d, ManifestNames(d), n);
    ReadLoadOne(LoadAll(built, d, ManifestNames(d)), d, SETTINGS, n);
  }

  // ---- the manifest lists what it was written for ----

  lemma {:induction false} SplitOneLine(line: string, rest: Bytes, cur: string)
    requires NewlineFree(line) && cur + line != ""
    ensures SplitLines(line + ['\n'] + rest, cur) == [cur + line] + SplitLines(rest, "")
  {
    var s := line + ['\n'] + rest;
    if line == "" {
      assert s[1..] == rest && cur + line == cur;
    } else {
      assert s[0] == line[0] && s[1..] == line[1..] + ['\n'] + rest;
      assert line == [line[0]] + line[1..];
      SplitOneLine(line[1..], rest, cur + [line[0]]);
      assert cur + [line[0]] + line[1..] == cur + line;
    }
  }

  lemma {:induction false} SplitJoined(names: seq<string>)
    requires forall n :: n in names ==> NewlineFree(n) && n != ""
    ensures SplitLines(JoinLines(names), "") == names
  {
    if names != [] {
      SplitOneLine(names[0], JoinLines(names[1..]), "");
      SplitJoined(names[1..]);
      assert JoinLines(names) == names[0] + ['\n'] + JoinLines(names[1..]);
      assert "" + names[0] == names[0];
      assert SplitLines(JoinLines(names), "") == ["" + names[0]] + SplitLines(JoinLines(names[1..]), "");
      assert ["" + names[0]] + names[1..] == names;
    }
  }

  lemma MemberOfCons(es: seq<Entry>, n: string)
    requires es != []
    ensures (exists e :: e in es && e.IsFile(n)) <==> es[0].IsFile(n) || exists e :: e in es[1..] && e.IsFile(n)
  {
    assert forall e :: e in es <==> e == es[0] || e in es[1..];
  }

  lemma {:induction false} ListedIff(es: seq<Entry>, n: string)
    ensures n in ListedNames(es) <==> Persistable(n) && exists e :: e in es && e.IsFile(n)
  {
    if es != [] {
      ListedIff(es[1..], n);
      assert n in ListedNames(es) <==>
        (!es[0].isDir && Persistable(es[0].name) && n == es[0].name) || n in ListedNames(es[1..]);
      MemberOfCons(es, n);
    }
  }

  /** Reading a freshly written manifest back gives the persistable file names in memory. */
  lemma FlushedNames(es: seq<Entry>, d: Disk)
    requires CleanNames(es) && |Manifest(es)| <= READ_BUFFER
    ensures ManifestNames(DiskWrite(d, MANIFEST, Manifest(es))) == ListedNames(es)
  {
    var names, m := ListedNames(es), Manifest(es);
    forall n | n in names
      ensures NewlineFree(n) && n != ""
    {
      ListedIff(es, n);
    }
    SplitJoined(names);
    assert m[..|m| % LENGTH_RANGE] == m;
    assert DiskRead(DiskWrite(d, MANIFEST, m), MANIFEST) == m;
    if names == [] {
      assert m == ['\n'] && m[1..] == [] && SplitLines([], "") == [];
    } else {
      assert JoinLines(names) != [];
    }
  }
}
