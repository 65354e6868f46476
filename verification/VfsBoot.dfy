/** Everything a boot puts into memory: all files, and the directories above them (desktop-metal/src/vfs.rs:231-287). */
module VfsBoot {
  import opened Options
  import opened VfsSpec

  /** `dir` is the part of `name` before one of its slashes, the first character excepted. */
  predicate ParentOf(dir: string, name: string) {
    0 < |dir| < |name| && name[..|dir|] == dir && name[|dir|] == '/'
  }

  /** A name a boot loads: listed and with contents on disk. */
  predicate Loads(d: Disk, names: seq<string>, n: string) {
    n in names && DiskRead(d, n) != []
  }

  predicate Grows(es: seq<Entry>, es': seq<Entry>) {
    forall e :: e in es ==> Exists(es', e.name)
  }

  /** A directory marker without contents that stands above `name`. */
  predicate NewAbove(e: Entry, name: string) {
    e.isDir && e.data == [] && ParentOf(e.name, name)
  }

  lemma {:induction false} ParentsAdded(es: seq<Entry>, name: string, i: nat)
    requires i <= |name|
    ensures var r := WithParents(es, name, i);
      && Grows(es, r)
      && (forall dir :: ParentOf(dir, name) && |dir| >= i ==> Exists(r, dir))
      && (forall e :: e in r ==> e in es || NewAbove(e, name))
    decreases |name| - i
  {
    if i < |name| {
      var es' := if name[i] == '/' && i > 0 then AddDir(es, name[..i]) else es;
      assert forall e :: e in es ==> e in es';
      ParentsAdded(es', name, i + 1);
      var r := WithParents(es, name, i);
      forall dir | ParentOf(dir, name) && |dir| >= i
        ensures Exists(r, dir)
      {
        if |dir| == i {
          assert dir == name[..i] && Exists(es', dir) by { AddDirHas(es, dir); }
        }
      }
    }
  }

  lemma AddDirHas(es: seq<Entry>, name: string)
    ensures Exists(AddDir(es, name), name)
    ensures forall e :: e in AddDir(es, name) ==> e in es || e == Entry(name, [], true)
  {
    if !Exists(es, name) {
      assert Entry(name, [], true) in AddDir(es, name);
    }
  }

  lemma {:induction false} PutFileNames(es: seq<Entry>, name: string, data: Bytes)
    ensures var r := PutFile(es, name, data);
      && Grows(es, r) && Exists(r, name)
      && forall e :: e in r ==> e in es || e == Entry(name, data, false)
  {
    if es == [] {
      assert PutFile(es, name, data)[0] == Entry(name, data, false);
    } else {
      PutFileNames(es[1..], name, data);
      var r := PutFile(es, name, data);
      assert forall e :: e in es <==> e == es[0] || e in es[1..];
      if es[0].IsFile(name) {
        assert r[0].name == name && r[0] == Entry(name, data, false);
        assert forall e :: e in r <==> e == r[0] || e in es[1..];
      } else {
        assert forall e :: e in r <==> e == es[0] || e in PutFile(es[1..], name, data);
      }
    }
  }

  /** One loaded file brings the directories above it and no other. */
  lemma OneLoaded(es: seq<Entry>, d: Disk, name: string)
    ensures var r := LoadOne(es, d, name);
      && Grows(es, r)
      && (DiskRead(d, name) != [] ==> Exists(r, name) && forall dir :: ParentOf(dir, name) ==> Exists(r, dir))
      && (forall e :: e in r && e.isDir ==> e in es || (DiskRead(d, name) != [] && NewAbove(e, name)))
  {
    hide WithParents, PutFile, DiskRead;
    ParentsAdded(es, name, 0);
    PutFileNames(WithParents(es, name, 0), name, DiskRead(d, name));
  }

  ghost predicate Above(d: Disk, names: seq<string>, e: Entry) {
    e.data == [] && exists n :: Loads(d, names, n) && ParentOf(e.name, n)
  }

  lemma {:induction false} AllLoaded(es: seq<Entry>, d: Disk, names: seq<string>)
    ensures var r := LoadAll(es, d, names);
      && Grows(es, r)
      && (forall n :: Loads(d, names, n) ==> Exists(r, n) && forall dir :: ParentOf(dir, n) ==> Exists(r, dir))
      && (forall e :: e in r && e.isDir ==> e in es || Above(d, names, e))
    decreases |names|
  {
    hide LoadOne, ParentOf, DiskRead;
    if names != [] {
      var es', r := LoadOne(es, d, names[0]), LoadAll(es, d, names);
      OneLoaded(es, d, names[0]);
      AllLoaded(es', d, names[1..]);
      assert forall n :: n in names <==> n == names[0] || n in names[1..];
      forall n, dir | n == names[0] && DiskRead(d, n) != [] && (dir == n || ParentOf(dir, n))
        ensures Exists(r, dir)
      {
        GrowsKeeps(es', r, dir);
      }
      forall e | e in r && e.isDir
        ensures e in es || Above(d, names, e)
      {
        if Above(d, names[1..], e) {
          var n :| Loads(d, names[1..], n) && ParentOf(e.name, n);
          assert Loads(d, names, n);
        } else if e !in es {
          assert Loads(d, names, names[0]) && ParentOf(e.name, names[0]);
        }
      }
    }
  }

  lemma GrowsKeeps(es: seq<Entry>, r: seq<Entry>, n: string)
    requires Grows(es, r) && Exists(es, n)
    ensures Exists(r, n)
  {
  }

  /** The names a boot looks for: those listed, and the settings file of old disks. */
  function Sought(d: Disk): seq<string> {
    ManifestNames(d) + [SETTINGS]
  }

  /** After a boot every file loaded from the manifest has its directories, and any directory is above a loaded file. */
  lemma BootDirectories(b: BuiltIns, d: Disk)
    ensures forall n, dir :: Loads(d, ManifestNames(d), n) && ParentOf(dir, n) ==> Exists(Boot(b, d), dir)
    ensures forall e :: e in Boot(b, d) && e.isDir ==> Above(d, Sought(d), e)
  {
    hide LoadAll, LoadOne, ManifestNames, ParentOf, DiskRead, Grows, Exists;
    var names, built := ManifestNames(d), BuiltInEntries(b);
    var es, r := LoadAll(built, d, names), Boot(b, d);
    AllLoaded(built, d, names);
    OneLoaded(es, d, SETTINGS);
    forall n, dir | Loads(d, names, n) && ParentOf(dir, n)
      ensures Exists(r, dir)
    {
      if r != es {
        GrowsKeeps(es, r, dir);
      }
    }
    forall e | e in r && e.isDir
      ensures Above(d, Sought(d), e)
    {
      if Above(d, names, e) {
        var n :| Loads(d, names, n) && ParentOf(e.name, n);
        assert Loads(d, Sought(d), n);
      } else {
        assert Loads(d, Sought(d), SETTINGS);
      }
    }
  }

  /** Every file a boot gives but the settings: what is on disk under a listed name, else the built-in contents. */
  lemma BootFiles(b: BuiltIns, d: Disk, n: string)
    requires n != SETTINGS
    ensures Read(Boot(b, d), n) ==
      if Loads(d, ManifestNames(d), n) then Some(DiskRead(d, n))
      else if n == "readme.txt" then Some(b.readme)
      else if n == "motd.txt" then Some(b.motd)
      else if n == "QUICKSTART.txt" then Some(b.quickstart)
      else if n == "demo.psh" then Some(b.demo)
      else None
  {
    hide LoadAll, LoadOne, ManifestNames, DiskRead;
    var built := BuiltInEntries(b);
    ReadLoadAll(built, d, ManifestNames(d), n);
    ReadLoadOne(LoadAll(built, d, ManifestNames(d)), d, SETTINGS, n);
    assert Read(built[4..], n) == None;
    assert built[3..][1..] == built[4..] && built[2..][1..] == built[3..];
    assert built[1..][1..] == built[2..] && built[0..] == built;
    assert "readme.txt"[0] == 'r' && "motd.txt"[0] == 'm' && "QUICKSTART.txt"[0] == 'Q' && "demo.psh"[0] == 'd';
    assert Read(built[3..], n) == if n == "demo.psh" then Some(b.demo) else None;
    assert Read(built[2..], n) == if n == "QUICKSTART.txt" then Some(b.quickstart) else Read(built[3..], n);
    assert Read(built[1..], n) == if n == "motd.txt" then Some(b.motd) else Read(built[2..], n);
  }

  /** The settings are found, also those of an old disk that no manifest lists, unless a file lies below their name. */
  lemma BootSettings(b: BuiltIns, d: Disk)
    ensures Read(Boot(b, d), SETTINGS) ==
      if DiskRead(d, SETTINGS) == [] then None
      else if SETTINGS in ManifestNames(d) || !Covered(d) then Some(DiskRead(d, SETTINGS))
      else None
  {
    hide LoadAll, LoadOne, ManifestNames, DiskRead, ParentOf, Grows;
    var names, built := ManifestNames(d), BuiltInEntries(b);
    var es := LoadAll(built, d, names);
    AllLoaded(built, d, names);
    ReadLoadAll(built, d, names, SETTINGS);
    ReadLoadOne(es, d, SETTINGS, SETTINGS);
    NoBuiltInSettings(b);
    ReadIsMember(es, SETTINGS);
    if Exists(es, SETTINGS) && !Covered(d) {
      var e :| e in es && e.name == SETTINGS;
      assert !e.isDir by {
        assert !Above(d, names, e);
        assert e in built ==> !e.isDir;
      }
      assert e.IsFile(SETTINGS);
    }
  }

  /** A loaded file makes a directory of the settings' name. */
  ghost predicate Covered(d: Disk) {
    exists n :: Loads(d, ManifestNames(d), n) && ParentOf(SETTINGS, n)
  }

  lemma NoBuiltInSettings(b: BuiltIns)
    ensures Read(BuiltInEntries(b), SETTINGS) == None
  {
    ReadIsMember(BuiltInEntries(b), SETTINGS);
    assert SETTINGS[0] == '.' && "readme.txt"[0] == 'r' && "motd.txt"[0] == 'm';
    assert "QUICKSTART.txt"[0] == 'Q' && "demo.psh"[0] == 'd';
  }
}
