/**
 The file system object of desktop-metal/src/vfs.rs. Each method is tied to the operation of `VfsCrash` it carries
 out: the entries it leaves, and the disk writes it makes, one after the other.
 */
module VfsObject {
  import opened Options
  import opened VfsSpec
  import opened VfsCrash

  class Vfs {
    var entries: seq<Entry>
    var persistOn: bool
    /** What system calls 25 and 26 see. */
    var disk: Disk
    /** Every disk write asked for so far: a stop leaves the disk after some prefix of it. */
    ghost var trail: seq<(string, Bytes)>

    constructor (b: BuiltIns, disk: Disk)
      ensures entries == Boot(b, disk) && persistOn && this.disk == disk && trail == []
    {
      entries, persistOn, this.disk, trail := [], false, disk, [];
      new;
      WriteFile("readme.txt", b.readme);
      assert entries == [Entry("readme.txt", b.readme, false)];
      WriteFile("motd.txt", b.motd);
      WriteFile("QUICKSTART.txt", b.quickstart);
      WriteFile("demo.psh", b.demo);
      BuiltInsInOrder(b);
      LoadPersisted();
      persistOn := true;
    }

    method PersistWrite(name: string, data: Bytes) returns (ok: bool)
      modifies `disk, `trail
      ensures disk == DiskWrite(old(disk), name, data) && trail == old(trail) + [(name, data)]
      ensures ok <==> name != "" && |name| <= MAX_KEY && data != []
    {
      trail := trail + [(name, data)];
      if name == "" || |name| > MAX_KEY || data == [] {
        return false;
      }
      disk := disk[name := data[..|data| % LENGTH_RANGE]];
      return true;
    }

    method WriteMem(name: string, data: Bytes)
      modifies `entries
      ensures entries == PutFile(old(entries), name, data)
    {
      var i := 0;
      while i < |entries| && !entries[i].IsFile(name)
        invariant i <= |entries| && entries == old(entries)
        invariant PutFile(entries, name, data) == entries[..i] + PutFile(entries[i..], name, data)
      {
        assert entries[i..][0] == entries[i] && entries[i..][1..] == entries[i + 1..];
        i := i + 1;
      }
      if i < |entries| {
        assert entries[i..][0] == entries[i] && entries[i..][1..] == entries[i + 1..];
        entries := entries[i := entries[i].(data := data)];
      } else {
        entries := entries + [Entry(name, data, false)];
      }
    }

    method WriteFile(name: string, data: Bytes)
      modifies `entries, `disk, `trail
      ensures entries == After(old(entries), Write(name, data))
      ensures persistOn ==>
        && disk == Apply(old(disk), DiskWrites(old(entries), Write(name, data)))
        && trail == old(trail) + DiskWrites(old(entries), Write(name, data))
      ensures !persistOn ==> disk == old(disk) && trail == old(trail)
    {
      var wasNew := !Exists(entries, name);
      WriteMem(name, data);
      if persistOn && Persistable(name) {
        var _ := PersistWrite(name, data);
        if wasNew {
          FlushManifest();
          ApplyTwo(old(disk), DiskWrites(old(entries), Write(name, data)));
        }
      }
    }

    method FlushManifest()
      modifies `disk, `trail
      ensures disk == DiskWrite(old(disk), MANIFEST, Manifest(entries))
      ensures trail == old(trail) + [(MANIFEST, Manifest(entries))]
    {
      hide DiskWrite, ListedNames, JoinLines, Persistable;
      var list: Bytes := [];
      var i := 0;
      while i < |entries|
        invariant i <= |entries| && disk == old(disk) && trail == old(trail)
        invariant JoinLines(ListedNames(entries)) == list + JoinLines(ListedNames(entries[i..]))
      {
        assert entries[i..][0] == entries[i] && entries[i..][1..] == entries[i + 1..];
        ListedStep(entries[i..]);
        if !entries[i].isDir && Persistable(entries[i].name) {
          list := list + entries[i].name;
          list := list + ['\n'];
        }
        i := i + 1;
      }
      NothingListed(entries[i..]);
      assert list + [] == list == JoinLines(ListedNames(entries));
      if list == [] {
        list := ['\n'];
      }
      var _ := PersistWrite(MANIFEST, list);
    }

    method EnsureParentDirs(name: string)
      modifies `entries
      ensures entries == WithParents(old(entries), name, 0)
    {
      var i := 0;
      while i < |name|
        invariant i <= |name|
        invariant WithParents(old(entries), name, 0) == WithParents(entries, name, i)
      {
        if name[i] == '/' {
          var dir := name[..i];
          if dir != "" && !Exists(entries, dir) {
            entries := entries + [Entry(dir, [], true)];
          }
        }
        i := i + 1;
      }
    }

    method LoadFile(name: string)
      modifies `entries
      ensures entries == LoadOne(old(entries), disk, name)
    {
      var data := DiskRead(disk, name);
      if |data| > 0 {
        EnsureParentDirs(name);
        WriteMem(name, data);
      }
    }

    method LoadPersisted()
      modifies `entries
      ensures var es := LoadAll(old(entries), disk, ManifestNames(disk));
        entries == if Exists(es, SETTINGS) then es else LoadOne(es, disk, SETTINGS)
    {
      var manifest := DiskRead(disk, MANIFEST);
      if |manifest| > 0 {
        var names := SplitLines(manifest, "");
        var i := 0;
        while i < |names|
          invariant i <= |names|
          invariant LoadAll(old(entries), disk, names) == LoadAll(entries, disk, names[i..])
        {
          assert names[i..][0] == names[i] && names[i..][1..] == names[i + 1..];
          LoadFile(names[i]);
          i := i + 1;
        }
      }
      if !Exists(entries, SETTINGS) {
        LoadFile(SETTINGS);
      }
    }

    method Mkdir(name: string)
      modifies `entries
      ensures entries == After(old(entries), MakeDir(name))
    {
      if !Exists(entries, name) {
        entries := entries + [Entry(name, [], true)];
      }
    }

    method DeleteFile(name: string) returns (removed: bool)
      modifies `entries, `disk, `trail
      ensures entries == After(old(entries), Delete(name))
      ensures removed == Exists(old(entries), name)
      ensures persistOn ==>
        && disk == Apply(old(disk), DiskWrites(old(entries), Delete(name)))
        && trail == old(trail) + DiskWrites(old(entries), Delete(name))
      ensures !persistOn ==> disk == old(disk) && trail == old(trail)
    {
      hide Exists, Without, Manifest;
      var before := |entries|;
      var kept: seq<Entry> := [];
      var i := 0;
      while i < |entries|
        invariant i <= |entries| && entries == old(entries) && disk == old(disk) && trail == old(trail)
        invariant Without(entries, name) == kept + Without(entries[i..], name)
      {
        assert entries[i..][0] == entries[i] && entries[i..][1..] == entries[i + 1..];
        WithoutStep(entries[i..], name);
        if entries[i].name != name {
          kept := kept + [entries[i]];
        }
        i := i + 1;
      }
      assert entries[i..] == [];
      WithoutNone(name);
      WithoutShrinks(entries, name);
      entries := kept;
      removed := |entries| < before;
      if removed && persistOn && Persistable(name) {
        FlushManifest();
        ApplyOne(old(disk), (MANIFEST, Manifest(entries)));
      }
    }

    method RenameEntry(from: string, to: string) returns (found: bool)
      modifies `entries, `disk, `trail
      ensures entries == After(old(entries), Rename(from, to))
      ensures found == Exists(old(entries), from)
      ensures persistOn ==>
        && disk == Apply(old(disk), DiskWrites(old(entries), Rename(from, to)))
        && trail == old(trail) + DiskWrites(old(entries), Rename(from, to))
      ensures !persistOn ==> disk == old(disk) && trail == old(trail)
    {
      var i := 0;
      while i < |entries| && entries[i].name != from
        invariant i <= |entries| && unchanged(this)
        invariant forall j :: 0 <= j < i ==> entries[j].name != from
      {
        i := i + 1;
      }
      RenamedAt(entries, from, to, i);
      if i == |entries| {
        return false;
      }
      var e := entries[i];
      entries := entries[i := e.(name := to)];
      if persistOn && !e.isDir && Persistable(to) {
        var _ := PersistWrite(to, e.data);
        FlushManifest();
        ApplyTwo(old(disk), DiskWrites(old(entries), Rename(from, to)));
      }
      return true;
    }
  }

  lemma NothingListed(es: seq<Entry>)
    requires es == []
    ensures JoinLines(ListedNames(es)) == []
  {
  }

  lemma ListedStep(es: seq<Entry>)
    requires es != []
    ensures JoinLines(ListedNames(es)) ==
      (if !es[0].isDir && Persistable(es[0].name) then es[0].name + ['\n'] else []) + JoinLines(ListedNames(es[1..]))
  {
    if !es[0].isDir && Persistable(es[0].name) {
      assert ListedNames(es) == [es[0].name] + ListedNames(es[1..]);
    } else {
      assert ListedNames(es) == [] + ListedNames(es[1..]) == ListedNames(es[1..]);
    }
  }

  lemma {:induction false} RenamedAt(es: seq<Entry>, from: string, to: string, i: nat)
    requires i <= |es| && (forall j :: 0 <= j < i ==> es[j].name != from) && (i < |es| ==> es[i].name == from)
    ensures FirstNamed(es, from) == if i < |es| then Some(es[i]) else None
    ensures Renamed(es, from, to) == if i < |es| then es[i := es[i].(name := to)] else es
    ensures Exists(es, from) <==> i < |es|
  {
    hide Exists;
    if es == [] {
      NothingExists(from);
    } else {
      ExistsCons(es, from);
      if i > 0 {
        RenamedAt(es[1..], from, to, i - 1);
      }
    }
  }

  lemma NothingExists(n: string)
    ensures !Exists([], n)
  {
  }

  lemma ExistsCons(es: seq<Entry>, n: string)
    requires es != []
    ensures Exists(es, n) <==> es[0].name == n || Exists(es[1..], n)
  {
    assert forall e :: e in es <==> e == es[0] || e in es[1..];
  }

  lemma BuiltInsInOrder(b: BuiltIns)
    ensures PutFile(PutFile(PutFile([Entry("readme.txt", b.readme, false)], "motd.txt", b.motd),
              "QUICKSTART.txt", b.quickstart), "demo.psh", b.demo) == BuiltInEntries(b)
  {
    assert "readme.txt"[0] == 'r' && "motd.txt"[0] == 'm' && "QUICKSTART.txt"[0] == 'Q' && "demo.psh"[0] == 'd';
    var built := BuiltInEntries(b);
    PutFileAppends(built[..1], "motd.txt", b.motd);
    PutFileAppends(built[..2], "QUICKSTART.txt", b.quickstart);
    PutFileAppends(built[..3], "demo.psh", b.demo);
    assert built[..1] == [Entry("readme.txt", b.readme, false)];
    assert built[..1] + [Entry("motd.txt", b.motd, false)] == built[..2];
    assert built[..2] + [Entry("QUICKSTART.txt", b.quickstart, false)] == built[..3];
    assert built[..3] + [Entry("demo.psh", b.demo, false)] == built;
  }

  lemma WithoutStep(es: seq<Entry>, name: string)
    requires es != []
    ensures Without(es, name) == (if es[0].name == name then [] else [es[0]]) + Without(es[1..], name)
  {
  }

  lemma WithoutNone(name: string)
    ensures Without([], name) == []
  {
  }

  lemma {:induction false} WithoutShrinks(es: seq<Entry>, name: string)
    ensures |Without(es, name)| <= |es|
    ensures |Without(es, name)| < |es| <==> Exists(es, name)
  {
    hide Exists;
    if es == [] {
      NothingExists(name);
    } else {
      ExistsCons(es, name);
      WithoutShrinks(es[1..], name);
    }
  }

  /** All entries after an operation, files and directories, from those before it. */
  lemma EntriesAfter(es: seq<Entry>, op: Op)
    requires OneFileEach(es)
    ensures var r := After(es, op);
      match op
      case Write(name, data) =>
        && |es| <= |r|
        && (forall i :: 0 <= i < |es| ==> r[i] == if es[i].IsFile(name) then Entry(name, data, false) else es[i])
        && r[|es|..] == if exists i :: 0 <= i < |es| && es[i].IsFile(name) then [] else [Entry(name, data, false)]
      case Delete(name) => forall e :: multiset(r)[e] == if e.name == name then 0 else multiset(es)[e]
      case Rename(from, to) =>
        if exists i :: 0 <= i < |es| && es[i].name == from then
          exists i :: 0 <= i < |es| && es[i].name == from && (forall j :: 0 <= j < i ==> es[j].name != from)
                      && r == es[i := es[i].(name := to)]
        else r == es
      case MakeDir(name) =>
        r == es + if exists i :: 0 <= i < |es| && es[i].name == name then [] else [Entry(name, [], true)]
  {
    match op
    case Write(name, data) => PutFileAt(es, name, data);
    case Delete(name) => WithoutCounts(es, name);
    case Rename(from, to) =>
      var i := FirstAt(es, from);
      RenamedAt(es, from, to, i);
    case MakeDir(name) =>
      var i := FirstAt(es, name);
      assert i < |es| ==> es[i] in es;
      assert forall e :: e in es ==> exists j :: 0 <= j < |es| && es[j] == e;
  }

  /** The index of the first entry with this name, or the number of entries. */
  lemma {:induction false} FirstAt(es: seq<Entry>, name: string) returns (i: nat)
    ensures i <= |es| && (forall j :: 0 <= j < i ==> es[j].name != name) && (i < |es| ==> es[i].name == name)
  {
    i := 0;
    while i < |es| && es[i].name != name
      invariant i <= |es| && forall j :: 0 <= j < i ==> es[j].name != name
    {
      i := i + 1;
    }
  }

  lemma {:induction false} PutFileAt(es: seq<Entry>, name: string, data: Bytes)
    requires OneFileEach(es)
    ensures var r := PutFile(es, name, data);
      && |es| <= |r|
      && (forall i :: 0 <= i < |es| ==> r[i] == if es[i].IsFile(name) then Entry(name, data, false) else es[i])
      && r[|es|..] == if exists i :: 0 <= i < |es| && es[i].IsFile(name) then [] else [Entry(name, data, false)]
  {
    if es != [] && !es[0].IsFile(name) {
      PutFileAt(es[1..], name, data);
      var r, q := PutFile(es, name, data), PutFile(es[1..], name, data);
      assert r == [es[0]] + q && r[|es|..] == q[|es| - 1..];
      if i :| 0 <= i < |es| && es[i].IsFile(name) {
        assert es[1..][i - 1].IsFile(name);
      }
      assert forall i :: 0 <= i < |es| - 1 ==> es[1..][i] == es[i + 1];
    }
  }

  lemma {:induction false} WithoutCounts(es: seq<Entry>, name: string)
    ensures forall e :: multiset(Without(es, name))[e] == if e.name == name then 0 else multiset(es)[e]
  {
    if es != [] {
      WithoutCounts(es[1..], name);
      assert es == [es[0]] + es[1..];
    }
  }
}
