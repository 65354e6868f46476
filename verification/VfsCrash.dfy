/**
 The persistence protocol of desktop-metal/src/vfs.rs: which disk writes each operation makes, in which order, and
 what a boot finds after a stop between any two of them.
 */
module VfsCrash {
  import opened Options
  import opened VfsSpec

  datatype Op =
    | Write(name: string, data: Bytes)
    | Delete(name: string)
    | Rename(from: string, to: string)
    | MakeDir(name: string)

  function After(es: seq<Entry>, op: Op): seq<Entry> {
    match op
    case Write(name, data) => PutFile(es, name, data)
    case Delete(name) => Without(es, name)
    case Rename(from, to) => Renamed(es, from, to)
    case MakeDir(name) => AddDir(es, name)
  }

  /** The disk writes of an operation, in program order. */
  function DiskWrites(es: seq<Entry>, op: Op): seq<(string, Bytes)> {
    var manifest := (MANIFEST, Manifest(After(es, op)));
    match op
    case Write(name, data) =>
      if !Persistable(name) then [] else [(name, data)] + (if Exists(es, name) then [] else [manifest])
    case Delete(name) =>
      if Exists(es, name) && Persistable(name) then [manifest] else []
    case Rename(from, to) =>
      (match FirstNamed(es, from)
       case None => []
       case Some(e) => if e.isDir || !Persistable(to) then [] else [(to, e.data), manifest])
    case MakeDir(_) => []
  }

  function Apply(d: Disk, ws: seq<(string, Bytes)>): Disk
    decreases |ws|
  {
    if ws == [] then d else Apply(DiskWrite(d, ws[0].0, ws[0].1), ws[1..])
  }

  predicate Storable(data: Bytes) {
    1 <= |data| <= READ_BUFFER
  }

  predicate WritesManifest(es: seq<Entry>, op: Op) {
    var ws := DiskWrites(es, op);
    ws != [] && ws[|ws| - 1].0 == MANIFEST
  }

  /** The conditions under which the protocol keeps its promise; all of them can be checked before the call. */
  ghost predicate Supported(es: seq<Entry>, op: Op) {
    && (WritesManifest(es, op) ==> |Manifest(After(es, op))| <= READ_BUFFER)
    && match op
       case Write(name, data) =>
         && (Persistable(name) ==> NewlineFree(name))
         && (UserName(name) ==> Storable(data) && (Exists(es, name) ==> Read(es, name).Some?))
       case Delete(name) => UserName(name) || !Persistable(name) || !Exists(es, name) || NewlineFree(name)
       case Rename(from, to) =>
         && !Exists(es, to)
         && (Persistable(to) ==> NewlineFree(to))
         && (match FirstNamed(es, from)
             case None => true
             case Some(e) =>
               !e.isDir ==> (UserName(from) ==> Persistable(to)) && (UserName(to) ==> Storable(e.data)))
       case MakeDir(_) => true
  }

  lemma OtherKeysUnread(d: Disk, key: string, data: Bytes, n: string)
    requires n != key
    ensures DiskRead(DiskWrite(d, key, data), n) == DiskRead(d, n)
  {
  }

  lemma StoredIsRead(d: Disk, key: string, data: Bytes)
    requires Persistable(key) && Storable(data)
    ensures DiskRead(DiskWrite(d, key, data), key) == data
  {
    assert data[..|data| % LENGTH_RANGE] == data;
  }

  /** Contents written under an unlisted or matching name leave every user file as it was, or as it will be. */
  lemma ContentsWritten(b: BuiltIns, d: Disk, es: seq<Entry>, key: string, data: Bytes, n: string)
    requires Preserves(b, d, es) && UserName(n) && key != MANIFEST
    requires n == key ==> Storable(data)
    ensures Read(Boot(b, DiskWrite(d, key, data)), n) ==
      if n == key && n in ManifestNames(d) then Some(data) else Read(es, n)
  {
    var d' := DiskWrite(d, key, data);
    RecoveredFile(b, d, n);
    RecoveredFile(b, d', n);
    OtherKeysUnread(d, key, data, MANIFEST);
    if n == key {
      StoredIsRead(d, key, data);
    } else {
      OtherKeysUnread(d, key, data, n);
    }
  }

  lemma ContentsKeepClean(b: BuiltIns, d: Disk, es: seq<Entry>, key: string, data: Bytes)
    requires CleanDisk(d) && key != MANIFEST && (UserName(key) ==> Storable(data))
    ensures CleanDisk(DiskWrite(d, key, data))
  {
    var d' := DiskWrite(d, key, data);
    OtherKeysUnread(d, key, data, MANIFEST);
    forall n | UserName(n) && n in ManifestNames(d')
      ensures DiskRead(d', n) != []
    {
      if n == key {
        StoredIsRead(d, key, data);
      } else {
        OtherKeysUnread(d, key, data, n);
      }
    }
  }

  /** Once the manifest is rewritten, a boot finds exactly the user files that are in memory and on disk. */
  lemma ManifestWritten(b: BuiltIns, d: Disk, es: seq<Entry>)
    requires CleanNames(es) && |Manifest(es)| <= READ_BUFFER
    requires forall n :: UserName(n) && Read(es, n).Some? ==> DiskRead(d, n) == Read(es, n).value != []
    ensures Preserves(b, DiskWrite(d, MANIFEST, Manifest(es)), es) && CleanDisk(DiskWrite(d, MANIFEST, Manifest(es)))
  {
    var d' := DiskWrite(d, MANIFEST, Manifest(es));
    FlushedNames(es, d);
    forall n | UserName(n)
      ensures Read(Boot(b, d'), n) == Read(es, n)
      ensures n in ManifestNames(d') ==> DiskRead(d', n) != []
    {
      RecoveredFile(b, d', n);
      OtherKeysUnread(d, MANIFEST, Manifest(es), n);
      ListedIff(es, n);
      ReadIsMember(es, n);
    }
  }

  /** In a synced session every user file in memory is on disk with the same contents. */
  lemma InMemoryIsOnDisk(b: BuiltIns, d: Disk, es: seq<Entry>, n: string)
    requires Preserves(b, d, es) && UserName(n) && Read(es, n).Some?
    ensures DiskRead(d, n) == Read(es, n).value != [] && n in ManifestNames(d)
  {
    RecoveredFile(b, d, n);
  }

  lemma AfterKeepsNames(es: seq<Entry>, op: Op)
    requires WellNamed(es) && Supported(es, op)
    ensures WellNamed(After(es, op))
  {
    match op
    case Write(name, data) => PutFileKeeps(es, name, data);
    case Delete(name) => WithoutKeeps(es, name);
    case Rename(from, to) => RenamedKeeps(es, from, to);
    case MakeDir(name) => AppendDirKeeps(es, name);
  }

  /** The user files after an operation, as a function of those before it. */
  lemma ReadAfter(es: seq<Entry>, op: Op, n: string)
    requires WellNamed(es) && Supported(es, op)
    ensures Read(After(es, op), n) == match op
      case Write(name, data) => if n == name then Some(data) else Read(es, n)
      case Delete(name) => if n == name then None else Read(es, n)
      case Rename(from, to) =>
        (match FirstNamed(es, from)
         case None => Read(es, n)
         case Some(e) => if e.isDir then Read(es, n)
                         else if n == to then Some(e.data) else if n == from then None else Read(es, n))
      case MakeDir(_) => Read(es, n)
  {
    match op
    case Write(name, data) => ReadPut(es, name, data, n);
    case Delete(name) => ReadWithout(es, name, n);
    case Rename(from, to) =>
      if FirstNamed(es, from).Some? {
        ReadRenamed(es, from, to, n);
      } else {
        RenamedAbsent(es, from, to);
      }
    case MakeDir(name) => ReadAppend(es, Entry(name, [], true), n);
  }

  lemma {:induction false} RenamedAbsent(es: seq<Entry>, from: string, to: string)
    requires FirstNamed(es, from) == None
    ensures Renamed(es, from, to) == es
  {
    if es != [] {
      RenamedAbsent(es[1..], from, to);
    }
  }

  /** Every user file in memory after the operation is on disk once its contents are written. */
  lemma ContentsBeforeManifest(b: BuiltIns, d: Disk, es: seq<Entry>, op: Op, n: string)
    requires Synced(b, d, es) && Supported(es, op) && DiskWrites(es, op) != []
    requires UserName(n) && Read(After(es, op), n).Some?
    ensures var ws := DiskWrites(es, op);
      DiskRead(if ws[0].0 == MANIFEST then d else DiskWrite(d, ws[0].0, ws[0].1), n) ==
        Read(After(es, op), n).value != []
  {
    ReadAfter(es, op, n);
    var key, data := DiskWrites(es, op)[0].0, DiskWrites(es, op)[0].1;
    if n == key {
      StoredIsRead(d, key, data);
    } else {
      OtherKeysUnread(d, key, data, n);
      InMemoryIsOnDisk(b, d, es, n);
    }
  }

  /** An operation writes nothing, contents, the manifest, or contents and then the manifest. */
  lemma WriteShape(es: seq<Entry>, op: Op)
    requires Supported(es, op)
    ensures var ws, manifest := DiskWrites(es, op), (MANIFEST, Manifest(After(es, op)));
      && |ws| <= 2
      && (ws != [] && ws[|ws| - 1].0 == MANIFEST ==> |Manifest(After(es, op))| <= READ_BUFFER)
      && (ws != [] && ws[0] != manifest ==> ws[0].0 != MANIFEST && (UserName(ws[0].0) ==> Storable(ws[0].1)))
      && (|ws| == 2 ==> ws[0] != manifest && ws[1] == manifest)
      && (|ws| == 1 && ws[0] != manifest ==> op.Write?)
  {
  }

  lemma ReadAfterNoWrites(es: seq<Entry>, op: Op, n: string)
    requires WellNamed(es) && Supported(es, op) && DiskWrites(es, op) == [] && UserName(n)
    ensures Read(After(es, op), n) == Read(es, n)
  {
    ReadAfter(es, op, n);
    ReadIsMember(es, n);
  }

  lemma OverwriteIsRecovered(b: BuiltIns, d: Disk, es: seq<Entry>, op: Op, n: string)
    requires Synced(b, d, es) && Supported(es, op) && UserName(n)
    requires |DiskWrites(es, op)| == 1 && DiskWrites(es, op)[0].0 != MANIFEST
    ensures Read(Boot(b, Apply(d, DiskWrites(es, op))), n) == Read(After(es, op), n)
  {
    ReadAfter(es, op, n);
    ContentsWritten(b, d, es, op.name, op.data, n);
    if n == op.name {
      InMemoryIsOnDisk(b, d, es, n);
    }
  }

  lemma ApplyOne(d: Disk, w: (string, Bytes))
    ensures Apply(d, [w]) == DiskWrite(d, w.0, w.1)
  {
  }

  lemma ApplyTwo(d: Disk, ws: seq<(string, Bytes)>)
    requires |ws| == 2
    ensures Apply(d, ws) == DiskWrite(DiskWrite(d, ws[0].0, ws[0].1), ws[1].0, ws[1].1)
  {
    assert ws[1..] == [ws[1]];
    ApplyOne(DiskWrite(d, ws[0].0, ws[0].1), ws[1]);
  }

  /** After all its writes, an operation has left disk and memory in step. */
  lemma CompletedIsSynced(b: BuiltIns, d: Disk, es: seq<Entry>, op: Op)
    requires Synced(b, d, es) && Supported(es, op)
    ensures Synced(b, Apply(d, DiskWrites(es, op)), After(es, op))
  {
    hide Supported, DiskWrites, After, WellNamed, DiskWrite, Boot, Manifest, UserName, CleanDisk;
    var ws, es' := DiskWrites(es, op), After(es, op);
    AfterKeepsNames(es, op);
    WriteShape(es, op);
    if ws == [] {
      forall n | UserName(n)
        ensures Read(Boot(b, d), n) == Read(es', n)
      {
        ReadAfterNoWrites(es, op, n);
      }
    } else if |ws| == 1 && ws[0].0 != MANIFEST {
      forall n | UserName(n)
        ensures Read(Boot(b, Apply(d, ws)), n) == Read(es', n)
      {
        OverwriteIsRecovered(b, d, es, op, n);
      }
      ApplyOne(d, ws[0]);
      ContentsKeepClean(b, d, es, ws[0].0, ws[0].1);
    } else {
      var d' := if ws[0].0 == MANIFEST then d else DiskWrite(d, ws[0].0, ws[0].1);
      forall n | UserName(n) && Read(es', n).Some?
        ensures DiskRead(d', n) == Read(es', n).value != []
      {
        ContentsBeforeManifest(b, d, es, op, n);
      }
      CleanNamesOf(es');
      ManifestWritten(b, d', es');
      if |ws| == 1 {
        ApplyOne(d, ws[0]);
      } else {
        ApplyTwo(d, ws);
      }
    }
  }

  lemma CleanNamesOf(es: seq<Entry>)
    requires WellNamed(es)
    ensures CleanNames(es)
  {
  }

  /** New contents go under a name no manifest lists yet. */
  lemma FreshNameUnlisted(b: BuiltIns, d: Disk, es: seq<Entry>, op: Op, n: string)
    requires Synced(b, d, es) && Supported(es, op) && UserName(n)
    requires |DiskWrites(es, op)| == 2 && DiskWrites(es, op)[0].0 == n
    ensures n !in ManifestNames(d)
  {
    RecoveredFile(b, d, n);
    ReadIsMember(es, n);
  }

  /**
   Crash atomicity: stop after any `k` of the disk writes and boot again, and the user files are all as they
   were before the operation or all as they are after it.
   */
  lemma CrashAtomic(b: BuiltIns, d: Disk, es: seq<Entry>, op: Op, k: nat)
    requires Synced(b, d, es) && Supported(es, op) && k <= |DiskWrites(es, op)|
    ensures var d' := Apply(d, DiskWrites(es, op)[..k]);
      CleanDisk(d') && (Preserves(b, d', es) || Preserves(b, d', After(es, op)))
  {
    hide Supported, DiskWrites, After, WellNamed, DiskWrite, Boot, Manifest, UserName, CleanDisk;
    var ws := DiskWrites(es, op);
    WriteShape(es, op);
    if k == |ws| {
      assert ws[..k] == ws;
      CompletedIsSynced(b, d, es, op);
    } else if k == 0 {
      assert ws[..k] == [];
    } else {
      assert ws[..k] == [ws[0]];
      ApplyOne(d, ws[0]);
      forall n | UserName(n)
        ensures Read(Boot(b, DiskWrite(d, ws[0].0, ws[0].1)), n) == Read(es, n)
      {
        ContentsWritten(b, d, es, ws[0].0, ws[0].1, n);
        if n == ws[0].0 {
          FreshNameUnlisted(b, d, es, op, n);
        }
      }
      ContentsKeepClean(b, d, es, ws[0].0, ws[0].1);
    }
  }

  // ---- whole histories of sessions and crashes ----

  /** What the machine goes through: an operation runs to its end, or stops after `k` disk writes and reboots. */
  datatype Event = Done(op: Op) | Crash(op: Op, k: nat)

  datatype System = System(disk: Disk, entries: seq<Entry>)

  ghost predicate SystemStep(b: BuiltIns, s: System, e: Event, s': System) {
    && Supported(s.entries, e.op)
    && match e
       case Done(op) => s' == System(Apply(s.disk, DiskWrites(s.entries, op)), After(s.entries, op))
       case Crash(op, k) =>
         && k <= |DiskWrites(s.entries, op)|
         && var d := Apply(s.disk, DiskWrites(s.entries, op)[..k]); s' == System(d, Boot(b, d))
  }

  ghost predicate History(b: BuiltIns, states: seq<System>, events: seq<Event>) {
    && |states| == |events| + 1
    && states[0].entries == Boot(b, states[0].disk) && CleanDisk(states[0].disk)
    && (forall i {:trigger events[i]} :: 0 <= i < |events| ==> SystemStep(b, states[i], events[i], states[i + 1]))
  }

  ghost predicate SameUserFiles(es: seq<Entry>, es': seq<Entry>) {
    forall n :: UserName(n) ==> Read(es, n) == Read(es', n)
  }

  lemma StepKeepsSynced(b: BuiltIns, s: System, e: Event, s': System)
    requires Synced(b, s.disk, s.entries) && SystemStep(b, s, e, s')
    ensures Synced(b, s'.disk, s'.entries)
    ensures SameUserFiles(s'.entries, s.entries) || SameUserFiles(s'.entries, After(s.entries, e.op))
  {
    hide Supported, DiskWrites, After, WellNamed, DiskWrite, Boot, Manifest, UserName, CleanDisk;
    match e
    case Done(op) => CompletedIsSynced(b, s.disk, s.entries, op);
    case Crash(op, k) =>
      CrashAtomic(b, s.disk, s.entries, op, k);
      BootIsSynced(b, s'.disk);
  }

  /**
   Over every history of operations, crashes and reboots, each event takes all user files from one state to the
   next or leaves them.
   */
  lemma {:induction false} HistoryIsAtomic(b: BuiltIns, states: seq<System>, events: seq<Event>, i: nat)
    requires History(b, states, events) && i < |states|
    ensures Synced(b, states[i].disk, states[i].entries)
    ensures i > 0 ==>
      || SameUserFiles(states[i].entries, states[i - 1].entries)
      || SameUserFiles(states[i].entries, After(states[i - 1].entries, events[i - 1].op))
  {
    hide Synced, SystemStep, SameUserFiles, Boot, CleanDisk;
    if i == 0 {
      BootIsSynced(b, states[0].disk);
    } else {
      HistoryIsAtomic(b, states, events, i - 1);
      assert SystemStep(b, states[i - 1], events[i - 1], states[i]);
      StepKeepsSynced(b, states[i - 1], events[i - 1], states[i]);
    }
  }
}
