/** Publishing a file by temp file, fsync, rename and directory fsync (ops/call_tracker.py), under a
    crash at any point. `Line` is one serialised record. */
module AtomicFile {
  import opened Options

  type Line = string

  /** A file's contents: what programs see, and how many leading lines are surely on disk. */
  datatype Inode = Inode(lines: seq<Line>, synced: nat)

  datatype DirOp = Link(name: string, ino: nat) | Unlink(name: string)

  /** `disk` is the directory as last synced; `pending` the directory operations since, in order. */
  datatype FileSystem = FileSystem(inodes: map<nat, Inode>, disk: map<string, nat>, pending: seq<DirOp>)

  function Entry(dir: map<string, nat>, op: DirOp): map<string, nat> {
    match op
    case Link(name, ino) => dir[name := ino]
    case Unlink(name) => dir - {name}
  }

  function Directory(dir: map<string, nat>, ops: seq<DirOp>): map<string, nat> {
    if ops == [] then dir else Entry(Directory(dir, ops[..|ops| - 1]), ops[|ops| - 1])
  }

  /** What a program reads: None when there is no such file. */
  function Read(fs: FileSystem, path: string): Option<seq<Line>> {
    var dir := Directory(fs.disk, fs.pending);
    if path in dir && dir[path] in fs.inodes then Some(fs.inodes[dir[path]].lines) else None
  }

  /** What may be found after a crash: any prefix of the pending directory operations has reached the
      disk, and of a file any prefix of its lines that includes the synced ones. */
  ghost predicate MayFind(fs: FileSystem, path: string, found: Option<seq<Line>>) {
    exists k :: 0 <= k <= |fs.pending| && FoundAt(fs, path, k, found)
  }

  ghost predicate FoundAt(fs: FileSystem, path: string, k: nat, found: Option<seq<Line>>)
    requires k <= |fs.pending|
  {
    var dir := Directory(fs.disk, fs.pending[..k]);
    if path in dir && dir[path] in fs.inodes then
      var inode := fs.inodes[dir[path]];
      && found.Some? && inode.synced <= |found.value| <= |inode.lines|
      && found.value == inode.lines[..|found.value|]
    else found.None?
  }

  // ----- the calls the writer makes -----

  datatype Call =
    | Create(name: string, ino: nat)
    | Append(ino: nat, line: Line)
    | Sync(ino: nat)
    | Rename(from: string, to: string, ino: nat)
    | SyncDir
    | Remove(name: string)

  function Effect(fs: FileSystem, call: Call): FileSystem {
    match call
    case Create(name, ino) => fs.(inodes := fs.inodes[ino := Inode([], 0)], pending := fs.pending + [Link(name, ino)])
    case Append(ino, line) =>
      if ino in fs.inodes
      then fs.(inodes := fs.inodes[ino := Inode(fs.inodes[ino].lines + [line], fs.inodes[ino].synced)]) else fs
    case Sync(ino) =>
      if ino in fs.inodes
      then fs.(inodes := fs.inodes[ino := Inode(fs.inodes[ino].lines, |fs.inodes[ino].lines|)]) else fs
    case Rename(from, to, ino) => fs.(pending := fs.pending + [Link(to, ino)] + [Unlink(from)])
    case SyncDir => fs.(disk := Directory(fs.disk, fs.pending), pending := [])
    case Remove(name) => fs.(pending := fs.pending + [Unlink(name)])
  }

  function Run(fs: FileSystem, calls: seq<Call>): FileSystem {
    if calls == [] then fs else Effect(Run(fs, calls[..|calls| - 1]), calls[|calls| - 1])
  }

  function Appends(ino: nat, lines: seq<Line>): (calls: seq<Call>)
    ensures |calls| == |lines| && forall i :: 0 <= i < |lines| ==> calls[i] == Append(ino, lines[i])
  {
    seq(|lines|, i requires 0 <= i < |lines| => Append(ino, lines[i]))
  }

  /** Publishing: a temporary file written and synced, renamed over the destination, the directory
      synced. The closing removal of the temporary name finds nothing: the rename took it. */
  function Publish(path: string, temporary: string, ino: nat, lines: seq<Line>): seq<Call> {
    [Create(temporary, ino)] + Appends(ino, lines) + [Sync(ino), Rename(temporary, path, ino), SyncDir]
  }

  /** Directory entries, synced or pending, name files that exist. Work may be outstanding. */
  ghost predicate Sound(fs: FileSystem) {
    && (forall name :: name in fs.disk ==> fs.disk[name] in fs.inodes)
    && (forall i :: 0 <= i < |fs.pending| && fs.pending[i].Link? ==> fs.pending[i].ino in fs.inodes)
  }

  /** The temporary name is another one, and its file is new. */
  ghost predicate Ready(fs: FileSystem, path: string, temporary: string, ino: nat) {
    Sound(fs) && path != temporary && ino !in fs.inodes
  }

  /** The writer: it makes those calls in that order. */
  class Disk {
    var fs: FileSystem

    constructor (fs: FileSystem)
      ensures this.fs == fs
    {
      this.fs := fs;
    }

    method WriteLedgerAtomic(path: string, temporary: string, ino: nat, lines: seq<Line>)
      requires Ready(fs, path, temporary, ino)
      modifies this
      ensures fs == Run(old(fs), Publish(path, temporary, ino, lines))
      ensures Read(fs, path) == Some(lines)
      ensures forall name :: name != path && name != temporary ==> Read(fs, name) == Read(old(fs), name)
    {
      hide Run, Effect, Ready;
      ghost var start, calls := fs, [Create(temporary, ino)];
      fs := Effect(fs, Create(temporary, ino));
      RunNone(start);
      RunOne(start, [], Create(temporary, ino));
      assert [] + calls == calls;
      for i := 0 to |lines|
        invariant calls == [Create(temporary, ino)] + Appends(ino, lines[..i])
        invariant fs == Run(start, calls)
      {
        fs := Effect(fs, Append(ino, lines[i]));
        RunOne(start, calls, Append(ino, lines[i]));
        assert Appends(ino, lines[..i + 1]) == Appends(ino, lines[..i]) + [Append(ino, lines[i])];
        calls := calls + [Append(ino, lines[i])];
      }
      assert lines[..|lines|] == lines;
      fs := Effect(fs, Sync(ino));
      RunOne(start, calls, Sync(ino));
      fs := Effect(fs, Rename(temporary, path, ino));
      RunOne(start, calls + [Sync(ino)], Rename(temporary, path, ino));
      fs := Effect(fs, SyncDir);
      RunOne(start, calls + [Sync(ino)] + [Rename(temporary, path, ino)], SyncDir);
      assert calls + [Sync(ino)] + [Rename(temporary, path, ino)] + [SyncDir] == Publish(path, temporary, ino, lines);
      Published(start, path, temporary, ino, lines);
    }
  }

  lemma RunOne(fs: FileSystem, calls: seq<Call>, call: Call)
    ensures Run(fs, calls + [call]) == Effect(Run(fs, calls), call)
  {
    assert (calls + [call])[..|calls|] == calls;
  }

  lemma RunNone(fs: FileSystem)
    ensures Run(fs, []) == fs
  {
  }

  // ----- directories -----

  lemma OneOp(dir: map<string, nat>, ops: seq<DirOp>, op: DirOp)
    ensures Directory(dir, ops + [op]) == Entry(Directory(dir, ops), op)
  {
    assert (ops + [op])[..|ops|] == ops;
  }

  /** Operations on other names leave a name's entry alone. */
  lemma {:induction false} OtherNames(dir: map<string, nat>, ops: seq<DirOp>, more: seq<DirOp>, name: string)
    requires forall i :: 0 <= i < |more| ==> more[i].name != name
    ensures var before, after := Directory(dir, ops), Directory(dir, ops + more);
            (name in after <==> name in before) && (name in before ==> after[name] == before[name])
  {
    hide Directory;
    if more == [] {
      assert ops + more == ops;
    } else {
      var n := |more| - 1;
      OtherNames(dir, ops, more[..n], name);
      OneOp(dir, ops + more[..n], more[n]);
      assert ops + more == ops + more[..n] + [more[n]];
    }
  }

  lemma {:induction false} EntriesExist(fs: FileSystem, k: nat)
    requires Sound(fs) && k <= |fs.pending|
    ensures forall name :: name in Directory(fs.disk, fs.pending[..k]) ==>
              Directory(fs.disk, fs.pending[..k])[name] in fs.inodes
  {
    if k == 0 {
      assert fs.pending[..0] == [];
    } else {
      EntriesExist(fs, k - 1);
      OneOp(fs.disk, fs.pending[..k - 1], fs.pending[k - 1]);
      assert fs.pending[..k] == fs.pending[..k - 1] + [fs.pending[k - 1]];
    }
  }

  // ----- the states of a publish -----

  /** The file system while the first lines have been written. */
  function Writing(fs: FileSystem, temporary: string, ino: nat, lines: seq<Line>): FileSystem {
    FileSystem(fs.inodes[ino := Inode(lines, 0)], fs.disk, fs.pending + [Link(temporary, ino)])
  }

  /** After the sync, after the rename, and after the directory sync. */
  function Synced(fs: FileSystem, temporary: string, ino: nat, lines: seq<Line>): FileSystem {
    Writing(fs, temporary, ino, lines).(inodes := fs.inodes[ino := Inode(lines, |lines|)])
  }

  function Renamed(fs: FileSystem, path: string, temporary: string, ino: nat, lines: seq<Line>): FileSystem {
    Synced(fs, temporary, ino, lines).(
      pending := fs.pending + [Link(temporary, ino)] + [Link(path, ino)] + [Unlink(temporary)])
  }

  function Settled(fs: FileSystem, path: string, temporary: string, ino: nat, lines: seq<Line>): FileSystem {
    var renamed := Renamed(fs, path, temporary, ino, lines);
    renamed.(disk := Directory(fs.disk, renamed.pending), pending := [])
  }

  lemma {:induction false} WhileWriting(fs: FileSystem, temporary: string, ino: nat, lines: seq<Line>)
    ensures Run(fs, [Create(temporary, ino)] + Appends(ino, lines)) == Writing(fs, temporary, ino, lines)
  {
    hide Run;
    var calls := [Create(temporary, ino)] + Appends(ino, lines);
    if lines == [] {
      RunNone(fs);
      RunOne(fs, [], Create(temporary, ino));
      assert calls == [] + [Create(temporary, ino)];
    } else {
      var n := |lines| - 1;
      var before := [Create(temporary, ino)] + Appends(ino, lines[..n]);
      WhileWriting(fs, temporary, ino, lines[..n]);
      assert calls == before + [Append(ino, lines[n])];
      RunOne(fs, before, Append(ino, lines[n]));
      WriteOne(fs, temporary, ino, lines[..n], lines[n]);
      assert lines == lines[..n] + [lines[n]];
    }
  }

  lemma WriteOne(fs: FileSystem, temporary: string, ino: nat, lines: seq<Line>, line: Line)
    ensures Effect(Writing(fs, temporary, ino, lines), Append(ino, line)) == Writing(fs, temporary, ino, lines + [line])
  {
    assert fs.inodes[ino := Inode(lines, 0)][ino := Inode(lines + [line], 0)] == fs.inodes[ino := Inode(lines + [line], 0)];
  }

  lemma LastEffects(fs: FileSystem, path: string, temporary: string, ino: nat, lines: seq<Line>)
    ensures Effect(Writing(fs, temporary, ino, lines), Sync(ino)) == Synced(fs, temporary, ino, lines)
    ensures Effect(Synced(fs, temporary, ino, lines), Rename(temporary, path, ino))
            == Renamed(fs, path, temporary, ino, lines)
    ensures Effect(Renamed(fs, path, temporary, ino, lines), SyncDir) == Settled(fs, path, temporary, ino, lines)
  {
    assert fs.inodes[ino := Inode(lines, 0)][ino := Inode(lines, |lines|)] == fs.inodes[ino := Inode(lines, |lines|)];
  }

  /** The state after the first n calls of a publish. */
  function Stage(fs: FileSystem, path: string, temporary: string, ino: nat, lines: seq<Line>, n: nat): FileSystem
    requires n <= |lines| + 4
  {
    if n == 0 then fs
    else if n <= |lines| + 1 then Writing(fs, temporary, ino, lines[..n - 1])
    else if n == |lines| + 2 then Synced(fs, temporary, ino, lines)
    else if n == |lines| + 3 then Renamed(fs, path, temporary, ino, lines)
    else Settled(fs, path, temporary, ino, lines)
  }

  lemma Stages(fs: FileSystem, path: string, temporary: string, ino: nat, lines: seq<Line>, n: nat)
    requires n <= |lines| + 4
    ensures |Publish(path, temporary, ino, lines)| == |lines| + 4
    ensures Run(fs, Publish(path, temporary, ino, lines)[..n]) == Stage(fs, path, temporary, ino, lines, n)
  {
    hide Run, Effect, Writing, Synced, Renamed, Settled;
    var calls := Publish(path, temporary, ino, lines);
    var writing := [Create(temporary, ino)] + Appends(ino, lines);
    var synced := writing + [Sync(ino)];
    var renamed := synced + [Rename(temporary, path, ino)];
    RunNone(fs);
    WhileWriting(fs, temporary, ino, lines);
    LastEffects(fs, path, temporary, ino, lines);
    RunOne(fs, writing, Sync(ino));
    RunOne(fs, synced, Rename(temporary, path, ino));
    RunOne(fs, renamed, SyncDir);
    if n == 0 {
      assert calls[..n] == [];
    } else if n <= |lines| + 1 {
      assert calls[..n] == [Create(temporary, ino)] + Appends(ino, lines[..n - 1]);
      WhileWriting(fs, temporary, ino, lines[..n - 1]);
    } else {
      assert calls[..n] == if n == |lines| + 2 then synced else if n == |lines| + 3 then renamed else renamed + [SyncDir];
    }
  }

  // ----- crashes -----

  /** A file that is synced to its end can only be found whole. */
  lemma WholeFound(lines: seq<Line>, found: seq<Line>)
    requires |found| == |lines| && found == lines[..|found|]
    ensures found == lines
  {
    assert lines[..|lines|] == lines;
  }

  /** Directory operations on other names, and new files, add nothing to what may be found. */
  lemma OldFound(fs: FileSystem, now: FileSystem, more: seq<DirOp>, path: string, found: Option<seq<Line>>)
    requires Sound(fs) && MayFind(now, path, found)
    requires now.disk == fs.disk && now.pending == fs.pending + more
    requires forall i :: 0 <= i < |more| ==> more[i].name != path
    requires forall i :: i in fs.inodes ==> i in now.inodes && now.inodes[i] == fs.inodes[i]
    ensures MayFind(fs, path, found)
  {
    hide Directory;
    var k :| 0 <= k <= |now.pending| && FoundAt(now, path, k, found);
    var j := if k <= |fs.pending| then k else |fs.pending|;
    EntriesExist(fs, j);
    assert now.pending[..k] == fs.pending[..j] + more[..k - j];
    OtherNames(fs.disk, fs.pending[..j], more[..k - j], path);
    assert FoundAt(fs, path, j, found);
  }

  /** Once the new file is linked in, whole and synced, whatever follows on other names. */
  lemma LinkedFound(fs: FileSystem, now: FileSystem, path: string, temporary: string, ino: nat, lines: seq<Line>,
                    more: seq<DirOp>, found: Option<seq<Line>>)
    requires Ready(fs, path, temporary, ino) && MayFind(now, path, found)
    requires now.inodes == Synced(fs, temporary, ino, lines).inodes && now.disk == fs.disk
    requires now.pending == fs.pending + [Link(temporary, ino)] + [Link(path, ino)] + more
    requires forall i :: 0 <= i < |more| ==> more[i].name != path
    ensures MayFind(fs, path, found) || found == Some(lines)
  {
    hide Directory;
    var synced := Synced(fs, temporary, ino, lines);
    var k :| 0 <= k <= |now.pending| && FoundAt(now, path, k, found);
    var n := |synced.pending|;
    if k <= n {
      assert now.pending[..k] == synced.pending[..k];
      assert FoundAt(synced, path, k, found);
      OldFound(fs, synced, [Link(temporary, ino)], path, found);
    } else {
      var linked := synced.pending + [Link(path, ino)];
      OneOp(fs.disk, synced.pending, Link(path, ino));
      assert now.pending[..k] == linked + more[..k - n - 1];
      OtherNames(fs.disk, linked, more[..k - n - 1], path);
      WholeFound(lines, found.value);
    }
  }

  lemma SettledDirectory(fs: FileSystem, path: string, temporary: string, ino: nat, lines: seq<Line>)
    requires path != temporary
    ensures var before, after := Directory(fs.disk, fs.pending), Settled(fs, path, temporary, ino, lines).disk;
            after == before[temporary := ino][path := ino] - {temporary}
  {
    OneOp(fs.disk, fs.pending, Link(temporary, ino));
    OneOp(fs.disk, fs.pending + [Link(temporary, ino)], Link(path, ino));
    OneOp(fs.disk, fs.pending + [Link(temporary, ino)] + [Link(path, ino)], Unlink(temporary));
  }

  lemma Published(fs: FileSystem, path: string, temporary: string, ino: nat, lines: seq<Line>)
    requires Ready(fs, path, temporary, ino)
    ensures var after := Run(fs, Publish(path, temporary, ino, lines));
            && Read(after, path) == Some(lines)
            && (forall found :: MayFind(after, path, found) ==> found == Some(lines))
            && (forall name :: name != path && name != temporary ==> Read(after, name) == Read(fs, name))
  {
    hide Run, Publish;
    Stages(fs, path, temporary, ino, lines, |lines| + 4);
    var calls := Publish(path, temporary, ino, lines);
    assert calls[..|lines| + 4] == calls;
    var after := Settled(fs, path, temporary, ino, lines);
    SettledDirectory(fs, path, temporary, ino, lines);
    EntriesExist(fs, |fs.pending|);
    assert fs.pending[..|fs.pending|] == fs.pending && after.pending[..0] == [];
    assert Directory(after.disk, []) == after.disk;
    forall found | MayFind(after, path, found) ensures found == Some(lines) {
      var k :| 0 <= k <= |after.pending| && FoundAt(after, path, k, found);
      WholeFound(lines, found.value);
    }
  }

  /** At any crash point during a publish, the destination is what it could have been before or the
      complete new file, never a part of it; once the publish has returned, it is the new file. */
  lemma CrashSafe(fs: FileSystem, path: string, temporary: string, ino: nat, lines: seq<Line>, n: nat,
                  found: Option<seq<Line>>)
    requires Ready(fs, path, temporary, ino) && n <= |Publish(path, temporary, ino, lines)|
    requires MayFind(Run(fs, Publish(path, temporary, ino, lines)[..n]), path, found)
    ensures MayFind(fs, path, found) || found == Some(lines)
    ensures n == |Publish(path, temporary, ino, lines)| ==> found == Some(lines)
  {
    hide Run, MayFind;
    Stages(fs, path, temporary, ino, lines, n);
    if n == |lines| + 4 {
      assert Publish(path, temporary, ino, lines)[..n] == Publish(path, temporary, ino, lines);
      Published(fs, path, temporary, ino, lines);
    } else if n == |lines| + 3 {
      LinkedFound(fs, Renamed(fs, path, temporary, ino, lines), path, temporary, ino, lines, [Unlink(temporary)], found);
    } else if n > 0 {
      OldFound(fs, Stage(fs, path, temporary, ino, lines, n), [Link(temporary, ino)], path, found);
    }
  }

  /** A publish that raises after its first n calls: the temporary name, if it was made, is removed. */
  function Aborted(path: string, temporary: string, ino: nat, lines: seq<Line>, n: nat): seq<Call>
    requires n <= |Publish(path, temporary, ino, lines)|
  {
    Publish(path, temporary, ino, lines)[..n] + if n == 0 then [] else [Remove(temporary)]
  }

  function AbortedStage(fs: FileSystem, path: string, temporary: string, ino: nat, lines: seq<Line>, n: nat): FileSystem
    requires n <= |lines| + 4
  {
    if n == 0 then fs else Effect(Stage(fs, path, temporary, ino, lines, n), Remove(temporary))
  }

  lemma AbortedIs(fs: FileSystem, path: string, temporary: string, ino: nat, lines: seq<Line>, n: nat)
    requires n <= |lines| + 4
    ensures |Publish(path, temporary, ino, lines)| == |lines| + 4
    ensures Run(fs, Aborted(path, temporary, ino, lines, n)) == AbortedStage(fs, path, temporary, ino, lines, n)
  {
    hide Run, Effect, Publish, Stage;
    Stages(fs, path, temporary, ino, lines, n);
    var calls := Publish(path, temporary, ino, lines);
    if n == 0 {
      assert calls[..0] + [] == calls[..0] == [];
      RunNone(fs);
      assert Stage(fs, path, temporary, ino, lines, 0) == fs;
    } else {
      RunOne(fs, calls[..n], Remove(temporary));
    }
  }

  /** Only the failure of the directory sync comes after the rename. */
  predicate AfterRename(lines: seq<Line>, n: nat) {
    n >= |lines| + 3
  }

  lemma AbortedFound(fs: FileSystem, path: string, temporary: string, ino: nat, lines: seq<Line>, n: nat,
                     found: Option<seq<Line>>)
    requires Ready(fs, path, temporary, ino) && n < |lines| + 4
    requires MayFind(AbortedStage(fs, path, temporary, ino, lines, n), path, found)
    ensures MayFind(fs, path, found) || (AfterRename(lines, n) && found == Some(lines))
  {
    hide MayFind;
    var now := AbortedStage(fs, path, temporary, ino, lines, n);
    if AfterRename(lines, n) {
      assert now.pending == fs.pending + [Link(temporary, ino)] + [Link(path, ino)] + [Unlink(temporary), Unlink(temporary)];
      LinkedFound(fs, now, path, temporary, ino, lines, [Unlink(temporary), Unlink(temporary)], found);
    } else if n > 0 {
      assert now.pending == fs.pending + [Link(temporary, ino), Unlink(temporary)];
      OldFound(fs, now, [Link(temporary, ino), Unlink(temporary)], path, found);
    }
  }

  lemma AbortedRead(fs: FileSystem, path: string, temporary: string, ino: nat, lines: seq<Line>, n: nat)
    requires Ready(fs, path, temporary, ino) && n < |lines| + 4
    ensures Read(AbortedStage(fs, path, temporary, ino, lines, n), path)
            == if AfterRename(lines, n) then Some(lines) else Read(fs, path)
  {
    hide Directory;
    var now := AbortedStage(fs, path, temporary, ino, lines, n);
    EntriesExist(fs, |fs.pending|);
    assert fs.pending[..|fs.pending|] == fs.pending;
    if AfterRename(lines, n) {
      var synced := fs.pending + [Link(temporary, ino)];
      OneOp(fs.disk, synced, Link(path, ino));
      assert now.pending == synced + [Link(path, ino)] + [Unlink(temporary), Unlink(temporary)];
      OtherNames(fs.disk, synced + [Link(path, ino)], [Unlink(temporary), Unlink(temporary)], path);
    } else if n > 0 {
      assert now.pending == fs.pending + [Link(temporary, ino), Unlink(temporary)];
      OtherNames(fs.disk, fs.pending, [Link(temporary, ino), Unlink(temporary)], path);
    }
  }

  /** Whichever call fails, the destination reads as before if and only if that call comes before the end
      of the rename (or the new records are the old ones). A failing directory sync raises although the
      new file is in place. */
  lemma FailedWriteKeepsOldIff(fs: FileSystem, path: string, temporary: string, ino: nat, lines: seq<Line>, n: nat)
    requires Ready(fs, path, temporary, ino) && n < |Publish(path, temporary, ino, lines)|
    ensures var after := Run(fs, Aborted(path, temporary, ino, lines, n));
            && (Read(after, path) == Read(fs, path) <==> n <= |lines| + 2 || Read(fs, path) == Some(lines))
            && (Read(after, path) == Read(fs, path) || Read(after, path) == Some(lines))
            && forall found :: MayFind(after, path, found) ==>
                 MayFind(fs, path, found) || (n == |lines| + 3 && found == Some(lines))
  {
    assert |Publish(path, temporary, ino, lines)| == |lines| + 4;
    hide Run, Publish, Read, MayFind;
    AbortedIs(fs, path, temporary, ino, lines, n);
    AbortedRead(fs, path, temporary, ino, lines, n);
    var after := AbortedStage(fs, path, temporary, ino, lines, n);
    forall found | MayFind(after, path, found)
      ensures MayFind(fs, path, found) || (n == |lines| + 3 && found == Some(lines))
    {
      AbortedFound(fs, path, temporary, ino, lines, n, found);
    }
  }

  // ----- any history of writers and crashes -----

  /** A publish killed after some of its calls, or completed; one whose next call failed, and that cleaned
      up; a machine crash, which keeps some of the pending directory operations and part of every
      unsynced file. */
  datatype Event =
    | Write(temporary: string, ino: nat, lines: seq<Line>, calls: nat)
    | Fail(temporary: string, ino: nat, lines: seq<Line>, calls: nat)
    | Reboot(ops: nat, kept: map<nat, nat>)
  {
    predicate Completed() {
      Write? && calls == |lines| + 4
    }

    /** The event can have put its lines in place. */
    predicate Attempted() {
      Write? || (Fail? && AfterRename(lines, calls))
    }
  }

  ghost predicate Possible(fs: FileSystem, path: string, e: Event) {
    match e
    case Write(temporary, ino, lines, calls) => Ready(fs, path, temporary, ino) && calls <= |lines| + 4
    case Fail(temporary, ino, lines, calls) => Ready(fs, path, temporary, ino) && calls < |lines| + 4
    case Reboot(ops, kept) =>
      && ops <= |fs.pending| && kept.Keys == fs.inodes.Keys
      && forall i :: i in kept ==> fs.inodes[i].synced <= kept[i] <= |fs.inodes[i].lines|
  }

  ghost function Outcome(fs: FileSystem, path: string, e: Event): FileSystem
    requires Possible(fs, path, e)
  {
    match e
    case Write(temporary, ino, lines, calls) => Stage(fs, path, temporary, ino, lines, calls)
    case Fail(temporary, ino, lines, calls) => AbortedStage(fs, path, temporary, ino, lines, calls)
    case Reboot(ops, kept) =>
      FileSystem(map i | i in kept :: Inode(fs.inodes[i].lines[..kept[i]], kept[i]),
                 Directory(fs.disk, fs.pending[..ops]), [])
  }

  ghost predicate ValidHistory(fs: FileSystem, path: string, events: seq<Event>)
    decreases |events|
  {
    events == [] || (Possible(fs, path, events[0]) && ValidHistory(Outcome(fs, path, events[0]), path, events[1..]))
  }

  ghost function Reached(fs: FileSystem, path: string, events: seq<Event>): FileSystem
    requires ValidHistory(fs, path, events)
    decreases |events|
  {
    if events == [] then fs else Reached(Outcome(fs, path, events[0]), path, events[1..])
  }

  lemma StageSound(fs: FileSystem, path: string, temporary: string, ino: nat, lines: seq<Line>, n: nat)
    requires Ready(fs, path, temporary, ino) && n <= |lines| + 4
    ensures Sound(Stage(fs, path, temporary, ino, lines, n))
  {
    if n == |lines| + 4 {
      SettledDirectory(fs, path, temporary, ino, lines);
      EntriesExist(fs, |fs.pending|);
      assert fs.pending[..|fs.pending|] == fs.pending;
    }
  }

  lemma OutcomeSound(fs: FileSystem, path: string, e: Event)
    requires Sound(fs) && Possible(fs, path, e)
    ensures Sound(Outcome(fs, path, e))
  {
    match e
    case Write(temporary, ino, lines, calls) => StageSound(fs, path, temporary, ino, lines, calls);
    case Fail(temporary, ino, lines, calls) => StageSound(fs, path, temporary, ino, lines, calls);
    case Reboot(ops, _) => EntriesExist(fs, ops);
  }

  lemma RebootFound(fs: FileSystem, path: string, e: Event, found: Option<seq<Line>>)
    requires Sound(fs) && e.Reboot? && Possible(fs, path, e) && MayFind(Outcome(fs, path, e), path, found)
    ensures MayFind(fs, path, found)
  {
    var after := Outcome(fs, path, e);
    var k :| 0 <= k <= |after.pending| && FoundAt(after, path, k, found);
    assert after.pending[..k] == [] && Directory(after.disk, []) == after.disk;
    EntriesExist(fs, e.ops);
    if path in after.disk {
      var lines := fs.inodes[after.disk[path]].lines;
      assert lines[..e.kept[after.disk[path]]][..|found.value|] == lines[..|found.value|];
    }
    assert FoundAt(fs, path, e.ops, found);
  }

  /** One event: what may be found was findable before, unless it is the version just written; a
      completed publish leaves only that. */
  lemma EventFound(fs: FileSystem, path: string, e: Event, found: Option<seq<Line>>)
    requires Sound(fs) && Possible(fs, path, e) && MayFind(Outcome(fs, path, e), path, found)
    ensures (MayFind(fs, path, found) && !e.Completed()) || (e.Attempted() && found == Some(e.lines))
  {
    hide Run, MayFind;
    match e
    case Write(temporary, ino, lines, calls) =>
      Stages(fs, path, temporary, ino, lines, calls);
      CrashSafe(fs, path, temporary, ino, lines, calls, found);
    case Fail(temporary, ino, lines, calls) => AbortedFound(fs, path, temporary, ino, lines, calls, found);
    case Reboot(_, _) => RebootFound(fs, path, e, found);
  }

  /** Version i is one of those written since the last completed publish, that publish included. */
  ghost predicate Current(events: seq<Event>, i: nat, found: Option<seq<Line>>) {
    && i < |events| && events[i].Attempted() && found == Some(events[i].lines)
    && forall j :: i < j < |events| ==> !events[j].Completed()
  }

  /** Over any history of publishes, killed and failed writers and machine crashes, the destination is
      always one whole version: one written at or after the last completed publish, or, if none has
      completed, possibly what was there at the start. */
  lemma {:induction false} AlwaysOneWholeVersion(fs: FileSystem, path: string, events: seq<Event>,
                                                 found: Option<seq<Line>>)
    requires Sound(fs) && ValidHistory(fs, path, events)
    requires MayFind(Reached(fs, path, events), path, found)
    ensures (MayFind(fs, path, found) && forall j :: 0 <= j < |events| ==> !events[j].Completed())
            || exists i: nat :: Current(events, i, found)
    decreases |events|
  {
    hide MayFind, Outcome, Possible;
    if events != [] {
      var next, rest := Outcome(fs, path, events[0]), events[1..];
      OutcomeSound(fs, path, events[0]);
      AlwaysOneWholeVersion(next, path, rest, found);
      assert forall j :: 1 <= j < |events| ==> events[j] == rest[j - 1];
      if i: nat :| Current(rest, i, found) {
        assert Current(events, i + 1, found);
      } else {
        EventFound(fs, path, events[0], found);
        assert (MayFind(fs, path, found) && !events[0].Completed()) || Current(events, 0, found);
      }
    }
  }

  /** The sync before the rename is what makes it so: without it a crash can leave a partial file. */
  lemma UnsyncedRenameCanTear(fs: FileSystem, path: string, temporary: string, ino: nat, lines: seq<Line>)
    requires Ready(fs, path, temporary, ino) && lines != []
    ensures var calls := [Create(temporary, ino)] + Appends(ino, lines) + [Rename(temporary, path, ino)];
            MayFind(Run(fs, calls), path, Some([]))
  {
    var writing := [Create(temporary, ino)] + Appends(ino, lines);
    WhileWriting(fs, temporary, ino, lines);
    RunOne(fs, writing, Rename(temporary, path, ino));
    var now, before := Run(fs, writing + [Rename(temporary, path, ino)]), fs.pending + [Link(temporary, ino)];
    OneOp(fs.disk, before, Link(path, ino));
    assert now.pending[..|before| + 1] == before + [Link(path, ino)];
    assert FoundAt(now, path, |before| + 1, Some([]));
  }
}
