/** Descriptor tables, and the file actions that cush/posix_spawn/spawni.c carries out in a new process. */
module Spawn {
  import opened Options

  datatype Mode = ReadOnly | Truncate | Append

  // What a descriptor refers to.  Pipes are numbered in the order of their creation; paths are followed from a
  // directory.
  datatype File =
    | Other(id: nat) | ReadEnd(pipe: nat) | WriteEnd(pipe: nat)
    | Opened(from: File, path: string, mode: Mode) | Entered(from: File, path: string)

  datatype Desc = Desc(file: File, cloexec: bool)

  type Table = map<int, Desc>

  // The working directory has a place in the table too, where no descriptor is.
  const AT_FDCWD := -100

  function Directory(table: Table): File { if AT_FDCWD in table then table[AT_FDCWD].file else Other(0) }

  datatype Action =
    | Close(fd: int) | Open(fd: int, path: string, mode: Mode) | Dup2(from: int, to: int)
    | Chdir(path: string) | Fchdir(fd: int)

  // posix_spawn_file_actions_addopen and the others take no negative descriptor.
  predicate ValidAction(action: Action) {
    match action
    case Close(fd) => 0 <= fd
    case Open(fd, _, _) => 0 <= fd
    case Dup2(from, to) => 0 <= from && 0 <= to
    case Chdir(_) => true
    case Fchdir(fd) => 0 <= fd
  }

  predicate ValidActions(actions: seq<Action>) { forall i :: 0 <= i < |actions| ==> ValidAction(actions[i]) }

  // The files that can be opened from a directory, the directories that can be entered from one, the files that are
  // directories, and the limit on descriptors.
  datatype Limits = Limits(canOpen: (File, string, Mode) -> bool, canEnter: (File, string) -> bool,
                           isDirectory: File -> bool, descriptors: int)

  // ----- what files hold -----

  // A path as followed from a directory.
  type Place = (File, string)

  type Contents = map<Place, string>

  function Held(contents: Contents, place: Place): string { if place in contents then contents[place] else "" }

  // Opening for writing creates the file, and empties it or leaves it as it is.
  function WithOpened(contents: Contents, place: Place, mode: Mode): Contents {
    match mode
    case ReadOnly => contents
    case Truncate => contents[place := ""]
    case Append => contents[place := Held(contents, place)]
  }

  class Disk {
    var contents: Contents

    constructor (contents: Contents)
      ensures this.contents == contents
    {
      this.contents := contents;
    }
  }

  // s with what is written at a position over what is there; a gap before it is filled with zeros.
  function Overwritten(s: string, at: nat, bytes: string): string {
    if at > |s| then s + seq(at - |s|, _ => 0 as char) + bytes
    else s[..at] + bytes + if at + |bytes| <= |s| then s[at + |bytes|..] else ""
  }

  // An open file: writes go where the last one ended, or, when it was opened for that, to the end of the file.
  class OpenFile {
    const disk: Disk
    const place: Place
    const mode: Mode
    var offset: nat

    constructor (disk: Disk, place: Place, mode: Mode)
      ensures this.disk == disk && this.place == place && this.mode == mode && offset == 0
    {
      this.disk, this.place, this.mode, this.offset := disk, place, mode, 0;
    }

    method Write(bytes: string)
      modifies this, disk
      ensures
        var held := Held(old(disk.contents), place);
        var at := if mode == Append then |held| else old(offset);
        disk.contents == old(disk.contents)[place := Overwritten(held, at, bytes)] && offset == at + |bytes|
    {
      var held := Held(disk.contents, place);
      if mode == Append {
        offset := |held|;
      }
      disk.contents := disk.contents[place := Overwritten(held, offset, bytes)];
      offset := offset + |bytes|;
    }
  }

  // ----- what posix_spawn promises of a file action -----

  predicate InRange(fd: int, limits: Limits) { 0 <= fd < limits.descriptors }

  // Each action leaves all other descriptors alone; none when it fails.
  function Performed(table: Table, action: Action, limits: Limits): Option<Table> {
    match action
    case Close(fd) => if fd in table || InRange(fd, limits) then Some(table - {fd}) else None
    case Open(fd, path, mode) =>
      if limits.canOpen(Directory(table), path, mode) && InRange(fd, limits)
      then Some(table[fd := Desc(Opened(Directory(table), path, mode), false)])
      else None
    case Dup2(from, to) =>
      if from in table && (from == to || InRange(to, limits)) then Some(table[to := Desc(table[from].file, false)])
          else None
    case Chdir(path) =>
      if limits.canEnter(Directory(table), path)
      then Some(table[AT_FDCWD := Desc(Entered(Directory(table), path), false)])
      else None
    case Fchdir(fd) =>
      if fd in table && limits.isDirectory(table[fd].file) then Some(table[AT_FDCWD := Desc(table[fd].file, false)])
      else None
  }

  function PerformedAll(table: Table, actions: seq<Action>, limits: Limits): Option<Table>
    decreases |actions|
  {
    if actions == [] then Some(table)
    else
      var first := Performed(table, actions[0], limits);
      if first.None? then None else PerformedAll(first.value, actions[1..], limits)
  }

  // What files hold after an action, done or not.
  ghost function Touched(contents: Contents, table: Table, action: Action, limits: Limits): Contents {
    match action
    case Open(fd, path, mode) =>
      if limits.canOpen(Directory(table), path, mode) && FreeIn(table - {fd}, limits) != {}
      then WithOpened(contents, (Directory(table), path), mode) else contents
    case _ => contents
  }

  ghost function TouchedAll(contents: Contents, table: Table, actions: seq<Action>, limits: Limits): Contents
    decreases |actions|
  {
    if actions == [] then contents
    else
      var first, now := Performed(table, actions[0], limits), Touched(contents, table, actions[0], limits);
      if first.None? then now else TouchedAll(now, first.value, actions[1..], limits)
  }

  lemma {:induction false} PerformedOneMore(table: Table, actions: seq<Action>, action: Action, limits: Limits)
    ensures PerformedAll(table, actions + [action], limits) ==
            var before := PerformedAll(table, actions, limits);
            if before.None? then None else Performed(before.value, action, limits)
    decreases |actions|
  {
    hide Performed;
    if actions == [] {
      assert (actions + [action])[1..] == [];
    } else {
      assert (actions + [action])[1..] == actions[1..] + [action];
      var first := Performed(table, actions[0], limits);
      if first.Some? {
        PerformedOneMore(first.value, actions[1..], action, limits);
      }
    }
  }

  lemma {:induction false} TouchedInParts(contents: Contents, table: Table, a: seq<Action>, b: seq<Action>,
                                          limits: Limits)
    ensures TouchedAll(contents, table, a + b, limits) ==
            var before, now := PerformedAll(table, a, limits), TouchedAll(contents, table, a, limits);
            if before.None? then now else TouchedAll(now, before.value, b, limits)
    decreases |a|
  {
    hide Performed, Touched;
    if a == [] {
      assert a + b == b;
    } else {
      assert (a + b)[1..] == a[1..] + b;
      var first := Performed(table, a[0], limits);
      if first.Some? {
        TouchedInParts(Touched(contents, table, a[0], limits), first.value, a[1..], b, limits);
      }
    }
  }

  lemma TouchedOne(contents: Contents, table: Table, action: Action, limits: Limits)
    ensures TouchedAll(contents, table, [action], limits) == Touched(contents, table, action, limits)
    ensures TouchedAll(contents, table, [], limits) == contents
  {
    hide Performed, Touched;
    assert [action][1..] == [];
  }

  // ----- a process and its system calls -----

  class Process {
    var table: Table
    var pipes: nat  // created so far
    const limits: Limits
    const disk: Disk

    constructor (table: Table, pipes: nat, limits: Limits, disk: Disk)
      ensures this.table == table && this.pipes == pipes && this.limits == limits && this.disk == disk
    {
      this.table, this.pipes, this.limits, this.disk := table, pipes, limits, disk;
    }

    // The lowest descriptor that is not in use.
    method LowestFree() returns (fd: int)
      ensures 0 <= fd && fd !in table && forall i :: 0 <= i < fd ==> i in table
    {
      fd := 0;
      ghost var above := table.Keys;
      while fd in table
        invariant 0 <= fd && forall i :: 0 <= i < fd ==> i in table
        invariant forall i :: i in table && i >= fd ==> i in above
        decreases above
      {
        above := above - {fd};
        fd := fd + 1;
      }
    }

    method CloseDescriptor(fd: int) returns (rc: int)
      modifies this`table
      ensures table == (if 0 <= fd then old(table) - {fd} else old(table)) && (rc == 0 <==> 0 <= fd && fd in old(table))
    {
      rc := if 0 <= fd && fd in table then 0 else -1;
      if rc == 0 {
        table := table - {fd};
      }
    }

    method OpenAt(path: string, mode: Mode) returns (fd: int)
      modifies this`table, disk
      ensures
        var from := Directory(old(table));
        && (fd == -1 || (limits.canOpen(from, path, mode) && InRange(fd, limits) && fd !in old(table)))
        && (fd == -1 ==> !limits.canOpen(from, path, mode) || forall i :: InRange(i, limits) ==> i in table)
        && table == (if fd == -1 then old(table) else old(table)[fd := Desc(Opened(from, path, mode), false)])
        && disk.contents == if fd == -1 then old(disk.contents)
             else WithOpened(old(disk.contents), (from, path), mode)
    {
      if !limits.canOpen(Directory(table), path, mode) {
        return -1;
      }
      fd := LowestFree();
      if fd >= limits.descriptors {
        return -1;
      }
      disk.contents := WithOpened(disk.contents, (Directory(table), path), mode);
      table := table[fd := Desc(Opened(Directory(table), path, mode), false)];
    }

    method ChangeDirectory(path: string) returns (rc: int)
      modifies this`table
      ensures rc == 0 <==> limits.canEnter(Directory(old(table)), path)
      ensures table == if rc == 0 then old(table)[AT_FDCWD := Desc(Entered(Directory(old(table)), path), false)]
        else old(table)
    {
      rc := if limits.canEnter(Directory(table), path) then 0 else -1;
      if rc == 0 {
        table := table[AT_FDCWD := Desc(Entered(Directory(table), path), false)];
      }
    }

    method ChangeDirectoryTo(fd: int) returns (rc: int)
      requires 0 <= fd
      modifies this`table
      ensures rc == 0 <==> fd in old(table) && limits.isDirectory(old(table)[fd].file)
      ensures table == if rc == 0 then old(table)[AT_FDCWD := Desc(old(table)[fd].file, false)] else old(table)
    {
      rc := if fd in table && limits.isDirectory(table[fd].file) then 0 else -1;
      if rc == 0 {
        table := table[AT_FDCWD := Desc(table[fd].file, false)];
      }
    }

    method Duplicate(from: int, to: int) returns (fd: int)
      modifies this`table
      ensures if from in old(table) && InRange(to, limits)
              then fd == to && table == (if from == to then old(table)
                                         else old(table)[to := Desc(old(table)[from].file, false)])
              else fd == -1 && table == old(table)
    {
      if from !in table || !InRange(to, limits) {
        return -1;
      }
      if from != to {
        table := table[to := Desc(table[from].file, false)];
      }
      fd := to;
    }

    // pipe2 with O_CLOEXEC: 0, or -1 when two descriptors are not to be had.
    method Pipe2() returns (rc: int, r: int, w: int)
      modifies this
      ensures rc == 0 <==> |FreeIn(old(table), limits)| >= 2
      ensures rc != 0 ==> table == old(table) && pipes == old(pipes)
      ensures rc == 0 ==>
        && r != w && r !in old(table) && w !in old(table) && InRange(r, limits) && InRange(w, limits)
        && pipes == old(pipes) + 1
        && table == old(table)[r := Desc(ReadEnd(old(pipes)), true)][w := Desc(WriteEnd(old(pipes)), true)]
        && |FreeIn(table, limits)| == |FreeIn(old(table), limits)| - 2
    {
      ghost var was := table;
      r := LowestFree();
      if r >= limits.descriptors {
        NoneFree(was, r, limits);
        return -1, 0, 0;
      }
      var before := table;
      table := table[r := Desc(ReadEnd(pipes), true)];
      OneFreeLess(was, r, Desc(ReadEnd(pipes), true), limits);
      w := LowestFree();
      if w >= limits.descriptors {
        NoneFree(table, w, limits);
        table := before;
        return -1, 0, 0;
      }
      OneFreeLess(table, w, Desc(WriteEnd(pipes), true), limits);
      table := table[w := Desc(WriteEnd(pipes), true)];
      pipes := pipes + 1;
      rc := 0;
    }

    // The file-action loop of __spawni_child; false where it jumps to fail.
    method PerformActions(actions: seq<Action>) returns (ok: bool)
      requires ValidActions(actions)
      modifies this`table, disk
      ensures var all := PerformedAll(old(table), actions, limits); ok == all.Some? && (ok ==> table == all.value)
      ensures disk.contents == TouchedAll(old(disk.contents), old(table), actions, limits)
    {
      hide Performed, PerformedAll, Touched, TouchedAll;
      NoActions(table, limits);
      TouchedOne(disk.contents, table, Chdir(""), limits);
      var cnt := 0;
      while cnt < |actions|
        invariant 0 <= cnt <= |actions|
        invariant PerformedAll(old(table), actions[..cnt], limits) == Some(table)
        invariant disk.contents == TouchedAll(old(disk.contents), old(table), actions[..cnt], limits)
      {
        PerformedOneMore(old(table), actions[..cnt], actions[cnt], limits);
        TouchedInParts(old(disk.contents), old(table), actions[..cnt], [actions[cnt]], limits);
        TouchedOne(disk.contents, table, actions[cnt], limits);
        assert actions[..cnt + 1] == actions[..cnt] + [actions[cnt]];
        ok := PerformAction(actions[cnt]);
        if !ok {
          Fails(old(table), actions, cnt + 1, limits);
          TouchedInParts(old(disk.contents), old(table), actions[..cnt + 1], actions[cnt + 1..], limits);
          assert actions == actions[..cnt + 1] + actions[cnt + 1..];
          return;
        }
        cnt := cnt + 1;
      }
      assert actions[..cnt] == actions;
      ok := true;
    }

    // One case of its switch.
    method PerformAction(action: Action) returns (ok: bool)
      requires ValidAction(action)
      modifies this`table, disk
      ensures var all := Performed(old(table), action, limits); ok == all.Some? && (ok ==> table == all.value)
      ensures disk.contents == Touched(old(disk.contents), old(table), action, limits)
    {
      match action {
      case Close(fd) =>
        var rc := CloseDescriptor(fd);
        if rc != 0 {
          if fd < 0 || fd >= limits.descriptors {
            return false;
          }
        }
      case Open(fd, path, mode) =>
        ok := PerformOpen(fd, path, mode);
        return;
      case Dup2(from, to) =>
        if from == to {
          if to !in table {
            return false;
          }
          table := table[to := Desc(table[to].file, false)];
        } else {
          var fd := Duplicate(from, to);
          if fd != to {
            return false;
          }
        }
      case Chdir(path) =>
        var rc := ChangeDirectory(path);
        if rc != 0 {
          return false;
        }
      case Fchdir(fd) =>
        var rc := ChangeDirectoryTo(fd);
        if rc != 0 {
          return false;
        }
      }
      ok := true;
    }

    // Its case for opening a file.
    method PerformOpen(fd: int, path: string, mode: Mode) returns (ok: bool)
      requires 0 <= fd
      modifies this`table, disk
      ensures
        var all := Performed(old(table), Open(fd, path, mode), limits);
        ok == all.Some? && (ok ==> table == all.value)
      ensures disk.contents == Touched(old(disk.contents), old(table), Open(fd, path, mode), limits)
    {
      hide WithOpened, FreeIn;
      ghost var t, t1, from := table, table - {fd}, Directory(table);
      SomeFree(t1, limits);
      var _ := CloseDescriptor(fd);
      assert table == t1 && Directory(t1) == from;
      var newFd := OpenAt(path, mode);
      if newFd == -1 {
        return false;
      }
      ghost var file := Desc(Opened(from, path, mode), false);
      assert t1[fd := file] == t[fd := file];
      if newFd != fd {
        var to := Duplicate(newFd, fd);
        if to != fd {
          return false;
        }
        var rc := CloseDescriptor(newFd);
        if rc != 0 {
          return false;
        }
        OpenedElsewhere(t, fd, newFd, file);
      }
      ok := true;
    }

    // exec: the close-on-exec descriptors go.
    method Exec()
      modifies this`table
      ensures table == Inherited(old(table))
    {
      table := Inherited(table);
    }
  }

  function Inherited(table: Table): Table {
    map fd | fd in table && !table[fd].cloexec :: table[fd]
  }

  // The descriptors that a process can still have.
  ghost function FreeIn(table: Table, limits: Limits): set<int> {
    set fd | 0 <= fd < limits.descriptors && fd !in table
  }

  lemma SomeFree(table: Table, limits: Limits)
    ensures FreeIn(table, limits) != {} <==> exists fd :: InRange(fd, limits) && fd !in table
  {
    if fd :| InRange(fd, limits) && fd !in table {
      assert fd in FreeIn(table, limits);
    }
  }

  lemma NoneFree(table: Table, fd: int, limits: Limits)
    requires limits.descriptors <= fd && forall i :: 0 <= i < fd ==> i in table
    ensures FreeIn(table, limits) == {}
  {
  }

  lemma OneFreeLess(table: Table, fd: int, desc: Desc, limits: Limits)
    requires InRange(fd, limits) && fd !in table
    ensures FreeIn(table[fd := desc], limits) == FreeIn(table, limits) - {fd} && fd in FreeIn(table, limits)
    ensures |FreeIn(table[fd := desc], limits)| == |FreeIn(table, limits)| - 1
  {
  }

  // Opened at another descriptor, moved and closed there, a file is opened just where it should be.
  lemma OpenedElsewhere(table: Table, fd: int, other: int, desc: Desc)
    requires other != fd && other !in table
    ensures (table - {fd})[other := desc][fd := desc] - {other} == table[fd := desc]
  {
  }

  lemma NoActions(table: Table, limits: Limits)
    ensures PerformedAll(table, [], limits) == Some(table)
  {
  }

  lemma {:induction false} Fails(table: Table, actions: seq<Action>, cnt: nat, limits: Limits)
    requires cnt <= |actions| && PerformedAll(table, actions[..cnt], limits).None?
    ensures PerformedAll(table, actions, limits).None?
    decreases |actions| - cnt
  {
    hide PerformedAll;
    if cnt == |actions| {
      assert actions[..cnt] == actions;
    } else {
      PerformedOneMore(table, actions[..cnt], actions[cnt], limits);
      assert actions[..cnt + 1] == actions[..cnt] + [actions[cnt]];
      Fails(table, actions, cnt + 1, limits);
    }
  }

  lemma {:induction false} PerformedInParts(table: Table, a: seq<Action>, b: seq<Action>, limits: Limits)
    ensures PerformedAll(table, a + b, limits) ==
            var before := PerformedAll(table, a, limits);
            if before.None? then None else PerformedAll(before.value, b, limits)
    decreases |a|
  {
    hide Performed;
    if a == [] {
      assert a + b == b;
    } else {
      assert (a + b)[1..] == a[1..] + b;
      var first := Performed(table, a[0], limits);
      if first.Some? {
        PerformedInParts(first.value, a[1..], b, limits);
      }
    }
  }

  lemma PerformedOne(table: Table, action: Action, limits: Limits)
    ensures PerformedAll(table, [action], limits) == Performed(table, action, limits)
  {
    hide Performed;
    NoActions(table, limits);
    PerformedOneMore(table, [], action, limits);
    assert [] + [action] == [action];
  }

  // posix_spawnp as far as descriptors go: the table that the program starts with, if there is one.
  method PosixSpawnp(parent: Process, found: bool, actions: seq<Action>) returns (child: Option<Table>)
    requires ValidActions(actions)
    modifies parent.disk
    ensures child == Spawned(parent.table, found, actions, parent.limits)
    ensures parent.disk.contents == TouchedAll(old(parent.disk.contents), parent.table, actions, parent.limits)
  {
    var process := new Process(parent.table, parent.pipes, parent.limits, parent.disk);
    var ok := process.PerformActions(actions);
    if !ok || !found {
      return None;
    }
    process.Exec();
    child := Some(process.table);
  }

  function Spawned(table: Table, found: bool, actions: seq<Action>, limits: Limits): Option<Table> {
    var all := PerformedAll(table, actions, limits);
    if found && all.Some? then Some(Inherited(all.value)) else None
  }
}
