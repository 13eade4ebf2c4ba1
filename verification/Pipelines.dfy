/** The pipes and redirections of a job of cush, cush/src/cush.c. */
module Pipelines {
  import opened Options
  import opened Spawn

  const STDIN := 0
  const STDOUT := 1
  const STDERR := 2

  // found: whether there is such a program
  datatype Command = Command(found: bool, dupStderrToStdout: bool)

  datatype Pipeline = Pipeline(commands: seq<Command>, input: Option<string>, output: Option<string>, append: bool)

  function OutputMode(pipe: Pipeline): Mode { if pipe.append then Append else Truncate }

  // ----- the wiring a pipeline stands for -----

  function Stdin(pipe: Pipeline, k: nat, shell: Table, firstPipe: nat): File
    requires STDIN in shell
  {
    if k > 0 then ReadEnd(firstPipe + k - 1)
    else if pipe.input.Some? then Opened(Directory(shell), pipe.input.value, ReadOnly)
    else shell[STDIN].file
  }

  function Stdout(pipe: Pipeline, k: nat, shell: Table, firstPipe: nat): File
    requires STDOUT in shell
  {
    if k + 1 < |pipe.commands| then WriteEnd(firstPipe + k)
    else if pipe.output.Some? then Opened(Directory(shell), pipe.output.value, OutputMode(pipe))
    else shell[STDOUT].file
  }

  function Stderr(pipe: Pipeline, k: nat, shell: Table, firstPipe: nat): File
    requires k < |pipe.commands| && STDOUT in shell && STDERR in shell
  {
    if pipe.commands[k].dupStderrToStdout then Stdout(pipe, k, shell, firstPipe) else shell[STDERR].file
  }

  // The files of the shell's redirections can be opened as far as command k needs them.
  predicate CanRedirect(pipe: Pipeline, k: nat, shell: Table, limits: Limits) {
    (k == 0 && pipe.input.Some? ==> limits.canOpen(Directory(shell), pipe.input.value, ReadOnly)) &&
    (k + 1 == |pipe.commands| && pipe.output.Some? ==>
       limits.canOpen(Directory(shell), pipe.output.value, OutputMode(pipe)))
  }

  predicate StandardOpen(shell: Table) {
    forall fd :: fd in {STDIN, STDOUT, STDERR} ==> fd in shell && !shell[fd].cloexec
  }

  // The descriptors that command k starts with: its own three, and what the shell passes to everyone.
  function Wired(pipe: Pipeline, k: nat, shell: Table, firstPipe: nat): Table
    requires k < |pipe.commands| && StandardOpen(shell)
  {
    assert STDIN in {STDIN, STDOUT, STDERR} && STDOUT in {STDIN, STDOUT, STDERR} && STDERR in {STDIN, STDOUT, STDERR};
    Inherited(shell)[STDIN := Desc(Stdin(pipe, k, shell, firstPipe), false)]
                    [STDOUT := Desc(Stdout(pipe, k, shell, firstPipe), false)]
                    [STDERR := Desc(Stderr(pipe, k, shell, firstPipe), false)]
  }

  // ----- the shell -----

  // What pipelines[j] refers to.
  function PipeDesc(j: nat, firstPipe: nat): Desc {
    Desc(if j % 2 == 0 then ReadEnd(firstPipe + j / 2) else WriteEnd(firstPipe + j / 2), true)
  }

  ghost predicate Distinct(fds: seq<int>) {
    forall j, k :: 0 <= j < k < |fds| ==> fds[j] != fds[k]
  }

  ghost predicate Extends(before: Table, after: Table, fds: seq<int>) {
    (forall fd :: fd in before ==> fd in after && after[fd] == before[fd]) &&
    (forall fd :: fd in after ==> fd in before || fd in fds)
  }

  // The table with pipes firstPipe, firstPipe + 1, ... open besides.
  ghost predicate Piped(before: Table, after: Table, pipelines: seq<int>, firstPipe: nat) {
    Extends(before, after, pipelines) && Distinct(pipelines) &&
    forall j :: 0 <= j < |pipelines| ==>
      0 <= pipelines[j] && pipelines[j] !in before && pipelines[j] in after
          && after[pipelines[j]] == PipeDesc(j, firstPipe)
  }

  lemma PipedOneMore(before: Table, after: Table, fds: seq<int>, firstPipe: nat, fd: int)
    requires Piped(before, after, fds, firstPipe) && fd !in after && 0 <= fd
    ensures Piped(before, after[fd := PipeDesc(|fds|, firstPipe)], fds + [fd], firstPipe)
  {
    hide PipeDesc;
    var now := after[fd := PipeDesc(|fds|, firstPipe)];
    forall i | i in now ensures i in before || i in fds + [fd] {
      if i == fd {
        assert (fds + [fd])[|fds|] == fd;
      } else if i !in before {
        InPrefix(fds, fd, i);
      }
    }
  }

  lemma InPrefix(fds: seq<int>, fd: int, i: int)
    requires i in fds
    ensures i in fds + [fd]
  {
  }

  // How many of n pipes there are descriptors for, when so many are free.
  function PipesFor(n: nat, free: nat): nat { if 2 * n <= free then n else free / 2 }

  // open_pipelines: of the pipes as many as there are descriptors for; what is in the rest of the array stays.
  method OpenPipelines(shell: Process, numPipelines: nat, pipelines: array<int>)
    requires pipelines.Length == 2 * numPipelines
    modifies shell, pipelines
    ensures
      var m := PipesFor(numPipelines, |FreeIn(old(shell.table), shell.limits)|);
      && m <= numPipelines && Piped(old(shell.table), shell.table, pipelines[..2 * m], old(shell.pipes))
      && pipelines[2 * m..] == old(pipelines[..])[2 * m..] && shell.pipes == old(shell.pipes) + m
  {
    hide Piped, FreeIn;
    ghost var firstPipe, free, first := shell.pipes, |FreeIn(shell.table, shell.limits)|, pipelines[..];
    NothingPiped(shell.table, firstPipe);
    assert pipelines[..0] == [] && pipelines[0..] == first[0..];
    var i := 0;
    while i < numPipelines * 2
      invariant 0 <= i <= pipelines.Length && i % 2 == 0
      invariant
        var m := PipesFor(i / 2, free);
        && 2 * m <= i && shell.pipes == firstPipe + m && |FreeIn(shell.table, shell.limits)| == free - 2 * m
        && Piped(old(shell.table), shell.table, pipelines[..2 * m], firstPipe)
        && pipelines[2 * m..] == first[2 * m..]
    {
      ghost var table := shell.table;
      var rc, r, w := shell.Pipe2();
      if rc == 0 {
        ghost var was := pipelines[..i];
        assert first[i..][2..] == first[i + 2..] && pipelines[i..][2..] == pipelines[i + 2..];
        pipelines[i], pipelines[i + 1] := r, w;
        PipedOneMore(old(shell.table), table, was, firstPipe, r);
        PipedOneMore(old(shell.table), table[r := PipeDesc(i, firstPipe)], was + [r], firstPipe, w);
        assert pipelines[..i + 2] == was + [r] + [w];
      }
      i := i + 2;
    }
  }

  lemma NothingPiped(table: Table, firstPipe: nat)
    ensures Piped(table, table, [], firstPipe)
  {
  }

  // close_pipelines: whatever is in the array is closed.
  method ClosePipelines(shell: Process, numPipelines: nat, pipelines: array<int>)
    requires pipelines.Length == 2 * numPipelines
    modifies shell`table
    ensures shell.table == Closed(old(shell.table), pipelines[..])
  {
    var i := 0;
    while i < numPipelines * 2
      invariant 0 <= i <= pipelines.Length
      invariant shell.table == Closed(old(shell.table), pipelines[..i])
    {
      ghost var was := shell.table;
      var rc := shell.CloseDescriptor(pipelines[i]);
      ClosedOneMore(old(shell.table), pipelines[..i], pipelines[i]);
      assert pipelines[..i] + [pipelines[i]] == pipelines[..i + 1];
      i := i + 1;
    }
    assert pipelines[..i] == pipelines[..];
  }

  function Closed(table: Table, fds: seq<int>): Table {
    map fd | fd in table && !(0 <= fd && fd in fds) :: table[fd]
  }

  lemma ClosedOneMore(table: Table, fds: seq<int>, fd: int)
    ensures Closed(table, fds + [fd]) == if 0 <= fd then Closed(table, fds) - {fd} else Closed(table, fds)
  {
    assert forall i :: i in fds + [fd] <==> i in fds || i == fd;
  }

  // When the array has the pipes' descriptors, what is left is what was there before.
  lemma ClosedPipes(before: Table, after: Table, fds: seq<int>, firstPipe: nat)
    requires Piped(before, after, fds, firstPipe)
    ensures Closed(after, fds) == before
  {
    hide PipeDesc;
    var closed := Closed(after, fds);
    forall fd ensures fd in closed.Keys <==> fd in before.Keys {
      if fd in after && fd in fds {
        IsPipe(before, after, fds, firstPipe, fd);
      }
    }
    assert closed.Keys == before.Keys;
    forall fd | fd in before ensures closed[fd] == before[fd] {
    }
  }

  lemma IsPipe(before: Table, after: Table, fds: seq<int>, firstPipe: nat, fd: int)
    requires Piped(before, after, fds, firstPipe) && fd in fds
    ensures 0 <= fd && fd !in before
  {
    var j :| 0 <= j < |fds| && fds[j] == fd;
  }

  // With too few descriptors for the pipes and an array that has zeros in it, the shell's own input is closed.
  method LosesInput(shell: Process, numPipelines: nat, pipelines: array<int>)
    requires pipelines.Length == 2 * numPipelines && forall j :: 0 <= j < pipelines.Length ==> pipelines[j] == STDIN
    requires STDIN in shell.table && |FreeIn(shell.table, shell.limits)| < 2 * numPipelines
    modifies shell, pipelines
    ensures STDIN !in shell.table
  {
    ghost var m, zeros := PipesFor(numPipelines, |FreeIn(shell.table, shell.limits)|), pipelines[..];
    OpenPipelines(shell, numPipelines, pipelines);
    assert pipelines[2 * m..][0] == zeros[2 * m..][0];
    assert pipelines[2 * m] in pipelines[..];
    ClosePipelines(shell, numPipelines, pipelines);
  }

  class FileActions {
    var used: seq<Action>

    constructor ()
      ensures used == []
    {
      used := [];
    }

    method AddDup2(from: int, to: int)
      modifies this
      ensures used == old(used) + [Dup2(from, to)]
    {
      used := used + [Dup2(from, to)];
    }

    method AddOpen(fd: int, path: string, mode: Mode)
      modifies this
      ensures used == old(used) + [Open(fd, path, mode)]
    {
      used := used + [Open(fd, path, mode)];
    }
  }

  // ----- the file actions of a command -----

  function PipeActions(n: nat, k: nat, pipelines: seq<int>): seq<Action>
    requires k < n && |pipelines| == 2 * (n - 1)
  {
    (if k > 0 then [Dup2(pipelines[2 * k - 2], STDIN)] else []) +
    (if k + 1 < n then [Dup2(pipelines[2 * k + 1], STDOUT)] else [])
  }

  method ConnectPipeline(fileActions: FileActions, i: nat, n: nat, pipelines: array<int>, k: nat)
    requires 2 <= n && k < n && i == 2 * k && pipelines.Length == 2 * (n - 1)
    modifies fileActions
    ensures fileActions.used == old(fileActions.used) + PipeActions(n, k, pipelines[..])
  {
    if k == 0 {
      fileActions.AddDup2(pipelines[i + 1], STDOUT);
    } else if k != 0 && k != n - 1 {
      fileActions.AddDup2(pipelines[i - 2], STDIN);
      fileActions.AddDup2(pipelines[i + 1], STDOUT);
    } else if k == n - 1 {
      fileActions.AddDup2(pipelines[i - 2], STDIN);
    }
  }

  function InputActions(pipe: Pipeline, k: nat): seq<Action> {
    if pipe.input.Some? && k == 0 then [Open(STDIN, pipe.input.value, ReadOnly)] else []
  }

  function OutputActions(pipe: Pipeline, k: nat): seq<Action> {
    if pipe.output.Some? && k + 1 == |pipe.commands| then [Open(STDOUT, pipe.output.value, OutputMode(pipe))] else []
  }

  function StderrActions(command: Command): seq<Action> {
    if command.dupStderrToStdout then [Dup2(STDOUT, STDERR)] else []
  }

  function AllActions(pipe: Pipeline, k: nat, pipelines: seq<int>): seq<Action>
    requires k < |pipe.commands| && |pipelines| == 2 * (|pipe.commands| - 1)
  {
    PipeActions(|pipe.commands|, k, pipelines) + InputActions(pipe, k) + OutputActions(pipe, k) +
    StderrActions(pipe.commands[k])
  }

  // The table after the actions of each kind.
  function Connected(table: Table, n: nat, k: nat, firstPipe: nat): Table
    requires k < n
  {
    var read := if k > 0 then table[STDIN := Desc(ReadEnd(firstPipe + k - 1), false)] else table;
    if k + 1 < n then read[STDOUT := Desc(WriteEnd(firstPipe + k), false)] else read
  }

  function FromInput(table: Table, pipe: Pipeline, k: nat): Table {
    if pipe.input.Some? && k == 0 then table[STDIN := Desc(Opened(Directory(table), pipe.input.value, ReadOnly), false)]
    else table
  }

  function ToOutput(table: Table, pipe: Pipeline, k: nat): Table {
    if pipe.output.Some? && k + 1 == |pipe.commands|
    then table[STDOUT := Desc(Opened(Directory(table), pipe.output.value, OutputMode(pipe)), false)] else table
  }

  function WithStderr(table: Table, command: Command): Table
    requires STDOUT in table
  {
    if command.dupStderrToStdout then table[STDERR := Desc(table[STDOUT].file, false)] else table
  }

  lemma ConnectsPipes(n: nat, k: nat, shell: Table, table: Table, pipelines: seq<int>, firstPipe: nat, limits: Limits)
    requires k < n && |pipelines| == 2 * (n - 1) && limits.descriptors > STDERR
    requires Piped(shell, table, pipelines, firstPipe) && StandardOpen(shell)
    ensures PerformedAll(table, PipeActions(n, k, pipelines), limits) == Some(Connected(table, n, k, firstPipe))
  {
    hide PerformedAll;
    var read := if k > 0 then table[STDIN := Desc(ReadEnd(firstPipe + k - 1), false)] else table;
    var first := if k > 0 then [Dup2(pipelines[2 * k - 2], STDIN)] else [];
    var second := if k + 1 < n then [Dup2(pipelines[2 * k + 1], STDOUT)] else [];
    NoActions(table, limits);
    NoActions(read, limits);
    PerformedInParts(table, first, second, limits);
    if k > 0 {
      assert table[pipelines[2 * k - 2]] == PipeDesc(2 * k - 2, firstPipe);
      PerformedOne(table, first[0], limits);
    }
    if k + 1 < n {
      assert STDIN in {STDIN, STDOUT, STDERR} && table[pipelines[2 * k + 1]] == PipeDesc(2 * k + 1, firstPipe);
      PerformedOne(read, second[0], limits);
    }
  }

  lemma OpensInput(table: Table, pipe: Pipeline, k: nat, limits: Limits)
    requires limits.descriptors > STDERR
    ensures PerformedAll(table, InputActions(pipe, k), limits) ==
            if k == 0 && pipe.input.Some? && !limits.canOpen(Directory(table), pipe.input.value, ReadOnly) then None
            else Some(FromInput(table, pipe, k))
  {
    NoActions(table, limits);
    if k == 0 && pipe.input.Some? {
      PerformedOne(table, Open(STDIN, pipe.input.value, ReadOnly), limits);
    }
  }

  lemma OpensOutput(table: Table, pipe: Pipeline, k: nat, limits: Limits)
    requires limits.descriptors > STDERR
    ensures PerformedAll(table, OutputActions(pipe, k), limits) ==
            if k + 1 == |pipe.commands| && pipe.output.Some?
               && !limits.canOpen(Directory(table), pipe.output.value, OutputMode(pipe)) then None
            else Some(ToOutput(table, pipe, k))
  {
    NoActions(table, limits);
    if k + 1 == |pipe.commands| && pipe.output.Some? {
      PerformedOne(table, Open(STDOUT, pipe.output.value, OutputMode(pipe)), limits);
    }
  }

  lemma MovesStderr(table: Table, command: Command, limits: Limits)
    requires limits.descriptors > STDERR && STDOUT in table
    ensures PerformedAll(table, StderrActions(command), limits) == Some(WithStderr(table, command))
  {
    NoActions(table, limits);
    if command.dupStderrToStdout {
      PerformedOne(table, Dup2(STDOUT, STDERR), limits);
    }
  }

  function AfterAll(table: Table, pipe: Pipeline, k: nat, firstPipe: nat): Table
    requires k < |pipe.commands| && STDOUT in table
  {
    WithStderr(ToOutput(FromInput(Connected(table, |pipe.commands|, k, firstPipe), pipe, k), pipe, k), pipe.commands[k])
  }

  // Done in their order in a table with the pipes open, they wire the command as it should be, or fail when a
  // file cannot be opened.
  lemma {:induction false} ActionsWire(pipe: Pipeline, k: nat, shell: Table, table: Table, pipelines: seq<int>,
                                       firstPipe: nat,
                                       limits: Limits)
    requires k < |pipe.commands| && |pipelines| == 2 * (|pipe.commands| - 1) && limits.descriptors > STDERR
    requires StandardOpen(shell) && Piped(shell, table, pipelines, firstPipe)
    ensures Spawned(table, pipe.commands[k].found, AllActions(pipe, k, pipelines), limits) ==
            if pipe.commands[k].found && CanRedirect(pipe, k, shell, limits) then Some(Wired(pipe, k, shell, firstPipe))
                else None
  {
    hide PerformedAll, PipeActions, InputActions, OutputActions, StderrActions, Connected, Wired, Piped;
    StandardIn(shell, table, pipelines, firstPipe, |pipe.commands|, k);
    var connected := Connected(table, |pipe.commands|, k, firstPipe);
    var a, b := PipeActions(|pipe.commands|, k, pipelines), InputActions(pipe, k);
    var c, d := OutputActions(pipe, k), StderrActions(pipe.commands[k]);
    ConnectsPipes(|pipe.commands|, k, shell, table, pipelines, firstPipe, limits);
    PerformedInParts(table, a, b, limits);
    OpensInput(connected, pipe, k, limits);
    PerformedInParts(table, a + b, c, limits);
    OpensOutput(FromInput(connected, pipe, k), pipe, k, limits);
    PerformedInParts(table, a + b + c, d, limits);
    MovesStderr(ToOutput(FromInput(connected, pipe, k), pipe, k), pipe.commands[k], limits);
    InheritedIsWired(pipe, k, shell, table, pipelines, firstPipe);
  }

  // The output file as the last command's actions leave it, if they come to opening it: empty after >, and as it was
  // after >>, though there now. No other file changes, for any command.
  function Redirected(contents: Contents, pipe: Pipeline, k: nat, shell: Table, limits: Limits): Contents {
    var dir := Directory(shell);
    if k + 1 == |pipe.commands| && pipe.output.Some?
      && (k == 0 && pipe.input.Some? ==> limits.canOpen(dir, pipe.input.value, ReadOnly))
      && limits.canOpen(dir, pipe.output.value, if pipe.append then Append else Truncate)
    then
      var place := (dir, pipe.output.value);
      contents[place := if pipe.append then Held(contents, place) else ""]
    else contents
  }

  lemma {:induction false} NoOpens(contents: Contents, table: Table, actions: seq<Action>, limits: Limits)
    requires forall i :: 0 <= i < |actions| ==> actions[i].Dup2? || (actions[i].Open? && actions[i].mode == ReadOnly)
    ensures TouchedAll(contents, table, actions, limits) == contents
    decreases |actions|
  {
    hide Performed;
    if actions != [] {
      var first := Performed(table, actions[0], limits);
      assert Touched(contents, table, actions[0], limits) == contents;
      if first.Some? {
        NoOpens(contents, first.value, actions[1..], limits);
      }
    }
  }

  lemma OpenedOutput(contents: Contents, table: Table, pipe: Pipeline, k: nat, limits: Limits)
    requires limits.descriptors > STDERR
    ensures TouchedAll(contents, table, OutputActions(pipe, k), limits) ==
      if k + 1 == |pipe.commands| && pipe.output.Some?
        && limits.canOpen(Directory(table), pipe.output.value, if pipe.append then Append else Truncate)
      then
        var place := (Directory(table), pipe.output.value);
        contents[place := if pipe.append then Held(contents, place) else ""]
      else contents
  {
    hide Performed;
    assert STDOUT in FreeIn(table - {STDOUT}, limits);
    TouchedOne(contents, table, Chdir(""), limits);
    if pipe.output.Some? && k + 1 == |pipe.commands| {
      TouchedOne(contents, table, Open(STDOUT, pipe.output.value, OutputMode(pipe)), limits);
    }
  }

  // What the actions of a command do to files.
  lemma ActionsRedirect(contents: Contents, pipe: Pipeline, k: nat, shell: Table, table: Table, pipelines: seq<int>,
                        firstPipe: nat, limits: Limits)
    requires k < |pipe.commands| && |pipelines| == 2 * (|pipe.commands| - 1) && limits.descriptors > STDERR
    requires StandardOpen(shell) && Piped(shell, table, pipelines, firstPipe)
    ensures TouchedAll(contents, table, AllActions(pipe, k, pipelines), limits) ==
            Redirected(contents, pipe, k, shell, limits)
  {
    var a, b := PipeActions(|pipe.commands|, k, pipelines), InputActions(pipe, k);
    var c, d := OutputActions(pipe, k), StderrActions(pipe.commands[k]);
    OnlyDup2(|pipe.commands|, k, pipelines, pipe.commands[k]);
    hide PerformedAll, PipeActions, OutputActions, StderrActions, Connected, Piped, TouchedAll, Held;
    StandardIn(shell, table, pipelines, firstPipe, |pipe.commands|, k);
    var connected := Connected(table, |pipe.commands|, k, firstPipe);
    ConnectsPipes(|pipe.commands|, k, shell, table, pipelines, firstPipe, limits);
    NoOpens(contents, table, a, limits);
    NoOpens(contents, connected, b, limits);
    PerformedInParts(table, a, b, limits);
    TouchedInParts(contents, table, a, b, limits);
    OpensInput(connected, pipe, k, limits);
    PerformedInParts(table, a + b, c, limits);
    TouchedInParts(contents, table, a + b, c, limits);
    var input := FromInput(connected, pipe, k);
    OpenedOutput(contents, input, pipe, k, limits);
    OpensOutput(input, pipe, k, limits);
    TouchedInParts(contents, table, a + b + c, d, limits);
    NoOpens(TouchedAll(contents, table, a + b + c, limits), ToOutput(input, pipe, k), d, limits);
  }

  lemma OnlyDup2(n: nat, k: nat, pipelines: seq<int>, command: Command)
    requires k < n && |pipelines| == 2 * (n - 1)
    ensures forall action :: action in PipeActions(n, k, pipelines) || action in StderrActions(command) ==> action.Dup2?
  {
  }

  lemma StandardIn(shell: Table, table: Table, pipelines: seq<int>, firstPipe: nat, n: nat, k: nat)
    requires k < n && StandardOpen(shell) && Piped(shell, table, pipelines, firstPipe)
    ensures STDOUT in table && STDOUT in Connected(table, n, k, firstPipe)
    ensures Directory(Connected(table, n, k, firstPipe)) == Directory(shell)
  {
    assert STDOUT in {STDIN, STDOUT, STDERR};
    if AT_FDCWD in pipelines {
      IsPipe(shell, table, pipelines, firstPipe, AT_FDCWD);
    }
  }

  // What exec leaves of it: the pipes' own descriptors go.
  lemma InheritedIsWired(pipe: Pipeline, k: nat, shell: Table, table: Table, pipelines: seq<int>, firstPipe: nat)
    requires k < |pipe.commands| && STDOUT in table
    requires StandardOpen(shell) && Piped(shell, table, pipelines, firstPipe)
    ensures Inherited(AfterAll(table, pipe, k, firstPipe)) == Wired(pipe, k, shell, firstPipe)
  {
    assert STDIN in {STDIN, STDOUT, STDERR} && STDOUT in {STDIN, STDOUT, STDERR} && STDERR in {STDIN, STDOUT, STDERR};
    var after, wired := Inherited(AfterAll(table, pipe, k, firstPipe)), Wired(pipe, k, shell, firstPipe);
    forall fd ensures fd in after.Keys <==> fd in wired.Keys {
    }
    assert after.Keys == wired.Keys;
    forall fd | fd in after ensures after[fd] == wired[fd] {
    }
  }

  lemma ActionsValid(pipe: Pipeline, k: nat, shell: Table, table: Table, pipelines: seq<int>, firstPipe: nat)
    requires k < |pipe.commands| && |pipelines| == 2 * (|pipe.commands| - 1)
    requires Piped(shell, table, pipelines, firstPipe)
    ensures ValidActions(AllActions(pipe, k, pipelines))
  {
    hide Piped, PipeActions, InputActions, OutputActions, StderrActions, ValidActions;
    var a, b := PipeActions(|pipe.commands|, k, pipelines), InputActions(pipe, k);
    var c, d := OutputActions(pipe, k), StderrActions(pipe.commands[k]);
    EachValid(pipe, k, shell, table, pipelines, firstPipe);
    ValidTogether(a, b);
    ValidTogether(a + b, c);
    ValidTogether(a + b + c, d);
  }

  lemma EachValid(pipe: Pipeline, k: nat, shell: Table, table: Table, pipelines: seq<int>, firstPipe: nat)
    requires k < |pipe.commands| && |pipelines| == 2 * (|pipe.commands| - 1)
    requires Piped(shell, table, pipelines, firstPipe)
    ensures ValidActions(PipeActions(|pipe.commands|, k, pipelines)) && ValidActions(InputActions(pipe, k))
    ensures ValidActions(OutputActions(pipe, k)) && ValidActions(StderrActions(pipe.commands[k]))
  {
    hide PipeDesc, Extends, Distinct;
  }

  lemma ValidTogether(a: seq<Action>, b: seq<Action>)
    requires ValidActions(a) && ValidActions(b)
    ensures ValidActions(a + b)
  {
  }

  // The part of handle_job that adds the file actions of command e.
  method AddActions(fileActions: FileActions, pipe: Pipeline, i: nat, pipelines: array<int>, e: nat)
    requires e < |pipe.commands| && i == 2 * e && pipelines.Length == 2 * (|pipe.commands| - 1)
    requires fileActions.used == []
    modifies fileActions
    ensures fileActions.used == AllActions(pipe, e, pipelines[..])
  {
    if |pipe.commands| - 1 >= 1 {
      ConnectPipeline(fileActions, i, |pipe.commands|, pipelines, e);
    }
    assert fileActions.used == PipeActions(|pipe.commands|, e, pipelines[..]);
    hide PipeActions;
    ghost var used := fileActions.used;
    if pipe.input.Some? && e == 0 {
      fileActions.AddOpen(STDIN, pipe.input.value, ReadOnly);
    }
    assert fileActions.used == used + InputActions(pipe, e);
    used := fileActions.used;
    if pipe.output.Some? && e == |pipe.commands| - 1 {
      if pipe.append {
        fileActions.AddOpen(STDOUT, pipe.output.value, Append);
      } else {
        fileActions.AddOpen(STDOUT, pipe.output.value, Truncate);
      }
    }
    assert fileActions.used == used + OutputActions(pipe, e);
    if pipe.commands[e].dupStderrToStdout {
      fileActions.AddDup2(STDOUT, STDERR);
    }
  }

  // handle_job, as far as descriptors go: the tables that the commands start with, and the shell's as before.
  method HandleJob(shell: Process, pipe: Pipeline) returns (children: seq<Option<Table>>)
    requires pipe.commands != [] && StandardOpen(shell.table) && shell.limits.descriptors > STDERR
    requires 2 * (|pipe.commands| - 1) <= |FreeIn(shell.table, shell.limits)|
    modifies shell, shell.disk
    ensures shell.table == old(shell.table) && shell.pipes == old(shell.pipes) + |pipe.commands| - 1
    ensures |children| == |pipe.commands|
    ensures forall k :: 0 <= k < |children| ==>
      children[k] == if pipe.commands[k].found && CanRedirect(pipe, k, shell.table, shell.limits)
                     then Some(Wired(pipe, k, shell.table, old(shell.pipes))) else None
    ensures shell.disk.contents ==
            Redirected(old(shell.disk.contents), pipe, |pipe.commands| - 1, shell.table, shell.limits)
  {
    hide Redirected, Piped, Spawned, AllActions, Wired, FreeIn, Closed;
    ghost var before, firstPipe := shell.table, shell.pipes;
    var n := |pipe.commands|;
    var numPipelines := n - 1;
    var pipelines := new int[numPipelines * 2];
    OpenPipelines(shell, numPipelines, pipelines);
    assert pipelines[..2 * numPipelines] == pipelines[..];
    children := [];
    var i := 0;
    var e := 0;
    while e < n
      invariant 0 <= e <= n && i == 2 * e && |children| == e
      invariant Piped(before, shell.table, pipelines[..], firstPipe) && shell.pipes == firstPipe + numPipelines
      invariant forall k :: 0 <= k < e ==>
        children[k] == if pipe.commands[k].found && CanRedirect(pipe, k, before, shell.limits)
                       then Some(Wired(pipe, k, before, firstPipe)) else None
      invariant shell.disk.contents ==
                if e == 0 then old(shell.disk.contents)
                else Redirected(old(shell.disk.contents), pipe, e - 1, before, shell.limits)
    {
      if e > 0 {
        NotLast(old(shell.disk.contents), pipe, e, before, shell.limits);
      }
      var fileActions := new FileActions();
      AddActions(fileActions, pipe, i, pipelines, e);
      i := i + 2;
      ActionsValid(pipe, e, before, shell.table, pipelines[..], firstPipe);
      var child := PosixSpawnp(shell, pipe.commands[e].found, fileActions.used);
      ActionsWire(pipe, e, before, shell.table, pipelines[..], firstPipe, shell.limits);
      ActionsRedirect(old(shell.disk.contents), pipe, e, before, shell.table, pipelines[..], firstPipe, shell.limits);
      children := children + [child];
      e := e + 1;
    }
    ghost var piped := shell.table;
    ClosePipelines(shell, numPipelines, pipelines);
    ClosedPipes(before, piped, pipelines[..], firstPipe);
  }

  lemma NotLast(contents: Contents, pipe: Pipeline, e: nat, shell: Table, limits: Limits)
    requires 0 < e < |pipe.commands|
    ensures Redirected(contents, pipe, e - 1, shell, limits) == contents
  {
  }

  // ----- what the last command writes -----

  function Concat(pieces: seq<string>): string { if pieces == [] then "" else pieces[0] + Concat(pieces[1..]) }

  lemma {:induction false} ConcatOneMore(pieces: seq<string>, piece: string)
    ensures Concat(pieces + [piece]) == Concat(pieces) + piece
  {
    if pieces == [] {
      assert [piece][1..] == [] && [] + [piece] == [piece];
    } else {
      assert (pieces + [piece])[1..] == pieces[1..] + [piece];
      ConcatOneMore(pieces[1..], piece);
      assert pieces[0] + (Concat(pieces[1..]) + piece) == pieces[0] + Concat(pieces[1..]) + piece;
    }
  }

  // Writes, one after the other, to a file that has just been opened.
  method WriteAll(file: OpenFile, pieces: seq<string>)
    requires file.place in file.disk.contents && file.offset == 0
    requires file.mode != Append ==> file.disk.contents[file.place] == ""
    modifies file, file.disk
    ensures
      var before := old(file.disk.contents);
      file.disk.contents == before[file.place := before[file.place] + Concat(pieces)]
  {
    ghost var before, held := file.disk.contents, file.disk.contents[file.place];
    NothingYet(held);
    assert pieces[..0] == [];
    var i := 0;
    while i < |pieces|
      invariant 0 <= i <= |pieces| && (file.mode != Append ==> file.offset == |held + Concat(pieces[..i])|)
      invariant file.disk.contents == before[file.place := held + Concat(pieces[..i])]
    {
      hide Concat, Overwritten;
      OnePieceMore(held, pieces, i);
      file.Write(pieces[i]);
      i := i + 1;
    }
    assert pieces[..i] == pieces;
  }

  lemma OnePieceMore(held: string, pieces: seq<string>, i: nat)
    requires i < |pieces|
    ensures
      var was := held + Concat(pieces[..i]);
      Overwritten(was, |was|, pieces[i]) == held + Concat(pieces[..i + 1])
      && |was| + |pieces[i]| == |held + Concat(pieces[..i + 1])|
  {
    hide Concat;
    assert pieces[..i + 1] == pieces[..i] + [pieces[i]];
    ConcatOneMore(pieces[..i], pieces[i]);
    AtEnd(held, Concat(pieces[..i]), pieces[i]);
  }

  lemma NothingYet(held: string)
    ensures held + Concat([]) == held
  {
  }

  lemma AtEnd(held: string, s: string, bytes: string)
    ensures Overwritten(held + s, |held + s|, bytes) == held + (s + bytes)
  {
  }

  // handle_job, and then the writes of the last command to its output: after > the file holds just what was written,
  // and after >> what it held before followed by that.
  method JobWrites(shell: Process, pipe: Pipeline, pieces: seq<string>) returns (children: seq<Option<Table>>)
    requires pipe.commands != [] && StandardOpen(shell.table) && shell.limits.descriptors > STDERR
    requires 2 * (|pipe.commands| - 1) <= |FreeIn(shell.table, shell.limits)| && pipe.output.Some?
    modifies shell, shell.disk
    ensures |children| == |pipe.commands|
    ensures children[|children| - 1].Some? ==>
      var place := (Directory(old(shell.table)), pipe.output.value);
      shell.disk.contents == old(shell.disk.contents)[place :=
        (if pipe.append then Held(old(shell.disk.contents), place) else "") + Concat(pieces)]
  {
    hide Redirected, Wired, CanRedirect, Concat;
    ghost var before := shell.disk.contents;
    children := HandleJob(shell, pipe);
    var k := |pipe.commands| - 1;
    if children[k].Some? {
      ToItsFile(before, pipe, k, shell.table, old(shell.pipes), shell.limits);
      var output := children[k].value[STDOUT].file;
      var file := new OpenFile(shell.disk, (output.from, output.path), output.mode);
      WriteAll(file, pieces);
    }
  }

  lemma ToItsFile(contents: Contents, pipe: Pipeline, k: nat, shell: Table, firstPipe: nat, limits: Limits)
    requires k + 1 == |pipe.commands| && StandardOpen(shell) && pipe.output.Some? && CanRedirect(pipe, k, shell, limits)
    ensures
      var place := (Directory(shell), pipe.output.value);
      Redirected(contents, pipe, k, shell, limits)
      == contents[place := if pipe.append then Held(contents, place) else ""]
    ensures STDOUT in Wired(pipe, k, shell, firstPipe)
    ensures Wired(pipe, k, shell, firstPipe)[STDOUT].file ==
      Opened(Directory(shell), pipe.output.value, if pipe.append then Append else Truncate)
  {
  }

  // ----- who holds the pipes -----

  // Pipes not created yet are nowhere.
  ghost predicate PipesBelow(table: Table, pipes: nat) {
    forall fd :: fd in table ==>
      (table[fd].file.ReadEnd? ==> table[fd].file.pipe < pipes)
          && (table[fd].file.WriteEnd? ==> table[fd].file.pipe < pipes)
  }

  // Between commands k and k + 1, one holds the write end, as stdout and perhaps stderr, and the other the read
  // end, as stdin; so the reader's input ends when the writer does.
  lemma EndsHeldOnce(pipe: Pipeline, shell: Table, firstPipe: nat, k: nat, m: nat, fd: int)
    requires StandardOpen(shell) && PipesBelow(shell, firstPipe) && k + 1 < |pipe.commands| && m < |pipe.commands|
    requires fd in Wired(pipe, m, shell, firstPipe)
    ensures Wired(pipe, m, shell, firstPipe)[fd].file == WriteEnd(firstPipe + k) <==>
            m == k && (fd == STDOUT || (fd == STDERR && pipe.commands[k].dupStderrToStdout))
    ensures Wired(pipe, m, shell, firstPipe)[fd].file == ReadEnd(firstPipe + k) <==> m == k + 1 && fd == STDIN
    ensures fd in shell ==> shell[fd].file !in {WriteEnd(firstPipe + k), ReadEnd(firstPipe + k)}
  {
    assert STDIN in {STDIN, STDOUT, STDERR} && STDOUT in {STDIN, STDOUT, STDERR} && STDERR in {STDIN, STDOUT, STDERR};
  }
}
