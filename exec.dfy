/** The decisions exec_cmd and exec_cmd_piped of shell.c take around the
    process and descriptor system calls. fork, open, dup2, pipe, calloc,
    execvp and waitpid are not modelled as operations: what they report
    enters as parameters (a ChildEnv, the pipes that were created, the
    per-stage results). */
module Exec {
  import opened Wrappers
  import opened CString
  import opened Commands
  import opened BuiltIn

  /** How waitpid reports a child's end: a normal exit with its code, or
      termination by a signal. */
  datatype WaitStatus = Exited(code: int) | Signaled(signal: int)

  /** The statuses a POSIX system can report: exit codes fit in 8 bits and
      signal numbers are positive and below 128. */
  predicate ValidStatus(ws: WaitStatus)
  {
    match ws
    case Exited(c) => 0 <= c <= 255
    case Signaled(s) => 1 <= s <= 127
  }

  /** EXIT_FAILURE. */
  const ExitFailure: int := 1

  /** What exec_cmd returns for a foreground child: the exit code, or the
      negated signal number. */
  function StatusResult(ws: WaitStatus): (r: int)
    ensures ValidStatus(ws) ==> -127 <= r <= 255
    ensures ValidStatus(ws) ==> (r >= 0 <==> ws.Exited?)
  {
    match ws
    case Exited(c) => c
    case Signaled(s) => -s
  }

  /** How a caller reads an exec_cmd result back. */
  function DecodeResult(r: int): WaitStatus
  {
    if r >= 0 then Exited(r) else Signaled(-r)
  }

  /** The translation loses nothing: a valid status comes back from its result. */
  lemma StatusRoundTrip(ws: WaitStatus)
    requires ValidStatus(ws)
    ensures DecodeResult(StatusResult(ws)) == ws
  {
  }

  /** Hence distinct valid statuses give distinct results. */
  lemma StatusResultInjective(a: WaitStatus, b: WaitStatus)
    requires ValidStatus(a) && ValidStatus(b) && StatusResult(a) == StatusResult(b)
    ensures a == b
  {
    StatusRoundTrip(a);
    StatusRoundTrip(b);
  }

  /** The exit status of a builtin run in the child: 1 when the handler
      reported an error (a negative result), 0 otherwise. */
  function BuiltinExitCode(h: int): (code: int)
    ensures code == 0 || code == 1
    ensures code == 1 <==> h < 0
  {
    if h < 0 then 1 else 0
  }

  /** What the system calls made in the child report: the descriptor open
      returns for ifile and for ofile, whether dup2 onto standard input
      succeeds, and how the program ends when execvp succeeds (None: execvp
      failed). */
  datatype ChildEnv = ChildEnv(openIn: int, dupInOk: bool, openOut: int, program: Option<WaitStatus>)
  {
    /** waitpid only reports statuses the system can produce. */
    predicate Valid()
    {
      program.Some? ==> ValidStatus(program.value)
    }
  }

  /** The input descriptor the child uses: the opened ifile, or fds[0]. */
  function InputFd(cmd: Command, env: ChildEnv): int
  {
    if cmd.ifile.Some? then env.openIn else cmd.fdIn
  }

  /** The output descriptor the child uses: the opened ofile, or fds[1]. */
  function OutputFd(cmd: Command, env: ChildEnv): int
  {
    if cmd.ofile.Some? then env.openOut else cmd.fdOut
  }

  /** Whether the child gets as far as running the command: both
      descriptors open, and the input one moved onto standard input when
      it is not already there. A failed dup2 onto standard output only
      prints a message. */
  predicate ChildReady(cmd: Command, env: ChildEnv)
  {
    InputFd(cmd, env) >= 0
    && (InputFd(cmd, env) == StdIn || env.dupInOk)
    && OutputFd(cmd, env) >= 0
  }

  /** How the forked child ends. */
  function ChildStatus(reg: Registry, cmd: Command, env: ChildEnv): (ws: WaitStatus)
    requires reg.Valid() && |cmd.argv| > 0
    ensures !ChildReady(cmd, env) ==> ws == Exited(ExitFailure)
    ensures ChildReady(cmd, env) && BuiltinIndex(reg.names, cmd.argv[0]) >= 0 ==>
      ws == Exited(BuiltinExitCode(reg.handlers[BuiltinIndex(reg.names, cmd.argv[0])](cmd.argc, cmd.argv)))
    ensures ChildReady(cmd, env) && BuiltinIndex(reg.names, cmd.argv[0]) < 0 ==>
      ws == if env.program.Some? then env.program.value else Exited(ExitFailure)
    ensures env.Valid() ==> ValidStatus(ws)
  {
    var ifd := InputFd(cmd, env);
    if ifd < 0 then Exited(ExitFailure)
    else if ifd != StdIn && !env.dupInOk then Exited(ExitFailure)
    else
      var ofd := OutputFd(cmd, env);
      if ofd < 0 then Exited(ExitFailure)
      else
        var idx := BuiltinIndex(reg.names, cmd.argv[0]);
        if idx >= 0 then Exited(BuiltinExitCode(reg.handlers[idx](cmd.argc, cmd.argv)))
        else match env.program
          case None => Exited(ExitFailure)
          case Some(ws) => ws
  }

  /** Whether exec_cmd runs the command in the shell process itself: a
      builtin that the registry marks as relying on the parent. */
  predicate RunsInShell(reg: Registry, cmd: Command)
    requires reg.Valid() && |cmd.argv| > 0
  {
    var idx := BuiltinIndex(reg.names, cmd.argv[0]);
    idx >= 0 && reg.parentRelied[idx]
  }

  /** exec_cmd. A builtin that relies on the parent runs in the shell and
      its handler's result is returned as is; anything else is forked: a
      background child is not waited for and the result is 0, a foreground
      child's end is translated by StatusResult. */
  method ExecCmd(reg: Registry, cmd: Command, env: ChildEnv) returns (r: int)
    requires reg.Valid() && env.Valid() && |cmd.argv| > 0
    ensures RunsInShell(reg, cmd) ==>
      r == reg.handlers[BuiltinIndex(reg.names, cmd.argv[0])](cmd.argc, cmd.argv)
    ensures !RunsInShell(reg, cmd) && cmd.bg ==> r == 0
    ensures !RunsInShell(reg, cmd) && !cmd.bg ==> DecodeResult(r) == ChildStatus(reg, cmd, env)
  {
    var idx := GetBuiltInIndex(reg.names, cmd.argv[0]);
    if idx >= 0 && reg.parentRelied[idx] {
      r := HandleBuiltIn(reg, idx, cmd.argc, cmd.argv);
      return;
    }
    var status := ChildStatus(reg, cmd, env);
    if cmd.bg {
      r := 0;
    } else {
      r := StatusResult(status);
      StatusRoundTrip(status);
    }
  }

  /** A builtin run in a foreground child only reports success (0) or
      failure (1): positive handler results are lost. */
  lemma ChildBuiltinIsZeroOrOne(reg: Registry, cmd: Command, env: ChildEnv)
    requires reg.Valid() && |cmd.argv| > 0
    requires BuiltinIndex(reg.names, cmd.argv[0]) >= 0
    requires ChildReady(cmd, env)
    ensures var h := reg.handlers[BuiltinIndex(reg.names, cmd.argv[0])](cmd.argc, cmd.argv);
      StatusResult(ChildStatus(reg, cmd, env)) == (if h < 0 then 1 else 0)
  {
  }

  /** A child that cannot set up its descriptors exits with EXIT_FAILURE,
      whatever the command. */
  lemma UnreadyChildFails(reg: Registry, cmd: Command, env: ChildEnv)
    requires reg.Valid() && |cmd.argv| > 0 && !ChildReady(cmd, env)
    ensures StatusResult(ChildStatus(reg, cmd, env)) == ExitFailure
  {
  }

  /** The two descriptors pipe() fills in. */
  datatype PipeFds = PipeFds(read: int, write: int)

  /** How many pipe() calls succeed before the first failure. */
  function PipesBuilt(pipes: seq<Option<PipeFds>>): (k: nat)
    ensures k <= |pipes|
    ensures forall i :: 0 <= i < k ==> pipes[i].Some?
    ensures k < |pipes| ==> pipes[k].None?
  {
    if pipes == [] || pipes[0].None? then 0 else 1 + PipesBuilt(pipes[1..])
  }

  /** Stage i after the first k pipes are wired: stage 0 reads standard
      input, the last stage writes standard output, and pipe i - 1 joins
      stage i - 1 (its write end) to stage i (its read end). */
  function WiredStage(stages: seq<Command>, k: nat, pipes: seq<Option<PipeFds>>, i: nat): Command
    requires i < |stages| && k < |stages| && k <= |pipes|
    requires forall j :: 0 <= j < k ==> pipes[j].Some?
  {
    var s := stages[i];
    s.(fdIn := if i == 0 then StdIn else if i <= k then pipes[i - 1].value.read else s.fdIn,
       fdOut := if i == |stages| - 1 then StdOut else if i < k then pipes[i].value.write else s.fdOut)
  }

  /** The stage records once the first k pipes are wired. */
  function Wire(stages: seq<Command>, k: nat, pipes: seq<Option<PipeFds>>): (w: seq<Command>)
    requires 0 < |stages| && k < |stages| && k <= |pipes|
    requires forall j :: 0 <= j < k ==> pipes[j].Some?
    ensures |w| == |stages|
    ensures forall i :: 0 <= i < |w| ==> w[i] == WiredStage(stages, k, pipes, i)
  {
    seq(|stages|, i requires 0 <= i < |stages| => WiredStage(stages, k, pipes, i))
  }

  /** The wiring of a fully built pipeline: the ends are the standard
      descriptors, every pipe joins its two neighbours, and nothing but the
      descriptor slots changes. */
  lemma WireConnects(stages: seq<Command>, pipes: seq<Option<PipeFds>>)
    requires 0 < |stages| && |pipes| == |stages| - 1
    requires forall j :: 0 <= j < |pipes| ==> pipes[j].Some?
    ensures var w := Wire(stages, |pipes|, pipes);
      w[0].fdIn == StdIn && w[|w| - 1].fdOut == StdOut
      && (forall i :: 0 <= i < |pipes| ==>
            w[i].fdOut == pipes[i].value.write && w[i + 1].fdIn == pipes[i].value.read)
      && (forall i :: 0 <= i < |w| ==> w[i].(fdIn := stages[i].fdIn, fdOut := stages[i].fdOut) == stages[i])
  {
    var w := Wire(stages, |pipes|, pipes);
    forall i | 0 <= i < |pipes|
      ensures w[i].fdOut == pipes[i].value.write && w[i + 1].fdIn == pipes[i].value.read
    {
      assert w[i] == WiredStage(stages, |pipes|, pipes, i);
      assert w[i + 1] == WiredStage(stages, |pipes|, pipes, i + 1);
    }
  }

  /** The stage at which the execution loop stops: the first with a
      negative result, or the last one. */
  function StopStage(results: seq<int>): (k: nat)
    requires |results| > 0
    ensures k < |results|
    ensures forall j :: 0 <= j < k ==> results[j] >= 0
    ensures results[k] < 0 || k == |results| - 1
  {
    if results[0] < 0 || |results| == 1 then 0 else 1 + StopStage(results[1..])
  }

  /** The execution loop of exec_cmd_piped: run stages in order, stop after
      the first negative result, and keep the last result computed. */
  method RunStages(results: seq<int>) returns (ret: int)
    requires |results| > 0
    ensures ret == results[StopStage(results)]
  {
    var i := 0;
    while true
      invariant i < |results|
      invariant forall j :: 0 <= j < i ==> results[j] >= 0
      decreases |results| - i
    {
      ret := results[i];
      if ret < 0 || i == |results| - 1 {
        break;
      }
      i := i + 1;
    }
    StopIsFirstNegative(results, i);
  }

  /** The stop stage is determined by the results before it. */
  lemma StopIsFirstNegative(results: seq<int>, k: nat)
    requires k < |results|
    requires forall j :: 0 <= j < k ==> results[j] >= 0
    requires results[k] < 0 || k == |results| - 1
    ensures StopStage(results) == k
  {
  }

  /** The result of the loop is negative exactly when some stage failed,
      and then it is the first failure; otherwise it is the last stage's
      result, whatever the earlier non-negative results were. */
  lemma StageResultMeaning(results: seq<int>)
    requires |results| > 0
    ensures results[StopStage(results)] < 0 <==> exists j :: 0 <= j < |results| && results[j] < 0
    ensures (forall j :: 0 <= j < |results| ==> results[j] >= 0) ==>
      results[StopStage(results)] == results[|results| - 1]
  {
  }

  /** exec_cmd_piped on n stage records. The stage results stand in for
      exec_cmd on each wired stage; pipes says what each pipe() call
      reports and allocOk whether calloc of the pipe array succeeds. An
      allocation or pipe failure ends the call with 0, leaving the stages
      wired so far. */
  method ExecCmdPiped(cmds: array<Command>, allocOk: bool, pipes: seq<Option<PipeFds>>, results: seq<int>)
    returns (ret: int)
    requires cmds.Length > 0 && |pipes| == cmds.Length - 1 && |results| == cmds.Length
    modifies cmds
    ensures var k := if cmds.Length == 1 || !allocOk then 0 else PipesBuilt(pipes);
      cmds[..] == Wire(old(cmds[..]), k, pipes)
    ensures cmds.Length == 1 ==> ret == results[0]
    ensures cmds.Length > 1 && !allocOk ==> ret == 0
    ensures cmds.Length > 1 && allocOk && PipesBuilt(pipes) < |pipes| ==> ret == 0
    ensures cmds.Length > 1 && allocOk && PipesBuilt(pipes) == |pipes| ==> ret == results[StopStage(results)]
  {
    ghost var stages := cmds[..];
    var n := cmds.Length;
    WireEnds(cmds, pipes);
    if n == 1 {
      ret := results[0];
      return;
    }
    if !allocOk {
      return 0;
    }
    var i := 1;
    while i < n
      invariant 1 <= i <= n
      invariant forall j :: 0 <= j < i - 1 ==> pipes[j].Some?
      invariant cmds[..] == Wire(stages, i - 1, pipes)
    {
      if pipes[i - 1].None? {
        assert PipesBuilt(pipes) == i - 1;
        return 0;
      }
      WirePipe(cmds, stages, i - 1, pipes);
      i := i + 1;
    }
    assert PipesBuilt(pipes) == n - 1;
    ret := RunStages(results);
  }

  /** The first stage reads standard input and the last writes standard
      output, before any pipe is made. */
  method WireEnds(cmds: array<Command>, pipes: seq<Option<PipeFds>>)
    requires cmds.Length > 0
    modifies cmds
    ensures cmds[..] == Wire(old(cmds[..]), 0, pipes)
  {
    ghost var stages := cmds[..];
    var n := cmds.Length;
    WireStart(stages, pipes);
    cmds[0] := cmds[0].(fdIn := StdIn);
    ghost var first := cmds[..];
    assert first == stages[0 := stages[0].(fdIn := StdIn)];
    cmds[n - 1] := cmds[n - 1].(fdOut := StdOut);
    assert cmds[..] == first[n - 1 := first[n - 1].(fdOut := StdOut)];
  }

  /** Pipe k joins stage k (its write end) to stage k + 1 (its read end). */
  method WirePipe(cmds: array<Command>, ghost stages: seq<Command>, k: nat, pipes: seq<Option<PipeFds>>)
    requires 0 < |stages| == cmds.Length && k + 1 < |stages| && k < |pipes|
    requires forall j :: 0 <= j <= k ==> pipes[j].Some?
    requires cmds[..] == Wire(stages, k, pipes)
    modifies cmds
    ensures cmds[..] == Wire(stages, k + 1, pipes)
  {
    var p := pipes[k].value;
    WireStep(stages, k, pipes);
    ghost var before := cmds[..];
    cmds[k] := cmds[k].(fdOut := p.write);
    ghost var mid := cmds[..];
    assert mid == before[k := before[k].(fdOut := p.write)];
    assert mid[k + 1] == before[k + 1];
    cmds[k + 1] := cmds[k + 1].(fdIn := p.read);
    assert cmds[..] == mid[k + 1 := mid[k + 1].(fdIn := p.read)];
  }

  /** Before any pipe: only the two standard ends are set. */
  lemma WireStart(stages: seq<Command>, pipes: seq<Option<PipeFds>>)
    requires 0 < |stages|
    ensures var w := stages[0 := stages[0].(fdIn := StdIn)];
      Wire(stages, 0, pipes) == w[|w| - 1 := w[|w| - 1].(fdOut := StdOut)]
  {
  }

  /** Wiring pipe k changes exactly the two slots it joins. */
  lemma WireStep(stages: seq<Command>, k: nat, pipes: seq<Option<PipeFds>>)
    requires 0 < |stages| && k + 1 < |stages| && k < |pipes|
    requires forall j :: 0 <= j <= k ==> pipes[j].Some?
    ensures var w := Wire(stages, k, pipes);
      Wire(stages, k + 1, pipes)
        == w[k := w[k].(fdOut := pipes[k].value.write)][k + 1 := w[k + 1].(fdIn := pipes[k].value.read)]
  {
    var w := Wire(stages, k, pipes);
    var w' := w[k := w[k].(fdOut := pipes[k].value.write)][k + 1 := w[k + 1].(fdIn := pipes[k].value.read)];
    var v := Wire(stages, k + 1, pipes);
    forall i | 0 <= i < |stages|
      ensures v[i] == w'[i]
    {
      assert v[i] == WiredStage(stages, k + 1, pipes, i);
      assert w[i] == WiredStage(stages, k, pipes, i);
    }
  }
}
