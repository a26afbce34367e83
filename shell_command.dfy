/**
 * ExecuteShellCommand's early-return chain of stages and CreateChildProcess,
 * which assembles the command line, spawns the child and drains its output.
 * The operating system's answers (CreatePipe, SetHandleInformation,
 * CreateProcess, the pipe's poll events) are inputs.
 */
module ShellCommand {
  import CommandLine
  import PipeReader

  /** The stages, in the order ExecuteShellCommand runs them: CreatePipe, SetHandleInformation, CreateChildProcess. */
  datatype Stage = PipeStage | InheritStage | ChildStage

  const Stages: seq<Stage> := [PipeStage, InheritStage, ChildStage]

  /** What a call leaves behind: its return code, the stages it ran, and the caller's `*out` afterwards. */
  datatype Execution<T> = Execution(code: int, ran: seq<Stage>, out: T)

  /** ExecuteShellCommand, given each stage's success and the buffer DataPt the reader produced;
      `out` is the caller's variable before the call. */
  function ExecuteShellCommand<T>(pipeCreated: bool, inheritCleared: bool, childCreated: bool, dataPt: T, out: T): (r: Execution<T>)
    ensures r.code == 0 <==> pipeCreated && inheritCleared && childCreated
    ensures r.out == if r.code == 0 then dataPt else out
    ensures 1 <= |r.ran| <= |Stages| && r.ran == Stages[..|r.ran|]
    ensures r.code != 0 ==> r.code == -|r.ran|
    ensures var k := FirstFailure([pipeCreated, inheritCleared, childCreated]);
      r.ran == Stages[..if k < |Stages| then k + 1 else k]
  {
    if !pipeCreated then Execution(-1, [PipeStage], out)
    else if !inheritCleared then Execution(-2, [PipeStage, InheritStage], out)
    else if !childCreated then Execution(-3, Stages, out)
    else Execution(0, Stages, dataPt)
  }

  /** Reference: the index of the first stage that failed, or the number of stages when none did. */
  function FirstFailure(succeeded: seq<bool>): (k: nat)
    ensures k <= |succeeded|
    ensures forall i :: 0 <= i < k ==> succeeded[i]
    ensures k < |succeeded| ==> !succeeded[k]
  {
    if |succeeded| == 0 || !succeeded[0] then 0 else 1 + FirstFailure(succeeded[1..])
  }

  /** The documented meaning of each return code: the stage that failed, none for 0. */
  datatype Failure = NoFailure | FailedAt(stage: Stage) | Undocumented

  function Documented(code: int): (f: Failure)
    ensures f == NoFailure <==> code == 0
    ensures f.FailedAt? <==> -|Stages| <= code <= -1
    ensures f.FailedAt? ==> f.stage == Stages[-code - 1]
  {
    if code == 0 then NoFailure
    else if code == -1 then FailedAt(PipeStage)
    else if code == -2 then FailedAt(InheritStage)
    else if code == -3 then FailedAt(ChildStage)
    else Undocumented
  }

  /** The code names the first stage that failed, every stage up to it ran and none after it. */
  lemma ReturnCodeNamesFirstFailure<T>(pipeCreated: bool, inheritCleared: bool, childCreated: bool, dataPt: T, out: T)
    ensures var r, k := ExecuteShellCommand(pipeCreated, inheritCleared, childCreated, dataPt, out),
                        FirstFailure([pipeCreated, inheritCleared, childCreated]);
      Documented(r.code) == (if k < |Stages| then FailedAt(Stages[k]) else NoFailure) &&
      r.ran == Stages[..if k < |Stages| then k + 1 else k]
  {
    var succeeded := [pipeCreated, inheritCleared, childCreated];
    var k := FirstFailure(succeeded);
    if pipeCreated { assert succeeded[0]; assert FirstFailure(succeeded) == 1 + FirstFailure(succeeded[1..]); }
    if pipeCreated && inheritCleared { assert succeeded[1..][0]; }
  }

  /** How CreateChildProcess ends: the process is ended by sprintf_s's invalid-parameter handler,
      CreateProcess fails, or the child ran and the reader drained its output. `length` exposes the
      reader's local `offset`, which the source never hands out: its caller recovers it with strlen. */
  datatype ChildRun =
    | Aborted(piece: nat)
    | SpawnFailed(cmdline: string)
    | Completed(cmdline: string, captured: seq<PipeReader.Cell>, length: nat)

  /** CreateChildProcess with `spawned` as CreateProcess's answer and `events` as what the pipe delivers
      until the reader is stopped. */
  method CreateChildProcess(command: string, args: seq<string>, spawned: bool, events: seq<PipeReader.PollEvent>)
    returns (r: ChildRun)
    requires CommandLine.NoNul(command)
    requires forall i :: 0 <= i < |args| ==> CommandLine.NoNul(args[i])
    requires PipeReader.ValidEvents(events)
    ensures r.Aborted? <==> |CommandLine.JoinCmd(command, args)| + 1 > CommandLine.CmdLineSize
    ensures !r.Aborted? ==> r.cmdline == CommandLine.JoinCmd(command, args)
    ensures r.SpawnFailed? <==> !r.Aborted? && !spawned
    ensures r.Completed? ==>
      r.length == |PipeReader.ReadBytes(events)| < |r.captured| &&
      r.captured[..r.length] == PipeReader.Bytes(PipeReader.ReadBytes(events)) &&
      r.captured[r.length] == PipeReader.Byte(0)
  {
    var assembly := CommandLine.AssembleCommandLine(command, args);
    if assembly.Overflow? {
      return Aborted(assembly.piece);
    }
    if !spawned {
      return SpawnFailed(assembly.line);
    }
    var captured, length := PipeReader.ReadPipeThread(events);
    r := Completed(assembly.line, captured, length);
  }
}
