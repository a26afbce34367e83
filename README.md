# ProcessHelper: command line, pipe drain and staged error codes

ProcessHelper runs a child process on Windows and captures everything the child writes
to its standard output. `ExecuteShellCommand` creates a pipe and clears the inherit flag
on the pipe's read end. `CreateChildProcess` then builds the child's command line in a
512-byte stack buffer, starts a reader thread and spawns the child. The reader
thread, `ReadPipeThread`, keeps polling the pipe until it is told to stop. Whatever the
pipe reports is appended to a heap buffer, `DataPt`, which grows as it goes. That buffer
is handed back to the caller through `*out`.

This project models the sequential bookkeeping in that code. The operating-system
calls are replaced by their answers, given as inputs.

- `CommandLine` (`command_line.dfy`): `sprintf_s` and `strlen` on the fixed `cmdline`
  buffer, and the loop that appends one argument at a time. It is proved against
  `JoinCmd`: the program path, then a space before each argument, in order.
- `PipeReader` (`pipe_reader.dfy`): the polling loop. The pipe is a finite list of poll
  events. Each event holds the peek result, `bytes_avail`, and the read outcome with the
  bytes actually transferred. The end of the list is the moment the launcher clears the
  active flag. Heap cells are either `Uninit` or `Byte(b)`, so memory from `g_malloc`
  and `g_realloc` is visibly uninitialised. The loop is proved against the value-level
  `Drain`, and the properties are proved about `Drain`.
- `ShellCommand` (`shell_command.dfy`): the early-return chain of `ExecuteShellCommand`
  as a pure function. `CreateChildProcess` is composed from the two modules above.

The source's terminator write is never in bounds (see "## Findings"). The model
therefore grows the buffer by one cell at the end and puts the NUL right after the
bytes read. `PipeReader.ReadPipeThread` uses that corrected finalisation. The code as
written is kept in `PipeReader.TerminateAsWritten`, along with the lemmas about it.

## Model

| member | source | states |
|---|---|---|
| `CommandLine.FormatInto` | ReadStdinCVersion/ProcessHelper.c:85-87 | `sprintf_s(p, cap, "%s", text)`. When text plus NUL fit in `cap`, it stores both and returns `|text|`. Otherwise it empties the target and returns -1. No cell before `p` changes. Cells after the NUL are left unspecified. |
| `CommandLine.StrLen` | ReadStdinCVersion/ProcessHelper.c:87 | `strlen`: every character before the result is non-NUL, and the result is the first NUL or the whole length. |
| `CommandLine.StrLenAtTerminator` | ReadStdinCVersion/ProcessHelper.c:87 | Once the text written so far has no NUL and is followed by one, `strlen(&cmdline[0])` equals the write position `p`. So `sizeof(cmdline) - strlen` is exactly the room left after `p`. |
| `CommandLine.AssembleCommandLine` | ReadStdinCVersion/ProcessHelper.c:70-87 | Assembly succeeds iff `JoinCmd(command, args)` plus its NUL fits in 512 bytes. On success, the line handed on is exactly `JoinCmd(command, args)`. On overflow, it reports the first piece whose `sprintf_s` did not fit, and every earlier piece did fit. |
| `CommandLine.AppendArguments` | ReadStdinCVersion/ProcessHelper.c:86-87 | The `for` loop over `argv`, starting with the program path in the buffer. It succeeds iff the whole line plus NUL fits in 512 bytes, and then hands on exactly `JoinCmd(command, args)`, which is also what `cmdline` holds, followed by a NUL, for `CreateProcess` to read. Otherwise it stops at the first argument whose `sprintf_s` does not fit, and every shorter prefix did fit. |
| `CommandLine.AppendArgument` | ReadStdinCVersion/ProcessHelper.c:87 | One pass of the loop. `sprintf_s(p, sizeof(cmdline) - strlen(&cmdline[0]), " %s", argv[idx])` succeeds iff the line so far, the space, the argument and a NUL fit in 512 bytes. On success the buffer holds the line so far, then `" " + argv[idx]`, then a NUL. |
| `CommandLine.OverflowAt` | ReadStdinCVersion/ProcessHelper.c:85-87 | When piece `k` is the first not to fit, the whole command line does not fit either, and every piece before `k` fitted. |
| `CommandLine.PrefixesFit` | ReadStdinCVersion/ProcessHelper.c:86-87 | If the line built from the first `idx` arguments fits, so does the line built from every shorter prefix. |
| `CommandLine.JoinCmdNoNul` | ReadStdinCVersion/ProcessHelper.c:85-87 | A path and arguments without NUL characters give a line without NUL characters. So `strlen` of the buffer is the write position. |
| `CommandLine.SpacedSnoc` | ReadStdinCVersion/ProcessHelper.c:86-87 | Adding one argument at the end of the list adds `" " + arg` at the end of the spaced argument text. |
| `CommandLine.SplitAfterWord` | ReadStdinCVersion/ProcessHelper.c:85-87 | Splitting a space-free word, a space and a rest at spaces gives the word followed by the fields of the rest. |
| `CommandLine.SplitSpaced` | ReadStdinCVersion/ProcessHelper.c:85-87 | If a word and the arguments contain no spaces, splitting the word followed by `" " + arg` for each argument gives back the word and then the arguments. |
| `CommandLine.JoinCmdIsCommandThenSpaced` | ReadStdinCVersion/ProcessHelper.c:85-87 | The loop's append-at-the-end layout equals the path followed by `" " + argv[idx]` for each argument in index order. |
| `CommandLine.JoinCmdGrows` | ReadStdinCVersion/ProcessHelper.c:86-87 | Each prefix of the arguments gives a prefix of the command line, no longer than it. So a piece that overflows makes every later piece overflow too. |
| `CommandLine.SplitJoinCmd` | ReadStdinCVersion/ProcessHelper.c:85-87 | If neither the path nor any argument contains a space, splitting the command line at spaces gives back exactly `[command] + args`. |
| `CommandLine.SpacesAreAmbiguous` | ReadStdinCVersion/ProcessHelper.c:85-87 | No quoting is added, so the path `"a b"` with no arguments gives the same line as path `"a"` with argument `"b"`. |
| `PipeReader.Realloc` | ReadStdinCVersion/ProcessHelper.c:144-145 | Growing the block keeps every old cell in place. Every new cell is uninitialised. |
| `PipeReader.Grow` | ReadStdinCVersion/ProcessHelper.c:141-145 | `total_bytes += bytes_avail` and the resize of `DataPt`. The buffer is allocated afterwards, `offset` is unchanged and the cells below it are kept. The well-formedness invariant is preserved. |
| `PipeReader.Commit` | ReadStdinCVersion/ProcessHelper.c:148-151 | A read of `dwRead` bytes advances `offset` by exactly `dwRead` and stores the bytes right after the old offset. `total_bytes` and the cells below the old offset are unchanged. The invariant is preserved. |
| `PipeReader.Step` | ReadStdinCVersion/ProcessHelper.c:137-151 | A failed peek or a zero `bytes_avail` changes nothing. Otherwise `total_bytes` grows by exactly `bytes_avail` and the buffer is allocated. `offset` grows only by what the read transferred. Cells below the old offset are kept, and the transferred bytes follow them. The loop invariant `WellFormed` is preserved. |
| `PipeReader.Drain` | ReadStdinCVersion/ProcessHelper.c:135-152 | After any number of passes the state is well formed. The block is NULL iff `total_bytes` is 0, and it holds `total_bytes` cells. `offset <= total_bytes`, the cells below `offset` are initialised, and the cells from `offset` up to `total_bytes` are uninitialised. |
| `PipeReader.DrainCapture` | ReadStdinCVersion/ProcessHelper.c:141-151 | `total_bytes` is the sum of the reported `bytes_avail`. `offset` is the number of bytes the reads transferred, which is at most that sum. The first `offset` cells are the transferred data, concatenated in read order. |
| `PipeReader.NullUntilDataReported` | ReadStdinCVersion/ProcessHelper.c:141-145 | `DataPt` is still NULL after the loop iff no peek ever reported data. |
| `PipeReader.TerminatorAsWrittenNeverFits` | ReadStdinCVersion/ProcessHelper.c:141-155 | The source's `*(DataPt + total_bytes) = '\0'` never lands inside the buffer. With no output it writes through NULL. Otherwise it writes at index `total_bytes` of a block of `total_bytes` cells. |
| `PipeReader.ShortReadLeavesGap` | ReadStdinCVersion/ProcessHelper.c:141-155 | Suppose the reads transferred fewer bytes than were reported. Then every cell between the data and index `total_bytes`, where the source puts its NUL, is uninitialised. |
| `PipeReader.ShortReadExample` | ReadStdinCVersion/ProcessHelper.c:141-151 | Take a peek of 4 followed by a 2-byte read. The block is then two data bytes followed by two uninitialised cells. |
| `PipeReader.TerminateAsWritten` | ReadStdinCVersion/ProcessHelper.c:155 | The source's `*(DataPt + total_bytes) = '\0'`. A NULL `DataPt` gives a NULL dereference. An index `total_bytes` at or past the block's size gives an out-of-bounds write. Otherwise the result is the block with a NUL at `total_bytes` and every other cell unchanged. |
| `PipeReader.Terminate` | ReadStdinCVersion/ProcessHelper.c:154-155 | Corrected finalisation: a block of `total_bytes + 1` cells that keeps the bytes read and has a NUL right after them. |
| `PipeReader.TerminatedCapture` | ReadStdinCVersion/ProcessHelper.c:154-155 | The finished buffer is the bytes read, in order, then a NUL, inside `total_bytes + 1` cells. With no output it is a valid empty string `[NUL]` rather than NULL. |
| `PipeReader.GMalloc` | ReadStdinCVersion/ProcessHelper.c:144 | `g_malloc(size)` returns a fresh block of `size` uninitialised cells. |
| `PipeReader.GRealloc` | ReadStdinCVersion/ProcessHelper.c:145 | `g_realloc` to a larger size copies the old cells and leaves the new ones uninitialised. |
| `PipeReader.ReadFile` | ReadStdinCVersion/ProcessHelper.c:148 | `ReadFile(DataPt + offset, bytes_avail)` reports the outcome's success. On success it stores the transferred bytes at `offset` and reports their count as `dwRead`. On failure the buffer is unchanged and `dwRead` is 0. |
| `PipeReader.GrowBuffer` | ReadStdinCVersion/ProcessHelper.c:141-145 | Growing on the heap: `g_malloc` when `DataPt` is NULL, `g_realloc` otherwise. This gives a fresh block whose state is exactly `Grow` of the previous state. |
| `PipeReader.ReadAndAdvance` | ReadStdinCVersion/ProcessHelper.c:148-151 | `ReadFile` into `DataPt + offset`, then `offset += dwRead`. The new state is `Commit` of the transferred bytes when the read succeeds, and the old state when it fails. |
| `PipeReader.PollOnce` | ReadStdinCVersion/ProcessHelper.c:137-151 | One pass of the loop body on `DataPt`, `total_bytes` and `offset` produces exactly `Step` of the previous state. |
| `PipeReader.TerminateBuffer` | ReadStdinCVersion/ProcessHelper.c:154-155 | The corrected final write on the array produces exactly `Terminate` of the drained state. |
| `PipeReader.ReadPipeThread` | ReadStdinCVersion/ProcessHelper.c:128-159 | After the whole event list, the returned length is the number of bytes read. That length exposes the local `offset`, which the source never hands out: the thread returns 0 and the caller gets only `DataPt`. With the corrected terminator (`Terminate`), the buffer holds those bytes in order, then a NUL, in `total_bytes + 1` cells. The source's own write at line 155 instead lands out of bounds or through NULL; see `TerminatorAsWrittenNeverFits`. |
| `ShellCommand.ExecuteShellCommand` | ReadStdinCVersion/ProcessHelper.c:39-63 | The code is 0 iff every stage succeeded. The stages run are, in order, those up to and including the first failure (`FirstFailure`), and a non-zero code is minus the number of stages run. `*out` receives `DataPt` only on code 0 and keeps the caller's value otherwise. |
| `ShellCommand.Documented` | ReadStdinCVersion/ProcessHelper.c:33-37 | The documented return codes: 0 means success, and -1, -2 and -3 name the first, second and third stage. Every other code is undocumented. |
| `ShellCommand.FirstFailure` | ReadStdinCVersion/ProcessHelper.c:29-38 | Reference: the index of the first failed stage, or the number of stages when none failed. |
| `ShellCommand.ReturnCodeNamesFirstFailure` | ReadStdinCVersion/ProcessHelper.c:29-38 | The documented meaning of the return code (-1 pipe, -2 inherit flag, -3 child, 0 success) names the first stage that failed. The stages run are exactly those up to and including it. |
| `ShellCommand.CreateChildProcess` | ReadStdinCVersion/ProcessHelper.c:65-126 | The process ends in `sprintf_s` iff the command line plus NUL exceeds 512 bytes. Otherwise the child gets exactly `JoinCmd(command, args)`. A failed `CreateProcess` reports failure. With the corrected terminator (`Terminate`), a spawned child's output comes back as the bytes read, in order, then a NUL. The source's own write at line 155 lands out of bounds or through NULL instead (see "## Findings"). |

## Left out

- The Win32 calls `CreatePipe`, `SetHandleInformation`, `CreateProcess`, `PeekNamedPipe` and `ReadFile` are replaced by their answers, given as inputs. `WaitForSingleObject`, `CloseHandle` and `CreateThread` are operating-system effects and are not modelled.
- The reader thread runs concurrently with the launcher, through the globals `g_ReadPipeThreadActive`, `g_hReadPipeThread` and the pipe handles. The model replaces this with a finite event list that the loop consumes to its end.
- The timeouts of the two waits are not modelled. Neither is the fact that `ExecuteShellCommand` can hand out `DataPt` while a timed-out reader is still writing to it.
- Handle lifetime is not modelled. That covers the pipe handles left open on the -2 and -3 paths, and the reader thread that keeps running after a failed `CreateProcess`, because its flag is never cleared.
- `DataPt` is a static global that is never reset to NULL. The model starts each drain from NULL, which holds only for the first call in a process; a second call would `g_realloc` a block the caller already freed.
- PipeReader.Drain: `total_bytes` (DWORD) and `offset` (gint) are unbounded here. In the source `total_bytes` wraps after 4 GiB of output, and `offset` overflows after 2 GiB, which is undefined behaviour for a signed `gint`.
- CommandLine.AssembleCommandLine: one Dafny `char` stands for one `gchar` byte, so the 512 limit counts bytes. A multi-byte character in the path or an argument counts once per byte in the source, and the model does not encode characters.
- The child's own parsing of its command line (splitting at tabs, merging runs of blanks, quotes and backslashes) is not modelled. `Split` splits at every space and keeps empty fields, so `SplitJoinCmd` is a round trip for `Split` only. An empty argument, for instance, does not come back to a Windows child.
- CommandLine.FormatInto: the cells after the stored NUL are left unspecified, because the debug CRT may fill the rest of the capacity.
- PipeReader.GRealloc: it always moves to a fresh block. `g_realloc` may return the same block, but nothing else holds that pointer, so this makes no difference. An allocation failure, which aborts in glib, is not modelled.
- PipeReader.ReadFile: a failed read stores nothing. A read that fails after a partial transfer is not modelled.
- CommandLine.AssembleCommandLine: an overflowing `sprintf_s` ends the assembly, because the CRT's default invalid-parameter handler ends the process. If a custom handler returned instead, `p` would move back by one; that case is not modelled.
- CommandLine.AssembleCommandLine: the path and arguments are C strings, so they are required to contain no NUL.
- Embedded zero bytes in the child's output stay in the capture. The caller's `strlen` view stops at the first of them; that view is not modelled.
- The code comment at line 51 says "Inherit the Read handle", but the call clears the inherit flag (flags argument 0). The model follows the code and the header text: stage -2 is the failure of that call.
- `ReadStdinCVersion/ReadStdinCVersion.c` (`main`: fixed paths, stderr logging, writing to a file) is I/O glue and is not part of this model. `ReadStdinCVersion/ProcessHelper.h` only declares `ExecuteShellCommand`.

## Findings

| source | as written | input that shows it | evidently intended | confidence | as-written member | corrected member |
|---|---|---|---|---|---|---|
| ReadStdinCVersion/ProcessHelper.c:144-155 | The NUL is stored at `DataPt[total_bytes]`, but the block was allocated with exactly `total_bytes` bytes. | One poll whose peek reports 5 bytes and whose read transfers "hello": the block has 5 bytes and the NUL goes to index 5. | Allocate room for the terminator (`total_bytes + 1`). | high; not executed | `PipeReader.TerminatorAsWrittenNeverFits` | `PipeReader.TerminatedCapture` |
| ReadStdinCVersion/ProcessHelper.c:135-155 | A child that writes nothing leaves `DataPt` NULL, and the terminator is written through the NULL pointer. | An empty event list, or only polls whose peek fails or reports 0. | Return a valid empty string. | high; not executed | `PipeReader.NullUntilDataReported` | `PipeReader.TerminatedCapture` |
| ReadStdinCVersion/ProcessHelper.c:148-155 | The NUL goes at `total_bytes`, not at `offset`. After a failed or short read, the string the caller sees runs through uninitialised bytes. | A peek reports 4 bytes and the read transfers 2: cells 2 and 3 are uninitialised and lie before the NUL. | Terminate right after the bytes actually read (`offset`). | medium; not executed | `PipeReader.ShortReadLeavesGap` | `PipeReader.TerminatedCapture` |
