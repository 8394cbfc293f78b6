# MyShell command parsing and pipeline bookkeeping in Dafny

This project models the logic of MyShell, a small Unix shell written in C, that lies around its system calls:

- **`parse_cmd`**. A line is split into blank-separated tokens with `strtok_r`, keeping at most `MAX_ARGS` of them. The `<`/`>` redirections are then removed from `argv` by an in-place two-index compaction. A redirection's path is either glued to the operator (`>out`) or the next token (`> out`), and the last one in each direction wins. When the background predicate holds, the background marker is taken off `argc`.
- **`parse_cmd_piped`**. `|` characters are counted to get `cmd_count`. The line is split on `|` with `strtok_r`, and each segment goes to `parse_cmd`.
- **The decisions of `exec_cmd`**:
  - which builtins run in the shell process itself;
  - how the forked child sets up its descriptors and ends;
  - that a builtin run in the child reports 0 or 1;
  - that a background child gives 0;
  - how a wait status becomes one integer.
- **`exec_cmd_piped`**. Stage 0 reads standard input and the last stage writes standard output. Pipe `i-1` joins stage `i-1` to stage `i`. The stage loop stops after the first negative result and returns the last result it computed.
- **`get_built_in_index` and `handle_built_in`**. The first registered name that is a prefix of the command is chosen, and the handler at that index is called.

## How the model is organised

- `CString` models `strtok_r` (`NextToken`, `Tokens`) and the prefix test `strncmp(s, p, strlen(p)) == 0` (`IsPrefix`). `NextField` and `Fields` split at every single delimiter and keep empty fields. The shell never calls them: they are the reference definition that the `strtok_r` loops are measured against. The module proves how tokens relate to these fields, to counts, to joins and to runs of delimiters.
- `Commands` holds `struct command` and `struct command_piped` as the datatypes `Command` and `Pipeline`.
- `Parse` holds `parse_cmd` as methods over an `array<string>` argv:
  - `FillArgv` is the `strtok_r` loop;
  - `CompactArgv` is the `i`/`j` compaction;
  - each is proved against the functions `Take(Tokens(..))` and `Strip`.
  
  `ParseFacts` states what `Strip` computes, against independent definitions: which tokens are kept, which are paths, the last path per direction, and when the parse fails.
- `Piped` holds `parse_cmd_piped` as methods: the counting loop and the stage loop. The functions `Segments` and `ParseAll` say which segments the stage loop parses and what it stores. `PipedFacts` holds the properties of those methods, and the finding below.
- `BuiltIn` holds the lookup and dispatch of `built_in.c`.
- `Exec` holds the `exec_cmd` dispatch and status rules, and `exec_cmd_piped`. `ExecCmdPiped` and its wiring steps `WireEnds` and `WirePipe` update an `array<Command>` of stage records in place. The stage loop `RunStages` runs over the sequence of stage results.

Some things are parameters because the source defines them outside these files or gets them from the operating system:

- **`MAX_ARGS`** is `maxArgs`. argv has `maxArgs + 1` slots, because line 99 writes the terminator at `argv[argc]`.
- **`is_background`** is `isBackground`, a predicate on the compacted argv.
- **The builtin table** (`built_in_strs`, `parent_process_relied` and the handler map) is a `Registry` value.
- **What the child's system calls report** is a `ChildEnv`:
  - the descriptor `open` returns for each redirection;
  - whether `dup2` onto standard input succeeds;
  - how the program ends, or that `execvp` failed.
- **What `calloc` and each `pipe()` call report** is `allocOk` and a sequence of `Option<PipeFds>`.
- **The result of `exec_cmd` for each pipeline stage** is a sequence of integers.

`init_cmd` is not shown. The model takes a fresh record to have no redirections and the standard descriptors 0 and 1 in `fds`. It also takes the slot `argv[argc]` to be NULL when a standalone operator at the end reads it.

### Where the code and the intended behaviour differ (the model follows the code)

- **The pipeline result.** A pipeline is meant to return its first non-zero or negative stage result, or zero. The code stops only at a negative result and returns the last result it computed. So a positive failure in a middle stage is overwritten by later stages (see `Exec.StageResultMeaning`).
- **Reaping.** The children of a pipeline are meant to be reaped. In the code, the wait in `exec_cmd_piped` is commented out. `exec_cmd` still waits for each foreground stage.
- **Builtins run in a child** exit with 0 or 1, so a positive handler result is lost (`Exec.ChildBuiltinIsZeroOrOne`).
- **A `calloc` or `pipe()` failure** makes `exec_cmd_piped` return 0. Stages wired before the failure stay wired, and the pipes already created are not closed.
- **A failed `dup2` onto standard output** only prints a message. The child goes on running.
- **The background marker.** When the marker is found, only `argc` is decremented. `argv` keeps the marker before its NULL terminator, and that `argv` is what `exec_cmd` passes on.

## Model

| member | source | states |
|---|---|---|
| CString.IsPrefix | built_in.c:17 | the prefix test: the first \|p\| characters of s are p, so s is at least as long as p |
| CString.NextToken | shell.c:48-51 | one `strtok_r` call returns a non-empty token and leaves strictly less text to scan |
| CString.Tokens | shell.c:48-53 | what successive strtok_r calls return; its meaning is stated by `TokensWellFormed`, `TokensAreNonEmptyFields` and `TokensOfLay` |
| CString.NextField | shell.c:129-135 | the reference split at the first delimiter (what one strsep call would return; the shell calls strtok_r) leaves strictly less text after the delimiter |
| CString.TokensWellFormed | shell.c:48-53 | every token `strtok_r` returns is non-empty and holds no separator |
| CString.TokensSkipDelimiter | shell.c:48-51 | leading separators never change the tokens returned |
| CString.TokensOfJoin | shell.c:48-53 | words without separators, joined by one separator, come back as tokens unchanged and in order |
| CString.FieldsOfJoin | shell.c:129-135 | splitting that keeps empty fields inverts the join, empty words included |
| CString.Count | shell.c:114-118 | how many times c occurs in s, never more than \|s\|; `FieldsCount` ties it to the fields |
| CString.FieldsCount | shell.c:114-118 | there is exactly one more field than there are `|` characters |
| CString.TokensAreNonEmptyFields | shell.c:129-136 | for any delimiter set (the blanks at line 48, `|` at line 129), `strtok_r` returns exactly the non-empty fields between single delimiters, in order |
| CString.TokensSkipRun | shell.c:48-51 | a whole run of leading separators, of any mixture, never changes the tokens |
| CString.TokensAfterWord | shell.c:48-51 | a separator-free word followed by a run of separators (or by nothing) is one token, and scanning resumes after the run |
| CString.TokensOfLay | shell.c:48-53 | separator-free words separated by non-empty runs of separators of any mixture, with any run in front and an optional one at the end, come back as tokens unchanged and in order |
| CString.TokensAtMostCountPlusOne | shell.c:114-118 | `strtok_r` never returns more segments than the number of `|` plus one |
| CString.NonEmptyKeepsAll | shell.c:129-136 | dropping empty fields removes something exactly when there is an empty field |
| BuiltIn.BuiltinIndex | built_in.c:12-21 | the result is -1 or an index in range; a result i >= 0 names a prefix of str, and no earlier name is one; -1 exactly when no name is a prefix |
| BuiltIn.GetBuiltInIndex | built_in.c:12-21 | the scan with its early return computes `BuiltinIndex` |
| BuiltIn.HandleBuiltIn | built_in.c:23-27 | the result is exactly the handler's result for a valid index |
| BuiltIn.ExtensionResolves | built_in.c:17 | a command that extends a registered name resolves to that name, or to an earlier name that is also a prefix |
| BuiltIn.CdxIsCd | built_in.c:17 | with "cd" registered first, "cdx" resolves to cd |
| Parse.Strip | shell.c:57-97 | the compaction loop, one token at a time; what it computes is stated by `ParseFacts.StripResult`, `ParseFacts.StripFails` and `ParseFacts.StripMeaning` |
| Parse.ParseSpec | shell.c:35-106 | parse_cmd as a function of the line; `ParseFacts.ParseMeaning` states what it yields |
| Parse.FillArgv | shell.c:48-53 | argv receives the line's tokens in order, at most `MAX_ARGS` of them, and the rest are dropped; every slot from argc on, including the NULL slot argv[argc] that lines 70 and 80 read, is left as it was |
| Parse.CompactArgv | shell.c:57-97 | the compaction fails exactly when `Strip` does, and otherwise leaves argv[..j], ifile and ofile as `Strip` computes them; on every path the slots from j on are left as they were |
| Parse.ParseCmd | shell.c:35-106 | parse_cmd's result is `ParseSpec`: the compacted tokens, the redirections, and argc reduced by one when the background predicate holds |
| Parse.StripOrdinary | shell.c:88-90 | an ordinary token is appended to the kept arguments |
| Parse.StripGlued | shell.c:71-76 | a glued operator records the rest of its token as the path |
| Parse.StripBare | shell.c:69-76 | a standalone operator takes the next token as its path, and an empty path fails |
| Parse.StripBareLast | shell.c:69-76 | a standalone operator as the last token fails |
| ParseFacts.KeptFrom | shell.c:88-90 | future argv holds no more entries than tokens, and none starts with `<` or `>` |
| ParseFacts.StripResult | shell.c:57-97 | argv is the in-order kept tokens; ifile and ofile are the paths of the last operator of each direction |
| ParseFacts.StripFails | shell.c:63-96 | the compaction fails exactly when some operator that is not itself a path has no path |
| ParseFacts.StripAppend | shell.c:57-97 | after a prefix compacts without error, the rest is compacted from the state the prefix left |
| ParseFacts.GluedIsStandalone | shell.c:69-83 | `<path`/`>path` and the operator followed by `path` as its own token give the same argv, ifile and ofile |
| ParseFacts.OperatorAsPath | shell.c:69-70 | a standalone operator takes the next token as its path even when that token is itself an operator |
| ParseFacts.StripMeaning | shell.c:57-98 | from the start: failure exactly on a missing path, otherwise kept tokens and the last path per direction |
| ParseFacts.ArgumentsAreBlankFields | shell.c:38-53 | the arguments are exactly the non-empty fields between single blanks, so runs and mixtures of blanks separate like one blank |
| ParseFacts.StripPlain | shell.c:57-97 | without operators, the compaction keeps every token in order and sets no redirection |
| ParseFacts.PlainWordsParse | shell.c:35-106 | at most `MAX_ARGS` plain words separated by any non-empty runs of blanks ("ls  -l", "ls\t-l x\n") parse to exactly those words, with no redirection, argc lowered by the background test |
| ParseFacts.BlankSegmentHasNoArgs | shell.c:35-106 | a line or segment of blanks only parses to a command with an empty argv |
| ParseFacts.ParseMeaning | shell.c:35-106 | parse_cmd: NULL exactly on a missing path, otherwise argv is the kept tokens (at most `MAX_ARGS`), ifile and ofile are the last paths, argc is \|argv\| and one less when the background predicate holds, with the NULL terminator at \|argv\| |
| Piped.ParseAll | shell.c:129-136 | NULL exactly when some segment fails to parse, otherwise one command per segment, in order |
| Piped.ParseAllSnoc | shell.c:131 | storing one more parsed segment extends the parsed prefix |
| Piped.CountStages | shell.c:114-118 | the counting loop yields the number of `|` characters plus one |
| Piped.ParseStages | shell.c:128-136 | the strtok_r loop parses at most cmd_cnt segments in order and yields NULL at the first failure |
| Piped.Segments | shell.c:128-136 | the segments the strtok_r loop hands to parse_cmd, never more than the number of `\|` plus one; `PipedFacts.SegmentsAreNonEmptyFields` says which they are |
| Piped.AsWrittenPipeline | shell.c:131-139 | as written, the record is NULL exactly when a stage failed to parse, and otherwise holds the stored stages with cmd_count as counted |
| Piped.CorrectedPipeline | shell.c:131-139 | corrected, the record is NULL exactly when a stage failed or none was stored, and otherwise cmd_count is the number of stages stored |
| Piped.PipedAsWrittenSpec | shell.c:108-140 | as written, cmd_count is the number of `\|` plus one, and never fewer than the commands stored |
| Piped.ParseCmdPipedAsWritten | shell.c:108-140 | parse_cmd_piped as written: the stages found, with cmd_count = number of `|` plus one |
| Piped.PipedSpec | shell.c:108-140 | corrected: a line with no segment gives NULL like a failed parse; otherwise cmd_count equals the number of commands stored, which is at least one and at most the number of `\|` plus one |
| Piped.ParseCmdPiped | shell.c:108-140 | parse_cmd_piped with cmd_count = the number of stages stored |
| PipedFacts.SegmentsAreNonEmptyFields | shell.c:114-136 | the segments handed to parse_cmd are the non-empty fields between `|` characters; the cmd_cnt cap never cuts any off |
| PipedFacts.PipedMeaning | shell.c:108-140 | the corrected result is NULL exactly when there is no non-empty segment or some segment fails; otherwise there is one command per non-empty segment, and cmd_count equals the number stored, at least one and at most the number of `|` plus one |
| PipedFacts.AsWrittenCountMismatch | shell.c:114-137 | as written, cmd_count equals the number of commands stored exactly when no field between `|` characters is empty |
| PipedFacts.AsWrittenAgreesWithoutEmptyStages | shell.c:108-140 | without empty fields, the code as written and the corrected one agree |
| PipedFacts.PipedOfJoin | shell.c:108-140 | one or more commands joined by `|` come back as the stages, one each, in order; no command at all gives NULL |
| PipedFacts.AsWrittenStageCountExample | shell.c:114-137 | on "a\|\|b" the code as written stores 2 commands with cmd_count 3 |
| PipedFacts.CorrectedStageCountExample | shell.c:114-137 | on "a\|\|b" the corrected count is 2, equal to the commands stored |
| PipedFacts.AsWrittenNoStageExample | shell.c:114-137 | as written, "" and "\|" give a pipeline with no command stored while `cmd_count` is 1 and 2 |
| PipedFacts.CorrectedNoStageExample | shell.c:114-137 | under the corrected definition, "" and "\|" give NULL |
| PipedFacts.OneWordParses | shell.c:35-106 | a single word with no blank in it and no leading operator parses to a command |
| Exec.StatusResult | shell.c:221-222 | a valid status becomes an integer in -127..255 that is non-negative exactly for a normal exit |
| Exec.StatusRoundTrip | shell.c:221-222 | decoding the result gives back the wait status, so nothing is lost |
| Exec.StatusResultInjective | shell.c:221-222 | distinct valid statuses give distinct results |
| Exec.BuiltinExitCode | shell.c:199-200 | a child-run builtin exits with 0 or 1, and 1 exactly when the handler returns a negative value |
| Exec.InputFd | shell.c:156-157 | the child's input descriptor: the descriptor open returned for ifile, or fds[0] when there is none |
| Exec.OutputFd | shell.c:176-177 | the child's output descriptor: the descriptor open returned for ofile, or fds[1] when there is none |
| Exec.ChildReady | shell.c:156-188 | the child reaches the command when both descriptors opened and a non-standard input was moved onto standard input; a failed dup2 of the output does not stop it |
| Exec.ChildStatus | shell.c:155-202 | the child exits with `EXIT_FAILURE` when a descriptor cannot be opened or moved onto standard input; otherwise a builtin exits with its 0/1 code, and a program ends with its own status (or `EXIT_FAILURE` when execvp fails) |
| Exec.RunsInShell | shell.c:148-149 | the command runs in the shell itself exactly when it names a builtin that the table marks as relying on the parent |
| Exec.ExecCmd | shell.c:146-226 | a parent-relied builtin's handler result is returned as is; otherwise a background stage gives 0 and a foreground one gives the translated child status |
| Exec.ChildBuiltinIsZeroOrOne | shell.c:192-200 | a builtin run in a foreground child yields 0 or 1, whatever positive value its handler returns |
| Exec.UnreadyChildFails | shell.c:156-181 | a child that cannot set up its descriptors yields `EXIT_FAILURE` |
| Exec.PipesBuilt | shell.c:249-254 | the pipes before the first failing pipe() call were all created |
| Exec.Wire | shell.c:231-258 | the wired records keep the number of stages, each equal to its per-stage wiring |
| Exec.WireConnects | shell.c:231-258 | fully wired: stage 0 reads standard input, the last stage writes standard output, pipe i joins stage i to stage i+1, and nothing but the descriptor slots changes |
| Exec.WireEnds | shell.c:231-232 | the first stage's input and the last stage's output become the standard descriptors, and nothing else changes |
| Exec.WirePipe | shell.c:256-257 | from records wired through k pipes, pipe k makes the records wired through k + 1 |
| Exec.WireStep | shell.c:256-257 | wiring pipe i-1 changes exactly stage i-1's output slot and stage i's input slot |
| Exec.StopStage | shell.c:261-266 | the loop stops at the first negative result, or at the last stage |
| Exec.StopIsFirstNegative | shell.c:261-266 | the stop stage is the first negative result, or the last stage |
| Exec.RunStages | shell.c:261-266 | the loop returns the result of the stage it stops at |
| Exec.StageResultMeaning | shell.c:261-276 | the pipeline result is negative exactly when some stage failed that way; with no negative result it is the last stage's result |
| Exec.ExecCmdPiped | shell.c:228-277 | the records end up wired as far as pipe creation got; one stage gives its own result; a calloc or pipe() failure gives 0; otherwise the stage loop's result |

## Left out

- fork, open, dup2, close, pipe, calloc, execvp and waitpid as operations. Their outcomes enter as parameters: `ChildEnv`, `allocOk`, the pipe sequence, and the stage results.
- A failed `fork` is not modelled. The code does not check for it. The parent then calls `waitpid(-1, ...)` at line 219, which waits for any child. The shell never reaps background children, so that call may reap a finished background child and return its status. The status stays uninitialised only when the shell has no child at all.
- print_prompt, the error messages printed to stderr, and `exit(EXIT_FAILURE)` when `init_cmd` or `init_cmd_piped` fails. These are terminal I/O and process exit.
- `close_pipes` and `free` in exec_cmd_piped, flush_cmd_piped, and the `_free_all` functions. These release resources and decide nothing.
- init_cmd, init_cmd_piped, is_background, MAX_ARGS and the builtin table. None of them is part of this model; they are parameters as described above.
- The handlers' own effects, such as changing directory or exiting the shell. A handler is a pure function of argc and argv.
- The order in which the processes of a pipeline run, and pipe buffering. This is concurrency between processes.
- Exec.ExecCmd: requires a non-empty argv. With argv[0] NULL, exec_cmd passes NULL to strncmp, which is undefined behaviour. Any blank-only segment produces such a stage, whether it comes before, between or after `|` characters, as in " | ls", "ls | " or "ls |\n", in the code as written and in the corrected pipeline alike (`ParseFacts.BlankSegmentHasNoArgs`).
- Exec.ExecCmdPiped: the stage results are inputs rather than calls of `ExecCmd` on the wired records, so the link between a stage's descriptors and its result is not modelled. It also requires at least one stage. As written, `cmd_count` is at least 1, but the commands stored can be none: "" and "|" store nothing, and line 231 then reads a `cmds[0]` that was never stored (`PipedFacts.AsWrittenNoStageExample`). The corrected `Piped.PipedSpec` gives NULL for such a line, so every pipeline it returns has a first stage.
- Parse.ParseCmd: the command record is built as a new value rather than as a `struct command` updated in place. argv is still an array filled and compacted in place.
- Piped.ParseStages: the `cmds[i++]` array is modelled as a sequence that grows by one per stored command.

## Findings

| source | as written | input that shows it | evidently intended | confidence | as-written member | corrected member |
|---|---|---|---|---|---|---|
| shell.c:114-137 | `cmd_count` is set to the number of `|` characters plus one. The stages come from `strtok_r`, which skips empty fields, so fewer commands can be stored than `cmd_count` says, and `exec_cmd_piped` then reads a `cmds[cmd_count - 1]` that was never stored | "a\|\|b": two commands are stored and `cmd_count` is 3. Likewise "\| ls" stores one command with `cmd_count` 2, as does "ls \|" when the line has no trailing newline. "" and "\|" store no command at all while `cmd_count` is 1 and 2, so even `cmds[0]` at line 231 was never stored | `cmd_count` equals the number of commands stored, and a line with no command is rejected like a failed parse. That is the repair modelled here. The other repair keeps the empty fields and parses each of them (`Fields` in place of `Tokens`), so that `cmd_count` stays the number of `\|` plus one | not executed | PipedFacts.AsWrittenStageCountExample | PipedFacts.CorrectedStageCountExample |
