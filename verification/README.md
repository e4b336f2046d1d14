# PUCIT shell core, modelled in Dafny

A model of a teaching shell, written in C in several versions, and proofs
about that model. It covers four source files:

- `myshellv2.c`: the command parser, covering `<`, `>` and a single `|`.
  It also covers the choice between running nothing, one process with
  redirections, or a two-process pipeline.
- `myshellv4.c`: the bounded ten-line history and `!N` / `!-N` recall.
- `myshellv5.c`: the history again, the table of background jobs, the
  SIGCHLD handler that removes finished jobs, and the builtins `cd`,
  `exit`, `jobs`, `kill` and `help`.
- `version6.c`: the variable store with `set`, `export`, `list` and
  `printenc`, and `eco` with `$name` substitution.

How the model mirrors the source:

- Global arrays that the C code updates in place become Dafny classes:
  - `HistoryBuffer` has ten slots and a count.
  - `JobTable` has one hundred jobs and a count.
  - `VariableStore` has one hundred entries and a count.
- Each loop of the shell becomes a `method` with a `while` loop. Each
  such method is proved against a function on sequences:
  - `Recorded` for `add_to_history`.
  - `Numbered` for `print_history`.
  - `Argv` for the `strtok` loop that builds the argument vector.
  - `Survivors` and `Reaped` for the SIGCHLD handler.
  - `SetEntries` for `set_var`.
  - `Subst` for `eco`.
  - `DropLeading` for the loop that trims spaces before an `export` name.
  - `Parse` for `parse_command`.
- The C library routines `strtok` and `atoi` are functions.
- The properties the shell promises are lemmas about those functions.

`strtok` is modelled as `Tokenize`, which returns the whole token
sequence. Its hidden position becomes an index into that sequence.
`FirstCut` is the C string that one `strtok` call leaves in its buffer.
`atoi` is modelled in full (white space, sign, digits) as `Atoi`.

Process creation, `exec`, `wait`, `kill`, `open`, `dup2` and `chdir` are
not modelled. What `fork` returns and which pids `waitpid` reports finished
are parameters. The model returns the decision the shell takes, as an
`Outcome`, `Plan` or `Reply` value.

Some behaviours of the source are worth stating plainly, because a reader
might expect otherwise:

- History numbers are slot numbers, which the shift on overflow renumbers,
  not sequence numbers that are never reused. See
  `ShellV4.AbsoluteAfterEviction`.
- `!0` and a bare `!` recall the newest entry. `!-0` recalls the oldest.
- A `<` or `>` without a file name is not a parse error: the flag is set
  and no file is recorded. A `|` with nothing after it is not an error
  either: the first stage runs and the second gets no program name.
- The SIGCHLD handler prints from inside the handler and mutates the job
  table directly, with no signal masking in the main loop.

## Model

| member | source | states |
|---|---|---|
| Text.Tokenize | Assignment01/myshellv5.c:174-180 | the tokens successive `strtok` calls return: the maximal runs of non-delimiter characters, left to right |
| Text.FirstCut | Assignment01/myshellv5.c:174 | the C string left in the buffer after the first `strtok` call is a prefix of the line: its leading delimiters and its first token |
| Text.Atoi | Assignment01/myshellv5.c:127 | `atoi`: skip white space, an optional sign, the longest run of digits, 0 when there is none |
| Text.TokensAreClean | Assignment01/myshellv5.c:174-180 | every token `strtok` returns is non-empty and holds no delimiter |
| Text.TokensKeepText | Assignment01/myshellv5.c:174-180 | the tokens, concatenated in order, are the line minus its delimiters: nothing lost, duplicated or reordered |
| Text.TokenizeJoin | Assignment01/myshellv5.c:174-180 | splitting clean words joined by a delimiter gives the words back |
| Text.TrailingDelim | Assignment01/myshellv5.c:174-180 | a trailing delimiter adds no token |
| Text.FirstCutTokens | Assignment01/myshellv5.c:174-180 | the buffer left after the first `strtok` call splits to the line's first token alone |
| Text.AtoiDecimal | Assignment01/myshellv5.c:127 | `atoi` reads back any natural number written in decimal, whatever non-digit text follows |
| History.Recorded | Assignment01/myshellv4.c:18-29 | recording grows the history by one up to ten entries, then keeps it at ten, and the new line is last |
| History.RecordedIsLastN | Assignment01/myshellv4.c:18-29 | one recording keeps the last ten of the old entries plus the new line |
| History.RecordAllKeepsLastTen | Assignment01/myshellv4.c:18-29 | after any run of lines the history is the last ten lines recorded, oldest first (FIFO eviction) |
| History.Numbered | Assignment01/myshellv4.c:32-37 | `print_history` shows entry k under number k+1 |
| History.HistoryBuffer.constructor | Assignment01/myshellv4.c:14-15 | the history starts empty |
| History.HistoryBuffer.Listing | Assignment01/myshellv4.c:32-37 | the `print_history` loop produces `Numbered` of the entries |
| History.HistoryBuffer.Add | Assignment01/myshellv4.c:18-29 | the slot array after `add_to_history`, shifting included, holds `Recorded(old entries, line)` |
| Input.Recordable | Assignment01/myshellv4.c:79-82 | a line is recorded iff it is non-empty and does not start with `!` |
| Input.Argv | Assignment01/myshellv5.c:173-180 | the argument vector is the line's space-separated tokens |
| Input.SplitArgs | Assignment01/myshellv5.c:173-180 | the `strtok` loop, character by character, builds exactly `Argv` of the line |
| Input.StripBackground | Assignment01/myshellv5.c:166-171 | the background flag is set iff the line ends in `&`, and exactly that one character is removed |
| ShellV4.GetHistoryIndex | Assignment01/myshellv4.c:46-52 | a non-negative index is kept; a negative one becomes count plus the index, which lands inside the history when within the count and stays negative beyond it |
| ShellV4.ReferenceIndex | Assignment01/myshellv4.c:86-93 | `!-N` gives the index -atoi(N); `!N` gives atoi(N)-1 |
| ShellV4.Expand | Assignment01/myshellv4.c:84-106 | a non-`!` line is kept; a recalled line is always an entry of the history |
| ShellV4.ExpandAbsolute | Assignment01/myshellv4.c:85-105 | `!N` recalls slot N, counting from 1, and is rejected beyond the count |
| ShellV4.ExpandRelative | Assignment01/myshellv4.c:85-105 | `!-N` recalls the N-th entry back from the newest, and is rejected beyond the count |
| ShellV4.ExpandZeroIsNewest | Assignment01/myshellv4.c:90-93 | `!0`, a bare `!`, or any `!` text atoi reads as 0 recalls the newest entry |
| ShellV4.ExpandMinusZeroIsOldest | Assignment01/myshellv4.c:46-52 | `!-0` recalls the oldest entry, since index 0 is not negative |
| ShellV4.ListedNumbersExpand | Assignment01/myshellv4.c:32-37 | each number `print_history` shows, typed after `!`, recalls the entry shown beside it |
| ShellV4.AbsoluteAfterEviction | Assignment01/myshellv4.c:18-29 | once more than ten lines are recorded, `!N` names the N-th of the last ten lines, not the N-th line typed |
| ShellV4.LineOutcome | Assignment01/myshellv4.c:84-147 | a failed recall drops the line; otherwise the recalled or typed line is stripped of its `&` and run when it has words |
| ShellV4.RecalledBackground | Assignment01/myshellv4.c:108-113 | the `&` test runs on the recalled line, so a recalled `cmd &` runs in the background |
| ShellV4.Shell.constructor | Assignment01/myshellv4.c:65 | empty history, job number 0 |
| ShellV4.Shell.ReadLine | Assignment01/myshellv4.c:79-147 | records only recordable lines, returns `LineOutcome` of the updated history, and counts one job per background run |
| ShellV5.IsBuiltin | Assignment01/myshellv5.c:100-108 | `is_builtin_command`: the first word is `cd`, `exit`, `jobs`, `kill` or `help` |
| ShellV5.BuiltinFor | Assignment01/myshellv5.c:99-139 | a builtin action is chosen iff the first word is a builtin; each word selects its own action; `cd` takes its argument, `kill` the index atoi(N)-1, or none when the argument is missing |
| ShellV5.RegisteredAsWritten | Assignment01/myshellv5.c:174-205 | the job command as the source stores it: a prefix of the line, cut by the first `strtok` call |
| ShellV5.Registered | Assignment01/myshellv5.c:202-206 | the corrected job command splits to the same words as the line that ran |
| ShellV5.Dispatch | Assignment01/myshellv5.c:162-213 | one outcome per case: no words runs nothing; a builtin runs its `BuiltinFor` action, and `kill` targets `KillTargetOf`; otherwise fork failure, the child's argv, a foreground wait, or a background start that appends the job and announces it under the new count when the table has room. The table changes only in that last case |
| ShellV5.BuiltinsDoNotFork | Assignment01/myshellv5.c:184-188 | a builtin runs whatever `fork` would return, never changes the job table, and ignores a trailing `&` |
| ShellV5.StartedJobIsListed | Assignment01/myshellv5.c:202-206 | a started job is listed by `jobs` under the announced number, with its pid and the words of its command |
| ShellV5.KillStartedJob | Assignment01/myshellv5.c:123-128 | `kill N`, with N the announced number, targets that job's pid |
| ShellV5.AsWrittenKeepsFirstWord | Assignment01/myshellv5.c:174-205 | the command the source stores splits to the first word of the line alone |
| ShellV5.AsWrittenDropsArguments | Assignment01/myshellv5.c:205 | `sleep 10 &` is stored as `sleep`, whose words differ from the corrected `Registered` |
| ShellV5.Shell.constructor | Assignment01/myshellv5.c:23-28 | empty history and empty job table |
| ShellV5.Shell.HandleLine | Assignment01/myshellv5.c:152-213 | records only recordable lines, and returns the outcome and new job table `Dispatch` gives |
| ShellV5.Shell.ChildrenExited | Assignment01/myshellv5.c:61-77 | the SIGCHLD handler leaves `Survivors` in the table, reports `Reaped`, and leaves the history alone |
| Jobs.Survivors | Assignment01/myshellv5.c:61-77 | reaping never grows the table |
| Jobs.Reaped | Assignment01/myshellv5.c:65-76 | the jobs the handler announces with `[Finished]`, in table order |
| Jobs.SurvivorsExactly | Assignment01/myshellv5.c:65-76 | a job survives iff it was in the table and `waitpid` did not report it finished |
| Jobs.ReapPartitions | Assignment01/myshellv5.c:65-76 | the survivors and the reaped jobs together are the old table, as a multiset |
| Jobs.SurvivorsInOrder | Assignment01/myshellv5.c:70-72 | the shift keeps the survivors in their relative order |
| Jobs.NothingFinished | Assignment01/myshellv5.c:65-76 | with no job finished, the table is unchanged and nothing is announced |
| Jobs.ReapIdempotent | Assignment01/myshellv5.c:61-77 | a second pass with the same report removes nothing more |
| Jobs.JobLines | Assignment01/myshellv5.c:80-84 | `print_jobs` shows job k under number k+1 with its pid and command |
| Jobs.KillTargetOf | Assignment01/myshellv5.c:87-97 | a pid is signalled iff the index is inside the table, and it is a listed job's pid |
| Jobs.KillListedNumber | Assignment01/myshellv5.c:123-128 | `kill N`, for a number N that `jobs` lists, signals the pid listed beside it |
| Jobs.JobTable.constructor | Assignment01/myshellv5.c:23-24 | the job table starts empty |
| Jobs.JobTable.Register | Assignment01/myshellv5.c:202-209 | appends the job and returns its number when there is room; otherwise the table is unchanged and no number is returned |
| Jobs.JobTable.RemoveAt | Assignment01/myshellv5.c:70-73 | the shift loop deletes exactly job i and keeps the rest in order |
| Jobs.JobTable.Reap | Assignment01/myshellv5.c:61-77 | the handler's loop, with its `i--` after a removal, leaves exactly `Survivors` and reports `Reaped` |
| Jobs.JobTable.Listing | Assignment01/myshellv5.c:80-84 | the listing loop produces `JobLines` of the table |
| Jobs.JobTable.KillTarget | Assignment01/myshellv5.c:87-97 | `kill_job`'s range check and lookup agree with `KillTargetOf` |
| Parser.Parse | Assignment01/myshellv2.c:12-43 | `parse_command` on a token sequence, from the initial state |
| Parser.SecondStage | Assignment01/myshellv2.c:78-86 | the second stage's argv is the command after the `|` followed by the remaining tokens, or none when the `|` ended the line |
| Parser.ParseCommand | Assignment01/myshellv2.c:12-43 | the `strtok` loop computes `Parse` of the line's tokens |
| Parser.ParseMeaning | Assignment01/myshellv2.c:18-42 | for a line of words and redirections, args are the words in order; a flag is set iff its operator occurs before the first `|`, with the last file named, or none when the operator ends the line; the first `|` ends the first stage |
| Parser.ParseIsMeaning | Assignment01/myshellv2.c:12-43 | every token sequence parses to the meaning of its decomposition into words, redirections and an ending |
| Parser.ArgsAreOrderedNonOperators | Assignment01/myshellv2.c:22-39 | no `<`, `>` or `|` ever lands in args, and args keep the order of the tokens |
| Parser.ParsedArgsAreTokens | Assignment01/myshellv2.c:19-41 | every argument is a non-empty token with no space or newline, and is not an operator |
| Parser.ParseWithoutOperators | Assignment01/myshellv2.c:12-43 | a line with no operator tokens parses to all its tokens, no flags, no files and no pipe |
| Parser.ParseFirstPipe | Assignment01/myshellv2.c:31-36 | at the first `|` the first stage ends; the next token is the second command and the rest is left for it, uninterpreted |
| Parser.BuildSecondStage | Assignment01/myshellv2.c:78-86 | the second stage's argv is the command after the pipe followed by every remaining token |
| Parser.PlanFor | Assignment01/myshellv2.c:46-149 | nothing runs iff there is no first argument; two processes iff there is a first argument and a `|`; one process iff there is a first argument and no `|`. That process reads from the file named after `<` and writes to the file named after `>` when the flag is set, or from an unnamed file when the name was missing |
| Parser.LeadingPipeRunsNothing | Assignment01/myshellv2.c:31-36 | a line starting with `|` runs nothing |
| Parser.RedirectionsAloneRunNothing | Assignment01/myshellv2.c:23-30 | a line of redirections alone runs nothing, since each operator consumes its file name |
| Parser.PipelineIgnoresRedirection | Assignment01/myshellv2.c:49-98 | on the pipe path the redirection fields have no effect |
| Variables.Find | Assignment01/version6.c:19-26 | the lookup loop stops at the first entry with the name, or finds none |
| Variables.Lookup | Assignment01/version6.c:39-46 | `get_var` returns a value iff some entry has the name, and the value is that entry's |
| Variables.EnvLookup | Assignment01/version6.c:39-46 | `get_var` agrees with the map of bindings in which the first entry with a name wins |
| Variables.SetEntries | Assignment01/version6.c:18-36 | `set_var` overwrites the first entry with the name in place, appends a new name when there is room, and otherwise changes nothing |
| Variables.ExportEntries | Assignment01/version6.c:111-120 | `export_var` marks the first entry with the name global, or sets a new name to the empty string in the global scope |
| Variables.Scope | Assignment01/version6.c:95-108 | one of `list_vars`'s lists: the entries of one scope, in store order |
| Variables.Substitute | Assignment01/version6.c:56-93 | the output of `eco` for its argument |
| Variables.ParseRequest | Assignment01/version6.c:123-148 | the branch `process_command` takes: `eco` text follows `eco `; an unknown command is one matching none of the five prefixes |
| Variables.SetDefines | Assignment01/version6.c:18-36 | after `set_var` the name is bound to the value in the given scope, unless the store was full and the name new, in which case nothing changes |
| Variables.SetLeavesOthers | Assignment01/version6.c:18-36 | `set_var` changes no other name's binding, and every other entry keeps its value, scope and position |
| Variables.SetCount | Assignment01/version6.c:27-35 | the count grows by one exactly when a new name is appended |
| Variables.SetKeepsDistinct | Assignment01/version6.c:18-36 | `set_var` never creates a second entry with a name |
| Variables.ExportDefines | Assignment01/version6.c:111-120 | after `export_var` the name has a global entry; an existing value is kept, and a new name is set to the empty string |
| Variables.ExportLeavesOthers | Assignment01/version6.c:111-120 | `export_var` changes no other name's binding or entry |
| Variables.ExportKeepsDistinct | Assignment01/version6.c:111-120 | `export_var` never creates a second entry with a name |
| Variables.ScopeMembers | Assignment01/version6.c:95-108 | an entry is listed in a scope iff it is in the store with that scope |
| Variables.ScopeInOrder | Assignment01/version6.c:95-108 | each list of `list_vars` keeps the store's insertion order |
| Variables.ScopesPartition | Assignment01/version6.c:95-108 | `list_vars` shows every entry exactly once across its two lists |
| Variables.NameLength | Assignment01/version6.c:66-68 | the name loop reads at most 63 non-space characters and stops at a space or the end |
| Variables.SubstituteWords | Assignment01/version6.c:56-93 | on space-separated words, `eco` replaces each `$name` word by the name's value, or keeps it when unbound, and copies the rest |
| Variables.SubstEmptyStore | Assignment01/version6.c:78-83 | with nothing bound, `eco` prints its argument unchanged |
| Variables.DropLeading | Assignment01/version6.c:139-141 | the trimmed `export` name is the operand minus exactly its leading spaces: a suffix, everything dropped is a space, and it does not start with a space |
| Variables.ParseAssignment | Assignment01/version6.c:128-136 | an accepted `set` operand yields a non-empty name without `=` and a non-empty value, which rebuild the operand |
| Variables.ParseAssignmentOf | Assignment01/version6.c:128-136 | `name=value` is read back exactly, even when the value contains `=` |
| Variables.ParseAssignmentSkipsEquals | Assignment01/version6.c:131 | a leading `=` is skipped: `=name=value` binds the name to the value |
| Variables.TrimSpaces | Assignment01/version6.c:139-141 | the trim loop of `export` yields `DropLeading` of the operand |
| Variables.SetCommand | Assignment01/version6.c:128-133 | `set name=value` reaches `set_var(name, value, 0)` |
| Variables.SetThenEcho | Assignment01/version6.c:123-148 | after `set name=value` on a store with room, `eco $name` prints the value |
| Variables.CommandKeepsDistinct | Assignment01/version6.c:123-148 | no command ever gives two entries the same name |
| Variables.VariableStore.constructor | Assignment01/version6.c:14-15 | the store starts empty |
| Variables.VariableStore.SetVar | Assignment01/version6.c:18-36 | the entries after `set_var` are `SetEntries`; it reports whether anything was stored |
| Variables.VariableStore.GetVar | Assignment01/version6.c:39-46 | the lookup loop returns `Lookup` of the entries |
| Variables.VariableStore.ExportVar | Assignment01/version6.c:111-120 | the entries after `export_var` are `ExportEntries`; it reports a failure exactly when the name is new and `set_var` finds the store full |
| Variables.VariableStore.ListVars | Assignment01/version6.c:95-108 | `list_vars` lists the locals, then the globals, each in insertion order |
| Variables.VariableStore.ScopeEntries | Assignment01/version6.c:97-101 | one listing loop collects exactly one scope's entries, in order |
| Variables.VariableStore.PrintEnv | Assignment01/version6.c:49-53 | `printenc` shows every entry in insertion order |
| Variables.VariableStore.ProcessCommand | Assignment01/version6.c:123-148 | dispatch by prefix; the new entries are `EntriesAfter` and the reply is `ReplyTo` of the parsed request, where `set` and `export` both report the variable-limit error |
| Variables.VariableStore.Eco | Assignment01/version6.c:56-93 | the buffer loop outputs `Substitute` of the argument |
| Variables.VariableStore.AppendReplacement | Assignment01/version6.c:71-84 | appends the name's value, or `$` and the name when it is unbound |
| Variables.ReadName | Assignment01/version6.c:63-69 | the name loop reads `NameLength` characters from after the `$` |
| Variables.Copy | Assignment01/version6.c:74-77 | the copy loop appends the text to the buffer |

## Left out

- I/O and processes are left out: `fork`, `execvp`, `waitpid`, `kill`, `open`, `dup2`, `pipe`, `chdir`, `exit`, `printf` and `perror`. Their results are parameters or appear as outcome values.
- Signal asynchrony is left out. The SIGCHLD handler runs as a call between lines (`ShellV5.Shell.ChildrenExited`), so it never interrupts a table update halfway.
- `waitpid` is a set of finished pids. If two jobs share a pid, the model removes both in one pass.
- The v4 `sigchld_handler` (myshellv4.c:40-43) is left out. It keeps no state that the model could describe.
- `main`'s read loop is left out: prompt, `fgets`, removing the newline, and `exit` in version6.c:151-164. Each model method handles one line.
- Memory management is left out: `strdup` and `free` in version6.c.
- Fixed buffer sizes are left out: MAX_LINE, MAX_ARGS, the 1024-byte history slots and job command fields. Lines and argument vectors are unbounded.
- Text.Atoi: integer overflow of `atoi` is not modelled; values are unbounded.
- Input.StripBackground: requires a non-empty line. The source reads `input[strlen(input) - 1]`, which is undefined for an empty line (myshellv4.c:110, myshellv5.c:168).
- Variables.VariableStore.Eco: requires that the output fit in 255 characters. The source copies values only up to index 254 but writes plain characters and the unbound `$` without a bound, overflowing the 256-byte buffer.
- Variables.VariableStore.ProcessCommand: has the same precondition on an `eco` command.
- Variables.Subst: a name that runs to the end of the argument ends substitution. The source does not step back when the name loop stops at the terminator (version6.c:85), so the loop reads past the string's end.
- ShellV5: this version has no `!` expansion. A `!` line is only kept out of the history.
- ShellV5.Dispatch: `exit` is returned as the `ExitShell` outcome rather than ending the process.
- ShellV5.Dispatch and ShellV5.Shell.HandleLine: these use the corrected `Registered` job command (see Findings), not the truncated one.
- Parser: the second stage of a pipe reads its words with `strtok(NULL, …)` in the child, so it continues the parent's tokenizer state. It is modelled as the tokens left after the first `|`.
- `myshellv3.c` is not part of this model: its background handling is the one `myshellv4.c` repeats and `myshellv5.c` replaces.

## Findings

| source | as written | input that shows it | evidently intended | confidence | as-written member | corrected member |
|---|---|---|---|---|---|---|
| Assignment01/myshellv5.c:205 | the job command is copied from `input` after the `strtok` loop, which ended the string at the first delimiter, so only the first word is stored | `sleep 10 &` is listed by `jobs` as `sleep` | the whole command line, without the `&`, is stored | not executed | ShellV5.AsWrittenDropsArguments | ShellV5.StartedJobIsListed |
