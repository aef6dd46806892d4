# wsh command processing, modelled in Dafny

wsh is a small Unix shell written in C. It runs interactively or over a
script file. Each input line goes through the same stages:

- It is cut into tokens. Single quotes group words, and an unclosed quote
  rejects the line.
- If the first word is an alias, it is replaced by the alias's value.
- The line then runs in one of three ways:
  - as one of seven builtins (`exit`, `path`, `cd`, `which`, `history`,
    `alias`, `unalias`), inside the shell itself;
  - as a program found through `PATH`;
  - as a pipeline of such stages separated by `|` words (bar words).
- Last, the shell's status is updated and the line is added to the
  history. The history is kept in a growable array of strings.

This project models that command-processing layer and proves properties of
it. It has seven modules, one per file:

- `Types` (types.dfy): status constants, messages, the session, and the
  `Env` oracle for the operating system.
- `Tokenizer` (tokenizer.dfy): `parseline_no_subst`.
- `DynamicArrays` (dynamic_array.dfy): `dynamic_array.c`, as a class over an
  array.
- `Commands` (commands.dfy): classifying command names, searching `PATH`,
  and expanding the leading alias.
- `Builtins` (builtins.dfy): the seven builtins, including `strtol` for the
  `history` index.
- `Pipelines` (pipeline.dfy): `run_pipeline`.
- `Shell` (shell.dfy): `execute_one`, `run_command`, the read loop, and a
  class `Wsh` that holds the shell's globals.

How the model is built:

- Code that computes a value is written as functions. Each function comes
  with lemmas that state what it means.
- The scanning, searching and copying loops of the C code are methods with
  `while` loops, proved equal to their functions. For example, `ParseLine`
  equals `Tokenize`, `FindInPath` equals `SearchPath`, and `RunPipeline`
  equals `Pipeline`. Two loops are not methods:
  - the copy of one pipeline segment into `cmd_argv` (wsh.c:620) is `Take`,
    used by `PlanStage` and `ResolveStage`;
  - `builtin_history`'s print loop (wsh.c:442) is the sequence of history
    lines built in `History`.
- The shell's globals (`rc`, the alias table, the history array, `PATH`,
  the working directory) are fields of the class `Shell.Wsh`. Its methods
  are proved to move those fields exactly as the functions `Command` and
  `LineStep` say.
- The builtins are functions from a session to an `Outcome`: a status code,
  the new session, and the messages printed. `Wsh.RunCommand` writes back
  the new aliases, `PATH` and directory. A pipeline child keeps only the
  code, so its changes to the session are lost.
- Anything that asks the operating system is a field of `Env`. That covers
  `access(X_OK)`, `chdir` (`Env.chdir` gives the new working directory, or
  nothing on failure), `HOME`, and what a program run through
  `fork`/`execv`/`waitpid` reports. Each such value is a parameter of the
  model.

Behaviour of the code worth knowing:

- An unclosed quote sets the status to failure, because `wsh_warn` sets
  `rc` (wsh.c:42-49). The line is not added to the history.
- `history N` reads its argument with `strtol`. Leading white space and a
  `+` sign are therefore accepted. A number past `LONG_MAX` saturates, and
  then falls beyond the end of the history. `HistoryIndexShape` and
  `HistoryIndexExamples` state exactly what is accepted.
- An empty pipeline segment is a failed command like any other. It sets the
  status to 1, and the line is recorded in the history.
- If `waitpid` fails on the last stage of a pipeline, the pipeline reports
  success: `last_status` keeps its initial 0. For a single command the same
  failure is reported as failure. `PipelineStatus` and `WaitStatus` state
  both rules.

The unbounded writes in the source are preconditions, stated where the
source reaches them:

- `FitsArgv` (required by `StepDefined` for a line, and by `ExpansionFits`
  for the alias value being expanded): a line that tokenizes has fewer than
  `MAX_ARGS` tokens, since `argv[count] = NULL` follows them. A line
  rejected for an unclosed quote has at most `MAX_ARGS` tokens stored
  before the quote. `ScanCount` counts those stored tokens, and
  `ScanCountTokens` shows it is the token count when the line tokenizes.
- more than 128 pipeline segments reached (`PlanDefined`);
- a pipeline stage whose alias expands to nothing while `PATH` is set
  (`StageDefined`): the source then searches `PATH` for a null name.

`MAX_ARGS` is defined in a header that is not part of this model. Its
value is taken to be 128.

## Model

| member | source | states |
|---|---|---|
| Types.Take | wsh.c:554-566 | the copy loops that stop at MAX_ARGS - 1 entries: the result is the longest prefix within the bound |
| Tokenizer.FindFrom | wsh.c:101 | strchr: a position at or after the start, holding the character unless it is the end |
| Tokenizer.FindFromSkips | wsh.c:101 | strchr finds the first occurrence: no earlier position from the start holds the character |
| Tokenizer.Buffer | wsh.c:67-83 | the scanned buffer ends in a space and has the line's length, or one more when the line has no final newline |
| Tokenizer.ScanFrom | wsh.c:85-144 | the scan yields at most one token per remaining buffer position |
| Tokenizer.Tokenize | wsh.c:51-147 | a tokenized line has at most one token per character, plus one |
| Tokenizer.ScanCount | wsh.c:85-127 | the number of tokens stored in argv before the scan ends or meets an unclosed quote, at most one per remaining position |
| Tokenizer.ScanCountTokens | wsh.c:85-144 | when the scan succeeds, the tokens stored are exactly the tokens returned |
| Tokenizer.ParseLine | wsh.c:51-147 | the tokenizing loops compute exactly `Tokenize` of the line |
| Tokenizer.ScanBuffer | wsh.c:85-144 | the scan over the space-terminated buffer equals `ScanFrom` from position 0 |
| Tokenizer.SkipSpaces | wsh.c:88-91 | the space-skipping loop stops at the first non-space, skips only spaces and does not change the tokens that follow |
| Tokenizer.ScanWellFormed | wsh.c:93-141 | every token the scan yields is well formed: it has no quote, or it is non-empty, space-free and does not start with a quote |
| Tokenizer.TokenizeWellFormed | wsh.c:51-147 | every token of a line is well formed |
| Tokenizer.NoQuoteScans | wsh.c:98-112 | only the quote branch can fail, so a buffer without quotes always scans |
| Tokenizer.BufferChars | wsh.c:67-83 | the buffer ends in a space, and before it comes the line less its final newline if it has one, else the whole line; every other character is the line's own |
| Tokenizer.FailureNeedsQuote | wsh.c:102-112 | a line is rejected only if it holds a single quote |
| Tokenizer.WellFormedRetokenizes | wsh.c:51-147 | a well-formed token, read again as a line (as an alias value is), always tokenizes |
| Tokenizer.TokenizeRenderLine | wsh.c:93-141 | round trip: tokens written out plainly or in quotes, separated by spaces and ended by a newline, tokenize back to the same tokens |
| Tokenizer.ScanSpaced | wsh.c:93-141 | scanning space-separated rendered tokens followed by any text gives those tokens, then that text's tokens |
| Tokenizer.OpenQuoteFails | wsh.c:98-112 | a quote with no closing quote after it rejects the buffer |
| Tokenizer.UnclosedQuoteFails | wsh.c:98-112 | any line of good tokens followed by an unclosed quote is rejected whole: no partial token list |
| Tokenizer.ScanSplitsOnSpaces | wsh.c:117-140 | without quotes the tokens are non-empty and space-free, and together they are the buffer without its spaces |
| Tokenizer.TokenizeWithoutQuotes | wsh.c:51-147 | a quote-free line always tokenizes, into space-free non-empty words that make up the line without its spaces |
| Tokenizer.SpacesScan | wsh.c:137-141 | only spaces left means no more tokens |
| Tokenizer.BlankLineHasNoTokens | wsh.c:88-93 | a line of spaces, possibly ended by a newline, has no tokens |
| Tokenizer.ExampleQuotedSpaces | wsh.c:98-116 | `echo 'a b' c` is the three tokens `echo`, `a b`, `c` |
| Tokenizer.ExampleQuoteThenText | wsh.c:114-115 | after a closing quote the next token starts at once: `'x'y` is `x`, `y` |
| Tokenizer.ExampleInnerQuote | wsh.c:117-123 | a quote inside a plain word is kept: `a'b` is one token |
| Tokenizer.SingleWordLine | wsh.c:51-147 | a single plain word, with or without a final newline, is the one token it spells (`exit`, `a'b`) |
| Tokenizer.ExampleEmptyQuoted | wsh.c:98-116 | `''` is one empty token |
| Tokenizer.ExampleUnclosed | wsh.c:102-112 | `echo 'oops` is rejected |
| DynamicArrays.RemoveAt | dynamic_array.c:51-62 | the sequence without one element: the length drops by one, earlier elements stay, and later ones move down by one |
| DynamicArrays.RemoveLastAppended | dynamic_array.c:21-62 | deleting the element just appended gives back the old contents |
| DynamicArrays.DynamicArray.constructor | dynamic_array.c:11-18 | da_create: empty, with the requested capacity |
| DynamicArrays.DynamicArray.Put | dynamic_array.c:21-37 | da_put: the contents gain the value at the end, and the capacity doubles exactly when the array was full |
| DynamicArrays.DynamicArray.Get | dynamic_array.c:40-48 | da_get: the element at an index in range, and nothing past the end |
| DynamicArrays.DynamicArray.Delete | dynamic_array.c:51-62 | da_delete: removes the element at an index in range, shifting the rest left; past the end nothing changes; the buffer and capacity stay |
| DynamicArrays.DynamicArray.Print | dynamic_array.c:65-75 | da_print: lists every element in order, once each |
| Commands.IsBuiltinName | wsh.c:300-311 | a builtin name is non-empty, is not a bar word and does not start with `/` or `.` |
| Commands.IsAbsOrRel | wsh.c:149-154 | a name starting with `/` or `.` is never a builtin name and never a bar word |
| Commands.ComponentsFrom | wsh.c:173-195 | strtok_r yields at most one component per remaining character |
| Commands.ComponentsNonEmpty | wsh.c:173-195 | strtok_r yields only non-empty components without a colon |
| Commands.ComponentsOfJoin | wsh.c:173-195 | directories joined with colons come back as the non-empty ones, in order |
| Commands.ComponentsCons | wsh.c:173-195 | a leading directory then a colon contributes that directory (if non-empty), then the rest's components |
| Commands.ComponentsLast | wsh.c:173-195 | a colon-free PATH is one directory, or none when empty |
| Commands.ExampleComponents | wsh.c:173-195 | `::/bin::/usr/bin:` searches `/bin`, then `/usr/bin` |
| Commands.FirstExecutable | wsh.c:175-195 | a hit is always an executable path |
| Commands.FirstExecutableMeaning | wsh.c:175-195 | the search misses exactly when no `dir/cmd` is executable; a hit is the first executable one |
| Commands.SearchPath | wsh.c:157-200 | the empty-path result comes exactly from an empty PATH, and a hit is executable |
| Commands.SearchPathMeaning | wsh.c:157-200 | an empty PATH is told apart from a miss; a miss means no non-empty component has the program; a hit is the first that does |
| Commands.FirstExecutableCons | wsh.c:175-195 | one search step: this directory's `dir/cmd` if executable, else the rest of the search |
| Commands.FindInPath | wsh.c:157-200 | the strtok_r loop computes `SearchPath` |
| Commands.SearchHit | wsh.c:174-192 | an executable `dir/cmd` at the current component is the search's answer from there |
| Commands.SearchMiss | wsh.c:174-195 | an empty or non-executable component hands the search on to the text after its colon |
| Commands.ExampleOnlyColons | wsh.c:157-200 | a PATH of only colons is set but finds nothing |
| Commands.AliasTokens | wsh.c:540-542 | the alias value's tokens when it tokenizes, none when it has an unclosed quote, at most one per character plus one |
| Commands.Expansion | wsh.c:527-570 | expanded exactly when the first word is an alias; the result is the value's tokens, then the other words, cut to MAX_ARGS - 1 entries |
| Commands.Expanded | wsh.c:858-868 | the words run: the words as given when the first is not an alias, otherwise fewer than MAX_ARGS words that start the value's tokens followed by the other words |
| Commands.AppendWhileRoom | wsh.c:554-567 | one copy loop: appends words while fewer than MAX_ARGS - 1 are held, giving the first MAX_ARGS - 1 of the old words then the new ones |
| Commands.ExpandLeadingAlias | wsh.c:527-570 | the two copy loops compute `Expansion` |
| Commands.ExpansionSingleLevel | wsh.c:527-570 | only the first word is looked up, once: defining another alias does not change an expansion |
| Commands.EmptyAliasDropsHead | wsh.c:527-570 | an alias with an empty value removes the first word |
| Commands.ExpansionWellFormed | wsh.c:527-570 | expanding well-formed words with well-formed alias values gives well-formed words |
| Commands.AliasValueTokenizes | wsh.c:538-542 | a well-formed alias value always tokenizes, so expansion never meets an unclosed quote |
| Builtins.Exit | wsh.c:313-322 | keeps the session; asks to stop exactly when given no arguments, otherwise fails with the usage message |
| Builtins.Path | wsh.c:324-348 | succeeds exactly with zero or one argument; only PATH can change; no argument prints PATH and changes nothing; one argument becomes PATH; a failure changes nothing |
| Builtins.Cd | wsh.c:350-381 | only the directory can change; one argument succeeds exactly when chdir to it does, landing where chdir says; no argument succeeds only with HOME set, landing where chdir to HOME says; more arguments fail; a failure changes nothing |
| Builtins.Which | wsh.c:383-435 | never changes the session and always prints; succeeds exactly with one argument that is an alias, a builtin, an executable absolute or relative path, or a program found in PATH |
| Builtins.SpaceRun | wsh.c:457 | strtol's skip of leading white space: the longest run of isspace characters |
| Builtins.DigitRun | wsh.c:457 | strtol's digits: the longest run of decimal digits |
| Builtins.DispatchCodes | wsh.c:313-525 | only a bare `exit` asks to stop; every builtin ends with success, failure or the stop request, and none touches the status or the history |
| Builtins.FailureKeepsSession | wsh.c:313-525 | a builtin that fails changes nothing |
| Builtins.AliasThenWhich | wsh.c:383-514 | after `alias NAME = VALUE`, `which NAME` reports the alias first |
| Builtins.AliasWithoutValue | wsh.c:511-512 | `alias NAME =` defines NAME as the empty string |
| Builtins.AliasRejectsSeveralWords | wsh.c:493-497 | `alias NAME =` followed by any two or more words is a usage error that changes nothing |
| Builtins.AliasThenUnalias | wsh.c:484-525 | defining a new alias and removing it gives back the old session |
| Builtins.UnaliasThenWhich | wsh.c:383-525 | `unalias` always succeeds, and afterwards `which` no longer reports an alias |
| Builtins.WhichBuiltinFirst | wsh.c:396-401 | a builtin name that is not an alias is reported as a builtin |
| Builtins.WhichEmptyPath | wsh.c:410-434 | with an empty PATH, `which` prints the empty-path message and the not-found one |
| Builtins.PathThenPrint | wsh.c:324-348 | `path DIRS` sets PATH, and a bare `path` then prints DIRS |
| Builtins.CdHome | wsh.c:350-381 | a bare `cd` fails without HOME, and otherwise goes where chdir to HOME leads |
| Builtins.DigitsValue | wsh.c:457 | strtol's accumulation of decimal digits: a value below ten to the number of digits |
| Builtins.Saturate | wsh.c:457 | strtol's clamp: the result lies in the range of `long`, equals a value already in range, and is LONG_MAX above it and LONG_MIN below it |
| Builtins.StrToL | wsh.c:456-457 | the value lies within the range of `long`; no digits read means end 0 and value 0; otherwise the end follows a digit and stops at a non-digit or the string's end |
| Builtins.HistoryIndex | wsh.c:456-462 | an accepted index is a non-empty argument ending in a digit, with a value from 1 to LONG_MAX |
| Builtins.StrToLMinus | wsh.c:456-457 | a minus sign before the digits never gives a positive value |
| Builtins.History | wsh.c:437-482 | keeps the session; no argument lists every entry in order; a successful `history k` has a valid index k and prints entry k; more arguments fail |
| Builtins.Alias | wsh.c:484-514 | only the alias table changes; succeeds exactly for a bare `alias` or `NAME =` with at most one value word and a non-empty name; then NAME is the value (or empty) and other names keep theirs and none is lost; a failure prints the usage message and changes nothing |
| Builtins.Unalias | wsh.c:516-525 | only the alias table changes; succeeds exactly with one non-empty name, which is then absent; other names keep their values and none is added; a failure changes nothing |
| Builtins.Dispatch | wsh.c:871-889 | ends in success, failure or the stop request; never touches the status or the history; only `alias` and `unalias` change aliases, only `path` changes PATH, only `cd` changes the directory |
| Builtins.Decimal | wsh.c:457 | a number's decimal digits: non-empty, all digits |
| Builtins.DecimalValue | wsh.c:457 | the digits of k read back as k |
| Builtins.StrToLDecimal | wsh.c:457 | strtol reads a decimal numeral within LONG_MAX to its value and consumes all of it |
| Builtins.HistoryRecall | wsh.c:454-478 | `history k` for 1 <= k <= the length prints the k-th entry, oldest first |
| Builtins.HistoryPastEnd | wsh.c:463-468 | `history k` past the end fails with the invalid-argument message |
| Builtins.HistoryIndexShape | wsh.c:456-462 | an accepted argument is white space, at most one `+`, then only digits, and its value is the digits saturated at LONG_MAX |
| Builtins.HistoryIndexExamples | wsh.c:456-462 | `` ``, `0`, `-1` and `2x` are rejected; `+2` and ` 2` mean 2 |
| Builtins.DispatchKeepsAliasesWellFormed | wsh.c:484-525 | a builtin given well-formed words keeps every alias value well formed |
| Pipelines.BarFrom | wsh.c:605-608 | the next bar word or the end, with no bar word before it |
| Pipelines.SegmentsFrom | wsh.c:602-703 | there is always at least one segment |
| Pipelines.Segments | wsh.c:605-703 | the segments of a whole command line: at least one, bar-free and joining back to the words by `SegmentsJoin` |
| Pipelines.SegmentsJoin | wsh.c:589-703 | no segment holds a bar word, and joining the segments with bar words gives back the words (one more segment than bars) |
| Pipelines.SegmentsOfJoin | wsh.c:605-703 | round trip: splitting bar-free segments joined with bar words gives them back |
| Pipelines.EmptySegmentIff | wsh.c:610-648 | some segment is empty exactly when the words are empty, start or end with a bar word, or hold two bar words in a row |
| Pipelines.StageWords | wsh.c:620-655 | a segment's words as run: fewer than MAX_ARGS of them |
| Pipelines.StageWordsUnaliased | wsh.c:620-655 | a segment not starting with an alias runs its first MAX_ARGS - 1 words, so all of a shorter segment |
| Pipelines.PlanStage | wsh.c:610-698 | a refused segment prints one message; a ready stage runs the segment's expanded non-empty words, through an executable path it found, or as a builtin or an executable absolute or relative path |
| Pipelines.PlanStages | wsh.c:605-703 | a checked pipeline has one stage per segment |
| Pipelines.PlanFirstRefusal | wsh.c:605-703 | rejected exactly when some segment is refused, with the first refused segment's messages; otherwise stage i is segment i made ready |
| Pipelines.ShiftPastReady | wsh.c:605-703 | past a ready first segment, segment i is ready or first refused exactly when segment i - 1 of the rest is |
| Pipelines.WireOf | wsh.c:753-764 | stage i reads pipe i - 1 except the first, which keeps the shell's input, and writes pipe i except the last, which keeps the shell's output |
| Pipelines.Wiring | wsh.c:707-770 | one descriptor plan per stage, stage i's being `WireOf(i, n)` |
| Pipelines.WiringConnects | wsh.c:707-770 | pipe k is written only by stage k and read only by stage k + 1; the first stage reads and the last writes the shell's own descriptors |
| Pipelines.ChildStatus | wsh.c:772-791 | a builtin run as a pipeline child exits with 0 or 1 |
| Pipelines.PipelineStatus | wsh.c:815-840 | success exactly when the last stage exited with 0 or could not be waited for |
| Pipelines.Pipeline | wsh.c:587-841 | a pipeline ends in success or failure; a rejected pipeline fails with its messages and builds no pipes |
| Pipelines.PipelineResult | wsh.c:587-841 | a pipeline ends in success or failure, never asks to stop, and succeeds exactly when its last stage does |
| Pipelines.ExitAsLastStage | wsh.c:772-791 | `exit` as the last stage makes its child exit 1, so the pipeline fails |
| Pipelines.EmptySegmentRejects | wsh.c:635-648 | an empty segment reached after ready ones rejects the pipeline before any pipe or child |
| Pipelines.LeadingBarRejects | wsh.c:635-648 | a line starting with a bar word fails with the empty-segment message |
| Pipelines.ResolveStage | wsh.c:610-698 | one segment checked as the loop body does computes `PlanStage` |
| Pipelines.CheckSegment | wsh.c:608-698 | one pass of the segment loop at a bar or the end: a refusal is the whole plan's result, a ready stage extends the plan, and the segments read so far are a prefix of all segments |
| Pipelines.CheckSegments | wsh.c:602-703 | the segment loop computes `PlanStages` over all segments |
| Pipelines.RunPipeline | wsh.c:587-841 | run_pipeline computes `Pipeline`: the first refusal, or the wiring and the last stage's status |
| Shell.WaitStatus | wsh.c:246-258 | execute_one's status: success exactly on a normal exit with 0 |
| Shell.External | wsh.c:202-259 | a child command never changes the session and ends in success or failure |
| Shell.ExternalSearch | wsh.c:216-227 | empty PATH gives the empty-path failure, a miss gives not-found, and success means the first directory holding the program ran it with exit 0 |
| Shell.ExecuteOne | wsh.c:202-259 | execute_one computes `External` |
| Shell.Command | wsh.c:843-898 | ends in success, failure or the stop request, and never touches the status or the history |
| Shell.CommandCodes | wsh.c:843-898 | a command asks to stop exactly when it has no bar word and expands to a bare `exit`; a pipeline or a failed command keeps the session, and any change to the session comes from a builtin named by the expanded first word that succeeded, so an empty line or external command never changes it |
| Shell.AliasThenCommand | wsh.c:862-868 | after `alias NAME = VALUE`, `NAME ARGS` runs VALUE's tokens followed by ARGS |
| Shell.StripNewline | wsh.c:266-284 | the history text is the line less exactly one trailing newline, if any |
| Shell.LineStep | wsh.c:921-938 | stopping changes neither status nor history; the status stays or becomes success or failure; the history stays or gains the line less its newline |
| Shell.LineStepEffects | wsh.c:925-976 | an unclosed quote sets the status to failure; a blank line does nothing; the loop stops exactly on an expanded bare `exit`, changing nothing |
| Shell.LineStepRecords | wsh.c:925-938 | any other command, failed or not, is added to the history once, and its code becomes the status |
| Shell.PipelineLine | wsh.c:853-854 | a pipeline line never stops the shell and changes only the status and the history |
| Shell.LineStepKeepsAliasesWellFormed | wsh.c:925-938 | alias values stay well formed from turn to turn |
| Shell.CommandKeepsAliasesWellFormed | wsh.c:843-898 | a command given well-formed words keeps alias values well formed |
| Shell.Script | wsh.c:942-988 | the result is the starting status, success or failure |
| Shell.ScriptStatus | wsh.c:942-988 | starting from success or failure, the script's result is success or failure: the stop request is never the result |
| Shell.ExitKeepsStatus | wsh.c:962-969 | `exit` returns the status of the command before it |
| Shell.UnclosedQuoteThenExit | wsh.c:942-988 | the script `echo 'oops` then `exit` ends with status 1 |
| Shell.Wsh.constructor | wsh.c:990-999 | main's setup: success status, no aliases, empty history with capacity 16, PATH `/bin` |
| Shell.Wsh.AddHistory | wsh.c:266-284 | history_add_raw_line appends the line without its trailing newline |
| Shell.Wsh.RunCommand | wsh.c:843-898 | run_command moves the globals as `Command` says and returns its code and messages |
| Shell.Wsh.HandleLine | wsh.c:923-938 | one turn of the read loop moves the globals as `LineStep` says |
| Shell.Wsh.RunScript | wsh.c:942-988 | batch_main's loop returns `Script` of the lines |

## Left out

- fork, execv, pipe, dup2, close and waitpid are not carried out.
  - A stage's or command's wait status is the oracle `Env.run`.
  - A builtin run as a pipeline child reports `Exited(0)` or `Exited(1)`.
  - The data that flows through the pipes is not modelled.
  - A failure of pipe, fork or dup2 is not modelled. Each is a system-call
    error the model has no input for.
- What is printed is a list of message tags (`Msg`), not the message text.
  Output written by a child is not modelled.
- Each alias-table printout is one `AliasTable` tag. `hash_map.c` is not
  part of this model, so the alias table is a Dafny `map` and its sorted
  printout is not modelled.
- Allocation failures are not modelled: strdup, malloc, calloc or realloc
  returning NULL, and `clean_exit`. Freeing memory is not modelled either,
  and neither is `da_free`.
- da_put doubles a `size_t` capacity. The model's capacity is unbounded, so
  wrap-around is not modelled.
- `DynamicArrays.DynamicArray.Put` requires a positive capacity. The source
  passes 16, and doubling zero would stay zero.
- fgets reads at most `MAX_LINE - 1` characters per line. `MAX_LINE` is not
  part of this model, and the model reads whole lines.
- C strings stop at a NUL character. The model's strings do not.
- main's choice between interactive and batch mode by argument count is not
  modelled. The usage error for too many arguments is not modelled either.
- The prompt and the fopen/ferror handling of batch_main are not modelled.
  `Script` models both loops: interactive_main reaching end of input, and
  batch_main. In both, main returns `rc`.
- Script: interactive_main's read error is not modelled. When fgets fails
  with `ferror`, the loop sets `rc` to 1 and ends (wsh.c:911-918). `Script`
  and `Wsh.RunScript` treat every end of input as a clean end, because the
  model has no input for a failed read.
- `cd`'s change of directory is the oracle `Env.chdir`, and `HOME` is
  `Env.home`. `access(X_OK)` is `Env.executable`.
- `setenv` failure in `path` is not modelled.
- `PATH` is always set, because main sets it. An unset `PATH` is therefore
  not modelled.
- Parsing an alias value can hit an unclosed quote, and `wsh_warn` would
  then set `rc`. `Shell.Wsh` keeps every alias value well formed, so this
  cannot happen in a reachable state. `Command` does not model that `rc`
  update.
- `Pipelines.PlanDefined`, `Pipelines.StageDefined`, `Commands.ExpansionFits`
  and `Shell.StepDefined` are preconditions. They exclude inputs on which
  the source writes past a fixed-size array or passes a null name. The
  source does not check for these inputs.
