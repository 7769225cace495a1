# ColabFold workflow task, in Dafny

This project models the workflow task `mine_inference_amber` and its two helpers
`_fmt_dir` and `handle_error`, from `wf/__init__.py`. The task runs the
structure-prediction engine `colabfold_batch` on a protein request. Step by step:

1. It clamps the number of models into [1, 5] and the number of recycles into
   [1, 50]. A warning is shown for each value it changes.
2. It writes the request file `/sequence.fasta`. Given a FASTA file, it copies
   each non-blank line stripped and followed by a newline. Given a text block,
   it splits the block at "\n" and drops the blank lines. A line that holds a
   space and is not a `>` header is refused. If the first line is a header, the
   lines are written joined by "\n". Otherwise each line is written under a
   synthesised header `>sequence_<i>`. The index i counts from 0, as the code
   at wf/__init__.py:134-135 does, although the parameter's description at
   wf/__init__.py:277 speaks of `sequence_1`, `sequence_2`.
3. It refuses a request file with no lines or with an odd number of lines.
4. It builds the engine's command line and launches it through the shell.
5. It reads the engine's standard output line by line. Each stripped,
   non-empty line is checked against four error signatures (`handle_error`)
   and then echoed. The leftover standard output and the standard error are
   checked after the stream ends, then the exit status.
6. It moves the top-level `*.pdb` entries of the output directory to
   `pdb results` and the rest to `other`. It then computes the remote upload
   path from the chosen output directory (via `_fmt_dir`) or from the default
   root `latch:///ColabFold Outputs/`.

Modules, one file each:

- `Outcomes` (`outcomes.dfy`): the Option and Result wrappers, the clamping
  warnings, the four engine errors, and every failure the task can end with.
- `PyText` (`pytext.dfy`): the Python string operations the task relies on,
  as in the source's language:
  - `str.strip` with the full `str.isspace` set;
  - `split` and `join`;
  - `in` on strings;
  - `str(int)` and the integer read back;
  - line iteration with universal newlines.
- `Parameters` (`parameters.dfy`): the clamping.
- `Classify` (`classify.dfy`): `handle_error`, as an ordered first-match table
  of substring signatures.
- `Normalize` (`normalize.dfy`): writing the request file, and its line-count
  check.
- `Engine` (`engine.dfy`): the command list, the read loop as a method over a
  sequence of reads, and the checks after the stream.
- `Layout` (`layout.dfy`): `_fmt_dir`, the output location and the
  `pdb results`/`other` split.
- `Workflow` (`workflow.dfy`): the whole task.
  - `Pipeline` is its specification.
  - `MineInferenceAmber` is the step-by-step method proved equal to it.
  - The lemmas state what the task promises end to end.

The imperative parts of the task are methods, each proved equal to a
specification function:
- the clamping;
- the file copy loop;
- the filter that builds `broken`;
- the loop that looks for a space;
- the numbered write loop;
- the list `extend`;
- the `while True` read loop with its two exits;
- the loop over the glob results.

The filesystem, the subprocess and the user-interface messages are parameters
or results. A FASTA file is given by its content. The engine's behaviour is an
`EngineRun`, which holds:
- the sequence of reads;
- what `communicate()` returns;
- the exit status.

The engine's output directory is the set of paths it leaves, relative to that
directory.

Two details of the code shape the model:
- The engine's standard error is a separate pipe, checked only after
  `communicate()` (`wf/__init__.py:190-195`, `210-218`).
- A FASTA file's lines, headers included, are stripped at both ends
  (`wf/__init__.py:112-114`).

The request file is read back with universal newlines, while a text block is
split only at "\n". A "\r" followed by more text on its line therefore becomes
an extra line break when the file is read back, so such a block can fail the
line-count check. For example, the untagged block "AB\rCD" is written as a
header and one line, but reads back as three lines
(`Normalize.LoneCarriageReturnSplits`). A "\r" that ends a line instead merges
with the "\n" written after it, and adds no line (`PyText.CrlfLineEnd`). The read-back lemmas about
text blocks are stated for blocks without carriage returns.

## Model

| member | source | states |
|---|---|---|
| Parameters.Clamp | wf/__init__.py:69-105 | the clamped value lies in [lo, hi]; an in-range value is unchanged; a value below (above) the range becomes lo (hi) |
| Parameters.ClampWarningsExact | wf/__init__.py:69-105 | each of the four warnings is shown exactly when its bound was crossed; at most one warning per parameter, the models' before the recycles' |
| Parameters.ClampParameters | wf/__init__.py:69-105 | the counts end in [1,5] and [1,50], in-range counts are kept, the warnings are those of the clamping, and warnings are empty iff nothing changed; clamping has no failure outcome |
| Classify.FirstMatch | wf/__init__.py:20-56 | the index returned is of the earliest table entry whose signature occurs in the output; none is returned iff no signature occurs |
| Classify.HandleError | wf/__init__.py:20-56 | returns normally iff none of the four signatures is a substring; otherwise the error reported is that of the first signature, in the source's order, that occurs |
| Classify.HandleErrorWitness | wf/__init__.py:20-56 | every error reported is the error of some signature in the table |
| PyText.Strip | wf/__init__.py:113-114 | `strip()` yields the empty string exactly for blank text |
| PyText.StripIdempotent | wf/__init__.py:113-114 | stripping twice is stripping once |
| PyText.StripContainsOnly | wf/__init__.py:201-207 | whatever the stripped line holds, the line itself holds |
| PyText.StripKeeps | wf/__init__.py:201-207 | stripping a line keeps every signature it holds (signatures neither start nor end with whitespace) |
| PyText.JoinSplit | wf/__init__.py:122 | joining the pieces of `split("\n")` with "\n" gives the text back |
| PyText.SplitJoin | wf/__init__.py:131-132 | splitting a join at its separator returns the pieces when none holds the separator |
| PyText.IntRoundTrip | wf/__init__.py:172-175 | reading back `str(n)` as a decimal integer gives n |
| PyText.DecimalUnique | wf/__init__.py:135 | `str(n)` is the only decimal without a leading zero that reads back as n |
| PyText.LineCount | wf/__init__.py:137-138 | counting the lines of a file gives 0 exactly for an empty file, and never more than its number of characters |
| PyText.CrlfLineEnd | wf/__init__.py:137-138 | a "\r\n" pair is read as a single line break |
| PyText.ReadTerminated | wf/__init__.py:137-138 | for lines holding neither "\n" nor "\r", reading back lines each written with "\n" yields exactly those lines |
| PyText.ReadJoined | wf/__init__.py:137-138 | for non-empty lines holding neither "\n" nor "\r", reading back lines joined by "\n" counts exactly as many lines |
| Normalize.Cleaned | wf/__init__.py:112-114 | keeps at most as many lines, none of them empty |
| Normalize.CleanedStripped | wf/__init__.py:112-114 | every line kept is in stripped form |
| Normalize.CleanedAppend | wf/__init__.py:112-114 | the cleaning works line by line in order: a blank line is dropped, any other is kept stripped |
| Normalize.WriteFromFile | wf/__init__.py:110-114 | the copy loop writes the stripped non-blank lines of the file, in order, each followed by "\n" |
| Normalize.FileRequestLines | wf/__init__.py:110-138 | the copy reads back as exactly the cleaned lines, each with its "\n", so its line count is the number of non-blank input lines |
| Normalize.Broken | wf/__init__.py:122-123 | `broken` holds exactly the lines of the block that are not blank, each non-empty and without "\n" |
| Normalize.NonBlank | wf/__init__.py:123 | a line is kept iff it is a line of the input that is not blank; kept lines are unchanged |
| Normalize.NonBlankAppend | wf/__init__.py:123 | the filter keeps the input's order |
| Normalize.KeepNonBlank | wf/__init__.py:123 | the list comprehension computes the filter |
| Normalize.FindSpaceRejected | wf/__init__.py:124-130 | the loop finds a line to refuse iff some line holds a space and is not a header |
| Normalize.TextSpacesRefused | wf/__init__.py:122-130 | a text block is refused for spaces iff one of its non-blank lines holds a space and does not start with ">" |
| Normalize.TextBlankFails | wf/__init__.py:122-131 | a text block fails at `broken[0]` (IndexError) iff it is blank |
| Normalize.SequenceHeader | wf/__init__.py:135 | the header for line i is `>sequence_` followed by digits without a leading zero that read back as i; it starts with ">" and holds no line break |
| Normalize.SequenceHeaderExact | wf/__init__.py:135 | the header for line i is exactly `>sequence_` + `str(i)`, counting from 0 |
| Normalize.SequenceHeadersDistinct | wf/__init__.py:134-135 | different lines get different headers |
| Normalize.NumberedLines | wf/__init__.py:134-135 | n lines become 2n: header i at position 2i, the i-th line unchanged (unstripped) at 2i+1 |
| Normalize.WriteNumbered | wf/__init__.py:134-135 | the write loop writes each numbered line followed by "\n" |
| Normalize.WriteFromText | wf/__init__.py:116-135 | the text path writes the request the text path's specification gives, or fails as it does |
| Normalize.TextRequest | wf/__init__.py:122-135 | the text path fails only for a refused space or a blank block |
| Normalize.TaggedTextJoined | wf/__init__.py:131-132 | a header-tagged block is written as its non-blank lines, unchanged and in order, joined by "\n" with no final newline |
| Normalize.TaggedTextLines | wf/__init__.py:131-138 | for a block without carriage returns, a header-tagged block reads back as one line per non-blank line |
| Normalize.UntaggedTextLines | wf/__init__.py:133-138 | for a block without carriage returns, an untagged block of n lines reads back as 2n lines: `>sequence_i` then the i-th line |
| Normalize.WriteRequest | wf/__init__.py:109-135 | the file path when a file is given, else the text path, else a failure for missing input |
| Normalize.Request | wf/__init__.py:109-135 | a given FASTA file is always written; every failure of this step is an input failure |
| Normalize.CheckRequest | wf/__init__.py:137-158 | accepts iff the line count is positive and even; no lines fails with the empty-input error, an odd count with the unpaired-line error |
| Normalize.FileAccepted | wf/__init__.py:110-158 | a copied file is accepted iff it has a positive even number of non-blank lines, and is empty iff it has none |
| Normalize.UntaggedTextAccepted | wf/__init__.py:133-158 | for a block without carriage returns, an untagged block that passes the space check is always accepted, with 2n lines |
| Normalize.LoneCarriageReturnSplits | wf/__init__.py:122-158 | an untagged one-line block holding a "\r" followed by more text (and no other line break or space) is written as a header and one line, but reads back as three lines and fails the line-count check with the unpaired-line error |
| Normalize.TaggedTextAccepted | wf/__init__.py:131-158 | for a block without carriage returns, a tagged block is accepted iff it has an even number of non-blank lines |
| Engine.Command | wf/__init__.py:166-186 | the list starts with the program, input and output paths; holds `--amber` and `--use-gpu-relax`; the flags `--num-models`, `--num-recycle`, `--data` and `--host-url` are followed by the counts and the fixed service values; `--templates` is present iff a template directory is given, and `--custom-template-path` is followed by it |
| Engine.CommandCounts | wf/__init__.py:172-175 | the argument after `--num-models` (`--num-recycle`) reads back as the model (recycle) count |
| Engine.HostUrlUnbroken | wf/__init__.py:178-179 | the service address holds no space |
| Engine.CommandLine | wf/__init__.py:189 | the words are joined by spaces into one shell line, and when no word holds a space, splitting that line at spaces gives the words back |
| Engine.ShellWords | wf/__init__.py:189-195 | when the template path holds no space, splitting the joined command at spaces gives back the argument list the shell receives |
| Engine.ClassifyRead | wf/__init__.py:201-207 | a read is quiet exactly when its stripped line is empty, and then carries whether the engine had exited; any other read carries its stripped line, and is a progress line exactly when `handle_error` returns on it, otherwise fatal with the kind `handle_error` raises |
| Engine.ReadFatalIff | wf/__init__.py:201-207 | a read is fatal exactly when its line holds a signature |
| Engine.StopAt | wf/__init__.py:197-204 | the loop stops at the first read that is fatal or that finds the engine finished; there is none before |
| Engine.EchoesMembers | wf/__init__.py:206-208 | a line is echoed iff some step before the stop is a progress line with that text |
| Engine.EchoesAppend | wf/__init__.py:197-208 | echoes keep stream order |
| Engine.EchoesClean | wf/__init__.py:201-208 | every echoed line is the strip of a read, non-empty, and has passed `handle_error` |
| Engine.StreamFault | wf/__init__.py:197-208 | the stream fails iff a fatal read occurs up to the stop, and then with the error of that read |
| Engine.AfterStream | wf/__init__.py:210-222 | after the stream the leftover output is checked, then the standard error, then the exit status; none fails iff no signature appears and the status is 0 |
| Engine.RunOutcome | wf/__init__.py:197-222 | a run succeeds iff the loop does not raise, `handle_error` returns on the leftover output and on the standard error, and the status is 0 |
| Engine.HandleErrorNoneIff | wf/__init__.py:20-56 | `handle_error` returns normally exactly for text that holds no signature |
| Engine.StreamFaultIff | wf/__init__.py:197-208 | the loop raises iff some line it reaches, up to and including the stop, holds a signature |
| Engine.RunSucceedsIff | wf/__init__.py:197-222 | a run succeeds iff no line the loop reaches, nor the leftover output, nor the standard error holds a signature, and the status is 0 |
| Engine.EchoedIff | wf/__init__.py:197-208 | a line is echoed iff it is the non-empty strip of a read before the stop on which `handle_error` returns |
| Engine.Monitor | wf/__init__.py:197-222 | the read loop echoes exactly the progress lines before the stop, each classified before it is echoed and none holding a signature, and ends as the run's outcome says |
| Engine.LeaveAtSignature | wf/__init__.py:206-207 | when the loop raises at read i, the lines echoed so far are the run's echoes and the run fails with that read's error |
| Engine.LeaveQuietly | wf/__init__.py:201-210 | when the loop breaks at an empty read once the engine has finished, or runs out of reads, the lines echoed are the run's echoes and the outcome is that of the checks after the stream |
| Engine.LaterStepsIgnored | wf/__init__.py:203-207 | once the loop has stopped, later steps change neither the stop, what was echoed nor the fault |
| Engine.LaterReadsIgnored | wf/__init__.py:203-207 | reads after a stop echo nothing and change no outcome |
| Engine.FaultEndsEchoes | wf/__init__.py:206-207 | when the stream fails, every echoed line is the strip of a read before the failing one |
| Engine.SignaturesSolid | wf/__init__.py:21-45 | no signature is empty or starts or ends with whitespace |
| Engine.SignatureLineFatal | wf/__init__.py:201-207 | a read holding a signature is fatal after stripping |
| Engine.FatalReadFails | wf/__init__.py:197-208 | a fatal read reached by the loop fails the run |
| Engine.NoSignatureEscapes | wf/__init__.py:197-218 | a signature in a line the loop reaches, in the leftover output or in the standard error always fails the run with an engine error |
| Engine.NonZeroExitFails | wf/__init__.py:220-222 | a non-zero status without any signature fails the run with that status and the standard error |
| Layout.FmtDir | wf/__init__.py:14-17 | drops the final "/" when there is one and otherwise keeps the path; an empty path fails (IndexError in the source) |
| Layout.FmtDirKeeps | wf/__init__.py:14-17 | a non-empty path without a trailing slash is returned unchanged |
| Layout.FmtDirDropsOne | wf/__init__.py:14-17 | exactly one trailing slash is dropped, whatever precedes it |
| Layout.FmtDirSlashIrrelevant | wf/__init__.py:14-17 | a directory named with or without one trailing slash gives the same path |
| Layout.OutputLocation | wf/__init__.py:234-238 | without a directory the path is the default root plus the run name; with a non-empty one it is `_fmt_dir(dir) + "/" + run_name`; it fails only for an empty directory; the path always ends with "/" + run name |
| Layout.OutputLocationSlashIrrelevant | wf/__init__.py:234-238 | a directory given with or without one trailing slash gives the same upload path, `dir + "/" + run_name` |
| Layout.TopEntryBelow | wf/__init__.py:230-233 | a path below a top-level directory belongs to that entry |
| Layout.PartitionExact | wf/__init__.py:224-233 | `pdb results` and `other` together hold every path, and no path is in both |
| Layout.PdbPlacement | wf/__init__.py:230-233 | each top-level `.pdb` file goes to `pdb results`; a `.pdb` file inside a directory whose name does not end in `.pdb` goes to `other` (the glob does not recurse) |
| Layout.Partition | wf/__init__.py:224-233 | the move loop puts exactly the paths of top-level `*.pdb` entries in `pdb results` and the rest in `other` |
| Workflow.Pipeline | wf/__init__.py:59-243 | the task's warnings are those of the clamping; nothing is launched without a request file, and nothing is echoed without a launch |
| Workflow.Launch | wf/__init__.py:166-238 | once launched, the task keeps the clamping warnings and the request, has the command line built from the clamped counts, echoes exactly the run's echoed lines, and fails, if at all, with the run's failure or for an empty output directory, never for its input |
| Workflow.MineInferenceAmber | wf/__init__.py:59-243 | the task, step by step, produces what its specification gives |
| Workflow.LaunchEngine | wf/__init__.py:166-238 | from the launch on, the task produces what its specification gives |
| Workflow.LaunchIffValidInput | wf/__init__.py:109-195 | the engine is launched iff the input is accepted; without a launch nothing is echoed |
| Workflow.SpacesStopEverything | wf/__init__.py:121-130 | a refused space ends the task before anything is written and before the engine is launched |
| Workflow.AfterStreamFailures | wf/__init__.py:197-222 | a run ends only with engine failures |
| Workflow.LaunchedCountsInRange | wf/__init__.py:69-189 | the launched command line carries in-range counts, the ones requested when those were in range |
| Workflow.SuccessIff | wf/__init__.py:109-238 | the task succeeds iff the request is accepted, no line the loop reaches, nor the leftover output, nor the standard error holds a signature, the engine exits with 0, and a given output directory is not empty |
| Workflow.SuccessLayout | wf/__init__.py:224-238 | on success every path is returned under exactly one of the two folders, and the upload path is the run name under the default root or under `_fmt_dir` of the chosen directory |

## Left out

- `ColabFold/colabfold/download.py` is not part of this model. It only downloads
  and unpacks weights.
- The subprocess itself is not modelled: `Popen`, the shell, the pipes and their
  concurrency. The run is an input: the sequence of reads, the bytes
  `communicate()` returns, and the exit status.
  - Because the leftover output is an input, the model does not tie it to the
    reads. Data already buffered by `readline()` may never reach
    `communicate()`.
- The read loop keeps reading once the engine has exited, until it reads an
  empty line. The model does not say whether that busy loop ends when end of
  file comes before the exit. The stream is finite by construction.
- The `process.stdout is None` exit (`wf/__init__.py:198-199`) cannot happen
  with a piped standard output, so it is not modelled.
- The `is not None` tests on what `communicate()` returns, and the `'unknown'`
  fallback, cannot happen for the same reason.
- UTF-8 decoding is not modelled: lines are already strings, and a decoding
  error is not modelled.
- The `message(...)` payloads and the `print` status lines are not modelled.
  Warnings and failures are datatype values. Echoed lines are the `echoed`
  sequence.
- Filesystem effects are not modelled: `mkdir`, `shutil.move` failures, and
  the resolution of the local path returned in the `LatchDir`.
- The output directory is a set of paths to files. Empty directories are not
  represented.
- `LatchDir`, `LatchFile`, the `@workflow` wrapper, the `LaunchPlan` presets and
  the interface metadata are not modelled. A remote directory is its remote path.
- Engine.ShellWords: states the shell's word splitting only for a template path
  without spaces. Quoting and other shell syntax are not modelled.
- Engine.Command: the template path is used as given. The normalisation that
  `Path(...)`/`str(...)` applies to it is not modelled.
- Python's `str.isspace` is modelled by its list of code points.
