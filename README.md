# Refinery: a verified model

The refinery is the merge-queue agent of one rig (a workspace) in the Gas Town
multi-agent system. Its manager keeps a small persisted record per rig (running
state, owner pid, start time, current merge request, statistics) and offers
four operations: `Status` (with a self-healing read), `Start`, `Stop` and
`Queue`. `Queue` lists the merge request being processed, then every worker
branch found on the `origin` remote that follows the naming convention
`polecat/<worker>[/<issue>]`, at consecutive positions, each with a coarse age
label.

This project models that core in Dafny and proves what it promises.

- `types.dfy` (`RefineryTypes`): the enumerations `State` and `MRStatus` with
  their stored names, and the records `Refinery`, `MergeRequest`,
  `RefineryStats` and `QueueItem`.
- `text.dfy` (`Text`): the Go string operations the core relies on
  (`strings.Split`, `strings.TrimSpace` with Go's `unicode.IsSpace`,
  `strings.Contains`, `strings.TrimPrefix`, and `%d` formatting), each with its
  defining properties.
- `age.dfy` (`Age`): `formatAge` on whole seconds.
- `branches.dfy` (`Branches`): `branchToMR` as an acceptor for the language of
  `^polecat/([^/]+)(?:/(.+))?$`, and the parsing of `git branch -r` output
  done by `discoverWorkBranches`, as a function and as the looping method.
- `lifecycle.dfy` (`Lifecycle`): `loadState`, `saveState`, `Status`, `Start`
  and `Stop` as functions from the state file before a call to the reply, the
  state file after it and the pid interrupted; the properties that span
  several calls are lemmas about these functions.
- `manager.dfy` (`RefineryManager`): the `Manager` class, whose `file` field is the
  state file. Its methods perform the load-change-save sequences of the source
  and are proved equal to the `Lifecycle` functions. `Queue` builds its items
  as the source does, and its result is proved equal to `QueueView`, whose
  layout is proved separately.
- `wrappers.dfy` (`Wrappers`): `Option` and `Result`.

The state file is a value of `StateFile`: `Missing`, `Unreadable`,
`Undecodable` or `Stored(record)`. Whether a process exists is a set `live` of
pids, the caller's pid is `self`, the clock is `now` in whole seconds, and
whether a write succeeds is `writeOk`. These are all parameters. The pids that
`Stop` interrupts are recorded in the ghost field `interrupts`.

## Model

| member | source | states |
|---|---|---|
| RefineryTypes.ParseState | internal/refinery/types.go:6-18 | a stored name is read as a state only if it is that state's name |
| RefineryTypes.StateNamesRoundTrip | internal/refinery/types.go:9-18 | each state's name reads back as that state; exactly `stopped`, `running` and `paused` name a state |
| RefineryTypes.ParseMRStatus | internal/refinery/types.go:74-92 | a stored name is read as a status only if it is that status's name |
| RefineryTypes.MRStatusNamesRoundTrip | internal/refinery/types.go:77-92 | each status's name reads back as that status; exactly the five names `pending`, `processing`, `merged`, `failed` and `skipped` name a status |
| Lifecycle.Load | internal/refinery/manager.go:44-63 | a missing file gives a stopped record for the rig with pid 0, no start time, no current merge request, no last merge and zero statistics; a stored record is returned as it is; a read or decode failure is an error |
| Lifecycle.StatusStep | internal/refinery/manager.go:80-97 | a running record with pid > 0 whose process is gone is reported and written as stopped with pid 0, all else unchanged, and a failed write is ignored; every other record is reported unchanged and nothing is written; load errors are returned and nothing is written |
| Lifecycle.StartStep | internal/refinery/manager.go:99-129 | AlreadyRunning exactly when the record is running with pid > 0 and that process exists, and then nothing is written; otherwise the record is written as running since `now` under the caller's pid, all else unchanged; a failed write is returned; the background call then returns no error and the foreground call serves |
| Lifecycle.StopStep | internal/refinery/manager.go:131-154 | NotRunning exactly when the record is not running (paused included), and then nothing is written and nobody is interrupted; otherwise the recorded pid is interrupted exactly when it is > 0 and not the caller's, and the record is written as stopped with pid 0, all else unchanged |
| Lifecycle.Save | internal/refinery/manager.go:65-78 | a successful write is a full overwrite: loading afterwards gives back exactly the saved record; a failed write leaves the file as it was |
| Lifecycle.FreshRig | internal/refinery/manager.go:44-63 | with no state file, Status reports the fresh stopped record and writes nothing, and Stop fails with NotRunning |
| Lifecycle.StartTwiceRejected | internal/refinery/manager.go:102-119 | after a successful Start by a live process, a second Start reports AlreadyRunning and leaves the file as the first Start wrote it |
| Lifecycle.StartStopStart | internal/refinery/manager.go:102-154 | Start, Stop, Start succeeds: Stop interrupts the starter unless it stops itself, and the second Start records the new start time and the starter's pid |
| Lifecycle.StatusIdempotent | internal/refinery/manager.go:80-97 | after a successful Status, reading the file gives the reported record, and Status again reports it and writes nothing |
| Lifecycle.OperationsKeepConsistent | internal/refinery/manager.go:88-153 | Status, Start by a process with a positive pid, and Stop keep the invariant "stopped means pid 0, running means pid > 0" |
| Lifecycle.OperationsKeepHistory | internal/refinery/manager.go:88-153 | whatever Status, Start or Stop writes keeps the rig name, the current merge request, the last merge time and the statistics; Status and Stop also keep the start time |
| Lifecycle.ProcessExistsAsWritten | internal/refinery/manager.go:262-270 | `processExists` as written reports no pid as alive, whatever the pid |
| Lifecycle.StatusAsWritten | internal/refinery/manager.go:80-97 | with `processExists` as written, Status reports every running record with a positive pid as stopped with pid 0, and reports a running record with pid 0 unchanged, writing nothing |
| Lifecycle.StartTwiceAsWritten | internal/refinery/manager.go:261-270 | with `processExists` as written, a second Start by the same live process succeeds as well |
| RefineryManager.Manager.constructor | internal/refinery/manager.go:31-37 | a manager for a rig, over its state file, with nobody interrupted yet |
| RefineryManager.Manager.LoadState | internal/refinery/manager.go:44-63 | the method's result is `Load` of the current file |
| RefineryManager.Manager.SaveState | internal/refinery/manager.go:65-78 | a successful write replaces the file with the record; a failed one leaves it and returns the error |
| RefineryManager.Manager.Status | internal/refinery/manager.go:80-97 | reply and new file are those of `StatusStep` |
| RefineryManager.Manager.Start | internal/refinery/manager.go:99-129 | reply and new file are those of `StartStep` |
| RefineryManager.Manager.Stop | internal/refinery/manager.go:131-154 | reply and new file are those of `StopStep`, and the pid interrupted, if any, is appended to `interrupts` |
| RefineryManager.Manager.Queue | internal/refinery/manager.go:155-197 | a load error is returned; otherwise the items are `QueueView` of the current merge request and the accepted discovered branches, an empty queue being an empty list and not an error |
| RefineryManager.QueueView | internal/refinery/manager.go:170-196 | the reference list Queue builds: one item more than the accepted branches when there is a current merge request, none more otherwise (its layout is QueueViewLayout) |
| RefineryManager.BuildQueue | internal/refinery/manager.go:169-196 | the loop appends the current merge request, then each accepted branch with the next position, and yields `QueueView` |
| RefineryManager.NumberedAt | internal/refinery/manager.go:183-193 | the j-th numbered item holds the j-th accepted merge request at position `first + j` and its age |
| RefineryManager.QueueViewLayout | internal/refinery/manager.go:169-196 | the queue has one item more than the accepted branches when there is a current merge request, none more otherwise; the current one is item 0 at position 0; the accepted ones follow in discovery order at positions 1, 2, ...; each item's age is `formatAge` of its creation time |
| RefineryManager.QueueViewAppend | internal/refinery/manager.go:183-193 | an accepted branch is added at the end with the next position |
| RefineryManager.QueuePositions | internal/refinery/manager.go:169-196 | item k has position k with a current merge request and k + 1 without: no gaps and no repeats |
| RefineryManager.CurrentNotDeduplicated | internal/refinery/manager.go:183-193 | a discovered branch that is the current merge request's branch is listed again after it |
| RefineryManager.QueueExample | internal/refinery/manager.go:155-197 | a current merge request and the branches `polecat/w1/iss1` and `polecat/w2` give three items at positions 0, 1, 2 with those workers and issues |
| Branches.NewMR | internal/refinery/manager.go:239-247 | the merge request built for an accepted branch is pending and has no error detail |
| Branches.BranchToMR | internal/refinery/manager.go:224-248 | an accepted name is `polecat/` + worker, or that + `/` + issue, with a non-empty slash-free worker and a newline-free issue, and the merge request carries the name, the worker, the issue (`""` when absent), target `main`, time `now` and status pending |
| Branches.BranchToMRComplete | internal/refinery/manager.go:227-236 | every valid worker and issue is accepted, with exactly those segments |
| Branches.BranchToMRRejects | internal/refinery/manager.go:227-231 | a name is rejected exactly when it is not the work-branch name of any valid worker and issue |
| Branches.WorkBranchNameInjective | internal/refinery/manager.go:227 | a name has at most one reading as worker and issue |
| Branches.BranchWithIssueExample | internal/refinery/manager.go:226-236 | `polecat/w1/iss1` gives worker `w1` and issue `iss1` |
| Branches.BranchWithoutIssueExample | internal/refinery/manager.go:226-236 | `polecat/w2` gives worker `w2` and the empty issue |
| Branches.IssueWithSlashExample | internal/refinery/manager.go:227 | the issue runs to the end of the name, slashes included |
| Branches.BranchToMRRejectsExamples | internal/refinery/manager.go:227-231 | a name without the prefix, an empty worker or an empty issue after a slash is rejected |
| Branches.BranchEntriesAppend | internal/refinery/manager.go:211-219 | parsing distributes over concatenation of lines, so entries keep the order of their lines |
| Branches.BranchEntryOrigin | internal/refinery/manager.go:211-219 | every entry is the trimmed, prefix-stripped text of a kept line at an index no smaller than its own |
| Branches.LineEntryClean | internal/refinery/manager.go:213-216 | an entry never contains `->`, and contains no newline when its line has none |
| Branches.DiscoveredBranchesClean | internal/refinery/manager.go:199-222 | no discovered name contains a newline or `->` |
| Branches.KeepsLine | internal/refinery/manager.go:213-214 | a line is kept when its trimmed text is non-empty and has no `->`; a kept line is not all whitespace (so blank lines, such as the piece after the final newline, are dropped) and contains no `->` anywhere |
| Branches.KeepsLineExactly | internal/refinery/manager.go:213-214 | a raw line is kept exactly when it is not all whitespace and contains no `->` |
| Branches.TrimmedArrowInLine | internal/refinery/manager.go:213-214 | an `->` in the trimmed text is an `->` in the line |
| Branches.ArrowSurvivesTrim | internal/refinery/manager.go:213-214 | trimming never removes an `->`, so testing the trimmed text drops every line that contains one |
| Branches.LineEntry | internal/refinery/manager.go:213-216 | a line's entry is its trimmed text, with one leading `origin/` removed when present |
| Branches.BranchEntries | internal/refinery/manager.go:211-219 | the entries of the kept lines, in order: no more entries than lines (order and origin are stated by BranchEntriesAppend and BranchEntryOrigin) |
| Branches.DiscoveredBranches | internal/refinery/manager.go:207-221 | a failed git command gives no branches and no error; otherwise the output is split on newlines and parsed line by line |
| Branches.RemoteLineEntry | internal/refinery/manager.go:213-217 | an indented line `origin/<name>` contributes `<name>`, and is kept when the name has no `->` |
| Branches.NoArrowWithoutGreater | internal/refinery/manager.go:214 | a name without `>` contains no `->` |
| Branches.WorkBranchLineKept | internal/refinery/manager.go:211-217 | a worker's branch listed as an indented `origin/polecat/<worker>[/<issue>]` line, dashes included, is kept and contributes exactly its own name, when it has no `>` and no trailing whitespace |
| Branches.BareRemotePrefix | internal/refinery/manager.go:213-217 | a line holding only `origin/` is kept and contributes the empty name |
| Branches.HeadLineDropped | internal/refinery/manager.go:214 | the line `  origin/HEAD -> origin/main` is dropped |
| Branches.DiscoverWorkBranches | internal/refinery/manager.go:199-222 | the loop yields `DiscoveredBranches` of the git outcome, and nothing when the command failed |
| Branches.AcceptedMRs | internal/refinery/manager.go:183-193 | at most one merge request per branch, each pending, created at `now` and without error detail |
| Branches.AcceptedMRsAppend | internal/refinery/manager.go:183-193 | accepting distributes over concatenation, so merge requests keep discovery order |
| Branches.NoDeduplication | internal/refinery/manager.go:183-193 | a branch discovered twice gives two merge requests |
| Age.FormatAge | internal/refinery/manager.go:273-286 | the label is at least six characters long and its fifth character from the end (the one before ` ago`) is the letter of the duration's bucket: `s` under a minute, `m` under an hour, `h` under a day, `d` otherwise; FormatAgeTruncates states the whole label |
| Age.FormatAgeTruncates | internal/refinery/manager.go:272-286 | the label is the count of whole units of the duration's bucket (seconds under a minute, minutes under an hour, hours under a day, days otherwise) followed by the unit letter and ` ago`; minutes are 1-59, hours 1-23, days at least 1 |
| Age.FormatAgeSecondsExample | internal/refinery/manager.go:276-277 | 45 seconds is `45s ago` |
| Age.FormatAgeHoursExample | internal/refinery/manager.go:282-283 | 90 minutes is `1h ago` |
| Age.FormatAgeDaysExample | internal/refinery/manager.go:285 | three days is `3d ago` |
| Age.FormatAgeFutureExample | internal/refinery/manager.go:276-277 | a creation time 5 seconds in the future is `-5s ago` |
| Text.Split | internal/refinery/manager.go:212 | `strings.Split` gives at least one piece, none containing the separator |
| Text.JoinSplit | internal/refinery/manager.go:212 | joining the pieces with the separator gives back the text |
| Text.SplitJoin | internal/refinery/manager.go:212 | splitting a join of separator-free pieces gives back the pieces |
| Text.Contains | internal/refinery/manager.go:214 | `strings.Contains`: the empty string occurs in every text and nothing longer than the text occurs in it; ContainsAt and ContainsWitness show it holds exactly when the piece starts at some position |
| Text.ContainsAt | internal/refinery/manager.go:214 | a piece found at a position is contained |
| Text.ContainsWitness | internal/refinery/manager.go:214 | a contained piece starts at some position of the text |
| Text.IsSpace | internal/refinery/manager.go:213 | Go's `unicode.IsSpace`, which `strings.TrimSpace` uses: among ASCII characters exactly tab, newline, vertical tab, form feed, carriage return and space; beyond ASCII, U+0085, U+00A0 and the Unicode space separators |
| Text.TrimSpace | internal/refinery/manager.go:213 | a non-empty result starts and ends with a non-whitespace character |
| Text.TrimSpaceEmpty | internal/refinery/manager.go:213-214 | trimming gives the empty string exactly when the text is all whitespace |
| Text.TrimSpacePadded | internal/refinery/manager.go:213 | trimming removes exactly the surrounding whitespace |
| Text.TrimSpaceIdempotent | internal/refinery/manager.go:213 | trimming twice is trimming once |
| Text.TrimSpaceChars | internal/refinery/manager.go:213 | trimming introduces no character |
| Text.TrimPrefix | internal/refinery/manager.go:216 | `strings.TrimPrefix` removes the prefix when present and otherwise leaves the text |
| Text.IntToDecimal | internal/refinery/manager.go:277 | `%d` of an integer is non-empty and starts with `-` exactly when the integer is negative |
| Text.IntToDecimalRoundTrip | internal/refinery/manager.go:277 | `%d` loses nothing: the numeral reads back as the same integer, negative ones included |
| Text.NatToDecimalDigits | internal/refinery/manager.go:277 | a numeral is a non-empty string of digits without a leading zero |

## Left out

- File I/O and JSON (`os.ReadFile`, `os.MkdirAll`, `json.MarshalIndent`, `os.WriteFile`, `json.Unmarshal`) are replaced by the `StateFile` value. A successful write stores the record exactly; a failed write leaves the file as it was, whereas the real system could leave a partial file. No JSON round trip is modelled.
- Stored state and status strings other than the named constants cannot be represented: a `Refinery` always holds one of the three states.
- Lifecycle.StartTwiceRejected: assumes a process probe that works. The probe as written cannot report a live process, as the Findings table shows.
- `processExists`, `os.FindProcess` and `proc.Signal` are replaced by the set `live` and the ghost record `interrupts`. On Unix, `FindProcess` always succeeds, so every interrupt that the guard allows is recorded. Whether the signal is delivered is not modelled.
- Running `git` is the `GitOutcome` parameter: a failure, or the text of its standard output. The working directory and the branch pattern given to git are not modelled. A failed `git` command gives no branches and no error, and the model does the same.
- The foreground processing loop `run` only prints and blocks forever. It is the `Serving` reply of `Start`.
- Wall-clock time is the integer `now`, in seconds. `branchToMR` reads the clock twice (for the ID and for `CreatedAt`), and `formatAge` reads it again; the model uses one instant for all of these, so a discovered branch is aged `0s ago`.
- Age.FormatAgeTruncates: states the label for whole seconds only. Sub-second durations and the float conversions `d.Seconds()`, `d.Minutes()` and `d.Hours()/24` are not modelled.
- Go's 64-bit `int` and `time.Duration` are unbounded integers here; no overflow is modelled.
- The ID `mr-<worker>-<unix time>` is built with `%d` of `now`; its uniqueness is not claimed, since two branches of one worker get the same ID.
- `ErrNoQueue` is declared but never used. No deduplication, `Pause`/`Resume` or statistics update exists in the code, so none is modelled.
- The rig (`rig.Rig`), its path, and the state-file path `.gastown/refinery.json` are reduced to `rigName` and the `file` field.
- `fmt.Println` output is not modelled.

## Findings

| source | as written | input that shows it | evidently intended | confidence | as-written member | corrected member |
|---|---|---|---|---|---|---|
| internal/refinery/manager.go:261-270 | `processExists` probes with `proc.Signal(nil)`. Go's `Process.Signal` rejects any value that is not a `syscall.Signal` with "unsupported signal type" before asking the system, so the probe reports every pid as gone. As a result, `Start` never returns `ErrAlreadyRunning`, and `Status` marks every running record with a positive pid as stopped (a running record with pid 0 is reported as it is). | `Start(false)` twice from the same live process: the second call succeeds and overwrites the start time instead of returning `ErrAlreadyRunning` | send signal 0 (`syscall.Signal(0)`), so that a live process is reported as alive | not executed; follows from the documented behaviour of `os.Process.Signal` | Lifecycle.StartTwiceAsWritten | Lifecycle.StartTwiceRejected |
