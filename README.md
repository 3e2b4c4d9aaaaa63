# Rolling log file appender: a Dafny model

This project models the core of a time-rotating log writer written in Go. The
writer is a single byte-stream `Write` operation that switches to a new log
file when a rotation boundary (never, every minute, every hour, every day) is
crossed. Before switching it deletes the oldest log files beyond a retention
count.

The model covers two parts:

- **The rotation policy** (`rotation.go`), in `rotation.dfy`, module `Rotation`.
  Instants are whole epoch seconds in UTC. `NextDate` adds one step and rounds
  down with `RoundDate`. Minutely rounds to the minute. Hourly and Daily round
  to the hour: a daily boundary keeps the hour of day and is not moved to
  midnight.
- **The appender** (`rolling.go`):
  - `state.dfy`, module `State`. The `state` struct becomes the class
    `AppenderState`: constant configuration plus the mutable boundary
    register `nextDate`, where 0 means "no rotation". It holds
    `shouldRollover`, the compare-then-set `AdvanceDate`, `joinDate`,
    `createFile`, `prune_old_logs` (a method with the source's two loops) and
    `newState`. `Race` models callers that attempt `AdvanceDate` one after
    another.
  - `retention.dfy`, module `Retention`. The pure specification of what
    pruning selects: the candidate filter, the birth-time order that
    `sort.Slice` produces, and the oldest-first cut.
  - `appender.dfy`, module `Appender`. `RollingFileAppender` with `Write` and
    `refreshFile`, both proved against the pure step functions `WriteStep`
    and `Refresh`. The lemmas about a single write and about a sequence of
    writes are stated over those functions.

Everything the operating system decides comes in as a parameter (`Env`): the
clock, the directory listing (entries with name, directory flag, stat success
and optional birth time), which removals succeed, whether opening the new file
fails, and how many bytes the underlying write accepts. The formatted date
string is also a parameter. A file handle is identified by the name of the
file it was opened on. `written` records the bytes this appender appended to
each file.

Three behaviours of the source may be unexpected. The model keeps them as
written:

- An empty `Write` still rotates when the boundary has been reached
  (`Appender.EmptyWrite`).
- With a retention of one file, pruning selects the file that is still open,
  before its replacement is created. Every candidate is selected
  (`Retention.SingleRetentionSelectsAll`). For rotating kinds the file the
  appender opened passes the prefix and suffix filter
  (`State.JoinDateMatchesFilter`), so it is a candidate whenever its stat
  reports a birth time.
- `roundDate` has no midnight rounding for Daily (`Rotation.DailyIsNotMidnight`).

The register uses 0 as its "no rotation" sentinel. A rotating kind with a
clock at or after the epoch never computes 0 as its boundary
(`State.BoundaryIsNotSentinel`). It computes 0 exactly for clocks in
[-60, 0) (Minutely), [-3600, 0) (Hourly) and [-86400, -82800) (Daily)
(`State.SentinelCollision`), and an advance at such a clock stops rotation.
The model keeps that arithmetic unchanged.

## Model

| member | source | states |
|---|---|---|
| `Rotation.RoundDate` | rotation.go:43-53 | the result is aligned to the kind's unit (minute, or hour for Hourly and Daily) and is the largest aligned instant not after the date; the panic branch is excluded by requiring a rotating kind |
| `Rotation.NextDate` | rotation.go:26-41 | no boundary exactly for Never; otherwise an aligned boundary strictly after the current instant and at most one step later; `roundDate` is only reached for rotating kinds, so its panic is unreachable |
| `Rotation.RoundDateIdempotent` | rotation.go:43-52 | rounding an already rounded instant returns it unchanged, for each rotating kind |
| `Rotation.MinutelyBoundary` | rotation.go:29-47 | the Minutely boundary is a multiple of 60 in (t, t+60] |
| `Rotation.HourlyBoundary` | rotation.go:31-49 | the Hourly boundary is a multiple of 3600 in (t, t+3600] |
| `Rotation.DailyBoundary` | rotation.go:33-51 | the Daily boundary is t + 86400 with minutes and seconds zeroed: a multiple of 3600 in (t+82800, t+86400] with the same hour of day as t |
| `Rotation.DailyIsNotMidnight` | rotation.go:50-51 | a daily appender started at 01:00 next rotates at 01:00, not at midnight |
| `Retention.CandidatesExact` | rolling.go:163-189 | a file is a pruning candidate exactly when a directory entry is not a directory, matches the non-empty prefix and suffix, was stat'ed and has a birth time |
| `Retention.SortByBirth` | rolling.go:195-197 | the candidates are reordered (same multiset) into ascending birth time |
| `Retention.InsertSorted` | rolling.go:195-197 | inserting one file into a birth-ordered list keeps it ordered |
| `Retention.PruneCount` | rolling.go:191-199 | nothing is deleted when retention is 0 or there are fewer than maxFiles candidates; otherwise count - maxFiles + 1 are deleted, leaving maxFiles - 1 |
| `Retention.OldestAreDeleted` | rolling.go:191-204 | pruning splits the candidates into deleted and kept ones, every deleted file is born no later than every kept one, and the kept ones number maxFiles - 1 once pruning triggers |
| `Retention.SelectionOnlyCandidates` | rolling.go:146-204 | every name pruning selects belongs to a candidate entry, and nothing is selected when retention is 0 or the directory cannot be read |
| `Retention.SingleRetentionSelectsAll` | rolling.go:191-204 | with maxFiles = 1 every candidate is selected for removal |
| `Retention.RemovedExact` | rolling.go:199-204 | a name is removed exactly when it is selected and its removal succeeds; failures do not stop later removals |
| `State.JoinDate` | rolling.go:232-260 | for rotating kinds the name is prefix + date + suffix in every empty/non-empty combination; for Never it is prefix + suffix, or the date when both are empty |
| `State.RolloverDue` | rolling.go:213-225 | no rotation while the register holds 0; otherwise the stored boundary is returned exactly when now has reached it; `State.AppenderState.ShouldRollover` is this function applied to the register and, being a function, changes nothing |
| `State.Advance` | rolling.go:227-230 | the swap happens exactly when the register holds the expected value, and then the register holds NextDate(now), which is after now; otherwise it is unchanged |
| `State.LateCallersLose` | rolling.go:227-230 | once the register differs from the expected value, no further caller swaps and the register stays put |
| `State.OneWinnerPerCrossing` | rolling.go:75-81 | when callers that all reached the same boundary attempt the advance, exactly one swaps and the register ends at NextDate of the winner's instant |
| `State.BoundaryIsNotSentinel` | rolling.go:135-137 | for rotating kinds and a clock at or after the epoch the computed boundary is never the 0 sentinel |
| `State.SentinelCollision` | rolling.go:215-216 | the computed boundary is the 0 sentinel exactly when the clock lies in [-step, unit - step) |
| `State.JoinDateMatchesFilter` | rolling.go:247-256 | for rotating kinds the file name starts with the prefix and ends with the suffix, so it passes pruning's name filter |
| `State.AppenderState.constructor` | rolling.go:107-137 | a nil location becomes UTC, an empty date format becomes "20060102_15:04:05", and the boundary is NextDate(now), or 0 for Never |
| `State.AppenderState.AdvanceDate` | rolling.go:227-230 | the compare-then-set on the register, proved against Advance |
| `State.AppenderState.CreateFile` | rolling.go:207-211 | the opened file is the one named by JoinDate, unless opening fails, in which case that error is returned |
| `State.AppenderState.PruneOldLogs` | rolling.go:146-205 | the removals attempted are exactly the selection specified by PruneSelection, and those that succeed are exactly the successful subsequence |
| `State.NewState` | rolling.go:107-140 | construction fails exactly when no directory is configured and the working directory cannot be obtained; otherwise the defaults above hold |
| `Appender.Refresh` | rolling.go:52-73 | pruning runs first when retention is on; a failed open keeps the current file and contents; a successful open makes the JoinDate file current; other files are untouched |
| `Appender.WriteStep` | rolling.go:75-87 | the result is the underlying write's result unchanged; the accepted bytes are appended to the file current after the rotation check; no other file changes; the current file is the old one or the new JoinDate one |
| `Appender.NoRotationBeforeBoundary` | rolling.go:75-81 | before the boundary, or with no boundary, Write neither rotates nor prunes |
| `Appender.RotationAtCrossing` | rolling.go:52-81 | at a crossing the boundary moves past now, pruning runs, and the new file becomes current unless opening it fails, in which case the old file stays although the boundary has moved |
| `Appender.NoSecondRotation` | rolling.go:75-81 | after a rotating Write at now, a Write at any instant up to now does not rotate again |
| `Appender.EmptyWrite` | rolling.go:75-87 | an empty write returns 0 and adds no bytes anywhere, but still rotates at a crossing |
| `Appender.NeverUsesOneFile` | rolling.go:75-87 | a Never appender keeps one file for any sequence of writes, never prunes, and every accepted byte lands in that file in order |
| `Appender.Run` | rolling.go:75-87 | any sequence of writes preserves the appender's invariant: the current file is known and a Never appender has no boundary |
| `Appender.RollingFileAppender.RefreshFile` | rolling.go:52-73 | refreshFile on the object, proved against Refresh |
| `Appender.RollingFileAppender.Write` | rolling.go:75-87 | Write on the object, proved against WriteStep, keeping the object invariant |
| `Appender.RollingFileAppender.constructor` | rolling.go:44-47 | the appender starts on the first file with nothing written and nothing deleted |
| `Appender.New` | rolling.go:32-50 | construction fails exactly when the state cannot be built or the first file cannot be opened, returning that step's error; otherwise the state carries the configuration with its defaults and the first boundary, and the first file is the JoinDate name for the construction instant |

## Left out

- Concurrency: the read/write mutex and the atomic load and compare-and-swap are not modelled. The compare-and-swap becomes a sequential compare-then-set, and interleaving callers are modelled as a sequence of attempts (`State.Race`).
- Time zones, DST, calendar `AddDate` across zone changes, sub-second precision and 64-bit overflow of Unix seconds: instants are unbounded integers in UTC. `AddDate(0, 0, 1)` is 86400 seconds.
- `time.Format` and the date-format template: the formatted date is an opaque string input. The round trip from a file name back to its date is therefore not stated.
- `os.Getwd`, `os.OpenFile`, `os.ReadDir`, `times.Stat` and `os.Remove` are inputs: a result or an error, a listing, a removal outcome per name.
- `path.Join` is not modelled: pruned files are reported by entry name, not by joined path, and the directory is not part of the opened file's name.
- `RollingFileAppender.RefreshFile`: closing the old handle is not modelled. A close error is only printed and changes nothing the model observes.
- The `written` map is keyed by file name and is not cleared when pruning deletes a name. Deleting a file that is still open leaves its handle writable on the OS side, and the model does not capture that. Reopening a pruned name with `O_CREATE` starts an empty file, but the model appends to the bytes already recorded under the name. That can happen when the date format is coarser than the rotation period or the clock steps back.
- `Retention.SortByBirth`: `sort.Slice` may order files with equal birth times in any order. The model fixes one order. `OldestAreDeleted` holds for it, and the other orders satisfy the same statement.
- Diagnostics written to standard error are left out.
- A custom `Rotation` implementation passed through the configuration interface is left out. Only the four built-in kinds are modelled.
- A configuration whose `Rotation` is left nil (Go's zero value) makes `newState` panic when it calls `NextDate` on the nil interface (rolling.go:135). The model's `Config.rotation` always holds one of the four kinds, so that panic is not modelled.
