/**
 * The appender's state: its normalised configuration, the rotation boundary
 * register with its compare-and-swap advance, file naming, file creation and
 * retention pruning.
 *
 * The boundary register holds whole epoch seconds; 0 means "no rotation".
 * The atomic load and compare-and-swap of the source become a plain read and a
 * sequential compare-then-set; the race between writers is modelled by Race.
 */
module State {
  import opened Wrappers
  import opened Rotation
  import opened Retention

  /**
   * A time zone. It is recorded but affects no arithmetic of this model:
   * every instant, whatever the location, is computed as UTC.
   */
  datatype Location = UTC | Zone(name: string)

  /** An opaque I/O error from the environment. */
  datatype Error = Error(message: string)

  type uint32 = x: int | 0 <= x < 0x1_0000_0000

  /** The construction parameters; a missing time zone is Go's nil location. */
  datatype Config = Config(
    rotation: RotationKind,
    directory: string,
    filenamePrefix: string,
    filenameSuffix: string,
    timeLocation: Option<Location>,
    maxFiles: uint32,
    dateFormat: string)

  const DefaultDateFormat: string := "20060102_15:04:05"

  /**
   * The file name for a formatted date: prefix, date and suffix for rotating
   * kinds; for Never the date is left out unless prefix and suffix are both
   * empty, in which case the date alone names the file.
   */
  function JoinDate(rotation: RotationKind, prefix: string, suffix: string, dateStr: string): (name: string)
    ensures rotation != Never ==> name == prefix + dateStr + suffix
    ensures rotation == Never && |prefix + suffix| > 0 ==> name == prefix + suffix
    ensures rotation == Never && |prefix + suffix| == 0 ==> name == dateStr
  {
    if rotation == Never then
      if |prefix| > 0 && |suffix| > 0 then prefix + suffix
      else if |prefix| > 0 then prefix
      else if |suffix| > 0 then suffix
      else dateStr
    else
      if |prefix| > 0 && |suffix| > 0 then prefix + dateStr + suffix
      else if |prefix| > 0 then prefix + dateStr
      else if |suffix| > 0 then dateStr + suffix
      else dateStr
  }

  /**
   * shouldRollover's decision: nothing while the register holds the 0
   * sentinel; otherwise the stored boundary, exactly when `now` has reached it.
   */
  function RolloverDue(boundary: int, now: int): (r: Option<int>)
    ensures r.Some? <==> boundary != 0 && now >= boundary
    ensures r.Some? ==> r.value == boundary
  {
    if boundary == 0 then None
    else if now >= boundary then Some(boundary)
    else None
  }

  /**
   * AdvanceDate as a value: the swap happens exactly when the register holds
   * the expected boundary, and then it holds the next boundary after `now`;
   * otherwise the register is unchanged. Returns (swapped, new register).
   */
  function Advance(kind: RotationKind, boundary: int, now: int, expected: int): (r: (bool, int))
    requires kind != Never
    ensures r.0 <==> boundary == expected
    ensures r.0 ==> r.1 == NextDate(kind, now).value && r.1 > now
    ensures !r.0 ==> r.1 == boundary
  {
    var next := NextDate(kind, now).value;
    if boundary == expected then (true, next) else (false, boundary)
  }

  /**
   * Callers that all observed the boundary `expected` attempt AdvanceDate one
   * after another at the instants `nows`; the result is the number of callers
   * whose swap succeeded and the final register value.
   */
  function Race(kind: RotationKind, boundary: int, expected: int, nows: seq<int>): (nat, int)
    requires kind != Never
    decreases |nows|
  {
    if nows == [] then (0, boundary)
    else
      var (won, next) := Advance(kind, boundary, nows[0], expected);
      var (wins, last) := Race(kind, next, expected, nows[1..]);
      (wins + (if won then 1 else 0), last)
  }

  /** Once the register no longer holds the expected boundary, no caller swaps. */
  lemma {:induction false} LateCallersLose(kind: RotationKind, boundary: int, expected: int, nows: seq<int>)
    requires kind != Never && boundary != expected
    ensures Race(kind, boundary, expected, nows) == (0, boundary)
  {
    if nows != [] {
      LateCallersLose(kind, boundary, expected, nows[1..]);
    }
  }

  /**
   * Exactly one rotation per crossing: when every caller has reached the stored
   * boundary and uses it as the expected value, exactly the first one swaps,
   * and the register ends where a single caller would have left it.
   */
  lemma OneWinnerPerCrossing(kind: RotationKind, boundary: int, nows: seq<int>)
    requires kind != Never && |nows| > 0
    requires forall i :: 0 <= i < |nows| ==> nows[i] >= boundary
    ensures Race(kind, boundary, boundary, nows) == (1, NextDate(kind, nows[0]).value)
  {
    var (_, next) := Advance(kind, boundary, nows[0], boundary);
    assert next > nows[0] >= boundary;
    LateCallersLose(kind, next, boundary, nows[1..]);
  }

  /**
   * For rotating kinds and a clock at or after the epoch the next boundary is
   * never the 0 sentinel, so rotation cannot switch itself off.
   */
  lemma BoundaryIsNotSentinel(kind: RotationKind, now: int)
    requires kind != Never && now >= 0
    ensures NextDate(kind, now).value > 0
  {
  }

  /**
   * The exact clocks at which the computed boundary collides with the 0
   * sentinel: [-60, 0) for Minutely, [-3600, 0) for Hourly and
   * [-86400, -82800) for Daily. An advance at such a clock stops rotation.
   */
  lemma SentinelCollision(kind: RotationKind, now: int)
    requires kind != Never
    ensures NextDate(kind, now).value == 0 <==> -Step(kind) <= now < Unit(kind) - Step(kind)
  {
    var b := NextDate(kind, now).value;
    var u := Unit(kind);
    assert b == RoundDate(kind, now + Step(kind));
    assert b <= now + Step(kind) < b + u;
  }

  /**
   * For rotating kinds the file joinDate names carries the configured prefix
   * and suffix, so it passes the name filter of retention pruning.
   */
  lemma JoinDateMatchesFilter(kind: RotationKind, prefix: string, suffix: string, dateStr: string)
    requires kind != Never
    ensures HasPrefix(JoinDate(kind, prefix, suffix, dateStr), prefix)
    ensures HasSuffix(JoinDate(kind, prefix, suffix, dateStr), suffix)
  {
    var n := JoinDate(kind, prefix, suffix, dateStr);
    assert n == prefix + dateStr + suffix;
    assert n[..|prefix|] == prefix;
    assert n[|n| - |suffix|..] == suffix;
  }

  /** The `state` struct. Configuration is fixed at construction; only the boundary changes. */
  class AppenderState {
    const logDirectory: string
    const logFilenamePrefix: string
    const logFilenameSuffix: string
    const maxFiles: uint32
    const rotation: RotationKind
    const dateFormat: string
    const timeLocation: Location
    var nextDate: int

    /** A non-rotating appender never holds a boundary. */
    ghost predicate Valid()
      reads this
    {
      rotation == Never ==> nextDate == 0
    }

    /**
     * newState once the directory is known: nil location becomes UTC, an empty
     * date format becomes the default, and the boundary is the next one after
     * `now`, or 0 when the kind does not rotate.
     */
    constructor (config: Config, directory: string, now: int)
      ensures Valid()
      ensures logDirectory == directory
      ensures logFilenamePrefix == config.filenamePrefix && logFilenameSuffix == config.filenameSuffix
      ensures maxFiles == config.maxFiles && rotation == config.rotation
      ensures timeLocation == if config.timeLocation.None? then UTC else config.timeLocation.value
      ensures dateFormat == if |config.dateFormat| == 0 then DefaultDateFormat else config.dateFormat
      ensures nextDate == if config.rotation == Never then 0 else NextDate(config.rotation, now).value
    {
      logDirectory := directory;
      logFilenamePrefix := config.filenamePrefix;
      logFilenameSuffix := config.filenameSuffix;
      maxFiles := config.maxFiles;
      rotation := config.rotation;
      timeLocation := if config.timeLocation.None? then UTC else config.timeLocation.value;
      dateFormat := if |config.dateFormat| == 0 then DefaultDateFormat else config.dateFormat;
      nextDate := 0;
      new;
      var next := NextDate(rotation, now);
      if next.Some? {
        nextDate := next.value;
      }
    }

    /** shouldRollover: a read of the register; it changes nothing. */
    function ShouldRollover(now: int): Option<int>
      reads this
    {
      RolloverDue(nextDate, now)
    }

    /**
     * AdvanceDate: compare-then-set of the register. The source dereferences
     * NextDate's result, which is nil for Never, so the kind must rotate.
     */
    method AdvanceDate(now: int, current: int) returns (swapped: bool)
      requires Valid() && rotation != Never
      modifies this
      ensures Valid()
      ensures (swapped, nextDate) == Advance(rotation, old(nextDate), now, current)
    {
      var next := NextDate(rotation, now);
      if nextDate == current {
        nextDate := next.value;
        swapped := true;
      } else {
        swapped := false;
      }
    }

    /**
     * createFile: the file named by JoinDate is opened, unless the
     * environment reports an error for the open.
     */
    method CreateFile(dateStr: string, openErr: Option<Error>) returns (r: Result<string, Error>)
      ensures r.Failure? <==> openErr.Some?
      ensures r.Failure? ==> r.error == openErr.value
      ensures r.Success? ==> r.value == JoinDate(rotation, logFilenamePrefix, logFilenameSuffix, dateStr)
    {
      if openErr.Some? {
        return Failure(openErr.value);
      }
      r := Success(JoinDate(rotation, logFilenamePrefix, logFilenameSuffix, dateStr));
    }

    /**
     * prune_old_logs: collect the candidates of the listing (None when
     * reading the directory failed), sort them by birth time and try to remove
     * the oldest ones. `attempted` lists every removal tried, `removed` the ones
     * that succeeded; a failure does not stop the loop.
     */
    method PruneOldLogs(listing: Option<seq<Entry>>, removeOk: string -> bool)
      returns (attempted: seq<string>, removed: seq<string>)
      ensures attempted == PruneSelection(listing, logFilenamePrefix, logFilenameSuffix, maxFiles)
      ensures removed == Removed(attempted, removeOk)
    {
      attempted, removed := [], [];
      if maxFiles == 0 {
        return;
      }
      if listing.None? {
        return;
      }
      var entries := listing.value;
      var files: seq<LogFile> := [];
      for i := 0 to |entries|
        invariant files == Candidates(entries[..i], logFilenamePrefix, logFilenameSuffix)
      {
        var entry := entries[i];
        assert entries[..i + 1][..i] == entries[..i];
        if entry.isDir {
          continue;
        }
        var filename := entry.name;
        if |logFilenamePrefix| > 0 && !HasPrefix(filename, logFilenamePrefix) {
          continue;
        }
        if |logFilenameSuffix| > 0 && !HasSuffix(filename, logFilenameSuffix) {
          continue;
        }
        if !entry.statOk {
          continue;
        }
        if entry.birthTime.None? {
          continue;
        }
        files := files + [LogFile(filename, entry.birthTime.value)];
      }
      assert entries[..|entries|] == entries;
      if |files| < maxFiles {
        return;
      }
      ghost var candidates := files;
      files := SortByBirth(files);
      for i := 0 to |files| - maxFiles + 1
        invariant attempted == Names(files[..i])
        invariant removed == Removed(attempted, removeOk)
      {
        assert files[..i + 1][..i] == files[..i];
        var path := files[i].name;
        attempted := attempted + [path];
        if removeOk(path) {
          removed := removed + [path];
        }
      }
      assert attempted == Names(Oldest(candidates, maxFiles));
    }
  }

  /**
   * newState: when no directory is configured the working directory is used,
   * and failing to obtain it fails construction with that error.
   */
  method NewState(config: Config, now: int, getwd: Result<string, Error>) returns (r: Result<AppenderState, Error>)
    ensures r.Failure? <==> |config.directory| == 0 && getwd.Failure?
    ensures r.Failure? ==> r.error == getwd.error
    ensures r.Success? ==> fresh(r.value) && r.value.Valid()
    ensures r.Success? ==> r.value.logDirectory == if |config.directory| == 0 then getwd.value else config.directory
    ensures r.Success? ==> r.value.rotation == config.rotation && r.value.maxFiles == config.maxFiles
    ensures r.Success? ==> r.value.logFilenamePrefix == config.filenamePrefix && r.value.logFilenameSuffix == config.filenameSuffix
    ensures r.Success? ==> r.value.timeLocation == if config.timeLocation.None? then UTC else config.timeLocation.value
    ensures r.Success? ==> r.value.dateFormat == if |config.dateFormat| == 0 then DefaultDateFormat else config.dateFormat
    ensures r.Success? ==> r.value.nextDate == if config.rotation == Never then 0 else NextDate(config.rotation, now).value
  {
    var directory := config.directory;
    if |directory| == 0 {
      if getwd.Failure? {
        return Failure(getwd.error);
      }
      directory := getwd.value;
    }
    var s := new AppenderState(config, directory, now);
    r := Success(s);
  }
}
