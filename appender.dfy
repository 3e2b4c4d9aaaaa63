/**
 * The RollingFileAppender: one Write operation that checks the rotation
 * boundary, lets the caller that wins the boundary advance prune old files and
 * switch to a new file, and then appends the bytes to the current file.
 *
 * The file handle is identified by the name of the file it was opened on, and
 * `written` records, per file name, the bytes this appender has appended to
 * it. Everything the operating system decides (the clock, the directory
 * listing, which removals succeed, whether the open succeeds, how many bytes
 * the write accepts) and the formatted date come in through Env.
 */
module Appender {
  import opened Wrappers
  import opened Rotation
  import opened Retention
  import opened State

  newtype byte = x: int | 0 <= x < 256

  /** What the world supplies to one call. */
  datatype Env = Env(
    now: int,                        // the clock, in epoch seconds
    dateStr: string,                 // `now` formatted with the configured date format
    listing: Option<seq<Entry>>,     // the log directory's entries, None if it cannot be read
    removeOk: string -> bool,        // which removals succeed
    createErr: Option<Error>,        // the error opening the new file fails with, if any
    accepted: nat,                   // how many bytes the underlying write accepts
    writeErr: Option<Error>)         // the error the underlying write returns, if any

  /** The appender's observable state: boundary, current file, bytes per file, files pruned. */
  datatype Writer = Writer(boundary: int, file: string, written: map<string, seq<byte>>, deleted: seq<string>)

  /** The state after a Write and the result it returns. */
  datatype Outcome = Outcome(writer: Writer, n: nat, err: Option<Error>)

  /** The invariant every reachable Writer keeps. */
  predicate Consistent(st: AppenderState, w: Writer) {
    && w.file in w.written
    && (st.rotation == Never ==> w.boundary == 0)
  }

  /** The names pruning removes when refreshFile runs (pruning only when retention is on). */
  function PrunedOnRefresh(st: AppenderState, env: Env): seq<string>
  {
    var attempted := if st.maxFiles > 0
      then PruneSelection(env.listing, st.logFilenamePrefix, st.logFilenameSuffix, st.maxFiles)
      else [];
    Removed(attempted, env.removeOk)
  }

  /**
   * refreshFile: prune first, then open the new file; if the open fails the
   * current file stays, otherwise the new file becomes current.
   */
  function Refresh(st: AppenderState, w: Writer, env: Env): (r: Writer)
    requires w.file in w.written
    ensures r.boundary == w.boundary
    ensures r.deleted == w.deleted + PrunedOnRefresh(st, env)
    ensures env.createErr.Some? ==> r.file == w.file && r.written == w.written
    ensures env.createErr.None? ==>
              r.file == JoinDate(st.rotation, st.logFilenamePrefix, st.logFilenameSuffix, env.dateStr)
    ensures r.written.Keys == w.written.Keys + {r.file}
    ensures forall f :: f in w.written ==> r.written[f] == w.written[f]
    ensures r.file !in w.written ==> r.written[r.file] == []
  {
    var w1 := w.(deleted := w.deleted + PrunedOnRefresh(st, env));
    if env.createErr.Some? then w1
    else
      var name := JoinDate(st.rotation, st.logFilenamePrefix, st.logFilenameSuffix, env.dateStr);
      w1.(file := name, written := if name in w1.written then w1.written else w1.written[name := []])
  }

  /**
   * Write: if the boundary has been reached, advance it; the caller whose
   * advance succeeds refreshes the file. Then the bytes the underlying write
   * accepts are appended to the current file and its result is returned as is.
   */
  function WriteStep(st: AppenderState, w: Writer, p: seq<byte>, env: Env): (r: Outcome)
    requires Consistent(st, w) && env.accepted <= |p|
    ensures Consistent(st, r.writer)
    ensures r.n == env.accepted && r.err == env.writeErr
    ensures r.writer.file == w.file
         || r.writer.file == JoinDate(st.rotation, st.logFilenamePrefix, st.logFilenameSuffix, env.dateStr)
    ensures r.writer.written.Keys == w.written.Keys + {r.writer.file}
    ensures r.writer.written[r.writer.file]
         == (if r.writer.file in w.written then w.written[r.writer.file] else []) + p[..env.accepted]
    ensures forall f :: f in w.written && f != r.writer.file ==> r.writer.written[f] == w.written[f]
  {
    var due := RolloverDue(w.boundary, env.now);
    var w1 :=
      if due.None? then w
      else
        var (won, next) := Advance(st.rotation, w.boundary, env.now, due.value);
        if won then Refresh(st, w.(boundary := next), env) else w.(boundary := next);
    var n := env.accepted;
    Outcome(w1.(written := w1.written[w1.file := w1.written[w1.file] + p[..n]]), n, env.writeErr)
  }

  /** Before the boundary (or with no boundary) Write neither rotates nor prunes. */
  lemma NoRotationBeforeBoundary(st: AppenderState, w: Writer, p: seq<byte>, env: Env)
    requires Consistent(st, w) && env.accepted <= |p|
    requires w.boundary == 0 || env.now < w.boundary
    ensures var r := WriteStep(st, w, p, env).writer;
            r.boundary == w.boundary && r.file == w.file && r.deleted == w.deleted
  {
  }

  /**
   * At a crossing Write advances the boundary past `now`, prunes, and switches
   * to the new file unless opening it fails, in which case the old file stays
   * current although the boundary has already moved.
   */
  lemma RotationAtCrossing(st: AppenderState, w: Writer, p: seq<byte>, env: Env)
    requires Consistent(st, w) && env.accepted <= |p|
    requires w.boundary != 0 && env.now >= w.boundary
    ensures st.rotation != Never
    ensures var r := WriteStep(st, w, p, env).writer;
            && r.boundary == NextDate(st.rotation, env.now).value
            && r.boundary > env.now
            && r.deleted == w.deleted + PrunedOnRefresh(st, env)
            && (env.createErr.Some? ==> r.file == w.file)
            && (env.createErr.None? ==>
                  r.file == JoinDate(st.rotation, st.logFilenamePrefix, st.logFilenameSuffix, env.dateStr))
  {
  }

  /**
   * At most one rotation per crossing: after a Write that rotated at `now`,
   * a later Write at any instant up to `now` (the same crossing) does not
   * rotate again.
   */
  lemma NoSecondRotation(st: AppenderState, w: Writer, p: seq<byte>, env: Env, q: seq<byte>, env2: Env)
    requires Consistent(st, w) && env.accepted <= |p| && env2.accepted <= |q|
    requires w.boundary != 0 && env.now >= w.boundary
    requires env2.now <= env.now
    ensures var w1 := WriteStep(st, w, p, env).writer;
            var w2 := WriteStep(st, w1, q, env2).writer;
            w2.boundary == w1.boundary && w2.file == w1.file && w2.deleted == w1.deleted
  {
    var w1 := WriteStep(st, w, p, env).writer;
    RotationAtCrossing(st, w, p, env);
    NoRotationBeforeBoundary(st, w1, q, env2);
  }

  /**
   * An empty Write returns a zero count and adds no bytes to any file, but it
   * still rotates when the boundary has been reached.
   */
  lemma EmptyWrite(st: AppenderState, w: Writer, env: Env)
    requires Consistent(st, w) && env.accepted == 0
    ensures var r := WriteStep(st, w, [], env);
            && r.n == 0
            && (forall f :: f in w.written ==> r.writer.written[f] == w.written[f])
            && (w.boundary != 0 && env.now >= w.boundary ==> r.writer.boundary != w.boundary)
  {
    if w.boundary != 0 && env.now >= w.boundary {
      RotationAtCrossing(st, w, [], env);
    }
  }

  /** A sequence of Write calls, each a byte slice and its environment. */
  predicate Accepts(calls: seq<(seq<byte>, Env)>) {
    forall i :: 0 <= i < |calls| ==> calls[i].1.accepted <= |calls[i].0|
  }

  /** The state after the Write calls, one after another. */
  function Run(st: AppenderState, w: Writer, calls: seq<(seq<byte>, Env)>): (r: Writer)
    requires Consistent(st, w) && Accepts(calls)
    ensures Consistent(st, r)
    decreases |calls|
  {
    if calls == [] then w
    else Run(st, WriteStep(st, w, calls[0].0, calls[0].1).writer, calls[1..])
  }

  /** The bytes the underlying writes accept over the calls, in order. */
  function Delivered(calls: seq<(seq<byte>, Env)>): seq<byte>
    requires Accepts(calls)
    decreases |calls|
  {
    if calls == [] then [] else calls[0].0[..calls[0].1.accepted] + Delivered(calls[1..])
  }

  /**
   * A non-rotating appender writes to one file for its whole life: the file
   * never changes, nothing is pruned, and every accepted byte lands in that
   * file, in order, with nothing lost or duplicated.
   */
  lemma {:induction false} NeverUsesOneFile(st: AppenderState, w: Writer, calls: seq<(seq<byte>, Env)>)
    requires Consistent(st, w) && Accepts(calls) && st.rotation == Never
    ensures Run(st, w, calls).file == w.file
    ensures Run(st, w, calls).deleted == w.deleted
    ensures Run(st, w, calls).written[w.file] == w.written[w.file] + Delivered(calls)
    decreases |calls|
  {
    if calls != [] {
      var (p, env) := calls[0];
      var w1 := WriteStep(st, w, p, env).writer;
      NoRotationBeforeBoundary(st, w, p, env);
      NeverUsesOneFile(st, w1, calls[1..]);
    }
  }

  /** The RollingFileAppender struct: the state, the current file and what was written. */
  class RollingFileAppender {
    const state: AppenderState
    var file: string
    var written: map<string, seq<byte>>
    var deleted: seq<string>

    ghost predicate Valid()
      reads this, state
    {
      file in written && state.Valid()
    }

    function Snapshot(): Writer
      reads this, state
    {
      Writer(state.nextDate, file, written, deleted)
    }

    constructor (state: AppenderState, file: string)
      requires state.Valid()
      ensures Valid() && this.state == state
      ensures Snapshot() == Writer(state.nextDate, file, map[file := []], [])
    {
      this.state := state;
      this.file := file;
      written := map[file := []];
      deleted := [];
    }

    /** refreshFile, proved against Refresh. */
    method RefreshFile(env: Env)
      requires Valid()
      modifies this
      ensures Valid()
      ensures Snapshot() == Refresh(state, old(Snapshot()), env)
    {
      if state.maxFiles > 0 {
        var attempted, removed := state.PruneOldLogs(env.listing, env.removeOk);
        deleted := deleted + removed;
      }
      var newFile := state.CreateFile(env.dateStr, env.createErr);
      if newFile.Failure? {
        return;
      }
      file := newFile.value;
      if file !in written {
        written := written[file := []];
      }
    }

    /** Write, proved against WriteStep. */
    method Write(p: seq<byte>, env: Env) returns (n: nat, err: Option<Error>)
      requires Valid() && env.accepted <= |p|
      modifies this, state
      ensures Valid()
      ensures var r := WriteStep(state, old(Snapshot()), p, env);
              Snapshot() == r.writer && n == r.n && err == r.err
    {
      var now := env.now;
      var current := state.ShouldRollover(now);
      if current.Some? {
        var swapped := state.AdvanceDate(now, current.value);
        if swapped {
          RefreshFile(env);
        }
      }
      n, err := env.accepted, env.writeErr;
      written := written[file := written[file] + p[..n]];
    }
  }

  /**
   * New: build the state, then open the first file for the construction
   * instant; a failure in either fails construction with that error.
   */
  method New(config: Config, getwd: Result<string, Error>, env: Env) returns (r: Result<RollingFileAppender, Error>)
    ensures r.Failure? <==> (|config.directory| == 0 && getwd.Failure?) || env.createErr.Some?
    ensures r.Failure? ==>
              r.error == (if |config.directory| == 0 && getwd.Failure? then getwd.error else env.createErr.value)
    ensures r.Success? ==> fresh(r.value) && fresh(r.value.state) && r.value.Valid()
    ensures r.Success? ==>
              r.value.state.logDirectory == (if |config.directory| == 0 then getwd.value else config.directory)
    ensures r.Success? ==> r.value.state.rotation == config.rotation && r.value.state.maxFiles == config.maxFiles
    ensures r.Success? ==>
              r.value.state.logFilenamePrefix == config.filenamePrefix
              && r.value.state.logFilenameSuffix == config.filenameSuffix
    ensures r.Success? ==>
              r.value.state.timeLocation == (if config.timeLocation.None? then UTC else config.timeLocation.value)
    ensures r.Success? ==>
              r.value.state.dateFormat == (if |config.dateFormat| == 0 then DefaultDateFormat else config.dateFormat)
    ensures r.Success? ==>
              r.value.file == JoinDate(config.rotation, config.filenamePrefix, config.filenameSuffix, env.dateStr)
    ensures r.Success? ==> r.value.written == map[r.value.file := []] && r.value.deleted == []
    ensures r.Success? ==>
              r.value.state.nextDate == (if config.rotation == Never then 0 else NextDate(config.rotation, env.now).value)
  {
    var state := NewState(config, env.now, getwd);
    if state.Failure? {
      return Failure(state.error);
    }
    var file := state.value.CreateFile(env.dateStr, env.createErr);
    if file.Failure? {
      return Failure(file.error);
    }
    var a := new RollingFileAppender(state.value, file.value);
    r := Success(a);
  }
}
