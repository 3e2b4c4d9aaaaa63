/**
 * What retention pruning selects: the directory entries that are log files of
 * this appender, ordered by birth time, and the oldest of them that must go so
 * that `maxFiles - 1` remain before the next file is created.
 */
module Retention {
  import opened Wrappers

  /**
   * One directory entry as the pruning loop sees it: its name, whether it is a
   * directory, whether stat on it succeeded and the birth time stat reported
   * (None when the filesystem does not record one).
   */
  datatype Entry = Entry(name: string, isDir: bool, statOk: bool, birthTime: Option<int>)

  /** A pruning candidate: a file name and its birth time. */
  datatype LogFile = LogFile(name: string, birth: int)

  predicate HasPrefix(s: string, prefix: string) {
    |prefix| <= |s| && s[..|prefix|] == prefix
  }

  predicate HasSuffix(s: string, suffix: string) {
    |suffix| <= |s| && s[|s| - |suffix|..] == suffix
  }

  /**
   * An entry is a candidate when it is not a directory, carries the prefix and
   * the suffix (each checked only when non-empty), was stat'ed successfully and
   * has a birth time.
   */
  predicate IsCandidate(e: Entry, prefix: string, suffix: string) {
    && !e.isDir
    && (|prefix| > 0 ==> HasPrefix(e.name, prefix))
    && (|suffix| > 0 ==> HasSuffix(e.name, suffix))
    && e.statOk
    && e.birthTime.Some?
  }

  function AsLogFile(e: Entry): LogFile
    requires e.birthTime.Some?
  {
    LogFile(e.name, e.birthTime.value)
  }

  /** The candidates among `entries`, in directory order. */
  function Candidates(entries: seq<Entry>, prefix: string, suffix: string): (r: seq<LogFile>)
    ensures |r| <= |entries|
  {
    if entries == [] then []
    else
      var init, last := entries[..|entries| - 1], entries[|entries| - 1];
      Candidates(init, prefix, suffix)
        + (if IsCandidate(last, prefix, suffix) then [AsLogFile(last)] else [])
  }

  /** A file is a candidate exactly when some candidate entry describes it. */
  lemma {:induction false} CandidatesExact(entries: seq<Entry>, prefix: string, suffix: string, f: LogFile)
    ensures f in Candidates(entries, prefix, suffix)
        <==> exists e :: e in entries && IsCandidate(e, prefix, suffix) && f == AsLogFile(e)
  {
    if entries != [] {
      var init, last := entries[..|entries| - 1], entries[|entries| - 1];
      assert entries == init + [last];
      CandidatesExact(init, prefix, suffix, f);
      if f in Candidates(init, prefix, suffix) {
        var e :| e in init && IsCandidate(e, prefix, suffix) && f == AsLogFile(e);
        assert e in entries;
      }
    }
  }

  predicate SortedByBirth(files: seq<LogFile>) {
    forall i, j :: 0 <= i < j < |files| ==> files[i].birth <= files[j].birth
  }

  /** Insert one file into a list sorted by birth time, before the first later-born one. */
  function Insert(f: LogFile, sorted: seq<LogFile>): (r: seq<LogFile>)
    ensures |r| == |sorted| + 1
    ensures multiset(r) == multiset(sorted) + multiset{f}
  {
    if sorted == [] || f.birth <= sorted[0].birth then [f] + sorted
    else
      assert sorted == [sorted[0]] + sorted[1..];
      [sorted[0]] + Insert(f, sorted[1..])
  }

  /** Every file of a sorted list is born no earlier than its head. */
  lemma HeadIsEarliest(sorted: seq<LogFile>, x: LogFile)
    requires SortedByBirth(sorted) && sorted != [] && x in multiset(sorted)
    ensures sorted[0].birth <= x.birth
  {
    var k :| 0 <= k < |sorted| && sorted[k] == x;
  }

  /** Inserting into a sorted list keeps it sorted. */
  lemma {:induction false} InsertSorted(f: LogFile, sorted: seq<LogFile>)
    requires SortedByBirth(sorted)
    ensures SortedByBirth(Insert(f, sorted))
  {
    if sorted != [] && f.birth > sorted[0].birth {
      var tail := sorted[1..];
      InsertSorted(f, tail);
      var rest := Insert(f, tail);
      forall j | 0 <= j < |rest| ensures sorted[0].birth <= rest[j].birth {
        assert rest[j] in multiset(rest);
        if rest[j] != f {
          assert rest[j] in multiset(tail);
          assert sorted == [sorted[0]] + tail;
          HeadIsEarliest(sorted, rest[j]);
        }
      }
      assert Insert(f, sorted) == [sorted[0]] + rest;
    }
  }

  /**
   * The ascending order by birth time that sort.Slice produces. Files born at
   * the same instant may come in any order in the source; this is one of them.
   */
  function SortByBirth(files: seq<LogFile>): (r: seq<LogFile>)
    ensures |r| == |files|
    ensures SortedByBirth(r)
    ensures multiset(r) == multiset(files)
  {
    if files == [] then []
    else
      assert files == [files[0]] + files[1..];
      InsertSorted(files[0], SortByBirth(files[1..]));
      Insert(files[0], SortByBirth(files[1..]))
  }

  /**
   * How many candidates are deleted: none when retention is off or there are
   * fewer than `maxFiles`, otherwise enough to leave `maxFiles - 1`.
   */
  function PruneCount(count: nat, maxFiles: nat): (k: nat)
    ensures k <= count
    ensures k == 0 <==> maxFiles == 0 || count < maxFiles
    ensures k > 0 ==> count - k == maxFiles - 1
  {
    if maxFiles == 0 || count < maxFiles then 0 else count - maxFiles + 1
  }

  /** The candidates deleted: the first PruneCount of them in birth order. */
  function Oldest(files: seq<LogFile>, maxFiles: nat): seq<LogFile>
  {
    SortByBirth(files)[..PruneCount(|files|, maxFiles)]
  }

  /** The candidates kept: the rest of the birth order. */
  function Survivors(files: seq<LogFile>, maxFiles: nat): seq<LogFile>
  {
    SortByBirth(files)[PruneCount(|files|, maxFiles)..]
  }

  /**
   * Pruning splits the candidates into the deleted and the kept ones; every
   * deleted file is born no later than every kept one; once pruning triggers,
   * exactly `maxFiles - 1` are kept, and otherwise nothing is deleted.
   */
  lemma OldestAreDeleted(files: seq<LogFile>, maxFiles: nat)
    ensures multiset(Oldest(files, maxFiles)) + multiset(Survivors(files, maxFiles)) == multiset(files)
    ensures forall d, k :: d in Oldest(files, maxFiles) && k in Survivors(files, maxFiles) ==> d.birth <= k.birth
    ensures maxFiles == 0 || |files| < maxFiles ==> Oldest(files, maxFiles) == []
    ensures maxFiles > 0 && |files| >= maxFiles ==>
              |Oldest(files, maxFiles)| == |files| - maxFiles + 1 && |Survivors(files, maxFiles)| == maxFiles - 1
  {
    var s := SortByBirth(files);
    var k := PruneCount(|files|, maxFiles);
    assert s == s[..k] + s[k..];
    forall d, x | d in s[..k] && x in s[k..] ensures d.birth <= x.birth {
      var i :| 0 <= i < k && s[i] == d;
      var j :| k <= j < |s| && s[j] == x;
    }
  }

  function Names(files: seq<LogFile>): (r: seq<string>)
    ensures |r| == |files|
    ensures forall i :: 0 <= i < |files| ==> r[i] == files[i].name
  {
    if files == [] then [] else Names(files[..|files| - 1]) + [files[|files| - 1].name]
  }

  /**
   * The names prune_old_logs tries to remove, given the directory listing
   * (None when reading the directory failed).
   */
  function PruneSelection(listing: Option<seq<Entry>>, prefix: string, suffix: string, maxFiles: nat): seq<string>
  {
    if maxFiles == 0 || listing.None? then []
    else Names(Oldest(Candidates(listing.value, prefix, suffix), maxFiles))
  }

  /**
   * Only candidates are ever selected: each selected name is the name of a
   * non-directory entry that matched the prefix and suffix and had a birth time.
   */
  lemma {:induction false} SelectionOnlyCandidates(listing: Option<seq<Entry>>, prefix: string, suffix: string, maxFiles: nat, name: string)
    requires name in PruneSelection(listing, prefix, suffix, maxFiles)
    ensures listing.Some? && maxFiles > 0
    ensures exists e :: e in listing.value && IsCandidate(e, prefix, suffix) && e.name == name
  {
    var cands := Candidates(listing.value, prefix, suffix);
    var old_ := Oldest(cands, maxFiles);
    var i :| 0 <= i < |old_| && Names(old_)[i] == name;
    var f := old_[i];
    var s := SortByBirth(cands);
    assert f in s;
    assert f in multiset(s);
    assert f in cands;
    CandidatesExact(listing.value, prefix, suffix, f);
  }

  /**
   * With a retention of one file every candidate is selected, including the
   * file the appender is about to rotate away from, so it is removed before
   * its replacement has been opened.
   */
  lemma SingleRetentionSelectsAll(entries: seq<Entry>, prefix: string, suffix: string, name: string)
    requires exists e :: e in entries && IsCandidate(e, prefix, suffix) && e.name == name
    ensures name in PruneSelection(Some(entries), prefix, suffix, 1)
  {
    var e :| e in entries && IsCandidate(e, prefix, suffix) && e.name == name;
    var cands := Candidates(entries, prefix, suffix);
    CandidatesExact(entries, prefix, suffix, AsLogFile(e));
    var s := SortByBirth(cands);
    assert AsLogFile(e) in multiset(s);
    var i :| 0 <= i < |s| && s[i] == AsLogFile(e);
    assert Oldest(cands, 1) == s;
    assert Names(s)[i] == name;
  }

  /** The names prune_old_logs actually removes: those whose removal succeeded, in order. */
  function Removed(attempted: seq<string>, removeOk: string -> bool): (r: seq<string>)
    ensures |r| <= |attempted|
  {
    if attempted == [] then []
    else
      var last := attempted[|attempted| - 1];
      Removed(attempted[..|attempted| - 1], removeOk) + (if removeOk(last) then [last] else [])
  }

  /** A failed removal does not stop the later ones: every selected name that can be removed is removed. */
  lemma {:induction false} RemovedExact(attempted: seq<string>, removeOk: string -> bool, name: string)
    ensures name in Removed(attempted, removeOk) <==> name in attempted && removeOk(name)
  {
    if attempted != [] {
      var init := attempted[..|attempted| - 1];
      assert attempted == init + [attempted[|attempted| - 1]];
      RemovedExact(init, removeOk, name);
    }
  }
}
