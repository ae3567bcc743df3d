/**
 The sender's commit log: commits numbered as they are made, kept until a report
 acknowledges them, and handed out as the window of everything not yet acknowledged.
 */
module SenderLog {
  import opened Bytes
  import opened Group

  /** The log's whole state as a value. */
  datatype LogView = LogView(applied: History, log: map<u64, bytes>, current: u64, checkpoint: u64)

  /** The log holds exactly the epochs between checkpoint and current_epoch. */
  ghost predicate LogValid(v: LogView) {
    && v.checkpoint <= v.current
    && forall e: u64 :: e in v.log <==> v.checkpoint < e <= v.current
  }

  const EMPTY_LOG := LogView([], map[], 0, 0)

  function LogCommit(v: LogView, commit: bytes): LogView
    requires v.current + 1 < U64_LIMIT
  {
    LogView(v.applied + [commit], v.log[v.current + 1 := commit], v.current + 1, v.checkpoint)
  }

  function LogUnlogged(v: LogView, commit: bytes): LogView {
    v.(applied := v.applied + [commit])
  }

  function LogTrim(v: LogView, reported: u64): LogView {
    var checkpoint: u64 := Max(v.checkpoint, Min(reported, v.current));
    v.(checkpoint := checkpoint, log := map e | e in v.log && e > checkpoint :: v.log[e])
  }

  /** The map's entries with low < key <= high, in ascending order of key. */
  function Ascending(log: map<u64, bytes>, low: u64, high: u64): (w: Window)
    requires low <= high
    decreases high - low
  {
    if low == high then []
    else (if low + 1 in log then [Entry(low + 1, log[low + 1])] else []) + Ascending(log, low + 1, high)
  }

  class CommitLog {
    var inner: MlsGroup
    var commitLog: map<u64, bytes>
    var currentEpoch: u64
    var checkpoint: u64

    function View(): LogView
      reads this, inner
    {
      LogView(inner.applied, commitLog, currentEpoch, checkpoint)
    }

    ghost predicate Valid()
      reads this, inner
    {
      LogValid(View())
    }

    constructor (group: MlsGroup)
      ensures Valid() && inner == group
      ensures View() == EMPTY_LOG.(applied := group.applied)
    {
      inner := group;
      commitLog := map[];
      currentEpoch := 0;
      checkpoint := 0;
    }

    /** A commit the library loses moves the group and not the log; the counter is assumed not to wrap. */
    method CreateCommit(making: Making) returns (r: Option<bytes>)
      requires Valid() && currentEpoch + 1 < U64_LIMIT
      modifies this`commitLog, this`currentEpoch, inner
      ensures Valid()
      ensures r == if making.Makes? then Some(making.commit) else None
      ensures View() == match making
                        case Fails => old(View())
                        case Lost(c) => LogUnlogged(old(View()), c)
                        case Makes(c) => old(LogCommit(View(), c))
    {
      r := inner.CreateCommit(making);
      if r.Some? {
        currentEpoch := currentEpoch + 1;
        commitLog := commitLog[currentEpoch := r.value];
      }
    }

    /** Forwarded to the group: the log's own numbering does not move. */
    method ApplyCommit(commit: bytes) returns (ok: bool)
      requires Valid()
      modifies inner
      ensures Valid() && ok == inner.accepts(old(inner.applied), commit)
      ensures View() == old(View()).(applied := if ok then old(inner.applied) + [commit] else old(inner.applied))
    {
      ok := inner.ApplyCommit(commit);
    }

    /** The logged epochs above the checkpoint, ascending, each with its bytes. */
    function WindowBytes(): (w: Window)
      reads this, inner
      requires Valid()
      ensures |w| == currentEpoch - checkpoint
      ensures forall i :: 0 <= i < |w| ==>
        checkpoint + 1 + i in commitLog && w[i] == Entry(checkpoint + 1 + i, commitLog[checkpoint + 1 + i])
    {
      WindowInOrder(View());
      LogWindow(View())
    }

    method Trim(reported: u64)
      requires Valid()
      modifies this`commitLog, this`checkpoint
      ensures Valid()
      ensures View() == LogTrim(old(View()), reported)
    {
      var k := Min(reported, currentEpoch);
      checkpoint := Max(checkpoint, k);
      commitLog := map e | e in commitLog && e > checkpoint :: commitLog[e];
    }
  }

  function LogWindow(v: LogView): Window
    requires v.checkpoint <= v.current
  {
    Ascending(v.log, v.checkpoint, v.current)
  }

  /** The log numbers the sender's whole history and remembers the unacknowledged part with its bytes. */
  ghost predicate Tracks(v: LogView) {
    && LogValid(v)
    && |v.applied| == v.current
    && forall e :: e in v.log ==> v.log[e] == v.applied[e - 1]
  }

  lemma {:induction false} AscendingInOrder(v: LogView, low: u64)
    requires LogValid(v) && v.checkpoint <= low <= v.current
    ensures Ascending(v.log, low, v.current)
         == seq(v.current - low, i requires 0 <= i < v.current - low => Entry(low + 1 + i, v.log[low + 1 + i]))
    decreases v.current - low
  {
    if low < v.current {
      AscendingInOrder(v, low + 1);
      assert low + 1 in v.log;
    }
  }

  /** The window lists the unacknowledged epochs, each once, in ascending order, with the bytes logged for it. */
  lemma WindowInOrder(v: LogView)
    requires LogValid(v)
    ensures |LogWindow(v)| == v.current - v.checkpoint
    ensures forall i :: 0 <= i < |LogWindow(v)| ==>
      LogWindow(v)[i] == Entry(v.checkpoint + 1 + i, v.log[v.checkpoint + 1 + i])
  {
    AscendingInOrder(v, v.checkpoint);
  }

  /** For a log kept since the sender's first commit, that is the unacknowledged part of its history. */
  lemma WindowIsUnacknowledgedHistory(v: LogView)
    requires Tracks(v)
    ensures LogWindow(v) == Slice(v.applied, v.checkpoint, v.current)
  {
    WindowInOrder(v);
  }

  // ---------------------------------------------------------------------------
  // Commits and reports in any interleaving
  // ---------------------------------------------------------------------------

  /**
   `Unlogged`: applied to the group but not logged, as a commit lost in serialisation or one applied
   from elsewhere is.
   */
  datatype LogEvent = Committed(commit: bytes) | Reported(epoch: u64) | Unlogged(commit: bytes)

  function CommitCount(events: seq<LogEvent>): nat {
    if events == [] then 0
    else CommitCount(events[..|events| - 1]) + if events[|events| - 1].Committed? then 1 else 0
  }

  function RunLog(v: LogView, events: seq<LogEvent>): (r: LogView)
    requires v.current + CommitCount(events) < U64_LIMIT
    ensures r.current == v.current + CommitCount(events)
  {
    if events == [] then v
    else
      var before := RunLog(v, events[..|events| - 1]);
      match events[|events| - 1]
      case Committed(c) => LogCommit(before, c)
      case Reported(k) => LogTrim(before, k)
      case Unlogged(c) => LogUnlogged(before, c)
  }

  /** What report number i is worth: its epoch, clamped to the commits made by then. */
  function Acknowledged(v: LogView, events: seq<LogEvent>, i: nat): int
    requires i < |events|
  {
    if events[i].Reported? then Min(events[i].epoch, v.current + CommitCount(events[..i])) else 0
  }

  /** How many of the events moved the group without the log. */
  function UnloggedCount(events: seq<LogEvent>): nat {
    if events == [] then 0
    else UnloggedCount(events[..|events| - 1]) + if events[|events| - 1].Unlogged? then 1 else 0
  }

  /** How many did so before the commit that was logged as epoch `e`. */
  function UnloggedBefore(current: nat, events: seq<LogEvent>, e: nat): nat {
    if events == [] then 0
    else
      var init := events[..|events| - 1];
      if events[|events| - 1].Committed? && e == current + CommitCount(init) + 1 then UnloggedCount(init)
      else UnloggedBefore(current, init, e)
  }

  /** Neither a commit nor a report, however stale or wild, spoils the log. */
  lemma EventKeepsTracks(v: LogView, event: LogEvent)
    requires Tracks(v) && !event.Unlogged? && (event.Committed? ==> v.current + 1 < U64_LIMIT)
    ensures Tracks(if event.Committed? then LogCommit(v, event.commit) else LogTrim(v, event.epoch))
  {
  }

  /**
   Commits, reports and unlogged commits in any order: the log counts exactly the logged ones, so it
   goes on numbering its group's commits if and only if there was no unlogged one.
   */
  lemma {:induction false} TracksExactly(v: LogView, events: seq<LogEvent>)
    requires Tracks(v) && v.current + CommitCount(events) < U64_LIMIT
    ensures var r := RunLog(v, events);
            && LogValid(r) && v.applied <= r.applied
            && |r.applied| == r.current + UnloggedCount(events)
            && (Tracks(r) <==> UnloggedCount(events) == 0)
    decreases |events|
  {
    if events != [] {
      var n := |events| - 1;
      TracksExactly(v, events[..n]);
      if UnloggedCount(events) == 0 {
        EventKeepsTracks(RunLog(v, events[..n]), events[n]);
      }
    }
  }

  ghost predicate Shifted(current: nat, events: seq<LogEvent>, r: LogView) {
    forall e :: e in r.log ==>
      var i := e - 1 + UnloggedBefore(current, events, e);
      0 <= i < |r.applied| && r.log[e] == r.applied[i]
  }

  lemma UnloggedBeforeSnoc(current: nat, init: seq<LogEvent>, event: LogEvent, e: nat)
    ensures UnloggedBefore(current, init + [event], e)
         == if event.Committed? && e == current + CommitCount(init) + 1 then UnloggedCount(init)
            else UnloggedBefore(current, init, e)
  {
    hide UnloggedCount, CommitCount;
    var events := init + [event];
    assert events[..|events| - 1] == init && events[|events| - 1] == event;
  }

  lemma ShiftedStep(v: LogView, init: seq<LogEvent>, event: LogEvent, before: LogView)
    requires Shifted(v.current, init, before) && LogValid(before)
    requires |before.applied| == before.current + UnloggedCount(init)
    requires before.current == v.current + CommitCount(init)
    requires event.Committed? ==> before.current + 1 < U64_LIMIT
    ensures var r := match event
                     case Committed(c) => LogCommit(before, c)
                     case Reported(k) => LogTrim(before, k)
                     case Unlogged(c) => LogUnlogged(before, c);
            Shifted(v.current, init + [event], r)
  {
    hide CommitCount, UnloggedCount, UnloggedBefore;
    var r := match event
             case Committed(c) => LogCommit(before, c)
             case Reported(k) => LogTrim(before, k)
             case Unlogged(c) => LogUnlogged(before, c);
    forall e | e in r.log
      ensures var i := e - 1 + UnloggedBefore(v.current, init + [event], e);
              0 <= i < |r.applied| && r.log[e] == r.applied[i]
    {
      UnloggedBeforeSnoc(v.current, init, event, e);
      if event.Committed? && e == before.current + 1 {
        assert r.log[e] == event.commit == r.applied[|before.applied|];
      } else {
        assert e in before.log && r.log[e] == before.log[e];
      }
    }
  }

  /**
   What the log holds in any case: under each epoch still in it the bytes of the commit it was made
   with, which stands as many places further on in the group as commits had gone unlogged before it.
   */
  lemma {:induction false} LoggedCommitsAreShifted(v: LogView, events: seq<LogEvent>)
    requires Tracks(v) && v.current + CommitCount(events) < U64_LIMIT
    ensures Shifted(v.current, events, RunLog(v, events))
    decreases |events|
  {
    if events != [] {
      var n := |events| - 1;
      LoggedCommitsAreShifted(v, events[..n]);
      TracksExactly(v, events[..n]);
      hide Shifted, LogCommit, LogTrim, LogUnlogged, Tracks, LogValid;
      ShiftedStep(v, events[..n], events[n], RunLog(v, events[..n]));
      assert events == events[..n] + [events[n]];
    }
  }

  lemma {:induction false} NoneUnlogged(events: seq<LogEvent>)
    requires forall event <- events :: !event.Unlogged?
    ensures UnloggedCount(events) == 0
    decreases |events|
  {
    if events != [] {
      var n := |events| - 1;
      assert events[n] in events && forall event <- events[..n] :: event in events;
      NoneUnlogged(events[..n]);
    }
  }

  /** So any interleaving of commits and reports leaves the log exact. */
  lemma RunLogTracks(v: LogView, events: seq<LogEvent>)
    requires Tracks(v) && v.current + CommitCount(events) < U64_LIMIT
    requires forall event <- events :: !event.Unlogged?
    ensures var r := RunLog(v, events); Tracks(r) && v.applied <= r.applied
  {
    hide Tracks, RunLog;
    NoneUnlogged(events);
    TracksExactly(v, events);
  }

  lemma {:induction false} CommitCountConcat(a: seq<LogEvent>, b: seq<LogEvent>)
    ensures CommitCount(a + b) == CommitCount(a) + CommitCount(b)
    decreases |b|
  {
    if b == [] {
      assert a + b == a;
    } else {
      assert (a + b)[..|a + b| - 1] == a + b[..|b| - 1];
      CommitCountConcat(a, b[..|b| - 1]);
    }
  }

  lemma RunLogCommits(v: LogView, events: seq<LogEvent>, commit: bytes)
    requires v.current + CommitCount(events) + 1 < U64_LIMIT
    ensures CommitCount(events + [Committed(commit)]) == CommitCount(events) + 1
    ensures RunLog(v, events + [Committed(commit)]) == LogCommit(RunLog(v, events), commit)
  {
    hide LogCommit;
    var all := events + [Committed(commit)];
    assert all[..|all| - 1] == events;
  }

  lemma {:induction false} RunLogConcat(v: LogView, a: seq<LogEvent>, b: seq<LogEvent>)
    requires v.current + CommitCount(a) + CommitCount(b) < U64_LIMIT
    ensures CommitCount(a + b) == CommitCount(a) + CommitCount(b)
    ensures RunLog(v, a + b) == RunLog(RunLog(v, a), b)
    decreases |b|
  {
    CommitCountConcat(a, b);
    if b == [] {
      assert a + b == a;
    } else {
      assert (a + b)[..|a + b| - 1] == a + b[..|b| - 1];
      RunLogConcat(v, a, b[..|b| - 1]);
    }
  }

  /**
   Whatever the order of commits, unlogged commits and reports: the checkpoint is the maximum of its old value
   and every report clamped to the current epoch at the time it was processed.
   */
  lemma {:induction false} CheckpointIsMaxOfReports(v: LogView, events: seq<LogEvent>)
    requires v.current + CommitCount(events) < U64_LIMIT
    ensures var r := RunLog(v, events);
            && v.checkpoint <= r.checkpoint
            && (forall i :: 0 <= i < |events| ==> Acknowledged(v, events, i) <= r.checkpoint)
            && (r.checkpoint == v.checkpoint
                || exists i :: 0 <= i < |events| && Acknowledged(v, events, i) == r.checkpoint)
    decreases |events|
  {
    if events != [] {
      var n := |events| - 1;
      var init := events[..n];
      CheckpointIsMaxOfReports(v, init);
      var before, r := RunLog(v, init), RunLog(v, events);
      forall i | 0 <= i < n
        ensures Acknowledged(v, events, i) == Acknowledged(v, init, i)
      {
        assert events[..i] == init[..i];
      }
      assert Acknowledged(v, events, n) <= r.checkpoint;
      if before.checkpoint == r.checkpoint && r.checkpoint != v.checkpoint {
        var i :| 0 <= i < n && Acknowledged(v, init, i) == r.checkpoint;
        assert Acknowledged(v, events, i) == r.checkpoint;
      }
    }
  }

  /** Two reports amount to the larger one, so their order and repetition are immaterial. */
  lemma TwoReportsAreTheLarger(v: LogView, j: u64, k: u64)
    requires LogValid(v)
    ensures LogTrim(LogTrim(v, j), k) == LogTrim(v, Max(j, k))
  {
    assert LogTrim(LogTrim(v, j), k).log == LogTrim(v, Max(j, k)).log;
  }
}
