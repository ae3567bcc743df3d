/**
 The report channel: control messages on a reliable byte stream, which the receiver of
 commits writes and the keeper of the commit log reads and trims by.
 */
module Control {
  import opened Bytes
  import opened Group
  import opened Picking
  import opened SenderLog

  datatype ControlMessage = Report(epoch: u64) | Hello

  const REPORT_TYPE: byte := 0x02
  const HELLO_TYPE: byte := 0x03

  function Encode(m: ControlMessage): bytes {
    match m
    case Report(epoch) => [REPORT_TYPE] + U64Be(epoch)
    case Hello => [HELLO_TYPE]
  }

  function EncodeAll(ms: seq<ControlMessage>): bytes {
    if ms == [] then [] else Encode(ms[0]) + EncodeAll(ms[1..])
  }

  /** What `read_message` makes of a stream: a message and the rest, or an error. */
  datatype ReadResult = Got(message: ControlMessage, rest: bytes) | UnexpectedEof | InvalidType

  function Read(stream: bytes): ReadResult {
    if stream == [] then UnexpectedEof
    else if stream[0] == REPORT_TYPE then
      if |stream| < 9 then UnexpectedEof else Got(Report(FromU64Be(stream[1..9])), stream[9..])
    else if stream[0] == HELLO_TYPE then Got(Hello, stream[1..])
    else InvalidType
  }

  /** The messages read before the first error. */
  function ReadAll(stream: bytes): seq<ControlMessage>
    decreases |stream|
  {
    match Read(stream)
    case Got(m, rest) => [m] + ReadAll(rest)
    case _ => []
  }

  class RecvStream {
    var rest: bytes

    constructor (data: bytes)
      ensures rest == data
    {
      rest := data;
    }

    method ReadU8() returns (r: Option<byte>)
      modifies this
      ensures old(rest) == [] ==> r == None && rest == []
      ensures old(rest) != [] ==> r == Some(old(rest)[0]) && rest == old(rest)[1..]
    {
      if rest == [] {
        return None;
      }
      r := Some(rest[0]);
      rest := rest[1..];
    }

    /** A stream that ends early is used up by the attempt. */
    method ReadU64() returns (r: Option<u64>)
      modifies this
      ensures |old(rest)| < 8 ==> r == None && rest == []
      ensures |old(rest)| >= 8 ==> r == Some(FromU64Be(old(rest)[..8])) && rest == old(rest)[8..]
    {
      if |rest| < 8 {
        rest := [];
        return None;
      }
      r := Some(FromU64Be(rest[..8]));
      rest := rest[8..];
    }

    method ReadMessage() returns (r: Option<ControlMessage>)
      modifies this
      ensures r == match old(Read(rest)) case Got(m, _) => Some(m) case _ => None
      ensures old(Read(rest)).Got? ==> rest == old(Read(rest)).rest
    {
      ghost var before := rest;
      var kind := ReadU8();
      if kind == Some(REPORT_TYPE) {
        assert |before| >= 9 ==> before[1..][..8] == before[1..9];
        var epoch := ReadU64();
        r := match epoch case Some(e) => Some(Report(e)) case None => None;
      } else if kind == Some(HELLO_TYPE) {
        r := Some(Hello);
      } else {
        r := None;
      }
    }
  }

  class SendStream {
    var written: bytes

    constructor ()
      ensures written == []
    {
      written := [];
    }

    /** A failing write leaves a front of the message on the stream, all of it when only the flush fails. */
    method WriteMessage(m: ControlMessage, failsAfter: Option<nat>) returns (ok: bool)
      modifies this
      ensures ok == failsAfter.None?
      ensures written == old(written) + match failsAfter case Some(n) => Partial(Encode(m), n) case None => Encode(m)
    {
      var message := Encode(m);
      match failsAfter
      case Some(n) =>
        written := written + Partial(message, n);
        ok := false;
      case None =>
        written := written + message;
        ok := true;
    }
  }

  /** A byte the encoder starts with decides the message, and nothing of the tail is touched. */
  lemma ReadInvertsEncode(m: ControlMessage, tail: bytes)
    ensures Read(Encode(m) + tail) == Got(m, tail)
  {
    match m
    case Report(epoch) =>
      var s := Encode(m) + tail;
      assert s[1..9] == U64Be(epoch) && s[9..] == tail;
      U64RoundTrip(epoch);
    case Hello =>
      assert (Encode(m) + tail)[1..] == tail;
  }

  lemma EncodeInvertsRead(stream: bytes)
    requires Read(stream).Got?
    ensures stream == Encode(Read(stream).message) + Read(stream).rest
    ensures |Read(stream).rest| < |stream|
  {
    if stream[0] == REPORT_TYPE {
      U64ReadBack(stream[1..9]);
      assert stream == [stream[0]] + stream[1..9] + stream[9..];
    }
  }

  /** A run of encoded messages parses back, and parsing goes on with whatever follows it. */
  lemma {:induction false} ReadAllInverts(ms: seq<ControlMessage>, tail: bytes)
    ensures ReadAll(EncodeAll(ms) + tail) == ms + ReadAll(tail)
    decreases |ms|
  {
    if ms == [] {
      assert EncodeAll(ms) + tail == tail;
    } else {
      assert EncodeAll(ms) + tail == Encode(ms[0]) + (EncodeAll(ms[1..]) + tail);
      ReadInvertsEncode(ms[0], EncodeAll(ms[1..]) + tail);
      ReadAllInverts(ms[1..], tail);
    }
  }

  lemma ReadOn(stream: bytes)
    ensures ReadAll(stream) == match Read(stream) case Got(m, rest) => [m] + ReadAll(rest) case _ => []
    ensures Read(stream).Got? ==> |Read(stream).rest| < |stream|
  {
  }

  /** The reader returns exactly the messages the stream starts with, up to bytes that are no message. */
  lemma {:induction false} ReadAllExactly(stream: bytes, ms: seq<ControlMessage>)
    ensures ReadAll(stream) == ms
       <==> EncodeAll(ms) <= stream && !Read(stream[|EncodeAll(ms)|..]).Got?
    decreases |stream|
  {
    hide Encode, Read, ReadAll;
    if EncodeAll(ms) <= stream && !Read(stream[|EncodeAll(ms)|..]).Got? {
      var tail := stream[|EncodeAll(ms)|..];
      assert stream == EncodeAll(ms) + tail;
      ReadAllInverts(ms, tail);
      ReadOn(tail);
    }
    if ReadAll(stream) == ms {
      ReadOn(stream);
      if Read(stream).Got? {
        EncodeInvertsRead(stream);
        var rest := Read(stream).rest;
        ReadAllExactly(rest, ms[1..]);
        assert stream[|EncodeAll(ms)|..] == rest[|EncodeAll(ms[1..])|..];
      }
    }
  }

  /** How many whole messages lie within the first n bytes. */
  function WholeWithin(ms: seq<ControlMessage>, n: nat): (k: nat)
    ensures k <= |ms|
  {
    if ms == [] || |Encode(ms[0])| > n then 0
    else 1 + WholeWithin(ms[1..], n - |Encode(ms[0])|)
  }

  lemma StrictPrefixUnreadable(m: ControlMessage, n: nat)
    requires n < |Encode(m)|
    ensures !Read(Encode(m)[..n]).Got?
  {
  }

  /** A cut after the first message, and one within it. */
  lemma CutParts(ms: seq<ControlMessage>, n: nat)
    requires ms != [] && n <= |EncodeAll(ms)|
    ensures var (first, rest) := (Encode(ms[0]), EncodeAll(ms[1..]));
            if n < |first| then EncodeAll(ms)[..n] == first[..n] && ms[..WholeWithin(ms, n)] == []
            else
              && n - |first| <= |rest|
              && EncodeAll(ms)[..n] == first + rest[..n - |first|]
              && ms[..WholeWithin(ms, n)] == [ms[0]] + ms[1..][..WholeWithin(ms[1..], n - |first|)]
  {
    hide Encode;
  }

  /** A stream cut anywhere yields exactly the messages that were complete before the cut. */
  lemma {:induction false} CutStream(ms: seq<ControlMessage>, n: nat)
    requires n <= |EncodeAll(ms)|
    ensures ReadAll(EncodeAll(ms)[..n]) == ms[..WholeWithin(ms, n)]
    decreases |ms|
  {
    if ms != [] {
      hide *;
      CutParts(ms, n);
      ReadOn(EncodeAll(ms)[..n]);
      if n < |Encode(ms[0])| {
        StrictPrefixUnreadable(ms[0], n);
      } else {
        var later := n - |Encode(ms[0])|;
        ReadInvertsEncode(ms[0], EncodeAll(ms[1..])[..later]);
        CutStream(ms[1..], later);
      }
    }
  }

  // ---------------------------------------------------------------------------
  // The two report tasks
  // ---------------------------------------------------------------------------

  /** Before message i is handled Alice makes the commits meanwhile(i), under the log's lock as well. */
  type Meanwhile = nat -> seq<bytes>

  function Commits(commits: seq<bytes>): (events: seq<LogEvent>)
    ensures forall event <- events :: event.Committed?
  {
    if commits == [] then [] else Commits(commits[..|commits| - 1]) + [Committed(commits[|commits| - 1])]
  }

  /** What the log sees of one message. */
  function Handled(m: ControlMessage): seq<LogEvent> {
    match m case Report(k) => [Reported(k)] case Hello => []
  }

  /** What happens to the log while these messages are handled. */
  function Interleaved(ms: seq<ControlMessage>, meanwhile: Meanwhile): (events: seq<LogEvent>)
    ensures forall event <- events :: !event.Unlogged?
  {
    if ms == [] then []
    else
      var n := |ms| - 1;
      Interleaved(ms[..n], meanwhile) + Commits(meanwhile(n)) + Handled(ms[n])
  }

  /** How many commits Alice has made when message n - 1 is handled. */
  function Made(meanwhile: Meanwhile, n: nat): nat {
    if n == 0 then 0 else Made(meanwhile, n - 1) + |meanwhile(n - 1)|
  }

  lemma {:induction false} CommitsRun(v: LogView, commits: seq<bytes>)
    requires v.current + |commits| < U64_LIMIT
    ensures CommitCount(Commits(commits)) == |commits|
    ensures RunLog(v, Commits(commits)).checkpoint == v.checkpoint
    decreases |commits|
  {
    if commits != [] {
      var init := commits[..|commits| - 1];
      CommitsRun(v, init);
      assert Commits(commits)[..|Commits(commits)| - 1] == Commits(init);
    }
  }

  /** Message n and the commits before it, on top of the messages before. */
  lemma {:induction false} InterleavedRuns(v: LogView, ms: seq<ControlMessage>, meanwhile: Meanwhile)
    requires v.current + Made(meanwhile, |ms|) < U64_LIMIT
    ensures CommitCount(Interleaved(ms, meanwhile)) == Made(meanwhile, |ms|)
    ensures ms != [] ==>
      var n := |ms| - 1;
      && CommitCount(Interleaved(ms[..n], meanwhile)) == Made(meanwhile, n)
      && CommitCount(Commits(meanwhile(n))) == |meanwhile(n)|
      && var mid := RunLog(RunLog(v, Interleaved(ms[..n], meanwhile)), Commits(meanwhile(n)));
         && mid.checkpoint == RunLog(v, Interleaved(ms[..n], meanwhile)).checkpoint
         && RunLog(v, Interleaved(ms, meanwhile)) == if ms[n].Report? then LogTrim(mid, ms[n].epoch) else mid
    decreases |ms|
  {
    hide LogTrim, LogCommit, RunLog, CommitCount, Commits, Handled;
    if ms == [] {
      NoEventRuns(v);
    } else {
      var n := |ms| - 1;
      var before, commits, last := Interleaved(ms[..n], meanwhile), Commits(meanwhile(n)), Handled(ms[n]);
      InterleavedRuns(v, ms[..n], meanwhile);
      CommitsRun(RunLog(v, before), meanwhile(n));
      RunLogConcat(v, before, commits);
      HandledRuns(RunLog(v, before + commits), ms[n]);
      RunLogConcat(v, before + commits, last);
    }
  }

  lemma HandledRuns(v: LogView, m: ControlMessage)
    ensures CommitCount(Handled(m)) == 0
    ensures RunLog(v, Handled(m)) == if m.Report? then LogTrim(v, m.epoch) else v
  {
    hide LogTrim;
    if m.Report? {
      assert Handled(m)[..0] == [];
    }
  }

  lemma CommitsGrow(v: LogView, commits: seq<bytes>, i: nat)
    requires i <= |commits| && v.current + |commits| < U64_LIMIT
    ensures CommitCount(Commits(commits[..i])) == i
    ensures i == 0 ==> RunLog(v, Commits(commits[..i])) == v
    ensures i < |commits| ==>
      && CommitCount(Commits(commits[..i + 1])) == i + 1
      && RunLog(v, Commits(commits[..i + 1])) == LogCommit(RunLog(v, Commits(commits[..i])), commits[i])
  {
    hide LogCommit, RunLog, CommitCount;
    CommitsRun(v, commits[..i]);
    if i == 0 {
      NoEventRuns(v);
    }
    if i < |commits| {
      assert commits[..i + 1][..i] == commits[..i];
      assert Commits(commits[..i + 1]) == Commits(commits[..i]) + [Committed(commits[i])];
      RunLogCommits(v, Commits(commits[..i]), commits[i]);
    }
  }

  lemma NoEventRuns(v: LogView)
    ensures CommitCount([]) == 0 && RunLog(v, []) == v
  {
  }

  method CommitAll(log: CommitLog, commits: seq<bytes>)
    requires log.Valid() && log.currentEpoch + |commits| < U64_LIMIT
    modifies log`commitLog, log`currentEpoch, log.inner
    ensures log.Valid()
    ensures CommitCount(Commits(commits)) == |commits|
    ensures log.View() == RunLog(old(log.View()), Commits(commits))
  {
    hide RunLog, Commits, CommitCount, LogCommit;
    CommitsRun(log.View(), commits);
    CommitsGrow(log.View(), commits, 0);
    for i := 0 to |commits|
      invariant log.Valid()
      invariant CommitCount(Commits(commits[..i])) == i
      invariant log.View() == RunLog(old(log.View()), Commits(commits[..i]))
    {
      CommitsGrow(old(log.View()), commits, i);
      var made := log.CreateCommit(Makes(commits[i]));
    }
    assert commits[..|commits|] == commits;
  }

  /** One message handled, after the commits Alice makes while it is awaited. */
  method Handle(log: CommitLog, commits: seq<bytes>, m: ControlMessage)
    requires log.Valid() && log.currentEpoch + |commits| < U64_LIMIT
    modifies log`commitLog, log`currentEpoch, log`checkpoint, log.inner
    ensures log.Valid()
    ensures CommitCount(Commits(commits)) == |commits|
    ensures var mid := RunLog(old(log.View()), Commits(commits));
            log.View() == if m.Report? then LogTrim(mid, m.epoch) else mid
  {
    hide RunLog, Commits, CommitCount, LogTrim;
    CommitAll(log, commits);
    match m
    case Report(k) => log.Trim(k);
    case Hello =>
  }

  /** Trims by each report as it is read, while Alice goes on committing in between. */
  method RunReportReceiver(log: CommitLog, stream: RecvStream, meanwhile: Meanwhile)
    requires log.Valid()
    requires log.currentEpoch + Made(meanwhile, |ReadAll(stream.rest)|) < U64_LIMIT
    modifies log`commitLog, log`currentEpoch, log`checkpoint, log.inner, stream
    ensures log.Valid()
    ensures CommitCount(Interleaved(ReadAll(old(stream.rest)), meanwhile))
         == Made(meanwhile, |ReadAll(old(stream.rest))|)
    ensures log.View() == RunLog(old(log.View()), Interleaved(ReadAll(old(stream.rest)), meanwhile))
  {
    hide Read, ReadAll, RunLog, Interleaved, Commits, CommitCount, LogTrim, Made;
    ghost var messages, start := ReadAll(stream.rest), log.View();
    InterleavedRuns(start, messages, meanwhile);
    NothingHandled(start, meanwhile);
    var i := 0;
    assert messages[..i] == [];
    while true
      invariant log.Valid()
      invariant log.inner == old(log.inner)
      invariant 0 <= i <= |messages| && messages[i..] == ReadAll(stream.rest)
      invariant CommitCount(Interleaved(messages[..i], meanwhile)) == Made(meanwhile, i)
      invariant start.current + Made(meanwhile, i) < U64_LIMIT
      invariant log.View() == RunLog(start, Interleaved(messages[..i], meanwhile))
      decreases |stream.rest|
    {
      ghost var rest := messages[i..];
      ReadOn(stream.rest);
      var r := stream.ReadMessage();
      if r == None {
        break;
      }
      assert rest[0] == r.value && rest[1..] == messages[i + 1..];
      assert messages[..i + 1][..i] == messages[..i];
      MadeGrows(meanwhile, i + 1, |messages|);
      OneMore(meanwhile, i);
      InterleavedRuns(start, messages[..i + 1], meanwhile);
      Handle(log, meanwhile(i), r.value);
      i := i + 1;
    }
    assert messages[..i] == messages;
  }

  lemma OneMore(meanwhile: Meanwhile, n: nat)
    ensures Made(meanwhile, n + 1) == Made(meanwhile, n) + |meanwhile(n)|
  {
  }

  lemma TrimmedTo(v: LogView, k: u64)
    ensures LogTrim(v, k).checkpoint == Max(v.checkpoint, Min(k, v.current))
  {
  }

  lemma {:induction false} MadeGrows(meanwhile: Meanwhile, m: nat, n: nat)
    requires m <= n
    ensures Made(meanwhile, m) <= Made(meanwhile, n)
  {
    if m < n {
      MadeGrows(meanwhile, m, n - 1);
    }
  }

  /**
   One turn of the sender: the watched epoch, whether to report it, and after how many bytes the write
   or its flush fails, if it does.
   */
  datatype Turn = Turn(epoch: u64, shouldReport: bool, failsAfter: Option<nat>)

  /** The reports whose writes succeeded: those before the first failed one. */
  function ReportsOf(turns: seq<Turn>): (ms: seq<ControlMessage>)
    ensures forall m <- ms :: m.Report?
  {
    if turns == [] then []
    else if !turns[0].shouldReport then ReportsOf(turns[1..])
    else if turns[0].failsAfter.Some? then []
    else [Report(turns[0].epoch)] + ReportsOf(turns[1..])
  }

  /** The reports begun: one more than those when a write failed. */
  function Attempted(turns: seq<Turn>): (ms: seq<ControlMessage>)
    ensures forall m <- ms :: m.Report?
  {
    if turns == [] then []
    else if !turns[0].shouldReport then Attempted(turns[1..])
    else if turns[0].failsAfter.Some? then [Report(turns[0].epoch)]
    else [Report(turns[0].epoch)] + Attempted(turns[1..])
  }

  /** The bytes of a message the stream took before the write failed. */
  function Partial(message: bytes, failsAfter: nat): bytes {
    message[..Min(failsAfter, |message|)]
  }

  /** What the stream took. */
  function WireOf(turns: seq<Turn>): bytes {
    if turns == [] then []
    else if !turns[0].shouldReport then WireOf(turns[1..])
    else
      var message := Encode(Report(turns[0].epoch));
      match turns[0].failsAfter
      case Some(n) => Partial(message, n)
      case None => message + WireOf(turns[1..])
  }

  /** `turns` is what the watch channel shows until its sender is gone. */
  method RunReportSender(stream: SendStream, turns: seq<Turn>)
    modifies stream
    ensures stream.written == old(stream.written) + WireOf(turns)
  {
    for i := 0 to |turns|
      invariant stream.written + WireOf(turns[i..]) == old(stream.written) + WireOf(turns)
    {
      var turn := turns[i];
      assert turns[i..][1..] == turns[i + 1..];
      if turn.shouldReport {
        var ok := stream.WriteMessage(Report(turn.epoch), turn.failsAfter);
        if !ok {
          return;
        }
      }
    }
  }

  /** What the stream took is a front of the reports begun, and holds in whole those whose writes succeeded. */
  lemma {:induction false} WireIsFront(turns: seq<Turn>)
    ensures WireOf(turns) <= EncodeAll(Attempted(turns))
    ensures EncodeAll(ReportsOf(turns)) <= WireOf(turns)
    ensures ReportsOf(turns) <= Attempted(turns) && |Attempted(turns)| <= |ReportsOf(turns)| + 1
    decreases |turns|
  {
    hide Encode;
    if turns != [] {
      WireIsFront(turns[1..]);
      if turns[0].shouldReport && turns[0].failsAfter.Some? {
        var m := Report(turns[0].epoch);
        assert EncodeAll([m]) == Encode(m) + EncodeAll([]);
      }
    }
  }

  /** A turn that reports gives its epoch. */
  predicate Reports(turn: Turn, m: ControlMessage) {
    turn.shouldReport && m == Report(turn.epoch)
  }

  /**
   The sender in terms of its turns: up to the first write that fails, `f`, each turn that should report
   does so, once, in order and with the epoch it saw, and the others write nothing; of the failing report
   as many bytes are left on the stream as it took.
   */
  lemma {:induction false} SenderExactly(turns: seq<Turn>) returns (f: nat)
    ensures f <= |turns|
    ensures forall i :: 0 <= i < f ==> turns[i].shouldReport ==> turns[i].failsAfter == None
    ensures f < |turns| ==> turns[f].shouldReport && turns[f].failsAfter.Some?
    ensures ExactlyFrom(turns[..f], Reports, ReportsOf(turns))
    ensures f == |turns| ==> Attempted(turns) == ReportsOf(turns) && WireOf(turns) == EncodeAll(ReportsOf(turns))
    ensures f < |turns| ==>
      var (m, n) := (Encode(Report(turns[f].epoch)), turns[f].failsAfter.value);
      && Attempted(turns) == ReportsOf(turns) + [Report(turns[f].epoch)]
      && WireOf(turns) == EncodeAll(ReportsOf(turns)) + if n <= |m| then m[..n] else m
    decreases |turns|
  {
    hide Encode, EncodeAll, ReportsOf, Attempted, WireOf, ExactlyFrom;
    SenderTurn(turns);
    if turns == [] || (turns[0].shouldReport && turns[0].failsAfter.Some?) {
      f := 0;
      PickedNone(turns[..0], Reports);
    } else {
      f := SenderExactly(turns[1..]);
      f := f + 1;
      assert turns[..f][1..] == turns[1..][..f - 1];
      var first := if turns[0].shouldReport then [Report(turns[0].epoch)] else [];
      PickedFirst(turns[..f], Reports, first, ReportsOf(turns[1..]));
      EncodeAllOne(first, ReportsOf(turns[1..]));
    }
  }

  /** What one turn adds. */
  lemma SenderTurn(turns: seq<Turn>)
    ensures EncodeAll([]) == []
    ensures turns == [] ==> ReportsOf(turns) == Attempted(turns) == [] && WireOf(turns) == []
    ensures turns != [] ==>
      var first := if turns[0].shouldReport then [Report(turns[0].epoch)] else [];
      if turns[0].shouldReport && turns[0].failsAfter.Some? then
        var (m, n) := (Encode(Report(turns[0].epoch)), turns[0].failsAfter.value);
        && ReportsOf(turns) == [] && Attempted(turns) == first
        && WireOf(turns) == if n <= |m| then m[..n] else m
      else
        && ReportsOf(turns) == first + ReportsOf(turns[1..])
        && Attempted(turns) == first + Attempted(turns[1..])
        && WireOf(turns) == EncodeAll(first) + WireOf(turns[1..])
  {
    hide Encode;
    if turns != [] && turns[0].shouldReport {
      EncodeAllOne([Report(turns[0].epoch)], []);
    }
  }

  lemma EncodeAllOne(first: seq<ControlMessage>, rest: seq<ControlMessage>)
    requires |first| <= 1
    ensures EncodeAll(first + rest) == EncodeAll(first) + EncodeAll(rest)
    ensures |first| == 1 ==> EncodeAll(first) == Encode(first[0])
  {
    hide Encode;
    if first == [] {
      assert first + rest == rest;
    } else {
      assert (first + rest)[1..] == rest && first[1..] == [];
      assert EncodeAll(first) == Encode(first[0]) + [];
    }
  }

  /** The bytes of a message: a report is 0x02 and its epoch, most significant byte first; a greeting is 0x03. */
  lemma MessageBytes(m: ControlMessage)
    ensures Encode(m) == match m case Report(epoch) => [0x02] + U64Be(epoch) case Hello => [0x03]
  {
  }

  /** The largest epoch reported, or `low` when none is larger. */
  function LargestReport(low: u64, ms: seq<ControlMessage>): (r: u64)
    ensures low <= r
  {
    if ms == [] then low
    else
      var before := LargestReport(low, ms[..|ms| - 1]);
      if ms[|ms| - 1].Report? then Max(before, ms[|ms| - 1].epoch) else before
  }

  /** With no commit in between, any run of reports has the effect of its largest one, clamped. */
  lemma {:induction false} QuietReportsAreTheLargest(v: LogView, ms: seq<ControlMessage>, meanwhile: Meanwhile)
    requires LogValid(v) && forall i: nat :: meanwhile(i) == []
    ensures CommitCount(Interleaved(ms, meanwhile)) == 0
    ensures RunLog(v, Interleaved(ms, meanwhile)) == LogTrim(v, LargestReport(0, ms))
    decreases |ms|
  {
    hide LogTrim;
    NothingMade(meanwhile, |ms|);
    InterleavedRuns(v, ms, meanwhile);
    if ms == [] {
      TrimmedByNothing(v);
    } else {
      var n := |ms| - 1;
      QuietReportsAreTheLargest(v, ms[..n], meanwhile);
      if ms[n].Report? {
        TwoReportsAreTheLarger(v, LargestReport(0, ms[..n]), ms[n].epoch);
      }
    }
  }

  lemma TrimmedByNothing(v: LogView)
    requires LogValid(v)
    ensures LogTrim(v, 0) == v
  {
    assert LogTrim(v, 0).log == v.log;
  }

  lemma {:induction false} NothingMade(meanwhile: Meanwhile, n: nat)
    requires forall i: nat :: meanwhile(i) == []
    ensures Made(meanwhile, n) == 0
  {
    if n > 0 {
      NothingMade(meanwhile, n - 1);
    }
  }

  lemma NothingHandled(v: LogView, meanwhile: Meanwhile)
    ensures CommitCount(Interleaved([], meanwhile)) == 0 == Made(meanwhile, 0)
    ensures RunLog(v, Interleaved([], meanwhile)) == v
  {
  }

  /** What report i is worth: its epoch, clamped to the commits Alice has made when it is handled. */
  function Worth(v: LogView, ms: seq<ControlMessage>, meanwhile: Meanwhile, i: nat): int
    requires i < |ms|
  {
    if ms[i].Report? then Min(ms[i].epoch, v.current + Made(meanwhile, i + 1)) else 0
  }

  /** The checkpoint is the largest of these; the log stays exact, and all of Alice's commits are in it. */
  lemma {:induction false} ReportsAreClampedInTurn(v: LogView, ms: seq<ControlMessage>, meanwhile: Meanwhile)
    requires v.current + Made(meanwhile, |ms|) < U64_LIMIT
    ensures CommitCount(Interleaved(ms, meanwhile)) == Made(meanwhile, |ms|)
    ensures var r := RunLog(v, Interleaved(ms, meanwhile));
            && v.checkpoint <= r.checkpoint
            && (forall i :: 0 <= i < |ms| ==> Worth(v, ms, meanwhile, i) <= r.checkpoint)
            && (r.checkpoint == v.checkpoint || exists i :: 0 <= i < |ms| && Worth(v, ms, meanwhile, i) == r.checkpoint)
    decreases |ms|
  {
    hide RunLog, Interleaved, Commits, CommitCount, LogTrim;
    InterleavedRuns(v, ms, meanwhile);
    if ms == [] {
      NothingHandled(v, meanwhile);
    } else {
      var n := |ms| - 1;
      var init := ms[..n];
      if ms[n].Report? {
        TrimmedTo(RunLog(RunLog(v, Interleaved(init, meanwhile)), Commits(meanwhile(n))), ms[n].epoch);
      }
      ReportsAreClampedInTurn(v, init, meanwhile);
      var before, r := RunLog(v, Interleaved(init, meanwhile)), RunLog(v, Interleaved(ms, meanwhile));
      forall i | 0 <= i < n
        ensures Worth(v, ms, meanwhile, i) == Worth(v, init, meanwhile, i)
      {
      }
      assert Worth(v, ms, meanwhile, n) <= r.checkpoint;
      if before.checkpoint == r.checkpoint && r.checkpoint != v.checkpoint {
        var i :| 0 <= i < n && Worth(v, init, meanwhile, i) == r.checkpoint;
        assert Worth(v, ms, meanwhile, i) == r.checkpoint;
      }
    }
  }

  /**
   End to end, with writes that fail half way, a connection that dies anywhere and commits going on
   meanwhile: exactly the reports complete in the bytes that arrive are read, the log stays exact, and
   its checkpoint becomes the largest of them, each clamped to what Alice has committed by then.
   */
  lemma ReportsArriveWhole(v: LogView, turns: seq<Turn>, n: nat, meanwhile: Meanwhile)
    requires Tracks(v) && n <= |WireOf(turns)|
    requires v.current + Made(meanwhile, |Attempted(turns)|) < U64_LIMIT
    ensures var whole := Attempted(turns)[..WholeWithin(Attempted(turns), n)];
            && ReadAll(WireOf(turns)[..n]) == whole
            && (n == |WireOf(turns)| ==> ReportsOf(turns) <= whole)
            && v.current + CommitCount(Interleaved(whole, meanwhile)) < U64_LIMIT
            && var r := RunLog(v, Interleaved(whole, meanwhile));
               && Tracks(r) && v.checkpoint <= r.checkpoint
               && (forall i :: 0 <= i < |whole| ==> Worth(v, whole, meanwhile, i) <= r.checkpoint)
               && (r.checkpoint == v.checkpoint
                   || exists i :: 0 <= i < |whole| && Worth(v, whole, meanwhile, i) == r.checkpoint)
  {
    hide Encode, LogTrim, LogCommit, RunLog, Interleaved, Made, CommitCount, ReadAll, WireOf, EncodeAll, Worth, Tracks;
    var attempted := Attempted(turns);
    WireIsFront(turns);
    var k := WholeWithin(attempted, n);
    assert WireOf(turns)[..n] == EncodeAll(attempted)[..n];
    CutStream(attempted, n);
    MadeGrows(meanwhile, k, |attempted|);
    ReportsAreClampedInTurn(v, attempted[..k], meanwhile);
    RunLogTracks(v, Interleaved(attempted[..k], meanwhile));
    if n == |WireOf(turns)| {
      AllThatFits(ReportsOf(turns), attempted, n);
    }
  }

  lemma {:induction false} AllThatFits(some: seq<ControlMessage>, all: seq<ControlMessage>, n: nat)
    requires some <= all && |EncodeAll(some)| <= n
    ensures |some| <= WholeWithin(all, n)
    decreases |some|
  {
    if some != [] {
      AllThatFits(some[1..], all[1..], n - |Encode(all[0])|);
    }
  }
}
