/**
 The two-party protocol the testbed runs: Alice commits, sends her window and trims on reports;
 the network loses, repeats and reorders datagrams and reports; Bob applies what reaches him.

 Alice's snapshot of her window and her commits and trims are separate steps, since each takes
 the log's lock on its own.
 */
module Protocol {
  import opened Bytes
  import opened Group
  import opened Transcript
  import opened Buckets
  import opened Preamble
  import opened Pipeline
  import opened SenderLog

  /** Bob's sink: the group and epoch it updates under their locks, and the watched epoch. */
  class Receiver {
    const group: MlsGroup
    var localEpoch: u64
    var published: u64

    constructor (group: MlsGroup)
      ensures this.group == group && localEpoch == 0 && published == 0
    {
      this.group := group;
      localEpoch, published := 0, 0;
    }

    method OnWindow(window: Window)
      modifies this, group
      ensures var r := ApplyWindow(group.accepts, old(group.applied), window, old(localEpoch));
              && group.applied == r.group && localEpoch == r.epoch
              && published == if r.epoch != old(localEpoch) then r.epoch else old(published)
    {
      var before := localEpoch;
      var status, epoch := ApplyCommitWindow(group, window, localEpoch);
      localEpoch := epoch;
      if epoch != before {
        published := epoch;
      }
    }
  }

  /** `budget` is transcript_max_bytes; `capacity` the size of Bob's receive buffers. */
  datatype Config = Config(budget: nat, capacity: nat)

  ghost predicate Sane(cfg: Config) {
    cfg.capacity >= MAX_DATAGRAM_PAYLOAD
  }

  datatype State = State(
    alice: LogView,
    outgoing: seq<bytes>,   // datagrams of the snapshot still to be sent
    net: set<bytes>,        // datagrams in flight; delivering one does not consume it
    bob: Position,
    published: u64,
    reports: set<u64>       // reports in flight
  )

  const INIT := State(EMPTY_LOG, [], {}, Position([], 0), 0, {})

  datatype Step =
    | Commit(commit: bytes)                          // online or offline
    | Snapshot                                       // window_bytes, cut into datagrams
    | SendNext
    | AbortSend                                      // send_to failed
    | QuicPacket(packet: bytes)                      // anything else on the same sockets
    | Deliver(datagram: bytes, accepts: Acceptor)    // and the library may refuse at will
    | Lose(datagram: bytes)
    | Publish
    | Report
    | Acknowledge(epoch: u64)                        // a report reaches Alice; it may do so again
    | LoseReport(epoch: u64)

  predicate Enabled(s: State, step: Step) {
    match step
    case Commit(_) => s.alice.current + 1 < U64_LIMIT
    case Snapshot => s.alice.checkpoint <= s.alice.current
    case SendNext => s.outgoing != []
    case QuicPacket(p) => p == [] || !IsPreambleMarker(p[0])
    case Deliver(d, _) => d in s.net
    case Acknowledge(k) => k in s.reports
    case _ => true
  }

  /** What Bob's socket hands the sink for one arriving datagram. */
  function SunkBy(cfg: Config, datagram: bytes): seq<Window> {
    SinkCall(true, Received(cfg.capacity, datagram))
  }

  ghost function Next(cfg: Config, s: State, step: Step): State
    requires Enabled(s, step)
  {
    match step
    case Commit(c) => s.(alice := LogCommit(s.alice, c))
    case Snapshot => s.(outgoing := DatagramsOf(LogWindow(s.alice), cfg.budget))
    case SendNext => s.(outgoing := s.outgoing[1..], net := s.net + {s.outgoing[0]})
    case AbortSend => s.(outgoing := [])
    case QuicPacket(p) => s.(net := s.net + {p})
    case Deliver(d, accepts) => s.(bob := DeliverAll(accepts, s.bob, SunkBy(cfg, d)))
    case Lose(d) => s.(net := s.net - {d})
    case Publish => s.(published := s.bob.epoch)
    case Report => s.(reports := s.reports + {s.published})
    case Acknowledge(k) => s.(alice := LogTrim(s.alice, k))
    case LoseReport(k) => s.(reports := s.reports - {k})
  }

  ghost predicate CanRun(cfg: Config, s: State, steps: seq<Step>)
    decreases |steps|
  {
    steps == [] || (Enabled(s, steps[0]) && CanRun(cfg, Next(cfg, s, steps[0]), steps[1..]))
  }

  ghost function Run(cfg: Config, s: State, steps: seq<Step>): State
    requires CanRun(cfg, s, steps)
    decreases |steps|
  {
    if steps == [] then s else Run(cfg, Next(cfg, s, steps[0]), steps[1..])
  }

  lemma {:induction false} RunConcat(cfg: Config, s: State, a: seq<Step>, b: seq<Step>)
    requires CanRun(cfg, s, a) && CanRun(cfg, Run(cfg, s, a), b)
    ensures CanRun(cfg, s, a + b) && Run(cfg, s, a + b) == Run(cfg, Run(cfg, s, a), b)
    decreases |a|
  {
    hide Next, Enabled;
    if a == [] {
      assert a + b == b;
    } else {
      assert (a + b)[1..] == a[1..] + b;
      RunConcat(cfg, Next(cfg, s, a[0]), a[1..], b);
    }
  }

  // ---------------------------------------------------------------------------
  // Safety over every run
  // ---------------------------------------------------------------------------

  /** The commit can be sent at all: within the total budget, and within one datagram. */
  predicate CommitFits(cfg: Config, commit: bytes) {
    12 + |commit| <= cfg.budget && HEADER_LEN + 12 + |commit| <= BUCKET_BUDGET
  }

  /** In numbers: at most 1179 bytes, and at most the budget less 12. */
  lemma FitsExactly(cfg: Config, commit: bytes)
    ensures CommitFits(cfg, commit) <==> |commit| <= 1179 && |commit| + 12 <= cfg.budget
  {
  }

  /** A non-empty run of consecutive epochs of the history, each with its own commit. */
  ghost predicate IsSlice(history: History, w: Window)
    requires |history| < U64_LIMIT
  {
    && w != [] && w[0].epoch >= 1
    && w[0].epoch - 1 + |w| <= |history|
    && w == Slice(history, w[0].epoch - 1, w[0].epoch - 1 + |w|)
  }

  /** A datagram in flight is QUIC's, or decodes to a slice of Alice's history made of commits that fit. */
  ghost predicate Carries(cfg: Config, history: History, datagram: bytes)
    requires |history| < U64_LIMIT
  {
    match ParsePreamble(datagram)
    case NotPreamble => true
    case Preamble(Err(_)) => false
    case Preamble(Ok(w)) =>
      && |datagram| <= MAX_DATAGRAM_PAYLOAD
      && IsSlice(history, w)
      && forall i :: 0 <= i < |w| ==> CommitFits(cfg, w[i].commit)
  }

  ghost predicate Inv(cfg: Config, s: State) {
    // Alice's log numbers her whole history and keeps the unacknowledged part of it
    && Tracks(s.alice)
    // Bob holds the first local_epoch commits of that history, all of them sendable ones
    && s.bob.epoch <= s.alice.current
    && s.bob.group == s.alice.applied[..s.bob.epoch]
    && (forall i :: 0 <= i < |s.bob.group| ==> CommitFits(cfg, s.bob.group[i]))
    // acknowledgements never run ahead of Bob
    && s.alice.checkpoint <= s.bob.epoch
    && s.published <= s.bob.epoch
    && (forall k <- s.reports :: k <= s.bob.epoch)
    // nothing in flight is anything but a piece of the history
    && (forall d <- s.net :: Carries(cfg, s.alice.applied, d))
    && (forall i :: 0 <= i < |s.outgoing| ==> Carries(cfg, s.alice.applied, s.outgoing[i]))
  }

  /** Nothing is ever taken back: epochs only rise and histories only grow at the end. */
  ghost predicate Grows(s: State, t: State) {
    && s.alice.applied <= t.alice.applied
    && s.alice.current <= t.alice.current
    && s.alice.checkpoint <= t.alice.checkpoint
    && s.bob.epoch <= t.bob.epoch
    && s.bob.group <= t.bob.group
    && s.published <= t.published
  }

  lemma CarriesLater(cfg: Config, history: History, later: History, datagram: bytes)
    requires |later| < U64_LIMIT && history <= later
    requires Carries(cfg, history, datagram)
    ensures Carries(cfg, later, datagram)
  {
    hide ParsePreamble;
    match ParsePreamble(datagram)
    case Preamble(Ok(w)) =>
      assert w == Slice(later, w[0].epoch - 1, w[0].epoch - 1 + |w|);
    case _ =>
  }

  /** What is selected from a slice is the slice's front, and all of it fits. */
  lemma SelectedSlice(cfg: Config, history: History, a: nat, c: nat)
    requires a <= c <= |history| < U64_LIMIT
    ensures var sent := Selected(Slice(history, a, c), cfg.budget, BUCKET_BUDGET);
            && a + |sent| <= c
            && sent == Slice(history, a, a + |sent|)
            && forall i :: 0 <= i < |sent| ==> CommitFits(cfg, sent[i].commit)
  {
    var w := Slice(history, a, c);
    var sent := Selected(w, cfg.budget, BUCKET_BUDGET);
    SelectedIsLongest(w, cfg.budget, BUCKET_BUDGET, |sent|);
    assert w[..|sent|] == sent;
    forall i | 0 <= i < |sent|
      ensures CommitFits(cfg, sent[i].commit)
    {
      BodyLenPrefix(sent, i, |sent|);
      assert sent[..|sent|] == sent;
    }
  }

  /** Bucket i of a slice's selection is a slice itself, following those of the buckets before it. */
  lemma BucketIsSlice(cfg: Config, history: History, a: nat, c: nat, i: nat)
    requires a <= c <= |history| < U64_LIMIT
    requires i < |BucketsOf(Slice(history, a, c), cfg.budget, BUCKET_BUDGET)|
    ensures var buckets := BucketsOf(Slice(history, a, c), cfg.budget, BUCKET_BUDGET);
            var from := a + |Flatten(buckets[..i])|;
            && from + |buckets[i]| <= a + |Selected(Slice(history, a, c), cfg.budget, BUCKET_BUDGET)| <= c
            && Flatten(buckets[..i]) == Slice(history, a, from)
            && buckets[i] == Slice(history, from, from + |buckets[i]|)
            && (forall j :: 0 <= j < |buckets[i]| ==> CommitFits(cfg, buckets[i][j].commit))
  {
    hide BucketsOf, EncodedLen, CommitFits, Flatten, Selected;
    var w := Slice(history, a, c);
    var buckets := BucketsOf(w, cfg.budget, BUCKET_BUDGET);
    var sent := Selected(w, cfg.budget, BUCKET_BUDGET);
    BucketsAreOptimal(w, cfg.budget, BUCKET_BUDGET, []);
    SelectedSlice(cfg, history, a, c);
    BucketIsStretch(buckets, i);
    var offset := |Flatten(buckets[..i])|;
    assert sent[offset..offset + |buckets[i]|] == Slice(history, a + offset, a + offset + |buckets[i]|);
    assert sent[..offset] == Slice(history, a, a + offset);
    forall j | 0 <= j < |buckets[i]|
      ensures CommitFits(cfg, buckets[i][j].commit)
    {
      assert buckets[i][j] == sent[offset + j];
    }
  }

  lemma BucketCarries(cfg: Config, history: History, a: nat, c: nat, i: nat)
    requires a <= c <= |history| < U64_LIMIT
    requires i < |BucketsOf(Slice(history, a, c), cfg.budget, BUCKET_BUDGET)|
    ensures Carries(cfg, history, DatagramOf(BucketsOf(Slice(history, a, c), cfg.budget, BUCKET_BUDGET)[i]))
  {
    hide DatagramOf, ParsePreamble, BucketsOf, EncodedLen, CommitFits, TranscriptOf;
    var buckets := BucketsOf(Slice(history, a, c), cfg.budget, BUCKET_BUDGET);
    BucketIsSlice(cfg, history, a, c, i);
    BucketIsSendable(Slice(history, a, c), cfg.budget, i);
    BucketDatagram(buckets[i]);
    assert IsSlice(history, buckets[i]);
  }

  lemma SnapshotKeepsInv(cfg: Config, s: State)
    requires Inv(cfg, s)
    ensures Inv(cfg, Next(cfg, s, Snapshot))
  {
    hide Carries, CommitFits, DatagramOf, BucketsOf;
    var v := s.alice;
    WindowIsUnacknowledgedHistory(v);
    var buckets := BucketsOf(LogWindow(v), cfg.budget, BUCKET_BUDGET);
    var outgoing := DatagramsOf(LogWindow(v), cfg.budget);
    forall i | 0 <= i < |outgoing|
      ensures Carries(cfg, v.applied, outgoing[i])
    {
      BucketCarries(cfg, v.applied, v.checkpoint, v.current, i);
    }
  }

  /** One delivered datagram, whatever the library does with its commits. */
  lemma DeliveryKeepsPrefix(cfg: Config, history: History, at: Position, datagram: bytes, accepts: Acceptor)
    requires Sane(cfg) && |history| < U64_LIMIT && Carries(cfg, history, datagram)
    requires at.epoch <= |history| && at.group == history[..at.epoch]
    ensures var r := DeliverAll(accepts, at, SunkBy(cfg, datagram));
            && at.epoch <= r.epoch <= |history|
            && r.group == history[..r.epoch]
            && forall k :: at.epoch <= k < r.epoch ==> CommitFits(cfg, history[k])
  {
    hide CommitFits, ParseTranscript;
    var received := Received(cfg.capacity, datagram);
    match ParsePreamble(datagram)
    case NotPreamble =>
      assert ParsePreamble(received).NotPreamble?;
    case Preamble(Ok(w)) =>
      assert received == datagram;
      assert SunkBy(cfg, datagram) == [w];
      assert [w][1..] == [];
      GenuineKeepsPrefix(accepts, history, w, at.epoch);
    case _ =>
  }

  lemma DeliverKeepsInv(cfg: Config, s: State, datagram: bytes, accepts: Acceptor)
    requires Sane(cfg) && Inv(cfg, s) && datagram in s.net
    ensures var t := Next(cfg, s, Deliver(datagram, accepts));
            Inv(cfg, t) && Grows(s, t)
  {
    hide Carries, CommitFits, SunkBy;
    DeliveryKeepsPrefix(cfg, s.alice.applied, s.bob, datagram, accepts);
  }

  /** Every step keeps the invariant and takes nothing back. */
  lemma StepKeepsInv(cfg: Config, s: State, step: Step)
    requires Sane(cfg) && Inv(cfg, s) && Enabled(s, step)
    ensures Inv(cfg, Next(cfg, s, step)) && Grows(s, Next(cfg, s, step))
  {
    match step
    case Snapshot =>
      SnapshotKeepsInv(cfg, s);
    case Deliver(d, accepts) =>
      DeliverKeepsInv(cfg, s, d, accepts);
    case Commit(c) =>
      CommitKeepsInv(cfg, s, c);
    case QuicPacket(p) =>
      hide CommitFits;
    case _ =>
      hide Carries, CommitFits;
  }

  lemma CommitKeepsInv(cfg: Config, s: State, c: bytes)
    requires Inv(cfg, s) && Enabled(s, Commit(c))
    ensures var t := Next(cfg, s, Commit(c));
            Inv(cfg, t) && Grows(s, t)
  {
    hide Carries, CommitFits;
    EventKeepsTracks(s.alice, Committed(c));
    var later := LogCommit(s.alice, c).applied;
    forall d: bytes | d in s.net || d in s.outgoing
      ensures Carries(cfg, later, d)
    {
      CarriesLater(cfg, s.alice.applied, later, d);
    }
  }

  /**
   Safety over every run with loss, duplication and reordering of datagrams and reports, library
   refusals, aborted sends and foreign packets: the invariant holds throughout and nothing is taken back.
   */
  lemma {:induction false} RunsAreSafe(cfg: Config, s: State, steps: seq<Step>)
    requires Sane(cfg) && Inv(cfg, s) && CanRun(cfg, s, steps)
    ensures Inv(cfg, Run(cfg, s, steps)) && Grows(s, Run(cfg, s, steps))
    decreases |steps|
  {
    hide Next, Enabled, Inv;
    if steps != [] {
      StepKeepsInv(cfg, s, steps[0]);
      RunsAreSafe(cfg, Next(cfg, s, steps[0]), steps[1..]);
    }
  }

  ghost predicate Reachable(cfg: Config, s: State) {
    exists steps :: CanRun(cfg, INIT, steps) && Run(cfg, INIT, steps) == s
  }

  lemma ReachableIsSafe(cfg: Config, s: State)
    requires Sane(cfg) && Reachable(cfg, s)
    ensures Inv(cfg, s)
  {
    var steps :| CanRun(cfg, INIT, steps) && Run(cfg, INIT, steps) == s;
    assert Inv(cfg, INIT);
    RunsAreSafe(cfg, INIT, steps);
  }

  /** A commit too large to be sent stops Bob for good: in no continuation of any run does he get past it. */
  lemma OversizeCommitBlocksForever(cfg: Config, s: State, steps: seq<Step>, e: nat)
    requires Sane(cfg) && Inv(cfg, s) && CanRun(cfg, s, steps)
    requires e < |s.alice.applied| && !CommitFits(cfg, s.alice.applied[e])
    ensures Run(cfg, s, steps).bob.epoch <= e
  {
    hide CommitFits, Next;
    RunsAreSafe(cfg, s, steps);
    var t := Run(cfg, s, steps);
    assert t.alice.applied[e] == s.alice.applied[e];
  }
}
