/**
 Liveness of the commit-window protocol: when, how fast and how far Bob catches up.

 A round is a stretch of protocol steps: Bob's report (optional), Alice's snapshot, the sending
 of all its datagrams and their delivery in order.
 */
module Recovery {
  import opened Bytes
  import opened Group
  import opened Transcript
  import opened Buckets
  import opened Preamble
  import opened Pipeline
  import opened SenderLog
  import opened Protocol
  import opened Injection
  import opened Schedules

  function Sends(n: nat): seq<Step> {
    if n == 0 then [] else [SendNext] + Sends(n - 1)
  }

  function Deliveries(datagrams: seq<bytes>, accepts: Acceptor): seq<Step> {
    if datagrams == [] then [] else [Deliver(datagrams[0], accepts)] + Deliveries(datagrams[1..], accepts)
  }

  /** Alice sends her current window and all of it arrives, in order. */
  ghost function SendRound(cfg: Config, s: State, accepts: Acceptor): seq<Step>
    requires Enabled(s, Snapshot)
  {
    var datagrams := Outgoing(cfg, s);
    [Snapshot] + Sends(|datagrams|) + Deliveries(datagrams, accepts)
  }

  /** Bob's epoch is published, reported, and reaches Alice. */
  function ReportRound(s: State): seq<Step> {
    [Publish, Report, Acknowledge(s.bob.epoch)]
  }

  ghost predicate Without(steps: seq<Step>) {
    forall step <- steps :: !step.Commit?
  }

  lemma RunNothing(cfg: Config, s: State)
    ensures CanRun(cfg, s, []) && Run(cfg, s, []) == s
  {
  }

  lemma OneStep(cfg: Config, s: State, step: Step, rest: seq<Step>)
    requires Enabled(s, step) && CanRun(cfg, Next(cfg, s, step), rest)
    ensures CanRun(cfg, s, [step] + rest) && Run(cfg, s, [step] + rest) == Run(cfg, Next(cfg, s, step), rest)
  {
    hide Next, Enabled;
    assert ([step] + rest)[1..] == rest;
  }

  lemma {:induction false} SendsPutInFlight(cfg: Config, s: State, n: nat)
    requires n <= |s.outgoing|
    ensures var steps := Sends(n);
            && CanRun(cfg, s, steps)
            && Run(cfg, s, steps) == s.(outgoing := s.outgoing[n..], net := s.net + set d <- s.outgoing[..n])
    decreases n
  {
    if n > 0 {
      var t := Next(cfg, s, SendNext);
      SendsPutInFlight(cfg, t, n - 1);
      OneStep(cfg, s, SendNext, Sends(n - 1));
      var (sent, later) := (s.outgoing[..n], t.outgoing[..n - 1]);
      assert sent == [s.outgoing[0]] + later;
      assert t.net + (set d <- later) == s.net + (set d <- sent);
    } else {
      RunNothing(cfg, s);
      assert s.net + (set d <- s.outgoing[..0]) == s.net;
    }
  }

  lemma {:induction false} DeliverAllConcat(accepts: Acceptor, at: Position, a: seq<Window>, b: seq<Window>)
    ensures DeliverAll(accepts, at, a + b) == DeliverAll(accepts, DeliverAll(accepts, at, a), b)
    decreases |a|
  {
    if a == [] {
      assert a + b == b;
    } else {
      assert (a + b)[1..] == a[1..] + b;
      var r := ApplyWindow(accepts, at.group, a[0], at.epoch);
      DeliverAllConcat(accepts, Position(r.group, r.epoch), a[1..], b);
    }
  }

  /** Delivering datagrams one by one gives Bob the windows his socket makes of the whole run. */
  lemma {:induction false} DeliveriesReachSink(cfg: Config, s: State, datagrams: seq<bytes>, accepts: Acceptor)
    requires forall d <- datagrams :: d in s.net
    ensures var steps := Deliveries(datagrams, accepts);
            && CanRun(cfg, s, steps)
            && Run(cfg, s, steps)
               == s.(bob := DeliverAll(accepts, s.bob, SunkOf(cfg.capacity, true, Arrivals(datagrams, 0))))
    decreases |datagrams|
  {
    hide SinkCall;
    if datagrams != [] {
      assert datagrams[0] in datagrams;
      assert forall d <- datagrams[1..] :: d in datagrams;
      var step := Deliver(datagrams[0], accepts);
      var t := Next(cfg, s, step);
      DeliveriesReachSink(cfg, t, datagrams[1..], accepts);
      OneStep(cfg, s, step, Deliveries(datagrams[1..], accepts));
      assert Arrivals(datagrams, 0)[1..] == Arrivals(datagrams[1..], 0);
      DeliverAllConcat(accepts, s.bob, SunkBy(cfg, datagrams[0]),
                       SunkOf(cfg.capacity, true, Arrivals(datagrams[1..], 0)));
    }
  }

  lemma {:induction false} RoundsCommitNothing(n: nat, datagrams: seq<bytes>, accepts: Acceptor)
    ensures Without(Sends(n)) && Without(Deliveries(datagrams, accepts))
    decreases n + |datagrams|
  {
    if n > 0 {
      RoundsCommitNothing(n - 1, datagrams, accepts);
    } else if datagrams != [] {
      RoundsCommitNothing(n, datagrams[1..], accepts);
    }
  }

  lemma SnapshotStep(cfg: Config, s: State)
    requires Enabled(s, Snapshot)
    ensures Next(cfg, s, Snapshot) == s.(outgoing := Outgoing(cfg, s))
  {
  }

  /** The state after a send round, in terms of the window and Bob's socket alone. */
  lemma SendRoundRuns(cfg: Config, s: State, accepts: Acceptor)
    requires Enabled(s, Snapshot)
    ensures var steps := SendRound(cfg, s, accepts);
            && CanRun(cfg, s, steps) && Without(steps)
            && Run(cfg, s, steps)
               == s.(outgoing := [], net := s.net + (set d <- Outgoing(cfg, s)),
                     bob := DeliverAll(accepts, s.bob, SunkOf(cfg.capacity, true, Arrivals(Outgoing(cfg, s), 0))))
  {
    hide SunkOf, DatagramsOf, LogWindow, CanRun, Run, Next;
    var datagrams := Outgoing(cfg, s);
    var t := Next(cfg, s, Snapshot);
    SnapshotStep(cfg, s);
    SendsPutInFlight(cfg, t, |datagrams|);
    assert datagrams[..|datagrams|] == datagrams && datagrams[|datagrams|..] == [];
    var u := Run(cfg, t, Sends(|datagrams|));
    DeliveriesReachSink(cfg, u, datagrams, accepts);
    RunConcat(cfg, t, Sends(|datagrams|), Deliveries(datagrams, accepts));
    OneStep(cfg, s, Snapshot, Sends(|datagrams|) + Deliveries(datagrams, accepts));
    assert SendRound(cfg, s, accepts) == [Snapshot] + (Sends(|datagrams|) + Deliveries(datagrams, accepts));
    RoundsCommitNothing(|datagrams|, datagrams, accepts);
  }

  /** Alice's window, sent and delivered in order through the byte pipeline to an honest library. */
  lemma WindowDelivered(cfg: Config, v: LogView, bob: Position, accepts: Acceptor)
    requires Sane(cfg) && Tracks(v) && Honest(accepts, v.applied)
    requires v.checkpoint <= bob.epoch <= v.current && bob.group == v.applied[..bob.epoch]
    ensures var to := Max(bob.epoch, v.checkpoint + Carried(cfg, v));
            && v.checkpoint + Carried(cfg, v) <= v.current
            && DeliverAll(accepts, bob, SunkOf(cfg.capacity, true, Arrivals(DatagramsOf(LogWindow(v), cfg.budget), 0)))
               == Position(v.applied[..to], to)
  {
    hide SunkOf, DatagramsOf, Selected, LogWindow, Arrivals, DeliverAll, ApplyWindow, Honest, CommitFits;
    WindowIsUnacknowledgedHistory(v);
    SelectedSlice(cfg, v.applied, v.checkpoint, v.current);
    PipelineRefinesDirect(accepts, bob, LogWindow(v), cfg.budget, cfg.capacity, 0);
    SliceDelivery(accepts, v.applied, v.checkpoint, v.checkpoint + Carried(cfg, v), bob.epoch);
  }

  /**
   One send round, with an honest library, takes Bob to the last epoch it carried, or leaves
   him where he is when he is past that already.
   */
  lemma SendRoundAdvances(cfg: Config, s: State, accepts: Acceptor)
    requires Sane(cfg) && Inv(cfg, s) && Honest(accepts, s.alice.applied)
    ensures var steps := SendRound(cfg, s, accepts);
            && CanRun(cfg, s, steps) && Without(steps)
            && var t := Run(cfg, s, steps);
               && t.alice == s.alice
               && t.bob.epoch == Max(s.bob.epoch, s.alice.checkpoint + Carried(cfg, s.alice)) <= s.alice.current
               && t.bob.group == s.alice.applied[..t.bob.epoch]
  {
    hide SunkOf, DatagramsOf, SendRound, Run, CanRun, Selected, Honest, Carries, CommitFits;
    hide DeliverAll, Carried, Without;
    SendRoundRuns(cfg, s, accepts);
    WindowDelivered(cfg, s.alice, s.bob, accepts);
  }

  // ---------------------------------------------------------------------------
  // What the socket really sends, should a send fail
  // ---------------------------------------------------------------------------

  /** What `send_preamble` gives to the network of Alice's window when `sendable` sends succeed. */
  ghost function Given(cfg: Config, v: LogView, sendable: nat): seq<bytes>
    requires Tracks(v)
  {
    GivenToNetwork(DatagramsOf(LogWindow(v), cfg.budget), sendable)
  }

  /** The last epoch in those datagrams. */
  ghost function LastGiven(cfg: Config, v: LogView, sendable: nat): nat
    requires Tracks(v)
  {
    var buckets := BucketsOf(LogWindow(v), cfg.budget, BUCKET_BUDGET);
    v.checkpoint + |Flatten(buckets[..Min(sendable, |buckets|)])|
  }

  /** Alice's send stops at the first failure; what she had sent by then arrives in the order she sent it. */
  ghost function PartialRound(cfg: Config, s: State, sendable: nat, accepts: Acceptor): seq<Step>
    requires Tracks(s.alice)
  {
    var given := Given(cfg, s.alice, sendable);
    [Snapshot] + Sends(|given|) + [AbortSend] + Deliveries(given, accepts)
  }

  /** The socket's datagrams are those the protocol sends, from the first on; they come out as the buckets in order. */
  lemma GivenIsFront(cfg: Config, s: State, sendable: nat)
    requires Sane(cfg) && Tracks(s.alice)
    ensures var (given, all) := (Given(cfg, s.alice, sendable), Outgoing(cfg, s));
            var buckets := BucketsOf(LogWindow(s.alice), cfg.budget, BUCKET_BUDGET);
            && given <= all && |given| == Min(sendable, |buckets|) && (sendable >= |all| ==> given == all)
            && SunkOf(cfg.capacity, true, Arrivals(given, 0)) == buckets[..|given|]
  {
    hide BucketsOf, DatagramOf, EncodedLen, SunkOf, LogWindow, EncodeAll, ParsePreamble;
    var window := LogWindow(s.alice);
    var given := Given(cfg, s.alice, sendable);
    var buckets := BucketsOf(window, cfg.budget, BUCKET_BUDGET);
    SentInOrder(window, cfg.budget, sendable);
    forall i | 0 <= i < |given|
      ensures given[i] == DatagramOf(buckets[i]) && buckets[i] != [] && EncodedLen(buckets[i]) <= BUCKET_BUDGET
    {
      BucketIsSendable(window, cfg.budget, i);
    }
    ArrivingBuckets(buckets[..|given|], given, cfg.capacity, 0);
  }

  /** The first k buckets of Alice's window hold the epochs that follow her checkpoint. */
  lemma FrontIsSlice(cfg: Config, v: LogView, k: nat)
    requires Tracks(v) && k <= |BucketsOf(LogWindow(v), cfg.budget, BUCKET_BUDGET)|
    ensures var front := Flatten(BucketsOf(LogWindow(v), cfg.budget, BUCKET_BUDGET)[..k]);
            && v.checkpoint + |front| <= v.current
            && front == Slice(v.applied, v.checkpoint, v.checkpoint + |front|)
  {
    hide BucketsOf, Flatten, LogWindow, Selected, CommitFits;
    WindowIsUnacknowledgedHistory(v);
    var buckets := BucketsOf(LogWindow(v), cfg.budget, BUCKET_BUDGET);
    if k < |buckets| {
      BucketIsSlice(cfg, v.applied, v.checkpoint, v.current, k);
    } else {
      assert buckets[..k] == buckets;
      BucketsAreOptimal(LogWindow(v), cfg.budget, BUCKET_BUDGET, []);
      SelectedSlice(cfg, v.applied, v.checkpoint, v.current);
    }
  }

  lemma FrontDelivered(cfg: Config, v: LogView, bob: Position, accepts: Acceptor, k: nat)
    requires Tracks(v) && Honest(accepts, v.applied)
    requires k <= |BucketsOf(LogWindow(v), cfg.budget, BUCKET_BUDGET)|
    requires v.checkpoint <= bob.epoch <= v.current && bob.group == v.applied[..bob.epoch]
    ensures var front := BucketsOf(LogWindow(v), cfg.budget, BUCKET_BUDGET)[..k];
            var to := Max(bob.epoch, v.checkpoint + |Flatten(front)|);
            to <= v.current && DeliverAll(accepts, bob, front) == Position(v.applied[..to], to)
  {
    hide BucketsOf, Flatten, LogWindow, DeliverAll, ApplyWindow, Honest, Late;
    var front := BucketsOf(LogWindow(v), cfg.budget, BUCKET_BUDGET)[..k];
    FrontIsSlice(cfg, v, k);
    OrderedInStep(front);
    DirectExactly(front);
    assert Direct(accepts, bob, front);
    SliceDelivery(accepts, v.applied, v.checkpoint, v.checkpoint + |Flatten(front)|, bob.epoch);
  }

  /**
   A send that fails after any number of datagrams, delivered as far as it got and in the order sent, takes
   Bob to the last epoch it carried, or leaves him where he is when he is past that.
   */
  lemma PartialSendAdvances(cfg: Config, s: State, sendable: nat, accepts: Acceptor)
    requires Sane(cfg) && Inv(cfg, s) && Honest(accepts, s.alice.applied)
    ensures var steps := PartialRound(cfg, s, sendable, accepts);
            && CanRun(cfg, s, steps)
            && var t := Run(cfg, s, steps);
               && t.alice == s.alice
               && t.bob.epoch == Max(s.bob.epoch, LastGiven(cfg, s.alice, sendable)) <= s.alice.current
               && t.bob.group == s.alice.applied[..t.bob.epoch]
  {
    hide BucketsOf, Flatten, LogWindow, DeliverAll, Honest, SunkOf, CanRun, Run, Next, Carries, CommitFits;
    hide Outgoing, Given, GivenToNetwork, PartialRound;
    PartialRoundRuns(cfg, s, sendable, accepts);
    GivenIsFront(cfg, s, sendable);
    FrontDelivered(cfg, s.alice, s.bob, accepts, |Given(cfg, s.alice, sendable)|);
  }

  lemma AbortStep(cfg: Config, s: State)
    ensures Enabled(s, AbortSend) && Next(cfg, s, AbortSend) == s.(outgoing := [])
  {
  }

  lemma PartialRoundRuns(cfg: Config, s: State, sendable: nat, accepts: Acceptor)
    requires Sane(cfg) && Tracks(s.alice)
    ensures var steps := PartialRound(cfg, s, sendable, accepts);
            var given := Given(cfg, s.alice, sendable);
            && CanRun(cfg, s, steps)
            && Run(cfg, s, steps)
               == s.(outgoing := [], net := s.net + (set d <- given),
                     bob := DeliverAll(accepts, s.bob, SunkOf(cfg.capacity, true, Arrivals(given, 0))))
  {
    hide SunkOf, DatagramsOf, LogWindow, CanRun, Run, Next, Given, Outgoing;
    var given := Given(cfg, s.alice, sendable);
    GivenIsFront(cfg, s, sendable);
    var t := Next(cfg, s, Snapshot);
    SnapshotStep(cfg, s);
    SendsPutInFlight(cfg, t, |given|);
    assert t.outgoing[..|given|] == given;
    var u := Run(cfg, t, Sends(|given|));
    AbortStep(cfg, u);
    var v := Next(cfg, u, AbortSend);
    DeliveriesReachSink(cfg, v, given, accepts);
    OneStep(cfg, u, AbortSend, Deliveries(given, accepts));
    RunConcat(cfg, t, Sends(|given|), [AbortSend] + Deliveries(given, accepts));
    OneStep(cfg, s, Snapshot, Sends(|given|) + ([AbortSend] + Deliveries(given, accepts)));
    assert PartialRound(cfg, s, sendable, accepts)
        == [Snapshot] + (Sends(|given|) + ([AbortSend] + Deliveries(given, accepts)));
  }

  // ---------------------------------------------------------------------------
  // Without reports: one round is as good as many
  // ---------------------------------------------------------------------------

  /** The same window sent again and again. */
  ghost function Resends(cfg: Config, s: State, accepts: Acceptor, rounds: nat): State
    requires Sane(cfg) && Inv(cfg, s) && Honest(accepts, s.alice.applied)
    decreases rounds
  {
    if rounds == 0 then s
    else
      SendRoundAdvances(cfg, s, accepts);
      RunsAreSafe(cfg, s, SendRound(cfg, s, accepts));
      Resends(cfg, Run(cfg, s, SendRound(cfg, s, accepts)), accepts, rounds - 1)
  }

  /** Resending without an acknowledgement reaches its fixed point in the first round. */
  lemma {:induction false} ResendingIsAFixpoint(cfg: Config, s: State, accepts: Acceptor, rounds: nat)
    requires Sane(cfg) && Inv(cfg, s) && Honest(accepts, s.alice.applied)
    requires rounds > 0
    ensures var t := Resends(cfg, s, accepts, rounds);
            && t.alice == s.alice
            && t.bob.epoch == Max(s.bob.epoch, s.alice.checkpoint + Carried(cfg, s.alice))
            && t.bob.group == s.alice.applied[..t.bob.epoch]
    decreases rounds
  {
    hide Carried, SendRound, Run, CanRun, Honest, Carries, CommitFits, Without;
    SendRoundAdvances(cfg, s, accepts);
    RunsAreSafe(cfg, s, SendRound(cfg, s, accepts));
    if rounds > 1 {
      ResendingIsAFixpoint(cfg, Run(cfg, s, SendRound(cfg, s, accepts)), accepts, rounds - 1);
    }
  }

  /** When the budget covers the window and each commit fits a datagram, one round gives Bob Alice's exact group. */
  lemma OneRoundSuffices(cfg: Config, s: State, accepts: Acceptor)
    requires Sane(cfg) && Inv(cfg, s) && Honest(accepts, s.alice.applied)
    requires Admissible(Slice(s.alice.applied, s.alice.checkpoint, s.alice.current), cfg.budget, BUCKET_BUDGET)
    ensures var steps := SendRound(cfg, s, accepts);
            && CanRun(cfg, s, steps)
            && Run(cfg, s, steps).bob == Position(s.alice.applied, s.alice.current)
  {
    hide SendRound, Run, CanRun, Honest, Carries, CommitFits, Without;
    SendRoundAdvances(cfg, s, accepts);
    var w := Slice(s.alice.applied, s.alice.checkpoint, s.alice.current);
    assert w[..|w|] == w;
    SelectedIsLongest(w, cfg.budget, BUCKET_BUDGET, |w|);
    assert s.alice.applied[..s.alice.current] == s.alice.applied;
  }

  /**
   In a state of any run `ResyncNeeded` is only ever the work of loss or reordering: delivered in order,
   no bucket of the current window asks for it.
   */
  lemma InOrderNeverResyncs(cfg: Config, s: State, accepts: Acceptor, i: nat)
    requires Sane(cfg) && Inv(cfg, s) && Honest(accepts, s.alice.applied)
    requires i < |BucketsOf(LogWindow(s.alice), cfg.budget, BUCKET_BUDGET)|
    ensures var buckets := BucketsOf(LogWindow(s.alice), cfg.budget, BUCKET_BUDGET);
            var at := DeliverAll(accepts, s.bob, buckets[..i]);
            ApplyWindow(accepts, at.group, buckets[i], at.epoch).status == Applied
  {
    hide BucketsOf, LogWindow, DeliverAll, ApplyWindow, Honest, Carries, CommitFits, Flatten, Selected;
    var v := s.alice;
    WindowIsUnacknowledgedHistory(v);
    var buckets := BucketsOf(LogWindow(v), cfg.budget, BUCKET_BUDGET);
    BucketIsSlice(cfg, v.applied, v.checkpoint, v.current, i);
    var from := v.checkpoint + |Flatten(buckets[..i])|;
    OrderedInStep(buckets[..i]);
    DirectExactly(buckets[..i]);
    assert Direct(accepts, s.bob, buckets[..i]);
    SliceDelivery(accepts, v.applied, v.checkpoint, from, s.bob.epoch);
    SliceDelivery(accepts, v.applied, from, from + |buckets[i]|, Max(s.bob.epoch, from));
  }

  // ---------------------------------------------------------------------------
  // With reports: every round moves on, as far as the commits can be sent
  // ---------------------------------------------------------------------------

  lemma ReportRoundRuns(cfg: Config, s: State)
    ensures CanRun(cfg, s, ReportRound(s)) && Without(ReportRound(s))
    ensures Run(cfg, s, ReportRound(s))
         == s.(alice := LogTrim(s.alice, s.bob.epoch), published := s.bob.epoch, reports := s.reports + {s.bob.epoch})
  {
    hide LogTrim, CanRun, Run;
    var s1 := Next(cfg, s, Publish);
    var s2 := Next(cfg, s1, Report);
    var ack := Acknowledge(s.bob.epoch);
    RunNothing(cfg, Next(cfg, s2, ack));
    OneStep(cfg, s2, ack, []);
    OneStep(cfg, s1, Report, [ack] + []);
    OneStep(cfg, s, Publish, [Report] + ([ack] + []));
    assert ReportRound(s) == [Publish] + ([Report] + ([ack] + []));
  }

  lemma ReportRoundTrims(cfg: Config, s: State)
    requires Sane(cfg) && Inv(cfg, s)
    ensures CanRun(cfg, s, ReportRound(s)) && Without(ReportRound(s))
    ensures var t := Run(cfg, s, ReportRound(s));
            && Inv(cfg, t)
            && t.bob == s.bob
            && t.alice.applied == s.alice.applied && t.alice.current == s.alice.current
            && t.alice.checkpoint == s.bob.epoch
  {
    hide Carries, CommitFits, CanRun, Run, ReportRound, Without;
    ReportRoundRuns(cfg, s);
    RunsAreSafe(cfg, s, ReportRound(s));
  }

  ghost function FullRound(cfg: Config, s: State, accepts: Acceptor): seq<Step>
    requires Sane(cfg) && Inv(cfg, s)
  {
    ReportRoundTrims(cfg, s);
    ReportRound(s) + SendRound(cfg, Run(cfg, s, ReportRound(s)), accepts)
  }

  /**
   A round of report, trim, send and in-order delivery moves Bob on exactly when the commit he needs
   next can be sent.
   */
  lemma FullRoundAdvances(cfg: Config, s: State, accepts: Acceptor)
    requires Sane(cfg) && Inv(cfg, s) && Honest(accepts, s.alice.applied)
    ensures var steps := FullRound(cfg, s, accepts);
            && CanRun(cfg, s, steps) && Without(steps)
            && var t := Run(cfg, s, steps);
               && Inv(cfg, t)
               && t.alice.applied == s.alice.applied
               && s.bob.epoch <= t.bob.epoch
               && (s.bob.epoch < t.bob.epoch
                   <==> s.bob.epoch < s.alice.current && CommitFits(cfg, s.alice.applied[s.bob.epoch]))
  {
    hide Carried, SendRound, ReportRound, Run, CanRun, Honest, Carries, CommitFits;
    ReportRoundTrims(cfg, s);
    var mid := Run(cfg, s, ReportRound(s));
    SendRoundAdvances(cfg, mid, accepts);
    SomethingIsCarried(cfg, mid.alice);
    RunConcat(cfg, s, ReportRound(s), SendRound(cfg, mid, accepts));
    RunsAreSafe(cfg, s, FullRound(cfg, s, accepts));
  }

  ghost function Rounds(cfg: Config, s: State, accepts: Acceptor, n: nat): seq<Step>
    requires Sane(cfg) && Inv(cfg, s) && Honest(accepts, s.alice.applied)
    decreases n
  {
    if n == 0 then []
    else
      FullRoundAdvances(cfg, s, accepts);
      FullRound(cfg, s, accepts) + Rounds(cfg, Run(cfg, s, FullRound(cfg, s, accepts)), accepts, n - 1)
  }

  // ---------------------------------------------------------------------------
  // These rounds are round trips, so what holds on any schedule holds of them
  // ---------------------------------------------------------------------------

  lemma PlayedParts(a: seq<Step>, b: seq<Step>)
    ensures Played(a + b) == Played(a) + Played(b)
  {
  }

  lemma {:induction false} DeliveriesAreInTurn(datagrams: seq<bytes>, accepts: Acceptor, history: History)
    requires Honest(accepts, history)
    ensures DeliversInTurn(Played(Deliveries(datagrams, accepts)), datagrams, history)
    decreases |datagrams|
  {
    hide Honest;
    if datagrams != [] {
      var steps := Deliveries(datagrams, accepts);
      assert Played(steps)[1..] == Played(Deliveries(datagrams[1..], accepts));
      DeliveriesAreInTurn(datagrams[1..], accepts, history);
    }
  }

  lemma {:induction false} LaterIsStillInTurn(before: seq<Action>, actions: seq<Action>,
                                              datagrams: seq<bytes>, history: History)
    requires DeliversInTurn(actions, datagrams, history)
    ensures DeliversInTurn(before + actions, datagrams, history)
    decreases |before|
  {
    hide Honest;
    if before == [] {
      assert before + actions == actions;
    } else {
      assert (before + actions)[1..] == before[1..] + actions;
      LaterIsStillInTurn(before[1..], actions, datagrams, history);
    }
  }

  lemma SendRoundIsInTurn(cfg: Config, s: State, accepts: Acceptor, history: History)
    requires Enabled(s, Snapshot) && Honest(accepts, history)
    ensures DeliversInTurn(Played(SendRound(cfg, s, accepts)), Outgoing(cfg, s), history)
  {
    hide Honest, DeliversInTurn, Outgoing, Deliveries, Sends;
    var datagrams := Outgoing(cfg, s);
    var before := [Snapshot] + Sends(|datagrams|);
    DeliveriesAreInTurn(datagrams, accepts, history);
    LaterIsStillInTurn(Played(before), Played(Deliveries(datagrams, accepts)), datagrams, history);
    PlayedParts(before, Deliveries(datagrams, accepts));
  }

  ghost function FullRounds(cfg: Config, s: State, accepts: Acceptor, n: nat): seq<Round>
    requires Sane(cfg) && Inv(cfg, s) && Honest(accepts, s.alice.applied)
    decreases n
  {
    if n == 0 then []
    else
      ReportRoundTrims(cfg, s);
      FullRoundAdvances(cfg, s, accepts);
      [Round(Played(ReportRound(s)), Played(SendRound(cfg, Run(cfg, s, ReportRound(s)), accepts)))]
      + FullRounds(cfg, Run(cfg, s, FullRound(cfg, s, accepts)), accepts, n - 1)
  }

  lemma FullRoundIsRoundTrip(cfg: Config, s: State, accepts: Acceptor, rest: seq<Round>)
    requires Sane(cfg) && Inv(cfg, s) && Honest(accepts, s.alice.applied)
    requires CanRun(cfg, s, FullRound(cfg, s, accepts))
    requires RoundTrips(cfg, Run(cfg, s, FullRound(cfg, s, accepts)), rest)
    ensures CanRun(cfg, s, ReportRound(s))
    ensures Enabled(Run(cfg, s, ReportRound(s)), Snapshot)
    ensures RoundTrips(cfg, s, [Round(Played(ReportRound(s)),
                                      Played(SendRound(cfg, Run(cfg, s, ReportRound(s)), accepts)))] + rest)
  {
    hide CanRun, Run, CanActAll, ActAll, Honest, ReportRound, Outgoing, Carries, CommitFits, DeliversInTurn, Carried;
    ReportRoundTrims(cfg, s);
    var m := Run(cfg, s, ReportRound(s));
    RunsAreActions(cfg, s, ReportRound(s));
    SendRoundAdvances(cfg, m, accepts);
    RunsAreActions(cfg, m, SendRound(cfg, m, accepts));
    RunConcat(cfg, s, ReportRound(s), SendRound(cfg, m, accepts));
    SendRoundIsInTurn(cfg, m, accepts, m.alice.applied);
    var rounds := [Round(Played(ReportRound(s)), Played(SendRound(cfg, m, accepts)))] + rest;
    assert rounds[1..] == rest;
  }

  lemma {:induction false} FullRoundsAreRoundTrips(cfg: Config, s: State, accepts: Acceptor, n: nat)
    requires Sane(cfg) && Inv(cfg, s) && Honest(accepts, s.alice.applied)
    ensures CanRun(cfg, s, Rounds(cfg, s, accepts, n)) && Without(Rounds(cfg, s, accepts, n))
    ensures RoundTrips(cfg, s, FullRounds(cfg, s, accepts, n))
    ensures |FullRounds(cfg, s, accepts, n)| == n
    ensures AllOf(FullRounds(cfg, s, accepts, n)) == Played(Rounds(cfg, s, accepts, n))
    decreases n
  {
    hide FullRound, Honest, Carries, CommitFits, Run, CanRun, RoundTrips, SendRound, ReportRound;
    if n == 0 {
      RunNothing(cfg, s);
      NoRoundTrips(cfg, s);
    } else {
      var steps := FullRound(cfg, s, accepts);
      FullRoundAdvances(cfg, s, accepts);
      var t := Run(cfg, s, steps);
      FullRoundsAreRoundTrips(cfg, t, accepts, n - 1);
      RunConcat(cfg, s, steps, Rounds(cfg, t, accepts, n - 1));
      FullRoundIsRoundTrip(cfg, s, accepts, FullRounds(cfg, t, accepts, n - 1));
      FullRoundParts(cfg, s, accepts);
      var rounds := FullRounds(cfg, s, accepts, n);
      assert rounds[1..] == FullRounds(cfg, t, accepts, n - 1);
      PlayedParts(steps, Rounds(cfg, t, accepts, n - 1));
    }
  }

  lemma NoRoundTrips(cfg: Config, s: State)
    ensures RoundTrips(cfg, s, [])
  {
  }

  lemma FullRoundParts(cfg: Config, s: State, accepts: Acceptor)
    requires Sane(cfg) && Inv(cfg, s)
    ensures CanRun(cfg, s, ReportRound(s))
    ensures Enabled(Run(cfg, s, ReportRound(s)), Snapshot)
    ensures Played(FullRound(cfg, s, accepts))
         == Played(ReportRound(s)) + Played(SendRound(cfg, Run(cfg, s, ReportRound(s)), accepts))
  {
    hide CanRun, Run, Carries, CommitFits;
    ReportRoundTrims(cfg, s);
    PlayedParts(ReportRound(s), SendRound(cfg, Run(cfg, s, ReportRound(s)), accepts));
  }

  /** Budget-limited recovery terminates: as many rounds as Bob is epochs behind bring him level. */
  lemma RecoveryTerminates(cfg: Config, s: State, accepts: Acceptor, n: nat)
    requires Sane(cfg) && Inv(cfg, s) && Honest(accepts, s.alice.applied)
    requires AllFit(cfg, s.alice.applied, s.bob.epoch, s.alice.current)
    requires n >= s.alice.current - s.bob.epoch
    ensures var steps := Rounds(cfg, s, accepts, n);
            && CanRun(cfg, s, steps) && Without(steps)
            && Run(cfg, s, steps).alice.applied == s.alice.applied
            && Run(cfg, s, steps).bob == Position(s.alice.applied, s.alice.current)
  {
    hide Rounds, FullRounds, Honest, Carries, CommitFits, Run, CanRun, RoundTrips, CanActAll, ActAll, Without;
    var steps := Rounds(cfg, s, accepts, n);
    FullRoundsAreRoundTrips(cfg, s, accepts, n);
    RunsAreActions(cfg, s, steps);
    RoundTripsRecover(cfg, s, FullRounds(cfg, s, accepts, n), s.alice.applied);
    WithoutCommits(cfg, s, steps);
    assert s.alice.applied[..s.alice.current] == s.alice.applied;
  }

  lemma {:induction false} WithoutCommits(cfg: Config, s: State, steps: seq<Step>)
    requires CanRun(cfg, s, steps) && Without(steps)
    ensures Run(cfg, s, steps).alice.applied == s.alice.applied
    decreases |steps|
  {
    if steps != [] {
      assert steps[0] in steps;
      assert forall step <- steps[1..] :: step in steps;
      WithoutCommits(cfg, Next(cfg, s, steps[0]), steps[1..]);
    }
  }

  ghost predicate CanCatchUp(cfg: Config, s: State) {
    exists steps :: CanRun(cfg, s, steps) && Without(steps)
                    && Run(cfg, s, steps).bob == Position(s.alice.applied, s.alice.current)
  }

  lemma TakesAnything(history: History)
    ensures Honest((group, c) => true, history)
  {
  }

  /**
   From any state of any run, Bob can still reach Alice's exact group without her committing again
   if and only if every commit he is missing fits the budget and one datagram.
   */
  lemma CatchUpExactly(cfg: Config, s: State)
    requires Sane(cfg) && Inv(cfg, s)
    ensures CanCatchUp(cfg, s) <==> AllFit(cfg, s.alice.applied, s.bob.epoch, s.alice.current)
  {
    hide Honest, Carries, CommitFits, Run, CanRun, Rounds;
    var accepts: Acceptor := (group, c) => true;
    if AllFit(cfg, s.alice.applied, s.bob.epoch, s.alice.current) {
      assert Honest(accepts, s.alice.applied) by { TakesAnything(s.alice.applied); }
      RecoveryTerminates(cfg, s, accepts, s.alice.current - s.bob.epoch);
      var steps := Rounds(cfg, s, accepts, s.alice.current - s.bob.epoch);
      assert CanRun(cfg, s, steps) && Without(steps);
    }
    if CanCatchUp(cfg, s) {
      var steps :| CanRun(cfg, s, steps) && Without(steps)
                   && Run(cfg, s, steps).bob == Position(s.alice.applied, s.alice.current);
      RunsAreSafe(cfg, s, steps);
      WithoutCommits(cfg, s, steps);
    }
  }

  /**
   It can fail, at the first commit already: one too large for a datagram or for the budget leaves Bob
   behind for good.
   */
  lemma CatchUpCanFail(cfg: Config, commit: bytes)
    requires Sane(cfg) && (|commit| >= 1180 || 12 + |commit| > cfg.budget)
    ensures Enabled(INIT, Commit(commit))
    ensures var s := Next(cfg, INIT, Commit(commit));
            Reachable(cfg, s) && s.alice.current == 1 && !CanCatchUp(cfg, s)
  {
    hide CanCatchUp, CanRun, Run, Carries;
    var s := Next(cfg, INIT, Commit(commit));
    RunNothing(cfg, s);
    OneStep(cfg, INIT, Commit(commit), []);
    assert [Commit(commit)] + [] == [Commit(commit)];
    assert Reachable(cfg, s);
    ReachableIsSafe(cfg, s);
    CatchUpExactly(cfg, s);
    assert s.alice.applied == [commit];
    assert !CommitFits(cfg, s.alice.applied[0]);
  }
}
