/**
 Liveness on any schedule: what windows delivered in order achieve, whatever else happens meanwhile,
 on a network that loses, repeats and reorders and where anyone may send.
 */
module Schedules {
  import opened Bytes
  import opened Group
  import opened Transcript
  import opened Buckets
  import opened Preamble
  import opened SenderLog
  import opened Protocol
  import opened Injection

  ghost function Outgoing(cfg: Config, s: State): seq<bytes>
    requires Enabled(s, Snapshot)
  {
    DatagramsOf(LogWindow(s.alice), cfg.budget)
  }

  /** How many unacknowledged commits one send round can carry. */
  ghost function Carried(cfg: Config, v: LogView): nat
    requires Tracks(v)
  {
    |Selected(Slice(v.applied, v.checkpoint, v.current), cfg.budget, BUCKET_BUDGET)|
  }

  /** A window is sent at all exactly when its first commit fits. */
  lemma SomethingIsCarried(cfg: Config, v: LogView)
    requires Tracks(v)
    ensures Carried(cfg, v) > 0 <==> v.checkpoint < v.current && CommitFits(cfg, v.applied[v.checkpoint])
  {
    var w := Slice(v.applied, v.checkpoint, v.current);
    if w != [] {
      SelectedIsLongest(w, cfg.budget, BUCKET_BUDGET, 1);
      assert w[..1][..0] == [];
      assert BodyLen(w[..1]) == EntryLen(w[0]);
    }
  }

  ghost predicate AllFit(cfg: Config, history: History, a: nat, c: nat)
    requires c <= |history|
  {
    forall i :: a <= i < c ==> CommitFits(cfg, history[i])
  }

  // ---------------------------------------------------------------------------
  // One window
  // ---------------------------------------------------------------------------

  /**
   Somewhere along the run these datagrams are delivered, in this order, to a library that takes the
   commits of `history`. Everything else may go on before, between and after them.
   */
  ghost predicate DeliversInTurn(actions: seq<Action>, datagrams: seq<bytes>, history: History)
    decreases |actions|
  {
    || datagrams == []
    || (actions != []
        && (|| (&& Delivers(actions[0]) && actions[0].step.datagram == datagrams[0]
                && Honest(actions[0].step.accepts, history)
                && DeliversInTurn(actions[1..], datagrams[1..], history))
            || DeliversInTurn(actions[1..], datagrams, history)))
  }

  lemma BucketSunk(cfg: Config, bucket: Window)
    requires Sane(cfg) && bucket != [] && EncodedLen(bucket) <= BUCKET_BUDGET
    ensures SunkBy(cfg, DatagramOf(bucket)) == [bucket]
  {
    hide ParsePreamble, DatagramOf, EncodedLen;
    BucketDatagram(bucket);
  }

  /** A slice of an earlier history, delivered to a receiver who has all before it. */
  lemma SliceTakesHold(accepts: Acceptor, history: History, later: History, from: nat, to: nat, at: Position)
    requires from <= to <= |history| && history <= later && |later| < U64_LIMIT
    requires from <= at.epoch <= |later| && at.group == later[..at.epoch]
    requires Honest(accepts, history)
    ensures DeliverAll(accepts, at, [Slice(history, from, to)]).epoch >= to
  {
    var w := Slice(history, from, to);
    assert [w][1..] == [];
    if at.epoch <= |history| {
      assert at.group == history[..at.epoch];
      SliceDelivery(accepts, history, from, to, at.epoch);
    } else {
      hide ApplyWindow;
      ApplyExplained(accepts, at.group, w, at.epoch);
    }
  }

  /** Bucket k of a window of `history` reaches a receiver who has all before it: he has all with it. */
  lemma BucketTakesHold(cfg: Config, history: History, a: nat, k: nat, later: History, at: Position, accepts: Acceptor)
    requires Sane(cfg) && a <= |history| && history <= later && |later| < U64_LIMIT
    requires at.epoch <= |later| && at.group == later[..at.epoch]
    requires Honest(accepts, history)
    requires var buckets := BucketsOf(Slice(history, a, |history|), cfg.budget, BUCKET_BUDGET);
             k < |buckets| && a + |Flatten(buckets[..k])| <= at.epoch
    ensures var buckets := BucketsOf(Slice(history, a, |history|), cfg.budget, BUCKET_BUDGET);
            a + |Flatten(buckets[..k + 1])| <= DeliverAll(accepts, at, SunkBy(cfg, DatagramOf(buckets[k]))).epoch
  {
    hide BucketsOf, EncodedLen, CommitFits, Flatten, Selected, DatagramOf, SunkBy, Honest, DeliverAll, Slice;
    var window := Slice(history, a, |history|);
    var buckets := BucketsOf(window, cfg.budget, BUCKET_BUDGET);
    var from := a + |Flatten(buckets[..k])|;
    BucketIsSlice(cfg, history, a, |history|, k);
    BucketIsSendable(window, cfg.budget, k);
    BucketSunk(cfg, buckets[k]);
    assert buckets[..k] + [buckets[k]] == buckets[..k + 1];
    FlattenSnoc(buckets[..k], buckets[k]);
    SliceTakesHold(accepts, history, later, from, from + |buckets[k]|, at);
  }

  lemma DeliveredTo(cfg: Config, s: State, a: Action)
    requires Delivers(a) && Enabled(s, a.step)
    ensures Act(cfg, s, a).bob == DeliverAll(a.step.accepts, s.bob, SunkBy(cfg, a.step.datagram))
  {
  }

  lemma {:induction false} InTurnAdvances(cfg: Config, s: State, actions: seq<Action>, history: History, a: nat, k: nat)
    requires Sane(cfg) && OnTrack(s) && CanActAll(cfg, s, actions)
    requires history <= s.alice.applied && a <= |history|
    requires var buckets := BucketsOf(Slice(history, a, |history|), cfg.budget, BUCKET_BUDGET);
             && k <= |buckets| && a + |Flatten(buckets[..k])| <= s.bob.epoch
             && DeliversInTurn(actions, DatagramsFor(buckets)[k..], history)
    ensures var buckets := BucketsOf(Slice(history, a, |history|), cfg.budget, BUCKET_BUDGET);
            a + |Flatten(buckets)| <= ActAll(cfg, s, actions).bob.epoch
    decreases |actions|
  {
    hide BucketsOf, Flatten, DatagramOf, Honest, Carries, Authentic, Next, Enabled, DeliverAll, SunkBy;
    var buckets := BucketsOf(Slice(history, a, |history|), cfg.budget, BUCKET_BUDGET);
    var datagrams := DatagramsFor(buckets);
    if k == |buckets| {
      InjectionIsHarmless(cfg, s, actions);
      assert buckets[..k] == buckets;
    } else {
      var t := Act(cfg, s, actions[0]);
      ActionKeepsOnTrack(cfg, s, actions[0]);
      if DeliversInTurn(actions[1..], datagrams[k..], history) {
        InTurnAdvances(cfg, t, actions[1..], history, a, k);
      } else {
        assert datagrams[k..][1..] == datagrams[k + 1..];
        BucketTakesHold(cfg, history, a, k, s.alice.applied, s.bob, actions[0].step.accepts);
        DeliveredTo(cfg, s, actions[0]);
        InTurnAdvances(cfg, t, actions[1..], history, a, k + 1);
      }
    }
  }

  lemma NoneFlat(buckets: seq<Window>)
    ensures Flatten(buckets[..0]) == []
  {
  }

  /**
   Liveness on any schedule: whatever is lost, delivered twice, delivered late, injected, refused, reported or
   committed in between, once the datagrams of a window have been delivered in order to an honest
   library, Bob stands at or past the last epoch they carried.
   */
  lemma AnyScheduleAdvances(cfg: Config, s: State, actions: seq<Action>)
    requires Sane(cfg) && OnTrack(s) && CanActAll(cfg, s, actions)
    requires DeliversInTurn(actions, Outgoing(cfg, s), s.alice.applied)
    ensures var t := ActAll(cfg, s, actions);
            && s.alice.checkpoint + Carried(cfg, s.alice) <= t.bob.epoch <= |t.alice.applied|
            && t.bob.group == t.alice.applied[..t.bob.epoch]
  {
    hide BucketsOf, DatagramOf, Honest, CanActAll, ActAll, DeliversInTurn, Selected, Flatten, LogWindow;
    var (history, a) := (s.alice.applied, s.alice.checkpoint);
    WindowIsUnacknowledgedHistory(s.alice);
    var window := Slice(history, a, |history|);
    var buckets := BucketsOf(window, cfg.budget, BUCKET_BUDGET);
    BucketsAreOptimal(window, cfg.budget, BUCKET_BUDGET, []);
    NoneFlat(buckets);
    assert DatagramsFor(buckets)[0..] == Outgoing(cfg, s);
    InTurnAdvances(cfg, s, actions, history, a, 0);
    InjectionIsHarmless(cfg, s, actions);
  }

  ghost predicate CommitsNothing(actions: seq<Action>) {
    forall a <- actions :: a.Play? ==> !a.step.Commit?
  }

  lemma {:induction false} NothingCommitted(cfg: Config, s: State, actions: seq<Action>)
    requires CanActAll(cfg, s, actions) && CommitsNothing(actions)
    ensures ActAll(cfg, s, actions).alice.applied == s.alice.applied
    decreases |actions|
  {
    hide Carries, Authentic;
    if actions != [] {
      assert actions[0] in actions;
      assert forall a <- actions[1..] :: a in actions;
      NothingCommitted(cfg, Act(cfg, s, actions[0]), actions[1..]);
    }
  }

  /** Without new commits, a window the budget covers then leaves Bob with Alice's exact group. */
  lemma AnyScheduleSuffices(cfg: Config, s: State, actions: seq<Action>)
    requires Sane(cfg) && OnTrack(s) && CanActAll(cfg, s, actions) && CommitsNothing(actions)
    requires DeliversInTurn(actions, Outgoing(cfg, s), s.alice.applied)
    requires Admissible(Slice(s.alice.applied, s.alice.checkpoint, s.alice.current), cfg.budget, BUCKET_BUDGET)
    ensures ActAll(cfg, s, actions).bob == Position(s.alice.applied, s.alice.current)
  {
    hide CanActAll, ActAll, CommitsNothing, DeliversInTurn, Outgoing, Selected;
    AnyScheduleAdvances(cfg, s, actions);
    InjectionIsHarmless(cfg, s, actions);
    NothingCommitted(cfg, s, actions);
    var w := Slice(s.alice.applied, s.alice.checkpoint, s.alice.current);
    assert w[..|w|] == w;
    SelectedIsLongest(w, cfg.budget, BUCKET_BUDGET, |w|);
    assert s.alice.applied[..s.alice.current] == s.alice.applied;
  }

  // ---------------------------------------------------------------------------
  // Several windows, each sent after a newer report
  // ---------------------------------------------------------------------------

  /** Anything at all, up to the snapshot; then a stretch in which the snapshot's datagrams arrive. */
  datatype Round = Round(before: seq<Action>, window: seq<Action>)

  function AllOf(rounds: seq<Round>): seq<Action> {
    if rounds == [] then [] else rounds[0].before + rounds[0].window + AllOf(rounds[1..])
  }

  /** By each snapshot a report made since its round began has arrived, and in each round its window arrives in turn. */
  ghost predicate RoundTrips(cfg: Config, s: State, rounds: seq<Round>)
    decreases |rounds|
  {
    || rounds == []
    || (&& CanActAll(cfg, s, rounds[0].before)
        && var m := ActAll(cfg, s, rounds[0].before);
           && s.bob.epoch <= m.alice.checkpoint <= m.alice.current
           && CanActAll(cfg, m, rounds[0].window)
           && DeliversInTurn(rounds[0].window, Outgoing(cfg, m), m.alice.applied)
           && RoundTrips(cfg, ActAll(cfg, m, rounds[0].window), rounds[1..]))
  }

  lemma {:induction false} ActAllConcat(cfg: Config, s: State, a: seq<Action>, b: seq<Action>)
    requires CanActAll(cfg, s, a) && CanActAll(cfg, ActAll(cfg, s, a), b)
    ensures CanActAll(cfg, s, a + b) && ActAll(cfg, s, a + b) == ActAll(cfg, ActAll(cfg, s, a), b)
    decreases |a|
  {
    hide Next, Enabled, Carries, Authentic;
    if a == [] {
      assert a + b == b;
    } else {
      assert (a + b)[1..] == a[1..] + b;
      ActAllConcat(cfg, Act(cfg, s, a[0]), a[1..], b);
    }
  }

  lemma {:induction false} RoundTripsRun(cfg: Config, s: State, rounds: seq<Round>)
    requires RoundTrips(cfg, s, rounds)
    ensures CanActAll(cfg, s, AllOf(rounds))
    decreases |rounds|
  {
    hide CanActAll, ActAll, Outgoing, DeliversInTurn;
    if rounds == [] {
      NoActions(cfg, s);
    } else {
      FirstRound(cfg, s, rounds);
      RoundTripsRun(cfg, AfterRound(cfg, s, rounds), rounds[1..]);
      ActAllConcat(cfg, s, rounds[0].before + rounds[0].window, AllOf(rounds[1..]));
    }
  }

  lemma NoActions(cfg: Config, s: State)
    ensures CanActAll(cfg, s, []) && ActAll(cfg, s, []) == s
  {
  }

  ghost function AfterRound(cfg: Config, s: State, rounds: seq<Round>): State
    requires rounds != [] && RoundTrips(cfg, s, rounds)
  {
    ActAll(cfg, ActAll(cfg, s, rounds[0].before), rounds[0].window)
  }

  lemma FirstRound(cfg: Config, s: State, rounds: seq<Round>)
    requires rounds != [] && RoundTrips(cfg, s, rounds)
    ensures var r := rounds[0].before + rounds[0].window;
            CanActAll(cfg, s, r) && ActAll(cfg, s, r) == AfterRound(cfg, s, rounds)
    ensures RoundTrips(cfg, AfterRound(cfg, s, rounds), rounds[1..])
  {
    hide CanActAll, ActAll, Outgoing, DeliversInTurn;
    ActAllConcat(cfg, s, rounds[0].before, rounds[0].window);
  }

  /** One such round takes Bob on when the commit he needs next can be sent. */
  lemma RoundAdvances(cfg: Config, s: State, rounds: seq<Round>, history: History)
    requires Sane(cfg) && OnTrack(s) && rounds != [] && RoundTrips(cfg, s, rounds)
    requires history <= s.alice.applied && s.bob.epoch < |history| && CommitFits(cfg, history[s.bob.epoch])
    ensures var t := AfterRound(cfg, s, rounds);
            OnTrack(t) && Grows(s, t) && s.bob.epoch < t.bob.epoch
  {
    hide CanActAll, ActAll, Outgoing, DeliversInTurn, CommitFits, Carried;
    var m := ActAll(cfg, s, rounds[0].before);
    InjectionIsHarmless(cfg, s, rounds[0].before);
    AnyScheduleAdvances(cfg, m, rounds[0].window);
    InjectionIsHarmless(cfg, m, rounds[0].window);
    SomethingIsCarried(cfg, m.alice);
  }

  /**
   Recovery under any budget and on any schedule: as many windows as Bob is epochs behind, each sent after a
   newer report and delivered in turn, bring him level with what Alice had at the start, whatever else
   happens before, between and among them.
   */
  lemma {:induction false} RoundTripsRecover(cfg: Config, s: State, rounds: seq<Round>, history: History)
    requires Sane(cfg) && OnTrack(s) && RoundTrips(cfg, s, rounds)
    requires history <= s.alice.applied && AllFit(cfg, history, s.bob.epoch, |history|)
    requires |rounds| >= |history| - s.bob.epoch
    ensures CanActAll(cfg, s, AllOf(rounds))
    ensures var t := ActAll(cfg, s, AllOf(rounds));
            OnTrack(t) && Grows(s, t) && |history| <= t.bob.epoch
    decreases |rounds|
  {
    hide CanActAll, ActAll, RoundTrips, OnTrack, CommitFits, AfterRound;
    RoundTripsRun(cfg, s, rounds);
    InjectionIsHarmless(cfg, s, AllOf(rounds));
    if s.bob.epoch < |history| {
      var t := AfterRound(cfg, s, rounds);
      RoundAdvances(cfg, s, rounds, history);
      FirstRound(cfg, s, rounds);
      RoundTripsRecover(cfg, t, rounds[1..], history);
      ActAllConcat(cfg, s, rounds[0].before + rounds[0].window, AllOf(rounds[1..]));
    }
  }
}
