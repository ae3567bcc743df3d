/**
 The protocol on a network where anyone may send datagrams: preambles are not authenticated, so what
 keeps Bob's group right is the library, which takes at each epoch only the commit Alice made there.

 An ordinary delivery needs no such library, since what it carries is genuine; so every run of the
 protocol is a run here as well.
 */
module Injection {
  import opened Bytes
  import opened Group
  import opened Preamble
  import opened SenderLog
  import opened Protocol

  datatype Action = Play(step: Step) | Inject(datagram: bytes)

  predicate Delivers(a: Action) {
    a.Play? && a.step.Deliver?
  }

  /** What is delivered is a piece of Alice's history, or else meets a library that takes only her commits. */
  ghost predicate CanAct(cfg: Config, s: State, a: Action)
    requires |s.alice.applied| < U64_LIMIT
  {
    && (a.Play? ==> Enabled(s, a.step))
    && (Delivers(a) ==> Carries(cfg, s.alice.applied, a.step.datagram) || Authentic(a.step.accepts, s.alice.applied))
  }

  ghost function Act(cfg: Config, s: State, a: Action): State
    requires a.Play? ==> Enabled(s, a.step)
  {
    match a
    case Play(step) => Next(cfg, s, step)
    case Inject(d) => s.(net := s.net + {d})
  }

  ghost predicate CanActAll(cfg: Config, s: State, actions: seq<Action>)
    decreases |actions|
  {
    || actions == []
    || (&& |s.alice.applied| < U64_LIMIT && CanAct(cfg, s, actions[0])
        && CanActAll(cfg, Act(cfg, s, actions[0]), actions[1..]))
  }

  ghost function ActAll(cfg: Config, s: State, actions: seq<Action>): State
    requires CanActAll(cfg, s, actions)
    decreases |actions|
  {
    if actions == [] then s else ActAll(cfg, Act(cfg, s, actions[0]), actions[1..])
  }

  /** The protocol's invariant but for what is in flight, which may be anything. */
  ghost predicate OnTrack(s: State) {
    && Tracks(s.alice)
    && s.bob.epoch <= s.alice.current
    && s.bob.group == s.alice.applied[..s.bob.epoch]
    && s.alice.checkpoint <= s.bob.epoch
    && s.published <= s.bob.epoch
    && forall k <- s.reports :: k <= s.bob.epoch
  }

  lemma DeliveryStaysOnTrack(cfg: Config, s: State, datagram: bytes, accepts: Acceptor)
    requires Sane(cfg) && OnTrack(s)
    requires Carries(cfg, s.alice.applied, datagram) || Authentic(accepts, s.alice.applied)
    ensures var r := DeliverAll(accepts, s.bob, SunkBy(cfg, datagram));
            && s.bob.epoch <= r.epoch <= |s.alice.applied|
            && r.group == s.alice.applied[..r.epoch]
  {
    hide Carries, Authentic, Tracks;
    assert |s.alice.applied| == s.alice.current by { TracksLength(s.alice); }
    if Carries(cfg, s.alice.applied, datagram) {
      DeliveryKeepsPrefix(cfg, s.alice.applied, s.bob, datagram, accepts);
    } else {
      AuthenticDelivery(s.alice.applied, s.bob, SunkBy(cfg, datagram), accepts);
    }
  }

  lemma TracksLength(v: LogView)
    requires Tracks(v)
    ensures |v.applied| == v.current
  {
  }

  lemma {:induction false} AuthenticDelivery(history: History, at: Position, windows: seq<Window>, accepts: Acceptor)
    requires Authentic(accepts, history) && at.epoch <= |history| && at.group == history[..at.epoch]
    ensures var r := DeliverAll(accepts, at, windows);
            && at.epoch <= r.epoch <= |history|
            && r.group == history[..r.epoch]
    decreases |windows|
  {
    hide Authentic, ApplyWindow;
    if windows != [] {
      AuthenticKeepsPrefix(accepts, history, windows[0], at.epoch);
      var r := ApplyWindow(accepts, at.group, windows[0], at.epoch);
      AuthenticDelivery(history, Position(r.group, r.epoch), windows[1..], accepts);
    }
  }

  lemma ActionKeepsOnTrack(cfg: Config, s: State, a: Action)
    requires Sane(cfg) && OnTrack(s) && CanAct(cfg, s, a)
    ensures OnTrack(Act(cfg, s, a)) && Grows(s, Act(cfg, s, a))
  {
    hide Carries, Authentic, DatagramsOf, SunkBy, DeliverAll;
    match a
    case Inject(_) =>
    case Play(Deliver(d, accepts)) =>
      DeliveryStaysOnTrack(cfg, s, d, accepts);
    case Play(Commit(c)) =>
      EventKeepsTracks(s.alice, Committed(c));
    case Play(_) =>
  }

  /**
   Safety against anything on the wire: whatever datagrams are injected, and however they mix with
   Alice's own, Bob only ever moves along her history and her log and his reports stay true to it.
   */
  lemma {:induction false} InjectionIsHarmless(cfg: Config, s: State, actions: seq<Action>)
    requires Sane(cfg) && OnTrack(s) && CanActAll(cfg, s, actions)
    ensures OnTrack(ActAll(cfg, s, actions)) && Grows(s, ActAll(cfg, s, actions))
    decreases |actions|
  {
    hide Next, Enabled, Carries, Authentic, OnTrack;
    if actions != [] {
      ActionKeepsOnTrack(cfg, s, actions[0]);
      InjectionIsHarmless(cfg, Act(cfg, s, actions[0]), actions[1..]);
    }
  }

  // ---------------------------------------------------------------------------
  // Runs without injection
  // ---------------------------------------------------------------------------

  function Played(steps: seq<Step>): (r: seq<Action>)
    ensures |r| == |steps|
    ensures forall i :: 0 <= i < |steps| ==> r[i] == Play(steps[i])
  {
    seq(|steps|, i requires 0 <= i < |steps| => Play(steps[i]))
  }

  /** Every run of the protocol, whatever its libraries take or refuse, is a run here. */
  lemma {:induction false} RunsAreActions(cfg: Config, s: State, steps: seq<Step>)
    requires Sane(cfg) && Inv(cfg, s) && CanRun(cfg, s, steps)
    ensures OnTrack(s)
    ensures CanActAll(cfg, s, Played(steps)) && ActAll(cfg, s, Played(steps)) == Run(cfg, s, steps)
    decreases |steps|
  {
    hide Next, Carries, Authentic, CommitFits;
    if steps != [] {
      StepKeepsInv(cfg, s, steps[0]);
      assert Played(steps)[1..] == Played(steps[1..]);
      RunsAreActions(cfg, Next(cfg, s, steps[0]), steps[1..]);
    }
  }
}
