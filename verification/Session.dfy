/**
 The QUIC crypto session over an MLS group: a four-state handshake whose keys are pinned at its
 first step while the group goes on moving underneath, and key updates numbered by generation.

 Each call is one atomic step: the group does not move between its two exports.
 */
module Session {
  import opened Bytes
  import opened Group
  import opened Keys

  /** Rust's HsState. */
  datatype HsState = Initial | AwaitingZeroRttKeys | ConfirmingZeroRttKeys | Done

  datatype TransportParams = TransportParams(maxData: nat, maxStreamData: nat, maxStreams: nat)

  const CACHED_PEER_PARAMS := TransportParams(65536, 65536, 1)

  /** The libraries a session stands on. */
  datatype Env<!S, !P, !H> = Env(
    exporter: Exporter<S>,
    kdf: Kdf<S, P, H>,
    writeParams: TransportParams -> bytes,
    readParams: bytes -> Option<TransportParams>
  )

  /** The level string every derivation of a session uses. */
  const LEVEL := "0-rtt"

  function Derive<S, P, H>(env: Env<S, P, H>, group: History, side: Side, context: bytes): Option<Keys<P, H>> {
    MlsKeys(env.exporter, env.kdf, group, LEVEL, side, context)
  }

  datatype View<P, H> = View(
    state: HsState,
    peer: Option<TransportParams>,
    generation: u64,
    upgrade: Option<Keys<P, H>>,    // pinned_zero_rtt_upgrade_keys
    zeroRtt: Option<Keys<P, H>>     // pinned_zero_rtt_keys
  )

  function Fresh<P, H>(): View<P, H> { View(Initial, None, 0, None, None) }

  datatype Written<P, H> = Written(view: View<P, H>, out: bytes, keys: Option<Keys<P, H>>)

  function WriteStep<S, P, H>(env: Env<S, P, H>, side: Side, local: TransportParams,
                              v: View<P, H>, group: History): Written<P, H>
  {
    match v.state
    case Initial =>
      var keys := Derive(env, group, side, []);
      Written(v.(state := AwaitingZeroRttKeys, upgrade := keys, zeroRtt := keys), env.writeParams(local), None)
    case AwaitingZeroRttKeys =>
      if v.peer == None then Written(v, [], None)
      else Written(v.(state := ConfirmingZeroRttKeys, upgrade := None), [], v.upgrade)
    case ConfirmingZeroRttKeys =>
      Written(v.(state := Done, zeroRtt := None), [0], v.zeroRtt)
    case Done => Written(v, [], None)
  }

  /** None when the first parameters received do not parse. */
  function ReadStep<S, P, H>(env: Env<S, P, H>, v: View<P, H>, buf: bytes): Option<View<P, H>> {
    if v.peer.Some? then Some(v)
    else match env.readParams(buf) case Some(p) => Some(v.(peer := Some(p))) case None => None
  }

  /** The sending half for a client, the receiving half for a server. */
  function EarlyKeys<S, P, H>(env: Env<S, P, H>, side: Side, group: History): Option<(H, P)> {
    match Derive(env, group, side, [])
    case None => None
    case Some(keys) =>
      Some(if side.Client? then (keys.localHeader, keys.localPacket) else (keys.remoteHeader, keys.remotePacket))
  }

  /** Every derivation of a session is for the level "0-rtt". */
  lemma DeriveExactly<S, P, H>(env: Env<S, P, H>, group: History, side: Side, context: bytes)
    ensures var keys := Derive(env, group, side, context);
            var c2s := env.exporter(group, "quic-mls c2s 0-rtt", context);
            var s2c := env.exporter(group, "quic-mls s2c 0-rtt", context);
            && (keys.Some? <==> c2s.Some? && s2c.Some?)
            && (keys.Some? && side == Client ==> KeyedBy(env.kdf, keys.value, c2s.value, s2c.value))
            && (keys.Some? && side == Server ==> KeyedBy(env.kdf, keys.value, s2c.value, c2s.value))
  {
    MlsKeysExactly(env.exporter, env.kdf, group, LEVEL, side, context);
    assert "quic-mls c2s " + LEVEL == "quic-mls c2s 0-rtt";
    assert "quic-mls s2c " + LEVEL == "quic-mls s2c 0-rtt";
  }

  /** On either side, early data goes under the c2s export of the group with an empty context, header and packet. */
  lemma EarlyKeysExactly<S, P, H>(env: Env<S, P, H>, side: Side, group: History)
    ensures var c2s := env.exporter(group, "quic-mls c2s 0-rtt", []);
            var s2c := env.exporter(group, "quic-mls s2c 0-rtt", []);
            EarlyKeys(env, side, group)
            == if c2s.Some? && s2c.Some? then Some((env.kdf.header(c2s.value), env.kdf.packet(c2s.value))) else None
  {
    hide Derive;
    DeriveExactly(env, group, side, []);
  }

  datatype Updated<P, H> = Updated(view: View<P, H>, keys: Option<(P, P)>)

  /** The packet keys of a set, local and remote; header keys do not change with an update. */
  function PacketPair<P, H>(keys: Option<Keys<P, H>>): Option<(P, P)> {
    match keys case Some(k) => Some((k.localPacket, k.remotePacket)) case None => None
  }

  /** No keys stand for the panic on a failed export. */
  function UpdateStep<S, P, H>(env: Env<S, P, H>, side: Side, v: View<P, H>, group: History): Updated<P, H>
    requires v.generation + 1 < U64_LIMIT
  {
    var generation: u64 := v.generation + 1;
    Updated(v.(generation := generation), PacketPair(Derive(env, group, side, U64Be(generation))))
  }

  class MlsSession<S, P, H> {
    const env: Env<S, P, H>
    const group: MlsGroup           // shared: others may move it between calls
    const side: Side
    const localParams: TransportParams
    const cachedPeerParams: Option<TransportParams>
    var state: HsState
    var peerParams: Option<TransportParams>
    var keyUpdateGeneration: u64
    var pinnedUpgradeKeys: Option<Keys<P, H>>
    var pinnedZeroRttKeys: Option<Keys<P, H>>

    function CurrentView(): View<P, H>
      reads this
    {
      View(state, peerParams, keyUpdateGeneration, pinnedUpgradeKeys, pinnedZeroRttKeys)
    }

    constructor (env: Env<S, P, H>, group: MlsGroup, side: Side, localParams: TransportParams)
      ensures CurrentView() == Fresh()
      ensures this.env == env && this.group == group && this.side == side && this.localParams == localParams
      ensures cachedPeerParams == if side.Client? then Some(TransportParams(65536, 65536, 1)) else None
    {
      this.env := env;
      this.group := group;
      this.side := side;
      this.localParams := localParams;
      cachedPeerParams := if side.Client? then Some(CACHED_PEER_PARAMS) else None;
      state := Initial;
      peerParams := None;
      keyUpdateGeneration := 0;
      pinnedUpgradeKeys := None;
      pinnedZeroRttKeys := None;
    }

    predicate IsHandshaking(): (r: bool)
      reads this
      ensures !r <==> CurrentView().state == Done
    {
      !state.Done?
    }

    /** 0-RTT keys follow the group as it stands, never the pinned keys. */
    function EarlyCrypto(): (r: Option<(H, P)>)
      reads group
      ensures var c2s := env.exporter(group.applied, "quic-mls c2s 0-rtt", []);
              r.Some? ==> c2s.Some? && r.value == (env.kdf.header(c2s.value), env.kdf.packet(c2s.value))
    {
      EarlyKeysExactly(env, side, group.applied);
      EarlyKeys(env, side, group.applied)
    }

    method WriteHandshake(buf: bytes) returns (buf': bytes, keys: Option<Keys<P, H>>)
      modifies this
      ensures var w := WriteStep(env, side, localParams, old(CurrentView()), group.applied);
              CurrentView() == w.view && buf' == buf + w.out && keys == w.keys
    {
      buf' := buf;
      keys := None;
      match state {
        case Initial =>
          buf' := buf' + env.writeParams(localParams);
          pinnedUpgradeKeys := Derive(env, group.applied, side, []);
          pinnedZeroRttKeys := Derive(env, group.applied, side, []);
          state := AwaitingZeroRttKeys;
        case AwaitingZeroRttKeys =>
          if peerParams == None {
            return;
          }
          state := ConfirmingZeroRttKeys;
          keys, pinnedUpgradeKeys := pinnedUpgradeKeys, None;
        case ConfirmingZeroRttKeys =>
          buf' := buf' + [0];
          state := Done;
          keys, pinnedZeroRttKeys := pinnedZeroRttKeys, None;
        case Done =>
      }
    }

    method ReadHandshake(buf: bytes) returns (ok: bool)
      modifies this`peerParams
      ensures var r := ReadStep(env, old(CurrentView()), buf);
              ok == r.Some? && CurrentView() == if r.Some? then r.value else old(CurrentView())
      ensures ok <==> old(peerParams).Some? || env.readParams(buf).Some?
      ensures peerParams == if old(peerParams).Some? then old(peerParams) else env.readParams(buf)
    {
      if peerParams == None {
        var parsed := env.readParams(buf);
        if parsed == None {
          return false;
        }
        peerParams := parsed;
      }
      ok := true;
    }

    /** The parameters read, or until then the ones a client assumes. */
    function TransportParameters(): (r: Option<TransportParams>)
      reads this
      ensures peerParams.Some? ==> r == peerParams
      ensures peerParams == None ==> r == cachedPeerParams
    {
      if peerParams.Some? then peerParams else cachedPeerParams
    }

    /** None stands for the panic on a failed export; the counter is assumed not to wrap. */
    method Next1RttKeys() returns (keys: Option<(P, P)>)
      requires keyUpdateGeneration + 1 < U64_LIMIT
      modifies this`keyUpdateGeneration
      ensures var u := UpdateStep(env, side, old(CurrentView()), group.applied);
              CurrentView() == u.view && keys == u.keys
    {
      keyUpdateGeneration := keyUpdateGeneration + 1;
      var derived := Derive(env, group.applied, side, U64Be(keyUpdateGeneration));
      match derived
      case Some(k) => keys := Some((k.localPacket, k.remotePacket));
      case None => keys := None;
    }
  }

  // ---------------------------------------------------------------------------
  // Every interleaving of calls and group commits
  // ---------------------------------------------------------------------------

  datatype Event = Write | ReadParams(buf: bytes) | KeyUpdate | GroupMoves(to: History)

  /** One key update: the group it found and the packet keys it handed out. */
  datatype Update<P> = Update(group: History, keys: Option<(P, P)>)

  /** A session, the group underneath, and what has come out of the session so far. */
  datatype World<P, H> = World(
    view: View<P, H>,
    group: History,
    sent: bytes,                     // bytes write_handshake appended for the peer
    returned: seq<Keys<P, H>>,       // keys handed to QUIC by write_handshake
    pinned: Option<History>,         // the group as it stood at the first write_handshake
    updates: seq<Update<P>>          // what the key updates gave
  )

  datatype Setup<!S, !P, !H> = Setup(env: Env<S, P, H>, side: Side, local: TransportParams)

  function StartOf<P, H>(group: History): World<P, H> { World(Fresh(), group, [], [], None, []) }

  function Listed<T>(o: Option<T>): seq<T> { if o.Some? then [o.value] else [] }

  predicate Possible<P, H>(w: World<P, H>, event: Event) {
    event.KeyUpdate? ==> w.view.generation + 1 < U64_LIMIT
  }

  function Happen<S, P, H>(setup: Setup<S, P, H>, w: World<P, H>, event: Event): World<P, H>
    requires Possible(w, event)
  {
    match event
    case Write =>
      var r := WriteStep(setup.env, setup.side, setup.local, w.view, w.group);
      w.(view := r.view, sent := w.sent + r.out, returned := w.returned + Listed(r.keys),
         pinned := if w.view.state.Initial? then Some(w.group) else w.pinned)
    case ReadParams(buf) =>
      var r := ReadStep(setup.env, w.view, buf);
      w.(view := if r.Some? then r.value else w.view)
    case KeyUpdate =>
      var u := UpdateStep(setup.env, setup.side, w.view, w.group);
      w.(view := u.view, updates := w.updates + [Update(w.group, u.keys)])
    case GroupMoves(to) => w.(group := to)
  }

  predicate AllPossible<S, P, H>(setup: Setup<S, P, H>, w: World<P, H>, events: seq<Event>)
    decreases |events|
  {
    events == [] || (Possible(w, events[0]) && AllPossible(setup, Happen(setup, w, events[0]), events[1..]))
  }

  function After<S, P, H>(setup: Setup<S, P, H>, w: World<P, H>, events: seq<Event>): World<P, H>
    requires AllPossible(setup, w, events)
    decreases |events|
  {
    if events == [] then w else After(setup, Happen(setup, w, events[0]), events[1..])
  }

  function Rank(s: HsState): nat {
    match s case Initial => 0 case AwaitingZeroRttKeys => 1 case ConfirmingZeroRttKeys => 2 case Done => 3
  }

  /** The keys of the group as it stood at the first `write_handshake`. */
  function PinnedKeys<S, P, H>(setup: Setup<S, P, H>, w: World<P, H>): Option<Keys<P, H>> {
    match w.pinned case Some(h) => Derive(setup.env, h, setup.side, []) case None => None
  }

  ghost predicate HandshakeInv<S, P, H>(setup: Setup<S, P, H>, w: World<P, H>) {
    var k := PinnedKeys(setup, w);
    && (w.pinned.Some? <==> !w.view.state.Initial?)
    && (Rank(w.view.state) >= 2 ==> w.view.peer.Some?)
    && w.view.upgrade == (if Rank(w.view.state) == 1 then k else None)
    && w.view.zeroRtt == (if 1 <= Rank(w.view.state) <= 2 then k else None)
    && w.sent == (if Rank(w.view.state) == 0 then [] else setup.env.writeParams(setup.local))
                 + (if Rank(w.view.state) == 3 then [0] else [])
    && w.returned == (if Rank(w.view.state) <= 1 then []
                      else if Rank(w.view.state) == 2 then Listed(k)
                      else Listed(k) + Listed(k))
  }

  /** The state never regresses, and what was read, pinned, returned or exported once stays. */
  ghost predicate Forward<P, H>(w: World<P, H>, t: World<P, H>) {
    && Rank(w.view.state) <= Rank(t.view.state)
    && (w.view.peer.Some? ==> t.view.peer == w.view.peer)
    && (w.pinned.Some? ==> t.pinned == w.pinned)
    && w.sent <= t.sent
    && w.returned <= t.returned
    && w.updates <= t.updates
    && w.view.generation <= t.view.generation
  }

  lemma EventKeepsHandshake<S, P, H>(setup: Setup<S, P, H>, w: World<P, H>, event: Event)
    requires HandshakeInv(setup, w) && Possible(w, event)
    ensures HandshakeInv(setup, Happen(setup, w, event)) && Forward(w, Happen(setup, w, event))
  {
    hide Derive;
  }

  lemma {:induction false} HandshakeRuns<S, P, H>(setup: Setup<S, P, H>, w: World<P, H>, events: seq<Event>)
    requires HandshakeInv(setup, w) && AllPossible(setup, w, events)
    ensures HandshakeInv(setup, After(setup, w, events)) && Forward(w, After(setup, w, events))
    decreases |events|
  {
    hide HandshakeInv, Happen, Possible;
    if events != [] {
      EventKeepsHandshake(setup, w, events[0]);
      HandshakeRuns(setup, Happen(setup, w, events[0]), events[1..]);
    }
  }

  /**
   Over every interleaving of calls, parse failures and group commits: keys are returned at most
   twice and never before parameters were read, and every set returned is that of the group as it
   stood at the first `write_handshake`, however far the group has moved since.
   */
  lemma HandshakeSafety<S, P, H>(setup: Setup<S, P, H>, group: History, events: seq<Event>)
    requires AllPossible(setup, StartOf<P, H>(group), events)
    ensures var w := After(setup, StartOf<P, H>(group), events);
            && |w.returned| <= 2
            && (w.returned != [] ==> w.pinned.Some? && w.view.peer.Some?)
            && (forall k <- w.returned :: Some(k) == Derive(setup.env, w.pinned.value, setup.side, []))
            && (w.view.state.Done? && PinnedKeys(setup, w).Some? ==> |w.returned| == 2)
  {
    hide Derive;
    HandshakeRuns(setup, StartOf<P, H>(group), events);
  }

  /**
   What was kept of the peer: the parameters in the first buffer that parsed, none before and never
   those of a later one.
   */
  ghost predicate FirstParsed<S, P, H>(env: Env<S, P, H>, events: seq<Event>, peer: Option<TransportParams>) {
    match peer
    case None => forall i :: 0 <= i < |events| && events[i].ReadParams? ==> env.readParams(events[i].buf) == None
    case Some(_) =>
      exists i :: 0 <= i < |events| && events[i].ReadParams? && env.readParams(events[i].buf) == peer
                  && forall j :: 0 <= j < i && events[j].ReadParams? ==> env.readParams(events[j].buf) == None
  }

  lemma {:induction false} PeerRuns<S, P, H>(setup: Setup<S, P, H>, w: World<P, H>, events: seq<Event>)
    requires AllPossible(setup, w, events)
    ensures w.view.peer.Some? ==> After(setup, w, events).view.peer == w.view.peer
    ensures w.view.peer == None ==> FirstParsed(setup.env, events, After(setup, w, events).view.peer)
    decreases |events|
  {
    hide Derive, U64Be;
    if events != [] {
      var t := Happen(setup, w, events[0]);
      var rest, peer := events[1..], After(setup, w, events).view.peer;
      PeerRuns(setup, t, rest);
      if w.view.peer == None && t.view.peer == None && peer.Some? {
        var i :| 0 <= i < |rest| && rest[i].ReadParams? && setup.env.readParams(rest[i].buf) == peer
                 && forall j :: 0 <= j < i && rest[j].ReadParams? ==> setup.env.readParams(rest[j].buf) == None;
        assert events[i + 1] == rest[i];
        assert forall j :: 0 < j <= i ==> events[j] == rest[j - 1];
      }
    }
  }

  /**
   Over every interleaving, the parameters kept are those of the first buffer that parses, and none
   while none does.
   */
  lemma PeerIsFirstParsed<S, P, H>(setup: Setup<S, P, H>, group: History, events: seq<Event>)
    requires AllPossible(setup, StartOf<P, H>(group), events)
    ensures FirstParsed(setup.env, events, After(setup, StartOf<P, H>(group), events).view.peer)
  {
    hide FirstParsed, After, AllPossible;
    PeerRuns(setup, StartOf<P, H>(group), events);
  }

  /**
   Wherever a session has come to, `write_handshake` takes it on by one state, except that it waits for
   the peer's parameters and stays Done; it gives the pinned keys on leaving the second state and the third.
   */
  lemma WriteAdvances<S, P, H>(setup: Setup<S, P, H>, w: World<P, H>)
    requires HandshakeInv(setup, w)
    ensures var t := Happen(setup, w, Write);
            var k := PinnedKeys(setup, w);
            match w.view.state
            case Initial => t.view.state.AwaitingZeroRttKeys? && t.sent == w.sent + setup.env.writeParams(setup.local)
                            && t.returned == w.returned && t.pinned == Some(w.group)
            case AwaitingZeroRttKeys =>
              if w.view.peer.Some? then
                t.view.state.ConfirmingZeroRttKeys? && t.sent == w.sent && t.returned == w.returned + Listed(k)
              else t == w
            case ConfirmingZeroRttKeys =>
              t.view.state.Done? && t.sent == w.sent + [0] && t.returned == w.returned + Listed(k)
            case Done => t == w
  {
    hide Derive;
  }

  /** Read and written in turn, a session whose group can export finishes with exactly its two sets of keys. */
  lemma HandshakeCompletes<S, P, H>(setup: Setup<S, P, H>, group: History, later: History, buf: bytes)
    requires setup.env.readParams(buf).Some? && Derive(setup.env, group, setup.side, []).Some?
    ensures var events := [Write, ReadParams(buf), GroupMoves(later), Write, Write];
            && AllPossible(setup, StartOf<P, H>(group), events)
            && var w := After(setup, StartOf<P, H>(group), events);
               var k := Derive(setup.env, group, setup.side, []).value;
               w.view.state.Done? && w.returned == [k, k] && w.sent == setup.env.writeParams(setup.local) + [0]
  {
    hide Derive, After, AllPossible;
    var w0: World<P, H> := StartOf(group);
    var w1 := Happen(setup, w0, Write);
    var w2 := Happen(setup, w1, ReadParams(buf));
    var w3 := Happen(setup, w2, GroupMoves(later));
    var w4 := Happen(setup, w3, Write);
    var r4 := [Write] + [];
    var r3 := [Write] + r4;
    var r2 := [GroupMoves(later)] + r3;
    var r1 := [ReadParams(buf)] + r2;
    NoEvents(setup, Happen(setup, w4, Write));
    FirstEvent(setup, w4, Write, []);
    FirstEvent(setup, w3, Write, r4);
    FirstEvent(setup, w2, GroupMoves(later), r3);
    FirstEvent(setup, w1, ReadParams(buf), r2);
    FirstEvent(setup, w0, Write, r1);
    assert [Write] + r1 == [Write, ReadParams(buf), GroupMoves(later), Write, Write];
  }

  lemma NoEvents<S, P, H>(setup: Setup<S, P, H>, w: World<P, H>)
    ensures AllPossible(setup, w, []) && After(setup, w, []) == w
  {
  }

  lemma FirstEvent<S, P, H>(setup: Setup<S, P, H>, w: World<P, H>, event: Event, rest: seq<Event>)
    requires Possible(w, event) && AllPossible(setup, Happen(setup, w, event), rest)
    ensures AllPossible(setup, w, [event] + rest)
    ensures After(setup, w, [event] + rest) == After(setup, Happen(setup, w, event), rest)
  {
    hide Happen, Possible;
    assert ([event] + rest)[1..] == rest;
  }

  // ---------------------------------------------------------------------------
  // Key updates
  // ---------------------------------------------------------------------------

  /** Update number i derives under generation i + 1, from the group as it then stood. */
  ghost predicate UpdatesInv<S, P, H>(setup: Setup<S, P, H>, w: World<P, H>) {
    && |w.updates| == w.view.generation
    && forall i :: 0 <= i < |w.updates| ==>
      w.updates[i].keys == PacketPair(Derive(setup.env, w.updates[i].group, setup.side, U64Be(i + 1)))
  }

  lemma EventKeepsUpdates<S, P, H>(setup: Setup<S, P, H>, w: World<P, H>, event: Event)
    requires UpdatesInv(setup, w) && Possible(w, event)
    ensures UpdatesInv(setup, Happen(setup, w, event))
  {
    hide U64Be, Derive, PacketPair;
  }

  lemma {:induction false} UpdateRuns<S, P, H>(setup: Setup<S, P, H>, w: World<P, H>, events: seq<Event>)
    requires UpdatesInv(setup, w) && AllPossible(setup, w, events)
    ensures UpdatesInv(setup, After(setup, w, events))
    decreases |events|
  {
    hide UpdatesInv, Happen, Possible;
    if events != [] {
      EventKeepsUpdates(setup, w, events[0]);
      UpdateRuns(setup, Happen(setup, w, events[0]), events[1..]);
    }
  }

  /** Update i exports under a context of its own, which no handshake and no other update uses. */
  lemma UpdateContexts<S, P, H>(setup: Setup<S, P, H>, group: History, events: seq<Event>, i: nat, j: nat)
    requires AllPossible(setup, StartOf<P, H>(group), events)
    requires i < j < |After(setup, StartOf<P, H>(group), events).updates|
    ensures var w := After(setup, StartOf<P, H>(group), events);
            && |w.updates| == w.view.generation < U64_LIMIT
            && w.updates[i].keys == PacketPair(Derive(setup.env, w.updates[i].group, setup.side, U64Be(i + 1)))
            && w.updates[j].keys == PacketPair(Derive(setup.env, w.updates[j].group, setup.side, U64Be(j + 1)))
            && U64Be(i + 1) != U64Be(j + 1) && U64Be(i + 1) != [] && U64Be(j + 1) != []
  {
    hide U64Be, Happen, AllPossible, After, Derive, PacketPair;
    UpdateRuns(setup, StartOf<P, H>(group), events);
    U64BeInjective(i + 1, j + 1);
  }

  /**
   Freshness over every interleaving, whatever the group does in between: neither packet key of an
   update is a key of any other update, of any set the handshake returned, or of the other direction,
   unless two of the different exports they come from collide; and then one is.
   */
  lemma UpdatesAreFresh<S, P, H>(setup: Setup<S, P, H>, group: History, events: seq<Event>)
    requires AllPossible(setup, StartOf<P, H>(group), events)
    ensures var w := After(setup, StartOf<P, H>(group), events);
            var (exporter, kdf, side) := (setup.env.exporter, setup.env.kdf, setup.side);
            && |w.updates| == w.view.generation
            && (forall i, j :: 0 <= i < j < |w.updates| && w.updates[i].keys.Some? && w.updates[j].keys.Some? ==>
                  var (u, v) := (w.updates[i], w.updates[j]);
                  Disjoint(u.keys.value, v.keys.value)
                  <==> !Collided(exporter, kdf, LEVEL, side, u.group, U64Be(i + 1), v.group, U64Be(j + 1)))
            && (forall i, k :: 0 <= i < |w.updates| && w.updates[i].keys.Some? && k in w.returned ==>
                  var u := w.updates[i];
                  && w.pinned.Some?
                  && (Disjoint(u.keys.value, (k.localPacket, k.remotePacket))
                      <==> !Collided(exporter, kdf, LEVEL, side, u.group, U64Be(i + 1), w.pinned.value, [])))
            && (forall i :: 0 <= i < |w.updates| && w.updates[i].keys.Some? ==>
                  var (u, c) := (w.updates[i], U64Be(i + 1));
                  u.keys.value.0 == u.keys.value.1
                  <==> Collide(exporter, kdf, SendsFrom(LEVEL, side, u.group, c), OpensFrom(LEVEL, side, u.group, c)))
  {
    hide U64Be, Happen, AllPossible, After, MlsKeys, Collided, Collide, Disjoint, SendsFrom, OpensFrom;
    var w := After(setup, StartOf<P, H>(group), events);
    UpdateRuns(setup, StartOf<P, H>(group), events);
    HandshakeSafety(setup, group, events);
    var (exporter, kdf, side) := (setup.env.exporter, setup.env.kdf, setup.side);
    forall i, j | 0 <= i < j < |w.updates| && w.updates[i].keys.Some? && w.updates[j].keys.Some?
      ensures Disjoint(w.updates[i].keys.value, w.updates[j].keys.value)
         <==> !Collided(exporter, kdf, LEVEL, side, w.updates[i].group, U64Be(i + 1), w.updates[j].group, U64Be(j + 1))
    {
      U64BeInjective(i + 1, j + 1);
      SharedKeysCollide(exporter, kdf, LEVEL, side, w.updates[i].group, U64Be(i + 1), w.updates[j].group, U64Be(j + 1));
    }
    forall i, k | 0 <= i < |w.updates| && w.updates[i].keys.Some? && k in w.returned
      ensures Disjoint(w.updates[i].keys.value, (k.localPacket, k.remotePacket))
         <==> !Collided(exporter, kdf, LEVEL, side, w.updates[i].group, U64Be(i + 1), w.pinned.value, [])
    {
      SharedKeysCollide(exporter, kdf, LEVEL, side, w.updates[i].group, U64Be(i + 1), w.pinned.value, []);
    }
    forall i | 0 <= i < |w.updates| && w.updates[i].keys.Some?
      ensures var (u, c) := (w.updates[i], U64Be(i + 1));
              u.keys.value.0 == u.keys.value.1
              <==> Collide(exporter, kdf, SendsFrom(LEVEL, side, u.group, c), OpensFrom(LEVEL, side, u.group, c))
    {
      DirectionsAreSeparate(exporter, kdf, w.updates[i].group, LEVEL, side, U64Be(i + 1));
    }
  }

  // ---------------------------------------------------------------------------
  // The worlds a session can come to
  // ---------------------------------------------------------------------------

  /** Some interleaving of calls and group commits leads here. */
  ghost predicate Reachable<S, P, H>(setup: Setup<S, P, H>, w: World<P, H>) {
    exists group, events :: AllPossible(setup, StartOf<P, H>(group), events)
                            && After(setup, StartOf<P, H>(group), events) == w
  }

  lemma ReachableKeys<S, P, H>(setup: Setup<S, P, H>, w: World<P, H>)
    requires Reachable(setup, w)
    ensures UpdatesInv(setup, w)
    ensures w.returned != [] ==> w.pinned.Some?
    ensures forall k <- w.returned :: Some(k) == Derive(setup.env, w.pinned.value, setup.side, [])
  {
    hide Derive;
    var group, events :| AllPossible(setup, StartOf<P, H>(group), events)
                         && After(setup, StartOf<P, H>(group), events) == w;
    HandshakeSafety(setup, group, events);
    UpdateRuns(setup, StartOf<P, H>(group), events);
  }
}
