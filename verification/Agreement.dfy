/**
 Where the two halves meet: which protocol states give the two sides each other's keys, and why a
 protected QUIC packet is never mistaken for a commit window.
 */
module Agreement {
  import opened Bytes
  import opened Group
  import opened Preamble
  import opened Protocol
  import opened Schedules
  import opened Recovery
  import opened HeaderProtection
  import opened PacketProtection
  import opened Keys
  import Session

  /**
   In every state of every run, Alice's and Bob's keys match when Bob has caught up, and otherwise only
   by a collision of the exports of his history and hers, in both directions.
   */
  lemma KeysAgreeExactlyWhenLevel<S, P, H>(cfg: Config, s: State, exporter: Exporter<S>, kdf: Kdf<S, P, H>,
                                           level: string, context: bytes)
    requires Inv(cfg, s)
    requires MlsKeys(exporter, kdf, s.alice.applied, level, Client, context).Some?
    ensures var (a, b) := (s.alice.applied, s.bob.group);
            var agree := KeysAgree(MlsKeys(exporter, kdf, a, level, Client, context),
                                   MlsKeys(exporter, kdf, b, level, Server, context));
            && (s.bob.epoch == s.alice.current ==> agree)
            && (agree ==> s.bob.epoch == s.alice.current
                          || CollideBothWays(exporter, kdf, level, a, b, context, context))
  {
    hide MlsKeys, Carries, CommitFits, CollideBothWays;
    KeysAgreeExactly(exporter, kdf, s.alice.applied, s.bob.group, level, context);
    assert |s.bob.group| == s.bob.epoch && s.alice.applied[..s.alice.current] == s.alice.applied;
  }

  /**
   However far Bob has fallen behind, if every commit he misses can be sent, the recovery rounds leave
   both sides deriving each other's keys, at every level and context Alice can export for.
   */
  lemma RecoveryRestoresKeys<S, P, H>(cfg: Config, s: State, accepts: Acceptor,
                                      exporter: Exporter<S>, kdf: Kdf<S, P, H>, level: string, context: bytes)
    requires Sane(cfg) && Inv(cfg, s) && Honest(accepts, s.alice.applied)
    requires AllFit(cfg, s.alice.applied, s.bob.epoch, s.alice.current)
    requires MlsKeys(exporter, kdf, s.alice.applied, level, Client, context).Some?
    ensures var steps := Rounds(cfg, s, accepts, s.alice.current - s.bob.epoch);
            && CanRun(cfg, s, steps)
            && var t := Run(cfg, s, steps);
               KeysAgree(MlsKeys(exporter, kdf, t.alice.applied, level, Client, context),
                         MlsKeys(exporter, kdf, t.bob.group, level, Server, context))
  {
    hide Rounds, CanRun, Run, Carries, CommitFits, Honest, AllFit;
    RecoveryTerminates(cfg, s, accepts, s.alice.current - s.bob.epoch);
  }

  // ---------------------------------------------------------------------------
  // Two sessions, each through its own interleaving of calls and group commits
  // ---------------------------------------------------------------------------

  /** A client's session and a server's over the same libraries, wherever their interleavings have led. */
  ghost predicate Peers<S, P, H>(client: Session.Setup<S, P, H>, server: Session.Setup<S, P, H>,
                                 w1: Session.World<P, H>, w2: Session.World<P, H>)
  {
    && client.env == server.env && client.side == Client && server.side == Server
    && Session.Reachable(client, w1) && Session.Reachable(server, w2)
  }

  /**
   A set of keys the client's handshake returned matches one the server's returned when both groups stood
   at one history at their first `write_handshake`, and otherwise only by a collision in both directions.
   */
  lemma HandshakesAgreeExactly<S, P, H>(client: Session.Setup<S, P, H>, server: Session.Setup<S, P, H>,
                                        w1: Session.World<P, H>, w2: Session.World<P, H>, a: Keys<P, H>, b: Keys<P, H>)
    requires Peers(client, server, w1, w2) && a in w1.returned && b in w2.returned
    ensures w1.pinned.Some? && w2.pinned.Some?
    ensures w1.pinned == w2.pinned ==> Mirrored(a, b)
    ensures Mirrored(a, b) ==>
      || w1.pinned == w2.pinned
      || CollideBothWays(client.env.exporter, client.env.kdf, Session.LEVEL, w1.pinned.value, w2.pinned.value, [], [])
  {
    hide MlsKeys, Session.Reachable, Mirrored, CollideBothWays;
    Session.ReachableKeys(client, w1);
    Session.ReachableKeys(server, w2);
    KeysAgreeExactly(client.env.exporter, client.env.kdf, w1.pinned.value, w2.pinned.value, Session.LEVEL, []);
  }

  /**
   Update i of one session matches update j of the other when they are the same update, made over the
   same group, and otherwise only by a collision in both directions.
   */
  lemma UpdatesAgreeExactly<S, P, H>(client: Session.Setup<S, P, H>, server: Session.Setup<S, P, H>,
                                     w1: Session.World<P, H>, w2: Session.World<P, H>, i: nat, j: nat)
    requires Peers(client, server, w1, w2) && i < |w1.updates| && j < |w2.updates|
    requires w1.updates[i].keys.Some?
    ensures |w1.updates| < U64_LIMIT && |w2.updates| < U64_LIMIT
    ensures var (u, v) := (w1.updates[i], w2.updates[j]);
            var matching := v.keys == Some((u.keys.value.1, u.keys.value.0));
            && (i == j && u.group == v.group ==> matching)
            && (matching ==>
                  || (i == j && u.group == v.group)
                  || CollideBothWays(client.env.exporter, client.env.kdf, Session.LEVEL,
                                     u.group, v.group, U64Be(i + 1), U64Be(j + 1)))
  {
    hide Session.Reachable, U64Be;
    Session.ReachableKeys(client, w1);
    Session.ReachableKeys(server, w2);
    U64BeInjective(i + 1, j + 1);
  }

  /**
   End to end: when both groups stood at one history at their first `write_handshake`, whatever either
   did since, every packet one side sends under a set of the handshake's the other receives.
   */
  lemma HandshakePacketsCross<S>(client: Session.Setup<S, PacketMaterial, Block>,
                                 server: Session.Setup<S, PacketMaterial, Block>,
                                 w1: Session.World<PacketMaterial, Block>, w2: Session.World<PacketMaterial, Block>,
                                 a: PacketKeys, b: PacketKeys, aead: Aead, aes: Cipher, p: Plain)
    requires Peers(client, server, w1, w2) && w1.pinned == w2.pinned && a in w1.returned && b in w2.returned
    requires AeadCorrect(aead) && WellFormed(p)
    ensures Crosses(aead, aes, Sending(a), Receiving(b), p)
    ensures Crosses(aead, aes, Sending(b), Receiving(a), p)
  {
    hide Crosses, WellFormed, AeadCorrect, Peers;
    HandshakesAgreeExactly(client, server, w1, w2, a, b);
    PacketCrosses(aead, aes, Sending(a), p);
    PacketCrosses(aead, aes, Sending(b), p);
  }

  /**
   So after key updates: under the header keys of the handshake and the packet keys of update i, packets
   cross both ways when both groups stood at one history at that update.
   */
  lemma UpdatePacketsCross<S>(client: Session.Setup<S, PacketMaterial, Block>,
                              server: Session.Setup<S, PacketMaterial, Block>,
                              w1: Session.World<PacketMaterial, Block>, w2: Session.World<PacketMaterial, Block>,
                              a: PacketKeys, b: PacketKeys, i: nat, aead: Aead, aes: Cipher, p: Plain)
    requires Peers(client, server, w1, w2) && w1.pinned == w2.pinned && a in w1.returned && b in w2.returned
    requires i < |w1.updates| && i < |w2.updates| && w1.updates[i].group == w2.updates[i].group
    requires w1.updates[i].keys.Some?
    requires AeadCorrect(aead) && WellFormed(p)
    ensures w2.updates[i].keys.Some?
    ensures var (u, v) := (w1.updates[i].keys.value, w2.updates[i].keys.value);
            && Crosses(aead, aes, (a.localHeader, u.0), (b.remoteHeader, v.1), p)
            && Crosses(aead, aes, (b.localHeader, v.0), (a.remoteHeader, u.1), p)
  {
    hide Crosses, WellFormed, AeadCorrect, Peers;
    HandshakesAgreeExactly(client, server, w1, w2, a, b);
    UpdatesAgreeExactly(client, server, w1, w2, i, i);
    var u := w1.updates[i].keys.value;
    PacketCrosses(aead, aes, (a.localHeader, u.0), p);
    PacketCrosses(aead, aes, (a.remoteHeader, u.1), p);
  }

  /**
   0-RTT: what a client seals with when its group stands at `a` a server opens with when its group stands
   at `b`, if the histories are equal, and otherwise only by a collision; and then its packets cross.
   */
  lemma EarlyPacketsCross<S>(env: Session.Env<S, PacketMaterial, Block>, a: History, b: History,
                             aead: Aead, aes: Cipher, p: Plain)
    requires Session.EarlyKeys(env, Client, a).Some?
    requires AeadCorrect(aead) && WellFormed(p)
    ensures var (client, server) := (Session.EarlyKeys(env, Client, a), Session.EarlyKeys(env, Server, b));
            && (a == b ==> server == client)
            && (server == client ==> Crosses(aead, aes, client.value, server.value, p))
            && (server.Some? && server.value.1 == client.value.1 ==>
                  || a == b
                  || Collide(env.exporter, env.kdf,
                             SendsFrom(Session.LEVEL, Client, a, []), OpensFrom(Session.LEVEL, Server, b, [])))
  {
    hide Crosses, WellFormed, AeadCorrect;
    PacketCrosses(aead, aes, Session.EarlyKeys(env, Client, a).value, p);
  }

  // ---------------------------------------------------------------------------
  // Which packets of a session are sealed alike
  // ---------------------------------------------------------------------------

  /** A set of keys a session's side seals with, by where it came from. */
  datatype Source =
    | Handshake(n: nat)       // set n returned by write_handshake
    | Updated(i: nat)         // key update i
    | Early(group: History)   // a client's early_crypto, asked for while the group stood at `group`

  function SealsWith<S, P, H>(setup: Session.Setup<S, P, H>, w: Session.World<P, H>, source: Source): Option<P> {
    match source
    case Handshake(n) => if n < |w.returned| then Some(w.returned[n].localPacket) else None
    case Updated(i) =>
      if i < |w.updates| && w.updates[i].keys.Some? then Some(w.updates[i].keys.value.0) else None
    case Early(group) =>
      match Session.EarlyKeys(setup.env, setup.side, group)
      case Some((_, packet)) => if setup.side.Client? then Some(packet) else None
      case None => None
  }

  /** The export such a key comes from, in a world that has it. */
  function SealsFrom<P, H>(side: Side, w: Session.World<P, H>, source: Source): Export
    requires source.Handshake? ==> w.pinned.Some?
    requires source.Updated? ==> source.i < |w.updates| < U64_LIMIT
  {
    match source
    case Handshake(_) => SendsFrom(Session.LEVEL, side, w.pinned.value, [])
    case Updated(i) => SendsFrom(Session.LEVEL, side, w.updates[i].group, U64Be(i + 1))
    case Early(group) => SendsFrom(Session.LEVEL, side, group, [])
  }

  /** Two sources that come to one set: any two of the handshake's, and early keys of the group it pinned. */
  ghost predicate SameSet<P, H>(w: Session.World<P, H>, a: Source, b: Source) {
    match (a, b)
    case (Handshake(_), Handshake(_)) => true
    case (Handshake(_), Early(g)) => w.pinned == Some(g)
    case (Early(g), Handshake(_)) => w.pinned == Some(g)
    case _ => a == b
  }

  lemma SourceHasExport<S, P, H>(setup: Session.Setup<S, P, H>, w: Session.World<P, H>, source: Source)
    requires Session.Reachable(setup, w) && SealsWith(setup, w, source).Some?
    ensures source.Handshake? ==> w.pinned.Some?
    ensures source.Updated? ==> source.i < |w.updates| < U64_LIMIT
    ensures SealsWith(setup, w, source)
         == PacketKeyFrom(setup.env.exporter, setup.env.kdf, SealsFrom(setup.side, w, source))
  {
    hide Session.Reachable, U64Be;
    Session.ReachableKeys(setup, w);
    if source.Handshake? {
      assert w.returned[source.n] in w.returned;
    }
  }

  /** Wherever a session has come to: two of its sealing keys come from one export exactly when they are one set. */
  lemma ExportsRepeatExactly<S, P, H>(setup: Session.Setup<S, P, H>, w: Session.World<P, H>, a: Source, b: Source)
    requires Session.Reachable(setup, w) && SealsWith(setup, w, a).Some? && SealsWith(setup, w, b).Some?
    ensures a.Handshake? || b.Handshake? ==> w.pinned.Some?
    ensures a.Updated? || b.Updated? ==> |w.updates| < U64_LIMIT
    ensures a.Updated? ==> a.i < |w.updates|
    ensures b.Updated? ==> b.i < |w.updates|
    ensures SealsFrom(setup.side, w, a) == SealsFrom(setup.side, w, b) <==> SameSet(w, a, b)
    ensures SameSet(w, a, b) ==> SealsWith(setup, w, a) == SealsWith(setup, w, b)
  {
    hide Session.Reachable, U64Be, SealsWith, PacketKeyFrom;
    SourceHasExport(setup, w, a);
    SourceHasExport(setup, w, b);
    if a.Updated? && b.Updated? {
      U64BeInjective(a.i + 1, b.i + 1);
    }
  }

  /** The exports of two sources differ and still came to one AEAD key. */
  ghost predicate AeadKeysCollide<S, H>(setup: Session.Setup<S, PacketMaterial, H>,
                                        w: Session.World<PacketMaterial, H>, a: Source, b: Source)
  {
    && (a.Handshake? || b.Handshake? ==> w.pinned.Some?)
    && (a.Updated? ==> a.i < |w.updates| < U64_LIMIT)
    && (b.Updated? ==> b.i < |w.updates| < U64_LIMIT)
    && var (exporter, kdf) := (setup.env.exporter, setup.env.kdf);
       var (e, f) := (SealsFrom(setup.side, w, a), SealsFrom(setup.side, w, b));
       && e != f
       && match (PacketKeyFrom(exporter, kdf, e), PacketKeyFrom(exporter, kdf, f))
          case (Some(x), Some(y)) => x.key == y.key
          case _ => false
  }

  /**
   Two packets one side seals repeat an AEAD key and nonce when they carry one packet number under one set
   of keys, and otherwise only if two different exports of the session came to one AEAD key. So the sets
   of the handshake, and early keys of the group it pinned, share their nonces number by number; a key
   update shares none but by such a collision.
   */
  lemma NoncesRepeatExactly<S, H>(setup: Session.Setup<S, PacketMaterial, H>, w: Session.World<PacketMaterial, H>,
                                  a: Source, b: Source, m: bv64, n: bv64)
    requires Session.Reachable(setup, w) && SealsWith(setup, w, a).Some? && SealsWith(setup, w, b).Some?
    ensures var (x, y) := (SealsWith(setup, w, a).value, SealsWith(setup, w, b).value);
            var repeated := x.key == y.key && NonceFor(x.iv, m) == NonceFor(y.iv, n);
            && (SameSet(w, a, b) ==> x == y && (repeated <==> m == n))
            && (!SameSet(w, a, b) && repeated ==> AeadKeysCollide(setup, w, a, b))
  {
    hide Session.Reachable, NonceFor, SealsWith, SealsFrom, SameSet, PacketKeyFrom;
    ExportsRepeatExactly(setup, w, a, b);
    SourceHasExport(setup, w, a);
    SourceHasExport(setup, w, b);
    NonceInjective(SealsWith(setup, w, a).value.iv, m, n);
  }

  /** A byte of a packet as the socket sees it. */
  function OnWire(x: bv8): byte { (x as int) as byte }

  lemma OnWireKeepsBits(x: bv8)
    ensures OnWire(x) as bv8 == x
  {
  }

  /**
   Header protection leaves the bits alone by which the socket tells QUIC from preambles: a QUIC
   packet, long or short, goes through the other side's demultiplexer to QUIC and never to the sink.
   */
  lemma ProtectedPacketsReachQuic(aes: Cipher, key: Block, pnOffset: nat, packet: seq<bv8>,
                                  capacity: nat, hasSink: bool, wire: bytes, sender: nat)
    requires 1 <= pnOffset && pnOffset + 20 <= |packet| && packet[0] & 0xC0 != 0
    requires |wire| == |packet| <= capacity
    requires forall i :: 0 <= i < |wire| ==> wire[i] == OnWire(Protected(aes, key, pnOffset, packet)[i])
    ensures QuicOf(capacity, [Arrive(wire, sender)]) == [Packet(wire, sender)]
    ensures SunkOf(capacity, hasSink, [Arrive(wire, sender)]) == []
  {
    hide Protected, QuicOf, SunkOf, OnWire;
    var r := Protected(aes, key, pnOffset, packet);
    ProtectionFrame(aes, key, pnOffset, packet, 0);
    TopBits(packet[0], r[0]);
    OnWireKeepsBits(r[0]);
    QuicPacketsPassThrough(capacity, hasSink, wire, sender);
  }

  lemma TopBits(before: bv8, after: bv8)
    requires before & 0xC0 != 0
    requires after & 0xE0 == before & 0xE0
    ensures after & 0xC0 != 0
  {
  }
}
