/**
 Key derivation: two secrets, one for each direction, exported from the MLS group or derived from
 a connection id, and handed to each side as its local and remote keys.

 Secrets and keys are type parameters: the exporter (section 8.5 of RFC 9420) and HKDF are opaque here.
 */
module Keys {
  import opened Bytes
  import opened Group
  import opened HeaderProtection
  import opened PacketProtection

  datatype Side = Client | Server

  /** `export_secret` of the group with a given history, for a label and a context. */
  type Exporter<S> = (History, string, bytes) -> Option<S>

  /** A secret's packet key (key and iv) and its header key. */
  datatype Kdf<!S, !P, !H> = Kdf(packet: S -> P, header: S -> H)

  datatype Keys<P, H> = Keys(localPacket: P, remotePacket: P, localHeader: H, remoteHeader: H)

  function DirectionalKeys<S, P, H>(kdf: Kdf<S, P, H>, clientSecret: S, serverSecret: S, side: Side): Keys<P, H> {
    var (cp, ch) := (kdf.packet(clientSecret), kdf.header(clientSecret));
    var (sp, sh) := (kdf.packet(serverSecret), kdf.header(serverSecret));
    match side
    case Client => Keys(cp, sp, ch, sh)
    case Server => Keys(sp, cp, sh, ch)
  }

  const C2S_LABEL := "quic-mls c2s "
  const S2C_LABEL := "quic-mls s2c "

  /** None when either export fails. */
  function MlsKeys<S, P, H>(exporter: Exporter<S>, kdf: Kdf<S, P, H>,
                            group: History, level: string, side: Side, context: bytes): Option<Keys<P, H>>
  {
    match (exporter(group, C2S_LABEL + level, context), exporter(group, S2C_LABEL + level, context))
    case (Some(c), Some(s)) => Some(DirectionalKeys(kdf, c, s, side))
    case _ => None
  }

  /** `initial`: HKDF with the Initial salt, by connection id and label. */
  function InitialKeys<S, P, H>(initial: (bytes, string) -> S, kdf: Kdf<S, P, H>,
                                dstCid: bytes, side: Side): Keys<P, H>
  {
    DirectionalKeys(kdf, initial(dstCid, "client in"), initial(dstCid, "server in"), side)
  }

  /** What one side sends with, the other receives with. */
  ghost predicate Mirrored<P, H>(a: Keys<P, H>, b: Keys<P, H>) {
    && a.localPacket == b.remotePacket && a.remotePacket == b.localPacket
    && a.localHeader == b.remoteHeader && a.remoteHeader == b.localHeader
  }

  ghost predicate KeysAgree<P, H>(a: Option<Keys<P, H>>, b: Option<Keys<P, H>>) {
    a.Some? && b.Some? && Mirrored(a.value, b.value)
  }

  // ---------------------------------------------------------------------------
  // Which exports keys come from, and when two of them come to one key
  // ---------------------------------------------------------------------------

  /** One call of `export_secret`. */
  datatype Export = Export(group: History, purpose: string, context: bytes)

  function PacketKeyFrom<S, P, H>(exporter: Exporter<S>, kdf: Kdf<S, P, H>, e: Export): Option<P> {
    match exporter(e.group, e.purpose, e.context) case Some(s) => Some(kdf.packet(s)) case None => None
  }

  function SendsFrom(level: string, side: Side, group: History, context: bytes): Export {
    Export(group, (if side.Client? then C2S_LABEL else S2C_LABEL) + level, context)
  }

  function OpensFrom(level: string, side: Side, group: History, context: bytes): Export {
    Export(group, (if side.Client? then S2C_LABEL else C2S_LABEL) + level, context)
  }

  /** A collision in exporter or derivation: two different exports came to one packet key. */
  ghost predicate Collide<S, P, H>(exporter: Exporter<S>, kdf: Kdf<S, P, H>, e: Export, f: Export) {
    && e != f
    && PacketKeyFrom(exporter, kdf, e).Some?
    && PacketKeyFrom(exporter, kdf, e) == PacketKeyFrom(exporter, kdf, f)
  }

  /** Some export of one derivation collides with one of the other. */
  ghost predicate Collided<S, P, H>(exporter: Exporter<S>, kdf: Kdf<S, P, H>, level: string, side: Side,
                                    a: History, c: bytes, b: History, d: bytes)
  {
    || Collide(exporter, kdf, SendsFrom(level, side, a, c), SendsFrom(level, side, b, d))
    || Collide(exporter, kdf, OpensFrom(level, side, a, c), OpensFrom(level, side, b, d))
    || Collide(exporter, kdf, SendsFrom(level, side, a, c), OpensFrom(level, side, b, d))
    || Collide(exporter, kdf, OpensFrom(level, side, a, c), SendsFrom(level, side, b, d))
  }

  /** No key of one pair is a key of the other, in either direction. */
  ghost predicate Disjoint<P>(a: (P, P), b: (P, P)) {
    a.0 != b.0 && a.1 != b.1 && a.0 != b.1 && a.1 != b.0
  }

  lemma LabelsDiffer(level: string)
    ensures C2S_LABEL + level != S2C_LABEL + level
  {
    assert (C2S_LABEL + level)[9] == 'c' && (S2C_LABEL + level)[9] == 's';
  }

  /** The sending half of `keys` comes from one secret and the receiving half from the other. */
  ghost predicate KeyedBy<S, P, H>(kdf: Kdf<S, P, H>, keys: Keys<P, H>, sending: S, receiving: S) {
    && keys.localPacket == kdf.packet(sending) && keys.localHeader == kdf.header(sending)
    && keys.remotePacket == kdf.packet(receiving) && keys.remoteHeader == kdf.header(receiving)
  }

  /**
   Keys come of two exports, neither of which may fail: a client sends under the c2s one and receives under
   the s2c one, a server the other way round.
   */
  lemma MlsKeysExactly<S, P, H>(exporter: Exporter<S>, kdf: Kdf<S, P, H>,
                                group: History, level: string, side: Side, context: bytes)
    ensures var keys := MlsKeys(exporter, kdf, group, level, side, context);
            var c2s := exporter(group, "quic-mls c2s " + level, context);
            var s2c := exporter(group, "quic-mls s2c " + level, context);
            && (keys.Some? <==> c2s.Some? && s2c.Some?)
            && (keys.Some? && side == Client ==> KeyedBy(kdf, keys.value, c2s.value, s2c.value))
            && (keys.Some? && side == Server ==> KeyedBy(kdf, keys.value, s2c.value, c2s.value))
  {
  }

  /**
   Initial keys, as section 5.2 of RFC 9001 has them: a client sends under "client in" and receives under
   "server in", a server the other way round.
   */
  lemma InitialKeysExactly<S, P, H>(initial: (bytes, string) -> S, kdf: Kdf<S, P, H>, dstCid: bytes)
    ensures var clientIn, serverIn := initial(dstCid, "client in"), initial(dstCid, "server in");
            && KeyedBy(kdf, InitialKeys(initial, kdf, dstCid, Client), clientIn, serverIn)
            && KeyedBy(kdf, InitialKeys(initial, kdf, dstCid, Server), serverIn, clientIn)
  {
  }

  /**
   A client sends under the c2s export, a server under the s2c one; the two share a packet key only by a
   collision.
   */
  lemma DirectionsAreSeparate<S, P, H>(exporter: Exporter<S>, kdf: Kdf<S, P, H>,
                                       group: History, level: string, side: Side, context: bytes)
    requires MlsKeys(exporter, kdf, group, level, side, context).Some?
    ensures var keys := MlsKeys(exporter, kdf, group, level, side, context).value;
            var c2s := exporter(group, "quic-mls c2s " + level, context);
            var s2c := exporter(group, "quic-mls s2c " + level, context);
            var e, f := SendsFrom(level, side, group, context), OpensFrom(level, side, group, context);
            && c2s.Some? && s2c.Some? && e != f
            && (side == Client ==> KeyedBy(kdf, keys, c2s.value, s2c.value))
            && (side == Server ==> KeyedBy(kdf, keys, s2c.value, c2s.value))
            && Some(keys.localPacket) == PacketKeyFrom(exporter, kdf, e)
            && Some(keys.remotePacket) == PacketKeyFrom(exporter, kdf, f)
            && (keys.localPacket == keys.remotePacket <==> Collide(exporter, kdf, e, f))
  {
    LabelsDiffer(level);
  }

  /**
   At one level and context, equal histories give the two sides each other's keys, and different
   histories do so only by a collision in each direction.
   */
  lemma KeysAgreeExactly<S, P, H>(exporter: Exporter<S>, kdf: Kdf<S, P, H>,
                                  a: History, b: History, level: string, context: bytes)
    requires MlsKeys(exporter, kdf, a, level, Client, context).Some?
    ensures var client := MlsKeys(exporter, kdf, a, level, Client, context);
            var server := MlsKeys(exporter, kdf, b, level, Server, context);
            && (a == b ==> KeysAgree(client, server))
            && (KeysAgree(client, server) ==> a == b || CollideBothWays(exporter, kdf, level, a, b, context, context))
  {
  }

  /** A client's derivation and a server's collide in both directions. */
  ghost predicate CollideBothWays<S, P, H>(exporter: Exporter<S>, kdf: Kdf<S, P, H>, level: string,
                                           a: History, b: History, c: bytes, d: bytes)
  {
    && Collide(exporter, kdf, SendsFrom(level, Client, a, c), OpensFrom(level, Server, b, d))
    && Collide(exporter, kdf, OpensFrom(level, Client, a, c), SendsFrom(level, Server, b, d))
  }

  /**
   Two different derivations of one side share no packet key, in either direction, unless two of their
   exports collide.
   */
  lemma SharedKeysCollide<S, P, H>(exporter: Exporter<S>, kdf: Kdf<S, P, H>, level: string, side: Side,
                                   a: History, c: bytes, b: History, d: bytes)
    requires MlsKeys(exporter, kdf, a, level, side, c).Some? && MlsKeys(exporter, kdf, b, level, side, d).Some?
    requires a != b || c != d
    ensures var x := MlsKeys(exporter, kdf, a, level, side, c).value;
            var y := MlsKeys(exporter, kdf, b, level, side, d).value;
            Disjoint((x.localPacket, x.remotePacket), (y.localPacket, y.remotePacket))
            <==> !Collided(exporter, kdf, level, side, a, c, b, d)
  {
    LabelsDiffer(level);
  }

  // ---------------------------------------------------------------------------
  // A whole packet, from one side's keys to the other's
  // ---------------------------------------------------------------------------

  datatype PacketMaterial = PacketMaterial(key: Block, iv: Iv)

  type PacketKeys = Keys<PacketMaterial, Block>

  /** What one direction of traffic is sealed or opened with: header key and packet key. */
  type Half = (Block, PacketMaterial)

  function Sending(keys: PacketKeys): Half { (keys.localHeader, keys.localPacket) }

  function Receiving(keys: PacketKeys): Half { (keys.remoteHeader, keys.remotePacket) }

  /** A packet to be sent: its number, where the number stands, and `room` for the tag. */
  datatype Plain = Plain(pn: bv64, pnOffset: nat, header: seq<bv8>, plaintext: seq<bv8>, room: Block)

  /** The header ends with the packet number, and there is enough behind it for a sample. */
  predicate WellFormed(p: Plain) {
    && 1 <= p.pnOffset < |p.header| && p.pnOffset + PnLen(p.header[0]) == |p.header|
    && p.pnOffset + 20 <= |p.header| + |p.plaintext| + TAG_LEN
  }

  /** The sender's two steps in place: seal the payload, then mask the header. */
  function Outgoing(aead: Aead, aes: Cipher, half: Half, p: Plain): (wire: seq<bv8>)
    requires AeadCorrect(aead) && WellFormed(p)
  {
    var (header, packet) := half;
    EncryptThenDecrypt(aead, packet.key, packet.iv, p.pn, p.header, p.plaintext, p.room);
    Protected(aes, header, p.pnOffset,
              Encrypted(aead, packet.key, packet.iv, p.pn, p.header + p.plaintext + p.room, |p.header|))
  }

  /**
   Sent under `a`, a packet comes out at the other side under `b`: same header, same packet-number
   length, same plaintext.
   */
  ghost predicate Crosses(aead: Aead, aes: Cipher, a: Half, b: Half, p: Plain)
    requires AeadCorrect(aead) && WellFormed(p)
  {
    var wire := Outgoing(aead, aes, a, p);
    && |wire| == |p.header| + |p.plaintext| + TAG_LEN
    && p.pnOffset + 20 <= |wire|
    && var received := Unprotected(aes, b.0, p.pnOffset, wire);
       && received != [] && p.pnOffset + PnLen(received[0]) == |p.header| <= |received|
       && received[..|p.header|] == p.header
       && |received| >= |p.header| + TAG_LEN
       && Decrypted(aead, b.1.key, b.1.iv, p.pn, p.header, received[|p.header|..]) == Some(p.plaintext)
  }

  /** What is sealed and protected under one pair of keys is unprotected and opened under the same. */
  lemma PacketCrosses(aead: Aead, aes: Cipher, half: Half, p: Plain)
    requires AeadCorrect(aead) && WellFormed(p)
    ensures Crosses(aead, aes, half, half, p)
  {
    hide Protected, Unprotected, Encrypted, Decrypted, PnLen, AeadCorrect;
    var (header, packet) := half;
    EncryptThenDecrypt(aead, packet.key, packet.iv, p.pn, p.header, p.plaintext, p.room);
    var buf := Encrypted(aead, packet.key, packet.iv, p.pn, p.header + p.plaintext + p.room, |p.header|);
    ProtectionInverts(aes, header, p.pnOffset, buf);
    assert buf[0] == buf[..|p.header|][0];
  }

  /**
   Under the Initial keys of one connection id each side's packets cross to the other: those of the client
   under "client in", those of the server under "server in".
   */
  lemma InitialPacketsCross<S>(initial: (bytes, string) -> S, kdf: Kdf<S, PacketMaterial, Block>, dstCid: bytes,
                               aead: Aead, aes: Cipher, p: Plain)
    requires AeadCorrect(aead) && WellFormed(p)
    ensures var client, server := InitialKeys(initial, kdf, dstCid, Client), InitialKeys(initial, kdf, dstCid, Server);
            var clientIn, serverIn := initial(dstCid, "client in"), initial(dstCid, "server in");
            && Sending(client) == (kdf.header(clientIn), kdf.packet(clientIn))
            && Sending(server) == (kdf.header(serverIn), kdf.packet(serverIn))
            && Crosses(aead, aes, Sending(client), Receiving(server), p)
            && Crosses(aead, aes, Sending(server), Receiving(client), p)
  {
    hide Crosses, WellFormed, AeadCorrect;
    InitialKeysExactly(initial, kdf, dstCid);
    var client, server := InitialKeys(initial, kdf, dstCid, Client), InitialKeys(initial, kdf, dstCid, Server);
    PacketCrosses(aead, aes, Sending(client), p);
    PacketCrosses(aead, aes, Sending(server), p);
  }
}
