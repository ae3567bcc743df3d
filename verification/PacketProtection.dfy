/**
 QUIC packet protection (section 5.3 of RFC 9001): the per-packet nonce, and sealing and opening
 of buffers in place. The AEAD is a parameter; what is asked of it is `AeadCorrect`.
 */
module PacketProtection {
  import opened Bytes
  import opened HeaderProtection

  type Iv = b: seq<bv8> | |b| == 12 witness seq(12, _ => 0)

  const TAG_LEN := 16

  /** A sealed payload: as long as the plaintext, with its tag apart. */
  datatype Sealed = Sealed(ciphertext: seq<bv8>, tag: Block)

  datatype Aead = Aead(
    seal: (Block, Iv, seq<bv8>, seq<bv8>) -> Sealed,                 // key, nonce, header, plaintext
    unseal: (Block, Iv, seq<bv8>, seq<bv8>, Block) -> Option<seq<bv8>> // key, nonce, header, ciphertext, tag
  )

  /** Sizes are kept, and what was sealed opens to the plaintext under the same key, nonce and header. */
  ghost predicate AeadCorrect(aead: Aead) {
    && (forall k, n, h, p {:trigger aead.seal(k, n, h, p)} ::
          var s := aead.seal(k, n, h, p);
          |s.ciphertext| == |p| && aead.unseal(k, n, h, s.ciphertext, s.tag) == Some(p))
    && (forall k, n, h, c, t {:trigger aead.unseal(k, n, h, c, t)} ::
          aead.unseal(k, n, h, c, t).Some? ==> |aead.unseal(k, n, h, c, t).value| == |c|)
  }

  /** Byte i of a packet number, most significant first. */
  function PnByte(packet: bv64, i: nat): bv8
    requires i < 8
  {
    match i
    case 0 => ((packet >> 56) & 0xff) as bv8
    case 1 => ((packet >> 48) & 0xff) as bv8
    case 2 => ((packet >> 40) & 0xff) as bv8
    case 3 => ((packet >> 32) & 0xff) as bv8
    case 4 => ((packet >> 24) & 0xff) as bv8
    case 5 => ((packet >> 16) & 0xff) as bv8
    case 6 => ((packet >> 8) & 0xff) as bv8
    case 7 => (packet & 0xff) as bv8
  }

  function NonceFor(iv: Iv, packet: bv64): Iv {
    seq(12, i requires 0 <= i < 12 => if i < 4 then iv[i] else iv[i] ^ PnByte(packet, i - 4))
  }

  method ComputeNonce(iv: Iv, packet: bv64) returns (r: Iv)
    ensures r == NonceFor(iv, packet)
  {
    hide PnByte;
    var nonce := new bv8[12](i requires 0 <= i < 12 => iv[i]);
    for i := 0 to 8
      invariant forall j :: 0 <= j < 12 ==>
        nonce[j] == if 4 <= j < 4 + i then iv[j] ^ PnByte(packet, j - 4) else iv[j]
    {
      nonce[4 + i] := nonce[4 + i] ^ PnByte(packet, i);
    }
    r := nonce[..];
  }

  lemma PnBytesDetermine(a: bv64, b: bv64)
    requires forall i :: 0 <= i < 8 ==> PnByte(a, i) == PnByte(b, i)
    ensures a == b
  {
    assert PnByte(a, 0) == PnByte(b, 0) && PnByte(a, 1) == PnByte(b, 1);
    assert PnByte(a, 2) == PnByte(b, 2) && PnByte(a, 3) == PnByte(b, 3);
    assert PnByte(a, 4) == PnByte(b, 4) && PnByte(a, 5) == PnByte(b, 5);
    assert PnByte(a, 6) == PnByte(b, 6) && PnByte(a, 7) == PnByte(b, 7);
  }

  lemma XorCancels(x: bv8, a: bv8, b: bv8)
    requires x ^ a == x ^ b
    ensures a == b
  {
  }

  /** Under one iv, no two of the 2^64 packet numbers share a nonce; the iv's first four bytes stay. */
  lemma NonceInjective(iv: Iv, a: bv64, b: bv64)
    ensures NonceFor(iv, a) == NonceFor(iv, b) <==> a == b
    ensures NonceFor(iv, a)[..4] == iv[..4]
  {
    hide PnByte;
    if NonceFor(iv, a) == NonceFor(iv, b) {
      forall i | 0 <= i < 8
        ensures PnByte(a, i) == PnByte(b, i)
      {
        assert NonceFor(iv, a)[4 + i] == NonceFor(iv, b)[4 + i];
        XorCancels(iv[4 + i], PnByte(a, i), PnByte(b, i));
      }
      PnBytesDetermine(a, b);
    }
  }

  /** The number eight bytes spell, most significant first. */
  function Spelled(b: seq<bv8>): bv64
    requires |b| == 8
  {
    ((b[0] as bv64) << 56) | ((b[1] as bv64) << 48) | ((b[2] as bv64) << 40) | ((b[3] as bv64) << 32)
    | ((b[4] as bv64) << 24) | ((b[5] as bv64) << 16) | ((b[6] as bv64) << 8) | (b[7] as bv64)
  }

  /**
   The nonce is the iv exclusive-ored with the packet number, left-padded to the iv's length and in
   network byte order.
   */
  lemma NonceIsPaddedPacketNumber(iv: Iv, packet: bv64)
    ensures var nonce := NonceFor(iv, packet);
            && (forall i :: 0 <= i < 4 ==> nonce[i] == iv[i])
            && Spelled(seq(8, i requires 0 <= i < 8 => nonce[4 + i] ^ iv[4 + i])) == packet
  {
    hide Spelled, PnByte;
    var nonce := NonceFor(iv, packet);
    assert seq(8, i requires 0 <= i < 8 => nonce[4 + i] ^ iv[4 + i]) == PnBytes(packet) by {
      forall i | 0 <= i < 8
        ensures nonce[4 + i] ^ iv[4 + i] == PnByte(packet, i)
      {
        XorLeft(iv[4 + i], PnByte(packet, i));
      }
    }
    PnBytesSpell(packet);
  }

  function PnBytes(packet: bv64): seq<bv8> {
    seq(8, i requires 0 <= i < 8 => PnByte(packet, i))
  }

  lemma PnBytesSpell(packet: bv64)
    ensures Spelled(PnBytes(packet)) == packet
  {
  }

  lemma XorLeft(x: bv8, y: bv8)
    ensures (x ^ y) ^ x == y
  {
  }

  /** The buffer after encryption: header kept, then ciphertext and tag where plaintext and room for it were. */
  function Encrypted(aead: Aead, key: Block, iv: Iv, packet: bv64, buf: seq<bv8>, headerLen: nat): seq<bv8>
    requires headerLen + TAG_LEN <= |buf|
  {
    var s := aead.seal(key, NonceFor(iv, packet), buf[..headerLen], buf[headerLen..|buf| - TAG_LEN]);
    buf[..headerLen] + s.ciphertext + s.tag
  }

  function Decrypted(aead: Aead, key: Block, iv: Iv, packet: bv64,
                     header: seq<bv8>, payload: seq<bv8>): Option<seq<bv8>>
    requires TAG_LEN <= |payload|
  {
    var tagStart := |payload| - TAG_LEN;
    aead.unseal(key, NonceFor(iv, packet), header, payload[..tagStart], payload[tagStart..])
  }

  /**
   What is sent is the header as it was, then what the library seals under the packet's nonce with the
   header as its data.
   */
  lemma SealsExactly(aead: Aead, key: Block, iv: Iv, packet: bv64, header: seq<bv8>, plaintext: seq<bv8>, room: Block)
    ensures var s := aead.seal(key, NonceFor(iv, packet), header, plaintext);
            Encrypted(aead, key, iv, packet, header + plaintext + room, |header|) == header + s.ciphertext + s.tag
  {
    var buf := header + plaintext + room;
    assert buf[..|header|] == header && buf[|header|..|buf| - TAG_LEN] == plaintext;
  }

  /** Nothing opens but what was sealed: a ciphertext and tag that open to p are those p is sealed to. */
  ghost predicate AeadExact(aead: Aead) {
    forall k, n, h, c, t {:trigger aead.unseal(k, n, h, c, t)} ::
      var p := aead.unseal(k, n, h, c, t);
      p.Some? ==> aead.seal(k, n, h, p.value) == Sealed(c, t)
  }

  /**
   With such a library a payload opens to a plaintext if and only if it is that plaintext's sealing: under
   this key, the nonce of this packet number and this very header.
   */
  lemma OpensExactly(aead: Aead, key: Block, iv: Iv, packet: bv64,
                     header: seq<bv8>, payload: seq<bv8>, plaintext: seq<bv8>)
    requires AeadCorrect(aead) && AeadExact(aead) && TAG_LEN <= |payload|
    ensures var s := aead.seal(key, NonceFor(iv, packet), header, plaintext);
            Decrypted(aead, key, iv, packet, header, payload) == Some(plaintext) <==> payload == s.ciphertext + s.tag
  {
    hide NonceFor;
    var s := aead.seal(key, NonceFor(iv, packet), header, plaintext);
    var n := |payload| - TAG_LEN;
    assert payload == payload[..n] + payload[n..];
    if payload == s.ciphertext + s.tag {
      assert payload[..n] == s.ciphertext && payload[n..] == s.tag;
    }
  }

  class BytesMut {
    var data: seq<bv8>

    constructor (data: seq<bv8>)
      ensures this.data == data
    {
      this.data := data;
    }

    method Truncate(len: nat)
      modifies this
      ensures data == if len < |old(data)| then old(data)[..len] else old(data)
    {
      if len < |data| {
        data := data[..len];
      }
    }
  }

  class PacketKey {
    const aead: Aead
    const key: Block
    const iv: Iv

    constructor (aead: Aead, key: Block, iv: Iv)
      ensures this.aead == aead && this.key == key && this.iv == iv
    {
      this.aead := aead;
      this.key := key;
      this.iv := iv;
    }

    /** The last 16 bytes of `buf` are room for the tag. */
    method Encrypt(packet: bv64, buf: array<bv8>, headerLen: nat)
      requires AeadCorrect(aead)
      requires headerLen + TAG_LEN <= buf.Length
      modifies buf
      ensures buf[..] == Encrypted(aead, key, iv, packet, old(buf[..]), headerLen)
    {
      var nonce := ComputeNonce(iv, packet);
      var ptEnd := buf.Length - TAG_LEN;
      ghost var before := buf[..];
      var s := aead.seal(key, nonce, buf[..headerLen], buf[headerLen..ptEnd]);
      assert before[..headerLen] == buf[..headerLen] && before[headerLen..ptEnd] == buf[headerLen..ptEnd];
      forall i | headerLen <= i < ptEnd {
        buf[i] := s.ciphertext[i - headerLen];
      }
      forall i | ptEnd <= i < buf.Length {
        buf[i] := s.tag[i - ptEnd];
      }
      assert buf[..] == before[..headerLen] + s.ciphertext + s.tag;
    }

    /** On success the payload is the plaintext without its tag; on failure it is left as it was. */
    method Decrypt(packet: bv64, header: seq<bv8>, payload: BytesMut) returns (ok: bool)
      requires AeadCorrect(aead)
      requires TAG_LEN <= |payload.data|
      modifies payload
      ensures var d := Decrypted(aead, key, iv, packet, header, old(payload.data));
              ok == d.Some? && payload.data == if d.Some? then d.value else old(payload.data)
    {
      var nonce := ComputeNonce(iv, packet);
      var tagStart := |payload.data| - TAG_LEN;
      var tag: Block := payload.data[tagStart..];
      var plaintext := aead.unseal(key, nonce, header, payload.data[..tagStart], tag);
      ok := plaintext.Some?;
      if ok {
        payload.data := plaintext.value + tag;
        payload.Truncate(tagStart);
      }
    }
  }

  /**
   For every header and plaintext: decryption gives the plaintext back without its tag, and the header
   is untouched.
   */
  lemma EncryptThenDecrypt(aead: Aead, key: Block, iv: Iv, packet: bv64,
                           header: seq<bv8>, plaintext: seq<bv8>, room: Block)
    requires AeadCorrect(aead)
    ensures var buf := Encrypted(aead, key, iv, packet, header + plaintext + room, |header|);
            && |buf| == |header| + |plaintext| + TAG_LEN
            && buf[..|header|] == header
            && Decrypted(aead, key, iv, packet, header, buf[|header|..]) == Some(plaintext)
  {
    hide NonceFor;
    var before := header + plaintext + room;
    assert before[..|header|] == header && before[|header|..|before| - TAG_LEN] == plaintext;
    var s := aead.seal(key, NonceFor(iv, packet), header, plaintext);
    var buf := Encrypted(aead, key, iv, packet, before, |header|);
    assert buf == header + s.ciphertext + s.tag;
    assert buf[|header|..][..|plaintext|] == s.ciphertext && buf[|header|..][|plaintext|..] == s.tag;
  }
}
