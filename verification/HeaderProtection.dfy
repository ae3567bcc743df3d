/**
 QUIC header protection (section 5.4.1 of RFC 9001): the low bits of the first byte and the
 packet-number bytes are masked in place. AES is a parameter of the key.
 */
module HeaderProtection {

  type Block = b: seq<bv8> | |b| == 16 witness seq(16, _ => 0)

  type Cipher = (Block, Block) -> Block

  /** Packet-number length, from the low two bits of an unprotected first byte. */
  function PnLen(first: bv8): (n: nat)
    ensures 1 <= n <= 4
  {
    (first & 0x03) as nat + 1
  }

  /** Long headers let the mask touch the low 4 bits, short headers the low 5. */
  function MaskedFirst(first: bv8, mask: bv8): bv8 {
    if first & 0x80 != 0 then first ^ (mask & 0x0f) else first ^ (mask & 0x1f)
  }

  function XorFirst(packet: seq<bv8>, mask: bv8): (r: seq<bv8>)
    requires packet != []
    ensures |r| == |packet|
  {
    packet[0 := MaskedFirst(packet[0], mask)]
  }

  function XorPn(packet: seq<bv8>, pnOffset: nat, pnLen: nat, mask: Block): (r: seq<bv8>)
    requires pnOffset + pnLen <= |packet| && pnLen <= 4
    ensures |r| == |packet|
  {
    seq(|packet|, i requires 0 <= i < |packet| =>
      if pnOffset <= i < pnOffset + pnLen then packet[i] ^ mask[1 + i - pnOffset] else packet[i])
  }

  function Sample(packet: seq<bv8>, pnOffset: nat): Block
    requires pnOffset + 20 <= |packet|
  {
    packet[pnOffset + 4..pnOffset + 20]
  }

  function Protected(aes: Cipher, key: Block, pnOffset: nat, packet: seq<bv8>): (r: seq<bv8>)
    requires pnOffset + 20 <= |packet|
    ensures |r| == |packet|
  {
    var mask := aes(key, Sample(packet, pnOffset));
    XorPn(XorFirst(packet, mask[0]), pnOffset, PnLen(packet[0]), mask)
  }

  function Unprotected(aes: Cipher, key: Block, pnOffset: nat, packet: seq<bv8>): (r: seq<bv8>)
    requires pnOffset + 20 <= |packet|
    ensures |r| == |packet|
  {
    var mask := aes(key, Sample(packet, pnOffset));
    var unmasked := XorFirst(packet, mask[0]);
    XorPn(unmasked, pnOffset, PnLen(unmasked[0]), mask)
  }

  class HeaderKey {
    const aes: Cipher
    const key: Block

    constructor (aes: Cipher, key: Block)
      ensures this.aes == aes && this.key == key
    {
      this.aes := aes;
      this.key := key;
    }

    method ComputeMask(sample: Block) returns (mask: Block)
      ensures mask == aes(key, sample)
    {
      mask := aes(key, sample);
    }

    static method XorFirstByte(packet: array<bv8>, maskByte: bv8)
      requires packet.Length > 0
      modifies packet
      ensures packet[..] == XorFirst(old(packet[..]), maskByte)
    {
      var isLongHeader := packet[0] & 0x80 != 0;
      if isLongHeader {
        packet[0] := packet[0] ^ (maskByte & 0x0f);
      } else {
        packet[0] := packet[0] ^ (maskByte & 0x1f);
      }
    }

    static method XorPnBytes(packet: array<bv8>, pnOffset: nat, pnLen: nat, mask: Block)
      requires pnOffset + pnLen <= packet.Length && pnLen <= 4
      modifies packet
      ensures packet[..] == XorPn(old(packet[..]), pnOffset, pnLen, mask)
    {
      for i := 0 to pnLen
        invariant forall j :: 0 <= j < packet.Length ==>
          packet[j] == if pnOffset <= j < pnOffset + i then old(packet[j]) ^ mask[1 + j - pnOffset] else old(packet[j])
      {
        packet[pnOffset + i] := packet[pnOffset + i] ^ mask[1 + i];
      }
    }

    method Encrypt(pnOffset: nat, packet: array<bv8>)
      requires pnOffset + 20 <= packet.Length
      modifies packet
      ensures packet[..] == Protected(aes, key, pnOffset, old(packet[..]))
    {
      assert packet[pnOffset + 4..pnOffset + 20] == Sample(packet[..], pnOffset);
      var mask := ComputeMask(packet[pnOffset + 4..pnOffset + 20]);
      var pnLen := PnLen(packet[0]);
      XorFirstByte(packet, mask[0]);
      XorPnBytes(packet, pnOffset, pnLen, mask);
    }

    method Decrypt(pnOffset: nat, packet: array<bv8>)
      requires pnOffset + 20 <= packet.Length
      modifies packet
      ensures packet[..] == Unprotected(aes, key, pnOffset, old(packet[..]))
    {
      assert packet[pnOffset + 4..pnOffset + 20] == Sample(packet[..], pnOffset);
      var mask := ComputeMask(packet[pnOffset + 4..pnOffset + 20]);
      XorFirstByte(packet, mask[0]);
      assert packet[0] == packet[..][0];
      var pnLen := PnLen(packet[0]);
      XorPnBytes(packet, pnOffset, pnLen, mask);
    }
  }

  lemma XorTwice(x: bv8, m: bv8)
    ensures (x ^ m) ^ m == x
  {
  }

  /** Masking the first byte is undone by the same mask, keeps the header form and never touches the top three bits. */
  lemma MaskedFirstTwice(first: bv8, mask: bv8)
    ensures MaskedFirst(MaskedFirst(first, mask), mask) == first
    ensures MaskedFirst(first, mask) & 0xE0 == first & 0xE0
    ensures first & 0x80 != 0 ==> MaskedFirst(first, mask) & 0xF0 == first & 0xF0
  {
  }

  lemma XorPnTwice(packet: seq<bv8>, pnOffset: nat, pnLen: nat, mask: Block)
    requires pnOffset + pnLen <= |packet| && pnLen <= 4
    ensures XorPn(XorPn(packet, pnOffset, pnLen, mask), pnOffset, pnLen, mask) == packet
  {
    forall i | pnOffset <= i < pnOffset + pnLen
      ensures (packet[i] ^ mask[1 + i - pnOffset]) ^ mask[1 + i - pnOffset] == packet[i]
    {
      XorTwice(packet[i], mask[1 + i - pnOffset]);
    }
  }

  /** Masking the first byte and the packet number do not interfere when they do not overlap. */
  lemma XorsCommute(packet: seq<bv8>, pnOffset: nat, pnLen: nat, mask: Block, m: bv8)
    requires 1 <= pnOffset && pnOffset + pnLen <= |packet| && pnLen <= 4
    ensures XorFirst(XorPn(packet, pnOffset, pnLen, mask), m) == XorPn(XorFirst(packet, m), pnOffset, pnLen, mask)
  {
    hide MaskedFirst;
  }

  lemma XorFirstTwice(packet: seq<bv8>, m: bv8)
    requires packet != []
    ensures XorFirst(XorFirst(packet, m), m) == packet
  {
    hide MaskedFirst;
    MaskedFirstTwice(packet[0], m);
  }

  /** Protection leaves its own sample alone, on either side. */
  lemma SampleUntouched(packet: seq<bv8>, pnOffset: nat, pnLen: nat, mask: Block, m: bv8)
    requires pnOffset + 20 <= |packet| && pnLen <= 4
    ensures Sample(XorPn(XorFirst(packet, m), pnOffset, pnLen, mask), pnOffset) == Sample(packet, pnOffset)
  {
    hide MaskedFirst;
  }

  /** Header protection inverts, both ways round, for every cipher, key and packet long enough to be sampled. */
  lemma ProtectionInverts(aes: Cipher, key: Block, pnOffset: nat, packet: seq<bv8>)
    requires 1 <= pnOffset && pnOffset + 20 <= |packet|
    ensures Unprotected(aes, key, pnOffset, Protected(aes, key, pnOffset, packet)) == packet
    ensures Protected(aes, key, pnOffset, Unprotected(aes, key, pnOffset, packet)) == packet
  {
    hide MaskedFirst, PnLen, XorPn, XorFirst, Sample;
    var mask := aes(key, Sample(packet, pnOffset));
    Undone(packet, pnOffset, PnLen(packet[0]), mask);
    Undone(packet, pnOffset, PnLen(XorFirst(packet, mask[0])[0]), mask);
  }

  /** What the two directions share: for any packet-number length, masking twice is the identity. */
  lemma Undone(packet: seq<bv8>, pnOffset: nat, pnLen: nat, mask: Block)
    requires 1 <= pnOffset && pnOffset + 20 <= |packet| && pnLen <= 4
    ensures var masked := XorPn(XorFirst(packet, mask[0]), pnOffset, pnLen, mask);
            && Sample(masked, pnOffset) == Sample(packet, pnOffset)
            && masked[0] == XorFirst(packet, mask[0])[0]
            && XorFirst(masked, mask[0])[0] == packet[0]
            && XorPn(XorFirst(masked, mask[0]), pnOffset, pnLen, mask) == packet
  {
    hide MaskedFirst;
    var first := XorFirst(packet, mask[0]);
    SampleUntouched(packet, pnOffset, pnLen, mask, mask[0]);
    XorsCommute(first, pnOffset, pnLen, mask, mask[0]);
    XorFirstTwice(packet, mask[0]);
    XorPnTwice(packet, pnOffset, pnLen, mask);
    MaskedFirstTwice(packet[0], mask[0]);
  }

  /** `first & 0x03` counts in binary what `first % 4` does. */
  lemma PnLenExactly(first: bv8)
    ensures PnLen(first) == (first as int) % 4 + 1
  {
    LowBits(first);
  }

  lemma LowBits(first: bv8)
    ensures (first & 0x03) as int == (first as int) % 4
  {
    assert first & 0x03 == first % 4;
  }

  /** The low bits of a first byte that the mask may touch: 4 of a long header, 5 of a short one. */
  function Touched(first: bv8): bv8 {
    if first & 0x80 != 0 then 0x0f else 0x1f
  }

  lemma MaskedFirstIs(first: bv8, mask: bv8)
    ensures MaskedFirst(first, mask) == first ^ (mask & Touched(first))
  {
  }

  /**
   Protection byte by byte, at any offset. The mask is what AES makes of the 16 packet bytes that start
   four after the packet number does; byte 0 is masked in its low bits, and of the packet number as many
   bytes as the low two bits of the unmasked first byte say, from one to four.
   */
  lemma ProtectionExactly(aes: Cipher, key: Block, pnOffset: nat, packet: seq<bv8>, i: nat)
    requires pnOffset + 20 <= |packet| && i < |packet|
    ensures var mask := aes(key, packet[pnOffset + 4..pnOffset + 20]);
            var first := packet[0] ^ (mask[0] & if packet[0] & 0x80 != 0 then 0x0f else 0x1f);
            var before := if i == 0 then first else packet[i];
            Protected(aes, key, pnOffset, packet)[i]
            == if pnOffset <= i <= pnOffset + (packet[0] as int) % 4 then before ^ mask[1 + i - pnOffset] else before
  {
    hide MaskedFirst, PnLen;
    PnLenExactly(packet[0]);
    MaskedFirstIs(packet[0], aes(key, Sample(packet, pnOffset))[0]);
  }

  /** The same for unprotection, where the packet-number length is read after byte 0 is unmasked. */
  lemma UnprotectionExactly(aes: Cipher, key: Block, pnOffset: nat, packet: seq<bv8>, i: nat)
    requires pnOffset + 20 <= |packet| && i < |packet|
    ensures var mask := aes(key, packet[pnOffset + 4..pnOffset + 20]);
            var first := packet[0] ^ (mask[0] & if packet[0] & 0x80 != 0 then 0x0f else 0x1f);
            var before := if i == 0 then first else packet[i];
            Unprotected(aes, key, pnOffset, packet)[i]
            == if pnOffset <= i <= pnOffset + (first as int) % 4 then before ^ mask[1 + i - pnOffset] else before
  {
    hide MaskedFirst, PnLen;
    var mask := aes(key, Sample(packet, pnOffset));
    PnLenExactly(MaskedFirst(packet[0], mask[0]));
    MaskedFirstIs(packet[0], mask[0]);
  }

  /**
   Only the low bits of byte 0 and the packet-number bytes may change: 4 bits of a long header's
   first byte, 5 of a short one's, and as many bytes as the unprotected packet number has.
   */
  lemma ProtectionFrame(aes: Cipher, key: Block, pnOffset: nat, packet: seq<bv8>, i: nat)
    requires 1 <= pnOffset && pnOffset + 20 <= |packet| && i < |packet|
    ensures var r := Protected(aes, key, pnOffset, packet);
            && r[0] & 0xE0 == packet[0] & 0xE0
            && (packet[0] & 0x80 != 0 ==> r[0] & 0xF0 == packet[0] & 0xF0)
            && (i != 0 && !(pnOffset <= i <= pnOffset + (packet[0] as int) % 4) ==> r[i] == packet[i])
  {
    hide MaskedFirst, Protected;
    var mask := aes(key, Sample(packet, pnOffset));
    ProtectionExactly(aes, key, pnOffset, packet, 0);
    ProtectionExactly(aes, key, pnOffset, packet, i);
    MaskedFirstIs(packet[0], mask[0]);
    MaskedFirstTwice(packet[0], mask[0]);
  }

  /**
   What changes, changes by the bytes AES makes of the 16 packet bytes that start four after the packet
   number does: byte 0 by the low bits of the first, packet-number byte j by byte 1 + j.
   */
  lemma ProtectionMask(aes: Cipher, key: Block, pnOffset: nat, packet: seq<bv8>, j: nat)
    requires 1 <= pnOffset && pnOffset + 20 <= |packet| && j <= (packet[0] as int) % 4
    ensures var r := Protected(aes, key, pnOffset, packet);
            var mask := aes(key, packet[pnOffset + 4..pnOffset + 20]);
            && r[0] ^ packet[0] == mask[0] & (if packet[0] & 0x80 != 0 then 0x0f else 0x1f)
            && r[pnOffset + j] == packet[pnOffset + j] ^ mask[1 + j]
  {
    hide MaskedFirst, Protected;
    var mask := aes(key, Sample(packet, pnOffset));
    ProtectionExactly(aes, key, pnOffset, packet, 0);
    ProtectionExactly(aes, key, pnOffset, packet, pnOffset + j);
    MaskedFirstIs(packet[0], mask[0]);
    MaskedFirstBits(packet[0], mask[0]);
  }

  lemma MaskedFirstBits(first: bv8, mask: bv8)
    ensures MaskedFirst(first, mask) ^ first == mask & (if first & 0x80 != 0 then 0x0f else 0x1f)
  {
  }

  /**
   Where the packet number would start at byte 0 the two masks collide and protection is no longer
   undone: inverting for every cipher and packet holds exactly for offsets of at least 1.
   */
  lemma InvertsExactlyPastFirstByte(pnOffset: nat)
    ensures (forall aes: Cipher, key: Block, packet: seq<bv8> {:trigger Protected(aes, key, pnOffset, packet)} ::
               pnOffset + 20 <= |packet| ==>
               Unprotected(aes, key, pnOffset, Protected(aes, key, pnOffset, packet)) == packet)
       <==> pnOffset >= 1
  {
    hide Protected, Unprotected;
    if pnOffset >= 1 {
      forall aes: Cipher, key: Block, packet: seq<bv8> | pnOffset + 20 <= |packet|
        ensures Unprotected(aes, key, pnOffset, Protected(aes, key, pnOffset, packet)) == packet
      {
        ProtectionInverts(aes, key, pnOffset, packet);
      }
    } else {
      OffsetZeroFails();
      var packet: seq<bv8> := seq(20, _ => 0);
      var key: Block := seq(16, _ => 0);
      assert Unprotected(CollidingCipher(), key, 0, Protected(CollidingCipher(), key, 0, packet)) != packet;
    }
  }

  /** A cipher whose mask flips the header-form bit through the packet-number byte. */
  function CollidingCipher(): Cipher {
    (k: Block, b: Block) => seq(16, i => if i == 0 then 0x10 else if i == 1 then 0x80 else 0)
  }

  lemma OffsetZeroFails()
    ensures var packet: seq<bv8> := seq(20, _ => 0);
            var key: Block := seq(16, _ => 0);
            Unprotected(CollidingCipher(), key, 0, Protected(CollidingCipher(), key, 0, packet)) != packet
  {
    var packet: seq<bv8> := seq(20, _ => 0);
    var key: Block := seq(16, _ => 0);
    var masked := Protected(CollidingCipher(), key, 0, packet);
    assert masked[0] == 0x90;
    assert Unprotected(CollidingCipher(), key, 0, masked)[0] == 0x10;
    assert packet[0] == 0;
  }
}
