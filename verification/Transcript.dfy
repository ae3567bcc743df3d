/**
 The wire form of a window: magic, entry count, then epoch, length and bytes of each entry.
 */
module Transcript {
  import opened Bytes
  import opened Group

  const MAGIC: bytes := [0x51, 0x4D, 0x54, 0x31]  // "QMT1"
  const HEADER_LEN := 8

  datatype DecodeError = Truncated | BadMagic

  datatype Decoded = Ok(window: Window) | Err(error: DecodeError)

  function EntryLen(e: Entry): nat { 8 + 4 + |e.commit| }

  function BodyLen(w: Window): nat {
    if w == [] then 0 else BodyLen(w[..|w| - 1]) + EntryLen(w[|w| - 1])
  }

  /** Size of the transcript that holds all of `w`. */
  function EncodedLen(w: Window): nat { HEADER_LEN + BodyLen(w) }

  lemma {:induction false} BodyLenConcat(a: Window, b: Window)
    ensures BodyLen(a + b) == BodyLen(a) + BodyLen(b)
    decreases |b|
  {
    if b == [] {
      assert a + b == a;
    } else {
      assert (a + b)[..|a + b| - 1] == a + b[..|b| - 1];
      BodyLenConcat(a, b[..|b| - 1]);
    }
  }

  lemma BodyLenPrefix(w: Window, m: nat, n: nat)
    requires m <= n <= |w|
    ensures BodyLen(w[..m]) <= BodyLen(w[..n])
    ensures m < n ==> BodyLen(w[..m]) + EntryLen(w[m]) <= BodyLen(w[..n])
  {
    if m < n {
      assert w[..m + 1][..m] == w[..m];
      assert w[..n] == w[..m + 1] + w[m + 1..n];
      BodyLenConcat(w[..m + 1], w[m + 1..n]);
    }
  }

  /** How many leading entries are taken before one would push the size past `max`. */
  function FitFrom(w: Window, max: nat, used: nat): (n: nat)
    ensures n <= |w|
  {
    if w == [] || HEADER_LEN + used + EntryLen(w[0]) > max then 0
    else 1 + FitFrom(w[1..], max, used + EntryLen(w[0]))
  }

  function FitCount(w: Window, max: nat): (n: nat)
    ensures n <= |w|
  {
    FitFrom(w, max, 0)
  }

  lemma {:induction false} FitFromIsLongest(w: Window, max: nat, used: nat, m: nat)
    requires m <= |w|
    ensures m <= FitFrom(w, max, used) <==> m == 0 || HEADER_LEN + used + BodyLen(w[..m]) <= max
    decreases |w|
  {
    if m > 0 {
      assert w[..m] == [w[0]] + w[1..][..m - 1];
      BodyLenConcat([w[0]], w[1..][..m - 1]);
      assert BodyLen([w[0]]) == EntryLen(w[0]) by { assert [w[0]][..0] == []; }
      FitFromIsLongest(w[1..], max, used + EntryLen(w[0]), m - 1);
    }
  }

  /** FitCount is the longest prefix whose transcript fits `max`: exactly its non-empty prefixes fit. */
  lemma FitCountIsLongest(w: Window, max: nat, m: nat)
    requires m <= |w|
    ensures m <= FitCount(w, max) <==> m == 0 || EncodedLen(w[..m]) <= max
  {
    FitFromIsLongest(w, max, 0, m);
  }

  // ---------------------------------------------------------------------------
  // Encoder
  // ---------------------------------------------------------------------------

  /** Lengths are cast to u32, so the cast truncates beyond 2^32. */
  function EncodeEntry(e: Entry): bytes {
    U64Be(e.epoch) + U32Be(|e.commit| % U32_LIMIT) + e.commit
  }

  function EncodeBody(w: Window): bytes {
    if w == [] then [] else EncodeBody(w[..|w| - 1]) + EncodeEntry(w[|w| - 1])
  }

  function EncodeAll(w: Window): bytes {
    MAGIC + U32Be(|w| % U32_LIMIT) + EncodeBody(w)
  }

  /** What `encode_transcript` returns: the longest fitting prefix, or nothing at all. */
  function TranscriptOf(w: Window, maxBytes: nat): bytes {
    var fitting := w[..FitCount(w, maxBytes)];
    if fitting == [] then [] else EncodeAll(fitting)
  }

  /** Appending one entry field by field. */
  lemma EncodeNext(header: bytes, out: bytes, w: Window, j: nat)
    requires j < |w| && out == header + EncodeBody(w[..j])
    ensures out + U64Be(w[j].epoch) + U32Be(|w[j].commit| % U32_LIMIT) + w[j].commit == header + EncodeBody(w[..j + 1])
  {
    hide U64Be, U32Be;
    assert w[..j + 1][..j] == w[..j];
  }

  lemma EncodeNone(w: Window)
    ensures EncodeBody(w[..0]) == []
  {
  }

  method EncodeTranscript(window: Window, maxBytes: nat) returns (out: bytes)
    ensures out == TranscriptOf(window, maxBytes)
  {
    hide EncodeBody, U64Be, U32Be;
    if window == [] || maxBytes == 0 {
      return [];
    }
    var included: Window := [];
    var bodyLen: nat := 0;
    var i := 0;
    while i < |window|
      invariant 0 <= i <= |window| && included == window[..i]
      invariant FitCount(window, maxBytes) == i + FitFrom(window[i..], maxBytes, bodyLen)
    {
      var entry := window[i];
      assert window[i..][1..] == window[i + 1..];
      if HEADER_LEN + bodyLen + EntryLen(entry) > maxBytes {
        break;
      }
      bodyLen := bodyLen + EntryLen(entry);
      included := included + [entry];
      i := i + 1;
    }
    assert FitCount(window, maxBytes) == i;
    if included == [] {
      return [];
    }
    out := MAGIC + U32Be(|included| % U32_LIMIT);
    ghost var header := out;
    EncodeNone(included);
    for j := 0 to |included|
      invariant out == header + EncodeBody(included[..j])
    {
      EncodeNext(header, out, included, j);
      out := out + U64Be(included[j].epoch);
      out := out + U32Be(|included[j].commit| % U32_LIMIT);
      out := out + included[j].commit;
    }
    assert included[..|included|] == included;
  }

  lemma {:induction false} EncodeBodyConcat(a: Window, b: Window)
    ensures EncodeBody(a + b) == EncodeBody(a) + EncodeBody(b)
    decreases |b|
  {
    hide EncodeEntry;
    if b == [] {
      assert a + b == a;
    } else {
      var init := b[..|b| - 1];
      assert (a + b)[..|a + b| - 1] == a + init;
      EncodeBodyConcat(a, init);
    }
  }

  lemma {:induction false} EncodeBodyLen(w: Window)
    ensures |EncodeBody(w)| == BodyLen(w)
    decreases |w|
  {
    if w != [] {
      EncodeBodyLen(w[..|w| - 1]);
    }
  }

  // ---------------------------------------------------------------------------
  // Decoder
  // ---------------------------------------------------------------------------

  function Prepend(w: Window, d: Decoded): Decoded {
    match d
    case Err(e) => Err(e)
    case Ok(rest) => Ok(w + rest)
  }

  /** Reads `count` entries off the front of `b`. */
  function DecodeEntries(b: bytes, count: nat): Decoded
    decreases count
  {
    if count == 0 then Ok([])
    else if |b| < 12 then Err(Truncated)
    else
      var len: nat := FromU32Be(b[8..12]);
      if |b| < 12 + len then Err(Truncated)
      else Prepend([Entry(FromU64Be(b[..8]), b[12..12 + len])], DecodeEntries(b[12 + len..], count - 1))
  }

  function ParseTranscript(b: bytes): Decoded {
    if |b| < HEADER_LEN then Err(Truncated)
    else if b[..4] != MAGIC then Err(BadMagic)
    else DecodeEntries(b[8..], FromU32Be(b[4..8]))
  }

  /** One step of the decoder, seen from a position inside the blob. */
  lemma DecodeFrom(b: bytes, pos: nat, count: nat)
    requires pos <= |b| && count > 0
    ensures DecodeEntries(b[pos..], count)
         == if pos + 12 > |b| then Err(Truncated)
            else
              var len: nat := FromU32Be(b[pos + 8..pos + 12]);
              if pos + 12 + len > |b| then Err(Truncated)
              else Prepend([Entry(FromU64Be(b[pos..pos + 8]), b[pos + 12..pos + 12 + len])],
                           DecodeEntries(b[pos + 12 + len..], count - 1))
  {
    hide FromU32Be, FromU64Be;
    var rest := b[pos..];
    if |rest| < 12 {
      return;
    }
    assert rest[..8] == b[pos..pos + 8] && rest[8..12] == b[pos + 8..pos + 12];
    var len: nat := FromU32Be(b[pos + 8..pos + 12]);
    if pos + 12 + len <= |b| {
      assert rest[12..12 + len] == b[pos + 12..pos + 12 + len] && rest[12 + len..] == b[pos + 12 + len..];
    }
  }

  lemma DecodeNothing(b: bytes)
    ensures DecodeEntries(b, 0) == Ok([])
  {
  }

  lemma PrependTwice(w: Window, e: Entry, d: Decoded)
    ensures Prepend(w, Prepend([e], d)) == Prepend(w + [e], d)
  {
    if d.Ok? {
      assert w + ([e] + d.window) == w + [e] + d.window;
    }
  }

  lemma PrependNothing(d: Decoded)
    ensures Prepend([], d) == d
  {
    if d.Ok? {
      assert [] + d.window == d.window;
    }
  }

  lemma PrependToNothing(w: Window)
    ensures Prepend(w, Ok([])) == Ok(w)
  {
    assert w + [] == w;
  }

  lemma PrependError(w: Window, e: DecodeError)
    ensures Prepend(w, Err(e)) == Err(e)
  {
  }

  method DecodeTranscript(b: bytes) returns (r: Decoded)
    ensures r == ParseTranscript(b)
  {
    hide DecodeEntries, FromU32Be, FromU64Be, Prepend;
    if |b| < |MAGIC| + 4 {
      return Err(Truncated);
    }
    if b[..|MAGIC|] != MAGIC {
      return Err(BadMagic);
    }
    var pos := |MAGIC|;
    var count := FromU32Be(b[pos..pos + 4]);
    pos := pos + 4;
    var out: Window := [];
    PrependNothing(DecodeEntries(b[pos..], count));
    for i := 0 to count
      invariant 8 <= pos <= |b|
      invariant ParseTranscript(b) == Prepend(out, DecodeEntries(b[pos..], count - i))
    {
      DecodeFrom(b, pos, count - i);
      PrependError(out, Truncated);
      if pos + 8 + 4 > |b| {
        return Err(Truncated);
      }
      var epoch := FromU64Be(b[pos..pos + 8]);
      pos := pos + 8;
      var len: nat := FromU32Be(b[pos..pos + 4]);
      pos := pos + 4;
      if pos + len > |b| {
        return Err(Truncated);
      }
      PrependTwice(out, Entry(epoch, b[pos..pos + len]), DecodeEntries(b[pos + len..], count - i - 1));
      out := out + [Entry(epoch, b[pos..pos + len])];
      pos := pos + len;
    }
    DecodeNothing(b[pos..]);
    PrependToNothing(out);
    r := Ok(out);
  }

  // ---------------------------------------------------------------------------
  // Round trip and exactness
  // ---------------------------------------------------------------------------

  /** Every cast to u32 in the encoding of `w` is lossless. */
  ghost predicate Encodable(w: Window) {
    |w| < U32_LIMIT && forall i :: 0 <= i < |w| ==> |w[i].commit| < U32_LIMIT
  }

  lemma EntryParses(e: Entry, tail: bytes)
    requires |e.commit| < U32_LIMIT
    ensures var b := EncodeEntry(e) + tail;
            && |b| == 12 + |e.commit| + |tail|
            && FromU64Be(b[..8]) == e.epoch && FromU32Be(b[8..12]) == |e.commit|
            && b[12..12 + |e.commit|] == e.commit && b[12 + |e.commit|..] == tail
  {
    var b := EncodeEntry(e) + tail;
    assert b[..8] == U64Be(e.epoch) && b[8..12] == U32Be(|e.commit|);
    U64RoundTrip(e.epoch);
    U32RoundTrip(|e.commit|);
  }

  lemma EntryRebuilt(b: bytes, len: nat)
    requires |b| >= 12 + len && len == FromU32Be(b[8..12])
    ensures EncodeEntry(Entry(FromU64Be(b[..8]), b[12..12 + len])) == b[..12 + len]
  {
    U64ReadBack(b[..8]);
    U32ReadBack(b[8..12]);
    assert b[..12 + len] == b[..8] + b[8..12] + b[12..12 + len];
  }

  lemma EncodeBodyFirst(e: Entry, rest: Window)
    ensures EncodeBody([e] + rest) == EncodeEntry(e) + EncodeBody(rest)
  {
    EncodeBodyConcat([e], rest);
    assert [e][..0] == [];
  }

  lemma {:induction false} DecodeOfEncodedBody(w: Window, tail: bytes)
    requires forall i :: 0 <= i < |w| ==> |w[i].commit| < U32_LIMIT
    ensures DecodeEntries(EncodeBody(w) + tail, |w|) == Ok(w)
    decreases |w|
  {
    hide EncodeEntry, FromU32Be, FromU64Be;
    if w != [] {
      var e, rest := w[0], w[1..];
      assert w == [e] + rest;
      EncodeBodyFirst(e, rest);
      assert EncodeBody(w) + tail == EncodeEntry(e) + (EncodeBody(rest) + tail);
      EntryParses(e, EncodeBody(rest) + tail);
      DecodeOfEncodedBody(rest, tail);
    }
  }

  lemma DecodedStepIsEncoded(b: bytes, len: nat, rest: Window)
    requires |b| >= 12 + len && len == FromU32Be(b[8..12])
    requires EncodeBody(rest) <= b[12 + len..]
    ensures EncodeBody([Entry(FromU64Be(b[..8]), b[12..12 + len])] + rest) <= b
  {
    hide EncodeEntry, FromU32Be, FromU64Be, EncodeBody;
    EntryRebuilt(b, len);
    EncodeBodyFirst(Entry(FromU64Be(b[..8]), b[12..12 + len]), rest);
    assert b == b[..12 + len] + b[12 + len..];
  }

  /** What one decoded entry says of the front of the bytes. */
  lemma DecodeStep(b: bytes, count: nat)
    requires count > 0 && DecodeEntries(b, count).Ok?
    ensures |b| >= 12
    ensures var len: nat := FromU32Be(b[8..12]);
            && |b| >= 12 + len
            && DecodeEntries(b[12 + len..], count - 1).Ok?
            && DecodeEntries(b, count).window
               == [Entry(FromU64Be(b[..8]), b[12..12 + len])] + DecodeEntries(b[12 + len..], count - 1).window
  {
    hide FromU32Be, FromU64Be;
  }

  lemma NothingEncoded()
    ensures EncodeBody([]) == []
  {
  }

  lemma {:induction false} DecodedBodyIsEncoded(b: bytes, count: nat)
    requires DecodeEntries(b, count).Ok?
    ensures var w := DecodeEntries(b, count).window;
            && |w| == count
            && (forall i :: 0 <= i < |w| ==> |w[i].commit| < U32_LIMIT)
            && EncodeBody(w) <= b
    decreases count
  {
    hide EncodeEntry, FromU32Be, FromU64Be, EncodeBody, DecodeEntries;
    if count == 0 {
      DecodeNothing(b);
      NothingEncoded();
    } else {
      DecodeStep(b, count);
      var len: nat := FromU32Be(b[8..12]);
      DecodedBodyIsEncoded(b[12 + len..], count - 1);
      DecodedStepIsEncoded(b, len, DecodeEntries(b[12 + len..], count - 1).window);
    }
  }

  /** DecodeEntries fails only by running out of bytes. */
  lemma {:induction false} EntriesFailTruncated(b: bytes, count: nat)
    ensures DecodeEntries(b, count).Err? ==> DecodeEntries(b, count).error == Truncated
    decreases count
  {
    if count > 0 && |b| >= 12 {
      var len: nat := FromU32Be(b[8..12]);
      if |b| >= 12 + len {
        EntriesFailTruncated(b[12 + len..], count - 1);
      }
    }
  }

  lemma EncodedDecodes(w: Window, tail: bytes)
    requires Encodable(w)
    ensures ParseTranscript(EncodeAll(w) + tail) == Ok(w)
  {
    var b := EncodeAll(w) + tail;
    assert b[..4] == MAGIC && b[4..8] == U32Be(|w|) && b[8..] == EncodeBody(w) + tail;
    U32RoundTrip(|w|);
    DecodeOfEncodedBody(w, tail);
  }

  lemma HeaderRebuilt(b: bytes, w: Window)
    requires 8 + |EncodeBody(w)| <= |b| && |w| < U32_LIMIT
    requires b[..4] == MAGIC && b[4..8] == U32Be(|w|) && b[8..8 + |EncodeBody(w)|] == EncodeBody(w)
    ensures EncodeAll(w) <= b
  {
    hide EncodeBody, U32Be;
    var n := |EncodeBody(w)|;
    assert b[..4] + b[4..8] + b[8..8 + n] == b[..8 + n];
  }

  lemma DecodedIsEncoded(b: bytes)
    requires ParseTranscript(b).Ok?
    ensures var w := ParseTranscript(b).window; Encodable(w) && EncodeAll(w) <= b
  {
    hide EncodeBody, U32Be, FromU32Be;
    var count := FromU32Be(b[4..8]);
    var w := DecodeEntries(b[8..], count).window;
    DecodedBodyIsEncoded(b[8..], count);
    U32ReadBack(b[4..8]);
    assert b[8..8 + |EncodeBody(w)|] == b[8..][..|EncodeBody(w)|];
    HeaderRebuilt(b, w);
  }

  /** The decoder accepts exactly the losslessly encoded transcripts, whatever bytes follow them. */
  lemma DecodesExactly(b: bytes, w: Window)
    ensures ParseTranscript(b) == Ok(w) <==> Encodable(w) && EncodeAll(w) <= b
  {
    if Encodable(w) && EncodeAll(w) <= b {
      EncodedDecodes(w, b[|EncodeAll(w)|..]);
      assert b == EncodeAll(w) + b[|EncodeAll(w)|..];
    }
    if ParseTranscript(b).Ok? {
      DecodedIsEncoded(b);
    }
  }

  /**
   Round trip, with any trailing bytes: decoding gives back the longest fitting prefix,
   and it does so exactly when no length and no count was truncated by its cast to u32.
   */
  lemma RoundTrip(w: Window, maxBytes: nat, tail: bytes)
    requires FitCount(w, maxBytes) > 0
    ensures ParseTranscript(TranscriptOf(w, maxBytes) + tail) == Ok(w[..FitCount(w, maxBytes)])
       <==> Encodable(w[..FitCount(w, maxBytes)])
  {
    DecodesExactly(TranscriptOf(w, maxBytes) + tail, w[..FitCount(w, maxBytes)]);
  }

  lemma EncodeAllLen(w: Window)
    ensures |EncodeAll(w)| == EncodedLen(w)
  {
    EncodeBodyLen(w);
  }

  /** A window that fits as a whole is sent as a whole. */
  lemma WholeTranscript(w: Window, maxBytes: nat)
    requires w != [] && EncodedLen(w) <= maxBytes
    ensures TranscriptOf(w, maxBytes) == EncodeAll(w)
  {
    assert w[..|w|] == w;
    FitCountIsLongest(w, maxBytes, |w|);
    assert w[..FitCount(w, maxBytes)] == w;
  }

  /** A transcript that fits a 32-bit byte limit always round-trips. */
  lemma SmallTranscriptsEncodable(w: Window)
    requires EncodedLen(w) < U32_LIMIT
    ensures Encodable(w)
  {
    forall i | 0 <= i < |w|
      ensures |w[i].commit| < U32_LIMIT
    {
      BodyLenPrefix(w, i, |w|);
      assert w[..|w|] == w;
    }
    EntriesAreLong(w);
  }

  lemma {:induction false} EntriesAreLong(w: Window)
    ensures BodyLen(w) >= 12 * |w|
    decreases |w|
  {
    if w != [] {
      EntriesAreLong(w[..|w| - 1]);
    }
  }

  /** What is sent is the encoding of the longest prefix that fits, and not a byte more. */
  lemma TranscriptExactly(w: Window, maxBytes: nat, n: nat)
    requires 0 < n <= |w|
    requires EncodedLen(w[..n]) <= maxBytes && (n < |w| ==> EncodedLen(w[..n + 1]) > maxBytes)
    ensures TranscriptOf(w, maxBytes) == EncodeAll(w[..n])
  {
    hide EncodeAll, EncodedLen;
    FitCountIsLongest(w, maxBytes, n);
    if n < |w| {
      FitCountIsLongest(w, maxBytes, n + 1);
    }
  }

  /** When not even the first entry fits, nothing is sent, and nothing does not decode. */
  lemma EmptyTranscript(w: Window, maxBytes: nat)
    ensures TranscriptOf(w, maxBytes) == [] <==> w == [] || EncodedLen(w[..1]) > maxBytes
    ensures TranscriptOf(w, maxBytes) == [] ==> ParseTranscript(TranscriptOf(w, maxBytes)) == Err(Truncated)
    ensures |TranscriptOf(w, maxBytes)| <= maxBytes
  {
    var n := FitCount(w, maxBytes);
    if w != [] {
      FitCountIsLongest(w, maxBytes, 1);
    }
    FitCountIsLongest(w, maxBytes, n);
    EncodeBodyLen(w[..n]);
  }

  /** Cutting a transcript anywhere is noticed. */
  lemma StrictPrefixTruncated(w: Window, cut: nat)
    requires Encodable(w) && cut < |EncodeAll(w)|
    ensures ParseTranscript(EncodeAll(w)[..cut]) == Err(Truncated)
  {
    var full := EncodeAll(w);
    var b := full[..cut];
    if cut >= HEADER_LEN {
      assert b[..4] == MAGIC && b[4..8] == U32Be(|w|);
      U32RoundTrip(|w|);
      EntriesFailTruncated(b[8..], |w|);
      if ParseTranscript(b).Ok? {
        var w' := ParseTranscript(b).window;
        DecodesExactly(b, w');
        DecodesExactly(full, w');
        DecodesExactly(full, w);
        assert false;
      }
    }
  }

  /** The error cases, and how little a hostile count field can make of a short blob. */
  lemma DecodeErrors(b: bytes)
    ensures ParseTranscript(b) == Err(BadMagic) <==> |b| >= HEADER_LEN && b[..4] != MAGIC
    ensures ParseTranscript(b).Ok? ==> 12 * |ParseTranscript(b).window| <= |b| - HEADER_LEN
  {
    if |b| >= HEADER_LEN && b[..4] == MAGIC {
      EntriesFailTruncated(b[8..], FromU32Be(b[4..8]));
    }
    if ParseTranscript(b).Ok? {
      var w := ParseTranscript(b).window;
      DecodesExactly(b, w);
      EncodeBodyLen(w);
      EntriesAreLong(w);
    }
  }

  /**
   The bytes of a transcript: "QMT1", the number of entries, and for each entry at its place its epoch, the
   length of its commit and the commit; numbers most significant byte first, lengths cut to 32 bits.
   */
  lemma WireLayout(w: Window, i: nat)
    requires i < |w|
    ensures var (b, o) := (EncodeAll(w), 8 + BodyLen(w[..i]));
            && |b| == 8 + BodyLen(w) && o + 12 + |w[i].commit| <= |b|
            && b[..4] == [0x51, 0x4D, 0x54, 0x31] && b[4..8] == U32Be(|w| % 0x1_0000_0000)
            && b[o..o + 8] == U64Be(w[i].epoch)
            && b[o + 8..o + 12] == U32Be(|w[i].commit| % 0x1_0000_0000)
            && b[o + 12..o + 12 + |w[i].commit|] == w[i].commit
  {
    hide U64Be, U32Be, BodyLen, EncodeBody, EncodeEntry;
    var (head, tail) := (w[..i], w[i + 1..]);
    var front := MAGIC + U32Be(|w| % U32_LIMIT);
    assert w == head + ([w[i]] + tail);
    EncodeBodyConcat(head, [w[i]] + tail);
    EncodeBodyFirst(w[i], tail);
    EncodeBodyLen(head);
    EncodeAllLen(w);
    EntryAt(front + EncodeBody(head), w[i], EncodeBody(tail));
    assert EncodeAll(w) == front + EncodeBody(head) + EncodeEntry(w[i]) + EncodeBody(tail);
    FrontAt(front, EncodeBody(w));
  }

  lemma FrontAt(front: bytes, rest: bytes)
    requires |front| == 8
    ensures (front + rest)[..4] == front[..4] && (front + rest)[4..8] == front[4..8]
  {
  }

  lemma EntryAt(before: bytes, e: Entry, tail: bytes)
    ensures var (b, o) := (before + EncodeEntry(e) + tail, |before|);
            && o + 12 + |e.commit| <= |b|
            && b[o..o + 8] == U64Be(e.epoch)
            && b[o + 8..o + 12] == U32Be(|e.commit| % U32_LIMIT)
            && b[o + 12..o + 12 + |e.commit|] == e.commit
  {
  }
}
