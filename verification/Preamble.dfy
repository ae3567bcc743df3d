/**
 The out-of-band datagram channel: commit windows leave as marked UDP datagrams and are
 picked out of the stream of QUIC packets on the other side.
 */
module Preamble {
  import opened Bytes
  import opened Group
  import opened Transcript
  import opened Buckets
  import opened Picking

  const PREAMBLE_MARKER: byte := 0x00
  const MAX_DATAGRAM_PAYLOAD := 1200
  const USIZE_MAX := U64_LIMIT - 1

  /** The per-datagram budget: one byte goes to the marker. */
  const BUCKET_BUDGET := MAX_DATAGRAM_PAYLOAD - 1

  /** Both top bits clear. */
  predicate IsPreambleMarker(first: byte) {
    first < 0x40
  }

  /**
   The source's test is on the mask 0xC0: bits 0x80 and 0x40, which sections 17.2 and 17.3.1 of RFC 9000
   make every QUIC packet set one of.
   */
  lemma MarkerIsMask(first: byte)
    ensures IsPreambleMarker(first) <==> (first as bv8) & 0xC0 == 0
  {
  }

  datatype Parsed = NotPreamble | Preamble(decoded: Decoded)

  function ParsePreamble(datagram: bytes): Parsed {
    if datagram == [] || !IsPreambleMarker(datagram[0]) then NotPreamble
    else Preamble(ParseTranscript(datagram[1..]))
  }

  function DatagramOf(bucket: Window): bytes {
    [PREAMBLE_MARKER] + TranscriptOf(bucket, USIZE_MAX)
  }

  function DatagramsFor(buckets: seq<Window>): (r: seq<bytes>)
    ensures |r| == |buckets|
    ensures forall i :: 0 <= i < |buckets| ==> r[i] == DatagramOf(buckets[i])
  {
    seq(|buckets|, i requires 0 <= i < |buckets| => DatagramOf(buckets[i]))
  }

  ghost function DatagramsOf(window: Window, totalBudget: nat): seq<bytes> {
    DatagramsFor(BucketsOf(window, totalBudget, BUCKET_BUDGET))
  }

  lemma MarkedParses(blob: bytes)
    ensures ParsePreamble([PREAMBLE_MARKER] + blob) == Preamble(ParseTranscript(blob))
  {
    assert ([PREAMBLE_MARKER] + blob)[1..] == blob;
  }

  /** A bucket's datagram holds all of it, respects the payload limit and parses back to it. */
  lemma BucketDatagram(bucket: Window)
    requires bucket != [] && EncodedLen(bucket) <= BUCKET_BUDGET
    ensures TranscriptOf(bucket, USIZE_MAX) != []
    ensures |DatagramOf(bucket)| == 1 + EncodedLen(bucket) <= MAX_DATAGRAM_PAYLOAD
    ensures ParsePreamble(DatagramOf(bucket)) == Preamble(Ok(bucket))
  {
    WholeTranscript(bucket, USIZE_MAX);
    EncodeAllLen(bucket);
    SmallTranscriptsEncodable(bucket);
    DecodesExactly(EncodeAll(bucket), bucket);
    MarkedParses(EncodeAll(bucket));
  }

  function TotalLen(datagrams: seq<bytes>): nat {
    if datagrams == [] then 0 else TotalLen(datagrams[..|datagrams| - 1]) + |datagrams[|datagrams| - 1]|
  }

  lemma DatagramsNext(datagrams: seq<bytes>, k: nat)
    requires k < |datagrams|
    ensures datagrams[..k + 1] == datagrams[..k] + [datagrams[k]]
    ensures TotalLen(datagrams[..k + 1]) == TotalLen(datagrams[..k]) + |datagrams[k]|
  {
    assert datagrams[..k + 1][..k] == datagrams[..k];
  }

  lemma BucketIsSendable(window: Window, totalBudget: nat, k: nat)
    requires k < |BucketsOf(window, totalBudget, BUCKET_BUDGET)|
    ensures var bucket := BucketsOf(window, totalBudget, BUCKET_BUDGET)[k];
            && bucket != [] && EncodedLen(bucket) <= BUCKET_BUDGET
            && TranscriptOf(bucket, USIZE_MAX) != []
  {
    var buckets := BucketsOf(window, totalBudget, BUCKET_BUDGET);
    BucketsAreOptimal(window, totalBudget, BUCKET_BUDGET, []);
    assert buckets[k] in buckets;
    BucketDatagram(buckets[k]);
  }

  lemma OneDatagramEach(window: Window, totalBudget: nat)
    ensures |DatagramsOf(window, totalBudget)| == |BucketsOf(window, totalBudget, BUCKET_BUDGET)|
  {
  }

  lemma DatagramAt(window: Window, totalBudget: nat, k: nat)
    requires k < |BucketsOf(window, totalBudget, BUCKET_BUDGET)|
    ensures k < |DatagramsOf(window, totalBudget)|
    ensures DatagramsOf(window, totalBudget)[k]
         == [PREAMBLE_MARKER] + TranscriptOf(BucketsOf(window, totalBudget, BUCKET_BUDGET)[k], USIZE_MAX)
  {
  }

  /** On the wire, a bucket is the byte 0x00 and then all of its transcript. */
  lemma DatagramBytes(bucket: Window)
    requires bucket != [] && EncodedLen(bucket) <= BUCKET_BUDGET
    ensures DatagramOf(bucket) == [0x00] + EncodeAll(bucket) && |DatagramOf(bucket)| <= 1200
  {
    WholeTranscript(bucket, USIZE_MAX);
    EncodeAllLen(bucket);
  }

  // ---------------------------------------------------------------------------
  // Receiving: what the kernel hands over, and where it goes
  // ---------------------------------------------------------------------------

  /** One answer of the kernel: to `poll_recv_ready` (the two Ready forms) or to `try_recv_from`. */
  datatype IoEvent =
    | NotReady
    | ReadyError
    | WouldBlock
    | RecvError
    | Arrive(data: bytes, sender: nat)

  datatype Packet = Packet(data: bytes, sender: nat)

  datatype RecvMeta = RecvMeta(addr: nat, len: nat, stride: nat)

  datatype Poll = Ready(filled: nat) | Failed | PollPending

  /** A buffer of `capacity` bytes keeps only that much of a datagram. */
  function Received(capacity: nat, data: bytes): bytes {
    if |data| <= capacity then data else data[..capacity]
  }

  datatype Drained = Drained(consumed: nat, quic: seq<Packet>, sunk: seq<Window>, poll: Poll)

  /** What one more event in front adds to the rest of a poll. */
  function After(quic: seq<Packet>, sunk: seq<Window>, d: Drained): Drained {
    Drained(1 + d.consumed, quic + d.quic, sunk + d.sunk, d.poll)
  }

  /** What the sink is called with for one decoded payload. */
  function SinkWindows(hasSink: bool, decoded: Decoded): seq<Window> {
    if hasSink && decoded.Ok? then [decoded.window] else []
  }

  /** What the sink is called with for one received datagram. */
  function SinkCall(hasSink: bool, received: bytes): seq<Window> {
    match ParsePreamble(received)
    case NotPreamble => []
    case Preamble(decoded) => SinkWindows(hasSink, decoded)
  }

  lemma ReceivedShape(capacity: nat, hasSink: bool, data: bytes)
    ensures var got := Received(capacity, data);
            && |got| <= capacity
            && (ParsePreamble(got).Preamble? ==>
                  && got != []
                  && var decoded := ParseTranscript(got[1..]);
                     SinkCall(hasSink, got) == if hasSink && decoded.Ok? then [decoded.window] else [])
  {
  }

  /** Specification of `poll_recv` on the kernel's coming answers. */
  function Drain(capacity: nat, hasSink: bool, events: seq<IoEvent>, slots: nat, filled: nat): Drained
    decreases |events|
  {
    if filled >= slots then Drained(0, [], [], Ready(filled))
    else if events == [] then Drained(0, [], [], if filled > 0 then Ready(filled) else PollPending)
    else
      match events[0]
      case NotReady => Drained(1, [], [], if filled > 0 then Ready(filled) else PollPending)
      case ReadyError => Drained(1, [], [], if filled > 0 then Ready(filled) else Failed)
      case RecvError => Drained(1, [], [], if filled > 0 then Ready(filled) else Failed)
      case WouldBlock =>
        if filled > 0 then Drained(1, [], [], Ready(filled))
        else After([], [], Drain(capacity, hasSink, events[1..], slots, filled))
      case Arrive(data, sender) =>
        var got := Received(capacity, data);
        if ParsePreamble(got).Preamble? then
          After([], SinkCall(hasSink, got), Drain(capacity, hasSink, events[1..], slots, filled))
        else
          After([Packet(got, sender)], [], Drain(capacity, hasSink, events[1..], slots, filled + 1))
  }

  /** The datagrams that leave when `sendable` calls of `send_to` succeed. */
  function GivenToNetwork(datagrams: seq<bytes>, sendable: nat): seq<bytes> {
    datagrams[..Min(sendable, |datagrams|)]
  }

  /** The bytes a send adds to the counter: all or none. */
  function Counted(datagrams: seq<bytes>, sendable: nat): nat {
    if |datagrams| <= sendable then TotalLen(datagrams) else 0
  }

  /**
   What `send_preamble` gives to the network: one datagram for each bucket, the first bucket's first, until
   a send fails; each holds its bucket whole and parses back to it.
   */
  lemma SentInOrder(window: Window, totalBudget: nat, sendable: nat)
    ensures var buckets := BucketsOf(window, totalBudget, BUCKET_BUDGET);
            var given := GivenToNetwork(DatagramsOf(window, totalBudget), sendable);
            && |given| == (if sendable < |buckets| then sendable else |buckets|)
            && forall k :: 0 <= k < |given| ==>
              && given[k] == [0x00] + EncodeAll(buckets[k]) && |given[k]| <= 1200
              && ParsePreamble(given[k]) == Preamble(Ok(buckets[k]))
  {
    hide BucketsOf, EncodeAll, ParsePreamble, DatagramOf, EncodedLen, TranscriptOf;
    var buckets := BucketsOf(window, totalBudget, BUCKET_BUDGET);
    var given := GivenToNetwork(DatagramsOf(window, totalBudget), sendable);
    forall k | 0 <= k < |given|
      ensures given[k] == [0x00] + EncodeAll(buckets[k]) && |given[k]| <= 1200
      ensures ParsePreamble(given[k]) == Preamble(Ok(buckets[k]))
    {
      BucketIsSendable(window, totalBudget, k);
      DatagramBytes(buckets[k]);
      BucketDatagram(buckets[k]);
    }
  }

  class PreambleSocket {
    const capacity: nat             // size of each receive buffer
    const hasSink: bool
    var arrivals: seq<IoEvent>      // the kernel's coming answers
    var sunk: seq<Window>           // the windows the sink was called with
    var outbox: seq<bytes>          // the datagrams given to the network
    var preambleBytesSent: u64

    constructor (capacity: nat, hasSink: bool)
      ensures this.capacity == capacity && this.hasSink == hasSink
      ensures arrivals == [] && sunk == [] && outbox == [] && preambleBytesSent == 0
    {
      this.capacity := capacity;
      this.hasSink := hasSink;
      arrivals, sunk, outbox, preambleBytesSent := [], [], [], 0;
    }

    /**
     `sendable` is how many `send_to` calls succeed. When one fails, the datagrams already
     given to the network stay there but are never counted.
     */
    method SendPreamble(window: Window, totalBudget: nat, sendable: nat) returns (r: Option<nat>)
      modifies this`outbox, this`preambleBytesSent
      ensures var datagrams := DatagramsOf(window, totalBudget);
              && outbox == old(outbox) + GivenToNetwork(datagrams, sendable)
              && r == (if |datagrams| <= sendable then Some(TotalLen(datagrams)) else None)
              && preambleBytesSent == (old(preambleBytesSent) + Counted(datagrams, sendable)) % U64_LIMIT
    {
      hide TranscriptOf, EncodedLen, BodyLen, DatagramsOf, BucketsOf;
      ghost var datagrams := DatagramsOf(window, totalBudget);
      var total: nat := 0;
      var buckets := BucketWindow(window, totalBudget, BUCKET_BUDGET);
      OneDatagramEach(window, totalBudget);
      for k := 0 to |buckets|
        invariant k <= sendable
        invariant total == TotalLen(datagrams[..k])
        invariant outbox == old(outbox) + datagrams[..k]
        invariant preambleBytesSent == old(preambleBytesSent)
      {
        BucketIsSendable(window, totalBudget, k);
        DatagramAt(window, totalBudget, k);
        DatagramsNext(datagrams, k);
        var blob := EncodeTranscript(buckets[k], USIZE_MAX);
        if blob == [] {
          continue;
        }
        var datagram := [PREAMBLE_MARKER] + blob;
        if k == sendable {
          return None;
        }
        outbox := outbox + [datagram];
        total := total + |datagram|;
      }
      assert datagrams[..|buckets|] == datagrams;
      preambleBytesSent := (preambleBytesSent + total) % U64_LIMIT;
      r := Some(total);
    }

    method HandlePreambleDatagram(payload: bytes)
      modifies this`sunk
      ensures var decoded := ParseTranscript(payload);
              sunk == old(sunk) + if hasSink && decoded.Ok? then [decoded.window] else []
    {
      var decoded := DecodeTranscript(payload);
      match decoded
      case Ok(window) =>
        if hasSink {
          sunk := sunk + [window];
        }
      case Err(_) =>
    }

    /**
     Every buffer has its size, and the packets placed so far lie in the first buffers with their
     lengths and senders.
     */
    ghost predicate Holds(bufs: array<bytes>, meta: array<RecvMeta>, quic: seq<Packet>)
      reads bufs, meta
    {
      && |quic| <= bufs.Length <= meta.Length
      && (forall i :: 0 <= i < bufs.Length ==> |bufs[i]| == capacity)
      && forall i :: 0 <= i < |quic| ==>
        && meta[i] == RecvMeta(quic[i].sender, |quic[i].data|, |quic[i].data|)
        && quic[i].data <= bufs[i]
    }

    lemma HoldsMeans(bufs: array<bytes>, meta: array<RecvMeta>, quic: seq<Packet>)
      requires Holds(bufs, meta, quic)
      ensures |quic| <= bufs.Length <= meta.Length
      ensures forall i :: 0 <= i < |quic| ==>
        && quic[i].data <= bufs[i] && bufs[i][..|quic[i].data|] == quic[i].data
        && meta[i].addr == quic[i].sender && meta[i].len == meta[i].stride == |quic[i].data|
    {
    }

    /** `try_recv_from`: what is received overwrites the front of the first unused buffer. */
    method ReceiveInto(bufs: array<bytes>, meta: array<RecvMeta>, filled: nat, got: bytes, ghost quic: seq<Packet>)
      requires Holds(bufs, meta, quic) && filled == |quic| < bufs.Length && |got| <= capacity
      modifies bufs
      ensures Holds(bufs, meta, quic) && got <= bufs[filled]
    {
      bufs[filled] := got + bufs[filled][|got|..];
    }

    /** The first unused buffer becomes a packet for QUIC. */
    method Announce(bufs: array<bytes>, meta: array<RecvMeta>, filled: nat, packet: Packet, ghost quic: seq<Packet>)
      requires Holds(bufs, meta, quic) && filled == |quic| < bufs.Length && packet.data <= bufs[filled]
      modifies meta
      ensures Holds(bufs, meta, quic + [packet])
    {
      meta[filled] := RecvMeta(packet.sender, |packet.data|, |packet.data|);
    }

    method PollRecv(bufs: array<bytes>, meta: array<RecvMeta>) returns (poll: Poll)
      requires Holds(bufs, meta, [])
      modifies this`arrivals, this`sunk, bufs, meta
      ensures var d := Drain(capacity, hasSink, old(arrivals), bufs.Length, 0);
              && poll == d.poll
              && d.consumed <= |old(arrivals)| && arrivals == old(arrivals)[d.consumed..]
              && sunk == old(sunk) + d.sunk
              && Holds(bufs, meta, d.quic)
              && |d.quic| <= bufs.Length <= meta.Length
              && forall i :: 0 <= i < |d.quic| ==>
                && bufs[i][..|d.quic[i].data|] == d.quic[i].data
                && meta[i].addr == d.quic[i].sender && meta[i].len == meta[i].stride == |d.quic[i].data|
    {
      hide ParsePreamble, ParseTranscript, Drain, Received, SinkCall, SinkWindows, Holds, Combine;
      ghost var goal := Drain(capacity, hasSink, arrivals, bufs.Length, 0);
      CombineNothing(goal);
      ghost var consumed: nat := 0;
      ghost var quic: seq<Packet> := [];
      ghost var calls: seq<Window> := [];
      var filled: nat := 0;
      while true
        invariant filled == |quic| <= bufs.Length
        invariant consumed <= |old(arrivals)| && arrivals == old(arrivals)[consumed..]
        invariant goal == Combine(consumed, quic, calls, Drain(capacity, hasSink, arrivals, bufs.Length, filled))
        invariant sunk == old(sunk) + calls
        invariant Holds(bufs, meta, quic)
        decreases |arrivals|
      {
        PollStops(goal, capacity, hasSink, arrivals, bufs.Length, filled, consumed, quic, calls);
        if filled >= bufs.Length {
          poll := Ready(filled);
          break;
        }
        if arrivals == [] {
          poll := if filled > 0 then Ready(filled) else PollPending;
          break;
        }
        var event := arrivals[0];
        PollAdvances(goal, capacity, hasSink, arrivals, bufs.Length, filled, consumed, quic, calls);
        arrivals := arrivals[1..];
        consumed := consumed + 1;
        if event.NotReady? || event.ReadyError? || event.RecvError? || (event.WouldBlock? && filled > 0) {
          poll := if filled > 0 then Ready(filled) else if event.NotReady? then PollPending else Failed;
          break;
        }
        if event.Arrive? {
          var got := Received(capacity, event.data);
          ReceivedShape(capacity, hasSink, event.data);
          ReceiveInto(bufs, meta, filled, got, quic);
          if ParsePreamble(got).Preamble? {
            HandlePreambleDatagram(got[1..]);
            calls := calls + SinkCall(hasSink, got);
          } else {
            Announce(bufs, meta, filled, Packet(got, event.sender), quic);
            quic := quic + [Packet(got, event.sender)];
            filled := filled + 1;
          }
        }
      }
      assert goal == Drained(consumed, quic, calls, poll);
      HoldsMeans(bufs, meta, quic);
    }
  }

  /** What a poll has done so far, followed by what it still does. */
  function Combine(consumed: nat, quic: seq<Packet>, sunk: seq<Window>, rest: Drained): Drained {
    Drained(consumed + rest.consumed, quic + rest.quic, sunk + rest.sunk, rest.poll)
  }

  lemma CombineNothing(d: Drained)
    ensures Combine(0, [], [], d) == d
  {
  }

  lemma CombineAfter(consumed: nat, quic: seq<Packet>, sunk: seq<Window>,
                     q: seq<Packet>, s: seq<Window>, rest: Drained)
    ensures Combine(consumed, quic, sunk, After(q, s, rest)) == Combine(consumed + 1, quic + q, sunk + s, rest)
  {
    assert quic + (q + rest.quic) == quic + q + rest.quic;
    assert sunk + (s + rest.sunk) == sunk + s + rest.sunk;
  }

  /** A poll with no room or no answers left has done all it does. */
  lemma PollStops(goal: Drained, capacity: nat, hasSink: bool, events: seq<IoEvent>, slots: nat, filled: nat,
                  consumed: nat, quic: seq<Packet>, sunk: seq<Window>)
    requires goal == Combine(consumed, quic, sunk, Drain(capacity, hasSink, events, slots, filled))
    ensures filled >= slots ==> goal == Drained(consumed, quic, sunk, Ready(filled))
    ensures filled < slots && events == [] ==>
      goal == Drained(consumed, quic, sunk, if filled > 0 then Ready(filled) else PollPending)
  {
  }

  /** What the next answer does to a poll. */
  lemma PollAdvances(goal: Drained, capacity: nat, hasSink: bool, events: seq<IoEvent>, slots: nat, filled: nat,
                     consumed: nat, quic: seq<Packet>, sunk: seq<Window>)
    requires filled < slots && events != []
    requires goal == Combine(consumed, quic, sunk, Drain(capacity, hasSink, events, slots, filled))
    ensures match events[0]
            case Arrive(data, sender) =>
              var got := Received(capacity, data);
              if ParsePreamble(got).Preamble? then
                goal == Combine(consumed + 1, quic, sunk + SinkCall(hasSink, got),
                                Drain(capacity, hasSink, events[1..], slots, filled))
              else
                goal == Combine(consumed + 1, quic + [Packet(got, sender)], sunk,
                                Drain(capacity, hasSink, events[1..], slots, filled + 1))
            case WouldBlock =>
              if filled > 0 then goal == Drained(consumed + 1, quic, sunk, Ready(filled))
              else goal == Combine(consumed + 1, quic, sunk, Drain(capacity, hasSink, events[1..], slots, filled))
            case NotReady =>
              goal == Drained(consumed + 1, quic, sunk, if filled > 0 then Ready(filled) else PollPending)
            case _ =>
              goal == Drained(consumed + 1, quic, sunk, if filled > 0 then Ready(filled) else Failed)
  {
    hide ParsePreamble, Received, SinkCall;
    var rest := events[1..];
    match events[0]
    case Arrive(data, sender) =>
      var got := Received(capacity, data);
      if ParsePreamble(got).Preamble? {
        CombineAfter(consumed, quic, sunk, [], SinkCall(hasSink, got), Drain(capacity, hasSink, rest, slots, filled));
      } else {
        CombineAfter(consumed, quic, sunk, [Packet(got, sender)], [],
                     Drain(capacity, hasSink, rest, slots, filled + 1));
      }
    case WouldBlock =>
      CombineAfter(consumed, quic, sunk, [], [], Drain(capacity, hasSink, rest, slots, filled));
    case _ =>
  }

  // ---------------------------------------------------------------------------
  // Demultiplexing conserves packets
  // ---------------------------------------------------------------------------

  /** The datagrams QUIC must get, in order. */
  function QuicOf(capacity: nat, events: seq<IoEvent>): seq<Packet> {
    if events == [] then []
    else
      var e := events[0];
      (if e.Arrive? && ParsePreamble(Received(capacity, e.data)).NotPreamble?
       then [Packet(Received(capacity, e.data), e.sender)] else [])
      + QuicOf(capacity, events[1..])
  }

  /** The well-formed preambles the sink must get, in order. */
  function SunkOf(capacity: nat, hasSink: bool, events: seq<IoEvent>): seq<Window> {
    if events == [] then []
    else
      var e := events[0];
      (if e.Arrive? then SinkCall(hasSink, Received(capacity, e.data)) else [])
      + SunkOf(capacity, hasSink, events[1..])
  }

  predicate IsError(e: IoEvent) { e.ReadyError? || e.RecvError? }

  /** What one poll promises, from the point where `filled` buffers are in use. */
  ghost predicate Conserved(capacity: nat, hasSink: bool, events: seq<IoEvent>, slots: nat, filled: nat, d: Drained) {
    && d.consumed <= |events|
    && d.quic == QuicOf(capacity, events[..d.consumed])
    && d.sunk == SunkOf(capacity, hasSink, events[..d.consumed])
    && filled + |d.quic| <= slots
    && (d.poll.Ready? ==> d.poll.filled == filled + |d.quic|)
    && (!d.poll.Ready? ==> filled + |d.quic| == 0)
    && (d.poll.Failed? ==> d.consumed > 0 && IsError(events[d.consumed - 1]))
    && (d.poll.PollPending? ==> d.consumed == |events| || (d.consumed > 0 && events[d.consumed - 1].NotReady?))
    && (filled < slots && events != [] ==> d.consumed > 0)
  }

  lemma ConservedAfter(capacity: nat, hasSink: bool, events: seq<IoEvent>, slots: nat, filled: nat,
                       quic: seq<Packet>, sunk: seq<Window>, d: Drained)
    requires events != [] && filled + |quic| <= slots
    requires Conserved(capacity, hasSink, events[1..], slots, filled + |quic|, d)
    requires quic == QuicOf(capacity, events[..1]) && sunk == SunkOf(capacity, hasSink, events[..1])
    ensures Conserved(capacity, hasSink, events, slots, filled, After(quic, sunk, d))
  {
    hide ParsePreamble, Received, QuicOf, SunkOf;
    assert events[..1 + d.consumed] == events[..1] + events[1..][..d.consumed];
    QuicOfConcat(capacity, events[..1], events[1..][..d.consumed]);
    SunkOfConcat(capacity, hasSink, events[..1], events[1..][..d.consumed]);
  }

  lemma OneEvent(capacity: nat, hasSink: bool, events: seq<IoEvent>)
    requires events != []
    ensures QuicOf(capacity, events[..1])
         == (if events[0].Arrive? && ParsePreamble(Received(capacity, events[0].data)).NotPreamble?
             then [Packet(Received(capacity, events[0].data), events[0].sender)] else [])
    ensures SunkOf(capacity, hasSink, events[..1])
         == (if events[0].Arrive? then SinkCall(hasSink, Received(capacity, events[0].data)) else [])
  {
    assert events[..1][1..] == [];
  }

  lemma PassedOnConserves(capacity: nat, hasSink: bool, events: seq<IoEvent>, slots: nat, filled: nat)
    requires filled < slots && events != []
    requires events[0].Arrive? || (events[0].WouldBlock? && filled == 0)
    ensures var used := |QuicOf(capacity, events[..1])|;
            && filled + used <= slots
            && (Conserved(capacity, hasSink, events[1..], slots, filled + used,
                          Drain(capacity, hasSink, events[1..], slots, filled + used))
                ==> Conserved(capacity, hasSink, events, slots, filled,
                              Drain(capacity, hasSink, events, slots, filled)))
  {
    hide ParsePreamble, Received, Conserved, QuicOf, SunkOf;
    OneEvent(capacity, hasSink, events);
    var quic, sunk := QuicOf(capacity, events[..1]), SunkOf(capacity, hasSink, events[..1]);
    var d := Drain(capacity, hasSink, events[1..], slots, filled + |quic|);
    if Conserved(capacity, hasSink, events[1..], slots, filled + |quic|, d) {
      ConservedAfter(capacity, hasSink, events, slots, filled, quic, sunk, d);
    }
  }

  /**
   One poll hands QUIC and the sink exactly what arrived in the answers it used up, reports as many
   packets as it placed, fails or waits only with nothing placed and for the kernel's own reason, and
   uses up at least one answer when it has room for one.
   */
  lemma {:induction false} DrainConserves(capacity: nat, hasSink: bool, events: seq<IoEvent>, slots: nat, filled: nat)
    requires filled <= slots
    ensures Conserved(capacity, hasSink, events, slots, filled, Drain(capacity, hasSink, events, slots, filled))
    decreases |events|
  {
    if filled < slots && events != [] && (events[0].Arrive? || (events[0].WouldBlock? && filled == 0)) {
      hide *;
      PassedOnConserves(capacity, hasSink, events, slots, filled);
      DrainConserves(capacity, hasSink, events[1..], slots, filled + |QuicOf(capacity, events[..1])|);
    } else if events != [] {
      OneEvent(capacity, hasSink, events);
    }
  }

  // ---------------------------------------------------------------------------
  // Where exactly a poll stops
  // ---------------------------------------------------------------------------

  /** Buffers in use when a poll that began with `filled` comes to answer i. */
  ghost function Placed(capacity: nat, events: seq<IoEvent>, filled: nat, i: nat): nat
    requires i <= |events|
  {
    filled + |QuicOf(capacity, events[..i])|
  }

  /** A poll with room goes on after a datagram, and after a false readiness while nothing is placed. */
  ghost predicate GoesOn(capacity: nat, events: seq<IoEvent>, filled: nat, i: nat)
    requires i < |events|
  {
    events[i].Arrive? || (events[i].WouldBlock? && Placed(capacity, events, filled, i) == 0)
  }

  /**
   A poll that passes over the first k answers with room at each and stops there: its buffers are full, or
   there is no further answer, or the next one is used up as well and says why.
   */
  ghost predicate StopsAt(capacity: nat, hasSink: bool, events: seq<IoEvent>, slots: nat, filled: nat,
                          k: nat, d: Drained)
  {
    && k <= |events|
    && (forall i :: 0 <= i < k ==> Placed(capacity, events, filled, i) < slots && GoesOn(capacity, events, filled, i))
    && d.quic == QuicOf(capacity, events[..k])
    && d.sunk == SunkOf(capacity, hasSink, events[..k])
    && var placed := Placed(capacity, events, filled, k);
       if placed >= slots then d.consumed == k && d.poll == Ready(placed)
       else if k == |events| then d.consumed == k && d.poll == (if placed > 0 then Ready(placed) else PollPending)
       else
         && !GoesOn(capacity, events, filled, k)
         && d.consumed == k + 1
         && d.poll == (if placed > 0 then Ready(placed) else if events[k].NotReady? then PollPending else Failed)
  }

  lemma StopsLater(capacity: nat, hasSink: bool, events: seq<IoEvent>, slots: nat, filled: nat, k: nat, d: Drained)
    requires events != [] && filled < slots && GoesOn(capacity, events, filled, 0)
    requires StopsAt(capacity, hasSink, events[1..], slots, filled + |QuicOf(capacity, events[..1])|, k, d)
    ensures var (quic, sunk) := (QuicOf(capacity, events[..1]), SunkOf(capacity, hasSink, events[..1]));
            StopsAt(capacity, hasSink, events, slots, filled, k + 1, After(quic, sunk, d))
  {
    hide QuicOf, SunkOf;
    var rest, used := events[1..], filled + |QuicOf(capacity, events[..1])|;
    forall i: nat | i <= |rest|
      ensures Placed(capacity, events, filled, i + 1) == Placed(capacity, rest, used, i)
      ensures QuicOf(capacity, events[..i + 1]) == QuicOf(capacity, events[..1]) + QuicOf(capacity, rest[..i])
    {
      FrontParts(events, i);
      QuicOfConcat(capacity, events[..1], rest[..i]);
    }
    FrontParts(events, k);
    SunkOfConcat(capacity, hasSink, events[..1], rest[..k]);
    NothingPlaced(capacity, events, filled);
    forall i | 0 <= i < k + 1
      ensures Placed(capacity, events, filled, i) < slots && GoesOn(capacity, events, filled, i)
    {
      if i > 0 {
        assert events[i] == rest[i - 1];
        assert GoesOn(capacity, rest, used, i - 1);
        assert Placed(capacity, events, filled, (i - 1) + 1) == Placed(capacity, rest, used, i - 1);
      }
    }
    assert k < |rest| ==> events[k + 1] == rest[k];
  }

  lemma FrontParts(events: seq<IoEvent>, i: nat)
    requires i + 1 <= |events|
    ensures events[..i + 1] == events[..1] + events[1..][..i]
  {
  }

  lemma NothingPlaced(capacity: nat, events: seq<IoEvent>, filled: nat)
    ensures Placed(capacity, events, filled, 0) == filled
  {
  }

  lemma {:induction false} DrainStops(capacity: nat, hasSink: bool, events: seq<IoEvent>, slots: nat, filled: nat)
    returns (k: nat)
    ensures StopsAt(capacity, hasSink, events, slots, filled, k, Drain(capacity, hasSink, events, slots, filled))
    decreases |events|
  {
    hide Drain, ParsePreamble, Received, SinkCall, QuicOf, SunkOf, StopsAt, GoesOn;
    if filled < slots && events != [] && GoesOn(capacity, events, filled, 0) {
      k := DrainStops(capacity, hasSink, events[1..], slots, filled + |QuicOf(capacity, events[..1])|);
      StopsLater(capacity, hasSink, events, slots, filled, k,
                 Drain(capacity, hasSink, events[1..], slots, filled + |QuicOf(capacity, events[..1])|));
      DrainGoesOn(capacity, hasSink, events, slots, filled);
      k := k + 1;
    } else {
      k := 0;
      StopsAtOnce(capacity, hasSink, events, slots, filled);
    }
  }

  lemma StopsAtOnce(capacity: nat, hasSink: bool, events: seq<IoEvent>, slots: nat, filled: nat)
    requires filled >= slots || events == [] || !GoesOn(capacity, events, filled, 0)
    ensures StopsAt(capacity, hasSink, events, slots, filled, 0, Drain(capacity, hasSink, events, slots, filled))
  {
    hide ParsePreamble, Received, SinkCall;
  }

  lemma DrainGoesOn(capacity: nat, hasSink: bool, events: seq<IoEvent>, slots: nat, filled: nat)
    requires filled < slots && events != [] && GoesOn(capacity, events, filled, 0)
    ensures var (quic, sunk) := (QuicOf(capacity, events[..1]), SunkOf(capacity, hasSink, events[..1]));
            Drain(capacity, hasSink, events, slots, filled)
            == After(quic, sunk, Drain(capacity, hasSink, events[1..], slots, filled + |quic|))
  {
    hide ParsePreamble, Received, QuicOf, SunkOf;
    NothingPlaced(capacity, events, filled);
    OneEvent(capacity, hasSink, events);
  }

  /** The outcome of a poll is the only one that stops where it must: no sooner, no later, and for that reason. */
  lemma DrainExactly(capacity: nat, hasSink: bool, events: seq<IoEvent>, slots: nat, filled: nat, d: Drained)
    ensures d == Drain(capacity, hasSink, events, slots, filled)
       <==> exists k: nat :: StopsAt(capacity, hasSink, events, slots, filled, k, d)
  {
    hide Drain, QuicOf, SunkOf;
    var own := DrainStops(capacity, hasSink, events, slots, filled);
    if k: nat :| StopsAt(capacity, hasSink, events, slots, filled, k, d) {
      assert k >= own;
      assert k <= own;
    }
  }

  lemma {:induction false} QuicOfConcat(capacity: nat, a: seq<IoEvent>, b: seq<IoEvent>)
    ensures QuicOf(capacity, a + b) == QuicOf(capacity, a) + QuicOf(capacity, b)
    decreases |a|
  {
    hide ParsePreamble, Received;
    if a == [] {
      assert a + b == b;
    } else {
      assert (a + b)[1..] == a[1..] + b;
      QuicOfConcat(capacity, a[1..], b);
    }
  }

  lemma {:induction false} SunkOfConcat(capacity: nat, hasSink: bool, a: seq<IoEvent>, b: seq<IoEvent>)
    ensures SunkOf(capacity, hasSink, a + b) == SunkOf(capacity, hasSink, a) + SunkOf(capacity, hasSink, b)
    decreases |a|
  {
    hide SinkCall, Received;
    if a == [] {
      assert a + b == b;
    } else {
      assert (a + b)[1..] == a[1..] + b;
      SunkOfConcat(capacity, hasSink, a[1..], b);
    }
  }

  /** Any number of polls, each with its own number of buffers. */
  function PollAll(capacity: nat, hasSink: bool, events: seq<IoEvent>, calls: seq<nat>)
    : (r: (nat, seq<Packet>, seq<Window>))
    ensures r.0 <= |events|
    decreases |calls|
  {
    if calls == [] then (0, [], [])
    else
      DrainConserves(capacity, hasSink, events, calls[0], 0);
      var d := Drain(capacity, hasSink, events, calls[0], 0);
      var rest := PollAll(capacity, hasSink, events[d.consumed..], calls[1..]);
      (d.consumed + rest.0, d.quic + rest.1, d.sunk + rest.2)
  }

  /** Polls with room, as many as there are answers, use up every answer. */
  lemma {:induction false} EnoughPollsUseUpAll(capacity: nat, hasSink: bool, events: seq<IoEvent>, calls: seq<nat>)
    requires (forall i :: 0 <= i < |calls| ==> calls[i] > 0) && |calls| >= |events|
    ensures PollAll(capacity, hasSink, events, calls).0 == |events|
    decreases |calls|
  {
    if calls != [] {
      hide Drain, QuicOf, SunkOf;
      DrainConserves(capacity, hasSink, events, calls[0], 0);
      var k := Drain(capacity, hasSink, events, calls[0], 0).consumed;
      EnoughPollsUseUpAll(capacity, hasSink, events[k..], calls[1..]);
    }
  }

  /** One poll and those after it. */
  lemma FirstPoll(capacity: nat, hasSink: bool, events: seq<IoEvent>, calls: seq<nat>)
    returns (k: nat)
    requires calls != []
    ensures k <= |events|
    ensures var rest := PollAll(capacity, hasSink, events[k..], calls[1..]);
            PollAll(capacity, hasSink, events, calls)
            == (k + rest.0, QuicOf(capacity, events[..k]) + rest.1, SunkOf(capacity, hasSink, events[..k]) + rest.2)
  {
    hide Drain, QuicOf, SunkOf;
    DrainConserves(capacity, hasSink, events, calls[0], 0);
    k := Drain(capacity, hasSink, events, calls[0], 0).consumed;
  }

  /** `r`: how many answers were used, what QUIC got and what the sink got of them. */
  ghost predicate Demultiplexed(capacity: nat, hasSink: bool, events: seq<IoEvent>,
                                r: (nat, seq<Packet>, seq<Window>))
  {
    && r.0 <= |events|
    && r.1 == QuicOf(capacity, events[..r.0])
    && r.2 == SunkOf(capacity, hasSink, events[..r.0])
  }

  lemma Resumed(capacity: nat, hasSink: bool, events: seq<IoEvent>, k: nat, rest: (nat, seq<Packet>, seq<Window>))
    requires k <= |events| && Demultiplexed(capacity, hasSink, events[k..], rest)
    ensures Demultiplexed(capacity, hasSink, events, (k + rest.0, QuicOf(capacity, events[..k]) + rest.1,
                                                      SunkOf(capacity, hasSink, events[..k]) + rest.2))
  {
    hide QuicOf, SunkOf;
    var n := rest.0;
    assert events[..k + n] == events[..k] + events[k..][..n];
    QuicOfConcat(capacity, events[..k], events[k..][..n]);
    SunkOfConcat(capacity, hasSink, events[..k], events[k..][..n]);
  }

  lemma {:induction false} PollsDemultiplex(capacity: nat, hasSink: bool, events: seq<IoEvent>, calls: seq<nat>)
    ensures Demultiplexed(capacity, hasSink, events, PollAll(capacity, hasSink, events, calls))
    decreases |calls|
  {
    if calls != [] {
      hide QuicOf, SunkOf, PollAll, Demultiplexed;
      var k := FirstPoll(capacity, hasSink, events, calls);
      PollsDemultiplex(capacity, hasSink, events[k..], calls[1..]);
      Resumed(capacity, hasSink, events, k, PollAll(capacity, hasSink, events[k..], calls[1..]));
    }
  }

  /**
   Over any arrivals and any polls: QUIC gets exactly the non-preamble datagrams in order and
   the sink exactly the well-formed preambles in order, among the answers used up so far.
   */
  lemma DemultiplexingConserves(capacity: nat, hasSink: bool, events: seq<IoEvent>, calls: seq<nat>)
    ensures var r := PollAll(capacity, hasSink, events, calls);
            && r.1 == QuicOf(capacity, events[..r.0])
            && r.2 == SunkOf(capacity, hasSink, events[..r.0])
  {
    hide QuicOf, SunkOf, PollAll;
    PollsDemultiplex(capacity, hasSink, events, calls);
  }

  // ---------------------------------------------------------------------------
  // The same, in terms of the bytes that arrived
  // ---------------------------------------------------------------------------

  /** The bytes a buffer of `capacity` keeps of an arrival start with a marker, and go on with the transcript of w. */
  ghost predicate SinkGets(capacity: nat, hasSink: bool, e: IoEvent, w: Window) {
    && hasSink && e.Arrive?
    && var got := if |e.data| <= capacity then e.data else e.data[..capacity];
       got != [] && (got[0] as bv8) & 0xC0 == 0 && Encodable(w) && EncodeAll(w) <= got[1..]
  }

  /** They are empty or start with a byte that has a top bit set, and are passed on with their sender. */
  ghost predicate QuicGets(capacity: nat, e: IoEvent, p: Packet) {
    && e.Arrive?
    && var got := if |e.data| <= capacity then e.data else e.data[..capacity];
       (got == [] || (got[0] as bv8) & 0xC0 != 0) && p == Packet(got, e.sender)
  }

  /** One arrival: the sink is called with w exactly when its bytes say so, and at most once; QUIC likewise. */
  lemma OneArrivalExactly(capacity: nat, hasSink: bool, e: IoEvent)
    ensures |SunkOf(capacity, hasSink, [e])| <= 1 && |QuicOf(capacity, [e])| <= 1
    ensures forall w :: w in SunkOf(capacity, hasSink, [e]) <==> SinkGets(capacity, hasSink, e, w)
    ensures forall p :: p in QuicOf(capacity, [e]) <==> QuicGets(capacity, e, p)
  {
    hide ParseTranscript, EncodeAll, Encodable;
    OneEvent(capacity, hasSink, [e]);
    assert [e][..1] == [e];
    if e.Arrive? {
      var got := Received(capacity, e.data);
      if got != [] {
        MarkerIsMask(got[0]);
        forall w
          ensures ParseTranscript(got[1..]) == Ok(w) <==> Encodable(w) && EncodeAll(w) <= got[1..]
        {
          DecodesExactly(got[1..], w);
        }
      }
    }
  }

  lemma {:induction false} SunkExactly(capacity: nat, hasSink: bool, events: seq<IoEvent>)
    ensures ExactlyFrom(events, (e, w) => SinkGets(capacity, hasSink, e, w), SunkOf(capacity, hasSink, events))
    decreases |events|
  {
    hide SinkGets, SinkCall, Received, ExactlyFrom;
    var gets := (e, w) => SinkGets(capacity, hasSink, e, w);
    if events == [] {
      PickedNone(events, gets);
    } else {
      SunkExactly(capacity, hasSink, events[1..]);
      OneArrivalExactly(capacity, hasSink, events[0]);
      SunkOfConcat(capacity, hasSink, [events[0]], events[1..]);
      assert [events[0]] + events[1..] == events;
      PickedFirst(events, gets, SunkOf(capacity, hasSink, [events[0]]), SunkOf(capacity, hasSink, events[1..]));
    }
  }

  lemma {:induction false} QuicExactly(capacity: nat, events: seq<IoEvent>)
    ensures ExactlyFrom(events, (e, p) => QuicGets(capacity, e, p), QuicOf(capacity, events))
    decreases |events|
  {
    hide QuicGets, ParsePreamble, Received, ExactlyFrom;
    var gets := (e, p) => QuicGets(capacity, e, p);
    if events == [] {
      PickedNone(events, gets);
    } else {
      QuicExactly(capacity, events[1..]);
      OneArrivalExactly(capacity, true, events[0]);
      QuicOfConcat(capacity, [events[0]], events[1..]);
      assert [events[0]] + events[1..] == events;
      PickedFirst(events, gets, QuicOf(capacity, [events[0]]), QuicOf(capacity, events[1..]));
    }
  }

  /**
   Over any arrivals and any polls, among the answers used up so far: the sink was called for exactly the
   datagrams whose bytes are a marker and a transcript, once each and in order, with the window that
   transcript encodes; QUIC got exactly those that are empty or start with a top bit set, in order, with
   their senders; a marked datagram that holds no transcript went nowhere.
   */
  lemma EachToItsDestination(capacity: nat, hasSink: bool, events: seq<IoEvent>, calls: seq<nat>)
    ensures var r := PollAll(capacity, hasSink, events, calls);
            && ExactlyFrom(events[..r.0], (e, p) => QuicGets(capacity, e, p), r.1)
            && ExactlyFrom(events[..r.0], (e, w) => SinkGets(capacity, hasSink, e, w), r.2)
  {
    hide PollAll, SinkGets, QuicGets, ExactlyFrom;
    var r := PollAll(capacity, hasSink, events, calls);
    DemultiplexingConserves(capacity, hasSink, events, calls);
    QuicExactly(capacity, events[..r.0]);
    SunkExactly(capacity, hasSink, events[..r.0]);
  }

  /** Polled often enough, with room each time, everything that arrived reaches its one destination. */
  lemma EverythingIsDelivered(capacity: nat, hasSink: bool, events: seq<IoEvent>, calls: seq<nat>)
    requires (forall i :: 0 <= i < |calls| ==> calls[i] > 0) && |calls| >= |events|
    ensures PollAll(capacity, hasSink, events, calls)
         == (|events|, QuicOf(capacity, events), SunkOf(capacity, hasSink, events))
  {
    hide PollAll, QuicOf, SunkOf;
    DemultiplexingConserves(capacity, hasSink, events, calls);
    EnoughPollsUseUpAll(capacity, hasSink, events, calls);
    assert events[..|events|] == events;
  }

  /** A datagram that fits its buffer and sets a QUIC bit, or is empty, reaches QUIC unchanged. */
  lemma QuicPacketsPassThrough(capacity: nat, hasSink: bool, data: bytes, sender: nat)
    requires |data| <= capacity
    requires data == [] || (data[0] as bv8) & 0xC0 != 0
    ensures QuicOf(capacity, [Arrive(data, sender)]) == [Packet(data, sender)]
    ensures SunkOf(capacity, hasSink, [Arrive(data, sender)]) == []
  {
    if data != [] {
      MarkerIsMask(data[0]);
    }
    assert [Arrive(data, sender)][1..] == [];
  }

  // ---------------------------------------------------------------------------
  // The byte pipeline against direct application
  // ---------------------------------------------------------------------------

  function Arrivals(datagrams: seq<bytes>, sender: nat): (r: seq<IoEvent>)
    ensures |r| == |datagrams|
  {
    seq(|datagrams|, i requires 0 <= i < |datagrams| => Arrive(datagrams[i], sender))
  }

  lemma {:induction false} ArrivingBuckets(buckets: seq<Window>, datagrams: seq<bytes>, capacity: nat, sender: nat)
    requires |datagrams| == |buckets| && capacity >= MAX_DATAGRAM_PAYLOAD
    requires forall i :: 0 <= i < |buckets| ==>
      datagrams[i] == DatagramOf(buckets[i]) && buckets[i] != [] && EncodedLen(buckets[i]) <= BUCKET_BUDGET
    ensures SunkOf(capacity, true, Arrivals(datagrams, sender)) == buckets
    ensures QuicOf(capacity, Arrivals(datagrams, sender)) == []
    decreases |buckets|
  {
    hide DatagramOf, ParsePreamble, EncodedLen;
    if buckets != [] {
      BucketDatagram(buckets[0]);
      assert Arrivals(datagrams, sender)[1..] == Arrivals(datagrams[1..], sender);
      ArrivingBuckets(buckets[1..], datagrams[1..], capacity, sender);
    }
  }

  /** Everything sent comes out of the other side's socket as the buckets that went in, and QUIC sees none of it. */
  lemma SentWindowArrives(window: Window, totalBudget: nat, capacity: nat, sender: nat)
    requires capacity >= MAX_DATAGRAM_PAYLOAD
    ensures SunkOf(capacity, true, Arrivals(DatagramsOf(window, totalBudget), sender))
         == BucketsOf(window, totalBudget, BUCKET_BUDGET)
    ensures QuicOf(capacity, Arrivals(DatagramsOf(window, totalBudget), sender)) == []
  {
    var buckets := BucketsOf(window, totalBudget, BUCKET_BUDGET);
    forall i | 0 <= i < |buckets|
      ensures buckets[i] != [] && EncodedLen(buckets[i]) <= BUCKET_BUDGET
    {
      BucketIsSendable(window, totalBudget, i);
    }
    ArrivingBuckets(buckets, DatagramsOf(window, totalBudget), capacity, sender);
  }

  /** Datagrams one byte longer than their buckets' transcripts cost the body plus nine bytes each. */
  lemma {:induction false} TotalLenOf(buckets: seq<Window>, datagrams: seq<bytes>)
    requires |datagrams| == |buckets|
    requires forall i :: 0 <= i < |buckets| ==> |datagrams[i]| == 1 + EncodedLen(buckets[i])
    ensures TotalLen(datagrams) == BodyLen(Flatten(buckets)) + 9 * |buckets|
    decreases |buckets|
  {
    if buckets != [] {
      var n := |buckets| - 1;
      TotalLenOf(buckets[..n], datagrams[..n]);
      FlattenSnoc(buckets[..n], buckets[n]);
      assert buckets[..n] + [buckets[n]] == buckets;
      BodyLenConcat(Flatten(buckets[..n]), buckets[n]);
    }
  }

  lemma {:induction false} FlattenSnoc(buckets: seq<Window>, last: Window)
    ensures Flatten(buckets + [last]) == Flatten(buckets) + last
    decreases |buckets|
  {
    if buckets == [] {
      assert [last][1..] == [];
    } else {
      assert (buckets + [last])[1..] == buckets[1..] + [last];
      FlattenSnoc(buckets[1..], last);
    }
  }

  /**
   What `send_preamble` returns, and its cost: `total_budget` bounds the entries only; the wire
   carries nine more bytes for each datagram, and no way of splitting the same entries costs less.
   */
  lemma SendCost(window: Window, totalBudget: nat, split: seq<Window>)
    ensures var datagrams := DatagramsOf(window, totalBudget);
            var sent := Selected(window, totalBudget, BUCKET_BUDGET);
            && TotalLen(datagrams) == BodyLen(sent) + 9 * |datagrams|
            && BodyLen(sent) <= totalBudget
            && (forall d <- datagrams :: |d| <= MAX_DATAGRAM_PAYLOAD)
            && (IsSplit(split, sent, BUCKET_BUDGET) ==> TotalLen(datagrams) <= WireBytes(split))
  {
    var buckets := BucketsOf(window, totalBudget, BUCKET_BUDGET);
    BucketsAreOptimal(window, totalBudget, BUCKET_BUDGET, split);
    var sent := Selected(window, totalBudget, BUCKET_BUDGET);
    SelectedIsLongest(window, totalBudget, BUCKET_BUDGET, |sent|);
    var datagrams := DatagramsOf(window, totalBudget);
    forall i | 0 <= i < |buckets|
      ensures |datagrams[i]| == 1 + EncodedLen(buckets[i]) <= MAX_DATAGRAM_PAYLOAD
    {
      assert buckets[i] in buckets;
      BucketDatagram(buckets[i]);
    }
    TotalLenOf(buckets, datagrams);
  }

  /** The counter follows what is given to the network exactly when the send succeeds or fails at once. */
  lemma CountsExactlyWhatIsGiven(window: Window, totalBudget: nat, sendable: nat)
    ensures var datagrams := DatagramsOf(window, totalBudget);
            Counted(datagrams, sendable) == TotalLen(GivenToNetwork(datagrams, sendable))
            <==> |datagrams| <= sendable || sendable == 0
  {
    hide DatagramsOf;
    var datagrams := DatagramsOf(window, totalBudget);
    var given := GivenToNetwork(datagrams, sendable);
    assert datagrams[..|datagrams|] == datagrams;
    if 0 < sendable < |datagrams| {
      var last := given[|given| - 1];
      assert last == datagrams[sendable - 1];
      DatagramsAreMarked(window, totalBudget, sendable - 1);
    }
  }

  lemma DatagramsAreMarked(window: Window, totalBudget: nat, k: nat)
    requires k < |DatagramsOf(window, totalBudget)|
    ensures |DatagramsOf(window, totalBudget)[k]| > 0
  {
  }

  /**
   So a send can put more on the wire than its budget: one commit that uses the budget up goes out as
   nine bytes more.
   */
  lemma WireExceedsBudget(commit: bytes)
    requires HEADER_LEN + 12 + |commit| <= BUCKET_BUDGET
    ensures TotalLen(DatagramsOf([Entry(1, commit)], 12 + |commit|)) == 12 + |commit| + 9
  {
    var window, budget := [Entry(1, commit)], 12 + |commit|;
    assert window[..0] == [] && window[..1] == window;
    assert BodyLen(window) == budget;
    SelectedIsLongest(window, budget, BUCKET_BUDGET, 1);
    SendCost(window, budget, []);
    BucketsAreOptimal(window, budget, BUCKET_BUDGET, []);
    NoMoreThanEntries(BucketsOf(window, budget, BUCKET_BUDGET));
  }
}
