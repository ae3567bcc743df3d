/**
 The byte pipeline against direct application: when a window cut into datagrams and applied one
 datagram at a time has the effect of one `apply_commit_window` call.
 */
module Pipeline {
  import opened Bytes
  import opened Group
  import opened Transcript
  import opened Buckets
  import opened Preamble

  // ---------------------------------------------------------------------------
  // Applying in parts
  // ---------------------------------------------------------------------------

  lemma {:induction false} ApplyConcat(accepts: Acceptor, group: History, a: Window, b: Window, local: u64)
    ensures ApplyWindow(accepts, group, a + b, local)
         == (var r := ApplyWindow(accepts, group, a, local);
             if r.status == Applied then ApplyWindow(accepts, r.group, b, r.epoch) else r)
    decreases |a|
  {
    if a == [] {
      assert a + b == b;
    } else {
      var e := a[0];
      assert (a + b)[1..] == a[1..] + b;
      if e.epoch <= local {
        ApplyConcat(accepts, group, a[1..], b, local);
      } else if e.epoch == local + 1 && accepts(group, e.commit) {
        ApplyConcat(accepts, group + [e.commit], a[1..], b, local + 1);
      }
    }
  }

  lemma {:induction false} FlattenConcat(a: seq<Window>, b: seq<Window>)
    ensures Flatten(a + b) == Flatten(a) + Flatten(b)
    decreases |a|
  {
    if a == [] {
      assert a + b == b;
    } else {
      assert (a + b)[1..] == a[1..] + b;
      FlattenConcat(a[1..], b);
    }
  }

  /** Bucket i is the stretch of the window between what the buckets before it and with it hold. */
  lemma BucketIsStretch(buckets: seq<Window>, i: nat)
    requires i < |buckets|
    ensures var from := |Flatten(buckets[..i])|;
            && from + |buckets[i]| <= |Flatten(buckets)|
            && Flatten(buckets)[..from] == Flatten(buckets[..i])
            && Flatten(buckets)[from..from + |buckets[i]|] == buckets[i]
  {
    FlattenConcat(buckets[..i], buckets[i..]);
    assert buckets == buckets[..i] + buckets[i..];
    assert Flatten(buckets[i..]) == buckets[i] + Flatten(buckets[i..][1..]);
  }

  /** One bucket after the other ends where one call on all their entries ends. */
  ghost predicate Direct(accepts: Acceptor, at: Position, buckets: seq<Window>) {
    var r := ApplyWindow(accepts, at.group, Flatten(buckets), at.epoch);
    DeliverAll(accepts, at, buckets) == Position(r.group, r.epoch)
  }

  /**
   A receiver at epoch e gets through the buckets before i, may be stopped by bucket i, and is taken
   on by bucket j: the direct call stops at i for good, but the next datagram starts afresh.
   */
  ghost predicate Late(buckets: seq<Window>, e: nat, i: nat, j: nat) {
    && i < j < |buckets|
    && (forall k :: 0 <= k < i ==> FirstAbove(buckets[k], e) == |buckets[k]|)
    && var q, p := FirstAbove(buckets[i], e), FirstAbove(buckets[j], e);
       && q < |buckets[i]| && p < |buckets[j]|
       && buckets[j][p].epoch == e + 1
       && (buckets[i][q].epoch != e + 1 || buckets[i][q].commit != buckets[j][p].commit)
  }

  /** Nothing a receiver at `low` or beyond waits for comes late. */
  ghost predicate InStepFrom(buckets: seq<Window>, low: nat) {
    forall e: nat, i: nat, j: nat :: low <= e ==> !Late(buckets, e, i, j)
  }

  ghost predicate InStep(buckets: seq<Window>) {
    InStepFrom(buckets, 0)
  }

  /** What one bucket does to a receiver that its first new entry cannot move on. */
  lemma BucketStopped(accepts: Acceptor, group: History, bucket: Window, e: u64)
    requires var p := FirstAbove(bucket, e);
             p < |bucket| ==> bucket[p].epoch != e + 1 || !accepts(group, bucket[p].commit)
    ensures var r := ApplyWindow(accepts, group, bucket, e);
            r.group == group && r.epoch == e
  {
    ApplyExplained(accepts, group, bucket, e);
    var r := ApplyWindow(accepts, group, bucket, e);
    assert r.group[..|group|] == group;
  }

  lemma {:induction false} AllStopped(accepts: Acceptor, at: Position, buckets: seq<Window>)
    requires forall i :: 0 <= i < |buckets| ==>
      var p := FirstAbove(buckets[i], at.epoch);
      p < |buckets[i]| ==> buckets[i][p].epoch != at.epoch + 1 || !accepts(at.group, buckets[i][p].commit)
    ensures DeliverAll(accepts, at, buckets) == at
    decreases |buckets|
  {
    if buckets != [] {
      BucketStopped(accepts, at.group, buckets[0], at.epoch);
      AllStopped(accepts, at, buckets[1..]);
    }
  }

  lemma LaterInStep(buckets: seq<Window>, low: nat, e: nat)
    requires buckets != [] && InStepFrom(buckets, low)
    requires low <= e && FirstAbove(buckets[0], e) == |buckets[0]|
    ensures InStepFrom(buckets[1..], e)
  {
    var rest := buckets[1..];
    forall e': nat, i: nat, j: nat | e <= e'
      ensures !Late(rest, e', i, j)
    {
      if Late(rest, e', i, j) {
        forall k | 0 <= k < i + 1
          ensures FirstAbove(buckets[k], e') == |buckets[k]|
        {
          if k > 0 {
            assert buckets[k] == rest[k - 1];
          }
        }
        assert Late(buckets, e', i + 1, j + 1);
      }
    }
  }

  lemma {:induction false} InStepIsDirect(accepts: Acceptor, at: Position, buckets: seq<Window>)
    requires InStepFrom(buckets, at.epoch)
    ensures Direct(accepts, at, buckets)
    decreases |buckets|
  {
    if buckets != [] {
      var first, rest := buckets[0], buckets[1..];
      var r := ApplyWindow(accepts, at.group, first, at.epoch);
      var now := Position(r.group, r.epoch);
      ApplyConcat(accepts, at.group, first, Flatten(rest), at.epoch);
      ApplyExplained(accepts, at.group, first, at.epoch);
      if r.status == Applied {
        LaterInStep(buckets, at.epoch, r.epoch);
        InStepIsDirect(accepts, now, rest);
      } else {
        forall i | 0 <= i < |rest|
          ensures var p := FirstAbove(rest[i], r.epoch);
                  p < |rest[i]| ==> rest[i][p].epoch != r.epoch + 1 || !accepts(r.group, rest[i][p].commit)
        {
          assert !Late(buckets, r.epoch, 0, i + 1);
        }
        AllStopped(accepts, now, rest);
      }
    }
  }

  /** The first new entry of all the buckets is that of the first bucket that has one. */
  lemma {:induction false} FirstAboveAll(buckets: seq<Window>, e: nat, i: nat)
    requires i < |buckets| && FirstAbove(buckets[i], e) < |buckets[i]|
    requires forall k :: 0 <= k < i ==> FirstAbove(buckets[k], e) == |buckets[k]|
    ensures var q := FirstAbove(Flatten(buckets), e);
            q < |Flatten(buckets)| && Flatten(buckets)[q] == buckets[i][FirstAbove(buckets[i], e)]
    decreases i
  {
    hide FirstAbove, Flatten;
    var rest := buckets[1..];
    FlattenFirst(buckets);
    FirstAboveParts(buckets[0], Flatten(rest), e);
    if i > 0 {
      assert rest[i - 1] == buckets[i];
      FirstAboveAll(rest, e, i - 1);
    }
  }

  lemma FlattenFirst(buckets: seq<Window>)
    requires buckets != []
    ensures Flatten(buckets) == buckets[0] + Flatten(buckets[1..])
  {
  }

  lemma {:induction false} FirstAboveParts(a: Window, b: Window, e: nat)
    ensures FirstAbove(a + b, e)
         == if FirstAbove(a, e) < |a| then FirstAbove(a, e) else |a| + FirstAbove(b, e)
    decreases |a|
  {
    if a == [] {
      assert a + b == b;
    } else {
      assert (a + b)[1..] == a[1..] + b;
      FirstAboveParts(a[1..], b, e);
    }
  }

  /** Bucket j holds the next commit first among its new entries, and the library always takes that. */
  lemma {:induction false} BucketMovesOn(accepts: Acceptor, at: Position, buckets: seq<Window>, e: u64, j: nat)
    requires j < |buckets| && e <= at.epoch
    requires var p := FirstAbove(buckets[j], e);
             p < |buckets[j]| && buckets[j][p].epoch == e + 1 && forall g :: accepts(g, buckets[j][p].commit)
    ensures e < DeliverAll(accepts, at, buckets).epoch
    decreases |buckets|
  {
    var r := ApplyWindow(accepts, at.group, buckets[0], at.epoch);
    ApplyExplained(accepts, at.group, buckets[0], at.epoch);
    if r.epoch > e {
      NeverBack(accepts, Position(r.group, r.epoch), buckets[1..]);
    } else {
      BucketMovesOn(accepts, Position(r.group, r.epoch), buckets[1..], e, j - 1);
    }
  }

  lemma {:induction false} NeverBack(accepts: Acceptor, at: Position, buckets: seq<Window>)
    ensures at.epoch <= DeliverAll(accepts, at, buckets).epoch
    decreases |buckets|
  {
    if buckets != [] {
      var r := ApplyWindow(accepts, at.group, buckets[0], at.epoch);
      ApplyExplained(accepts, at.group, buckets[0], at.epoch);
      NeverBack(accepts, Position(r.group, r.epoch), buckets[1..]);
    }
  }

  /** Refuses just the entry that bucket i stops at, when it is the next one due. */
  ghost function Refusing(first: Entry, e: nat): Acceptor {
    (g, c) => first.epoch != e + 1 || c != first.commit
  }

  lemma LateDiffers(buckets: seq<Window>, e: nat, i: nat, j: nat)
    requires Late(buckets, e, i, j)
    ensures var first := buckets[i][FirstAbove(buckets[i], e)];
            e < U64_LIMIT && !Direct(Refusing(first, e), Position([], e), buckets)
  {
    var first := buckets[i][FirstAbove(buckets[i], e)];
    var accepts := Refusing(first, e);
    assert e < U64_LIMIT;
    FirstAboveAll(buckets, e, i);
    BucketStopped(accepts, [], Flatten(buckets), e);
    BucketMovesOn(accepts, Position([], e), buckets, e, j);
  }

  /**
   Applying bucket by bucket is the direct call, for every library and every receiver, if and only if
   no commit comes late: whatever stops the direct call also stops every bucket after it.
   */
  lemma DirectExactly(buckets: seq<Window>)
    ensures (forall accepts, at :: Direct(accepts, at, buckets)) <==> InStep(buckets)
  {
    hide Direct, Late;
    if InStep(buckets) {
      forall accepts, at
        ensures Direct(accepts, at, buckets)
      {
        InStepIsDirect(accepts, at, buckets);
      }
    }
    if forall accepts, at :: Direct(accepts, at, buckets) {
      forall e: nat, i: nat, j: nat
        ensures !Late(buckets, e, i, j)
      {
        if Late(buckets, e, i, j) {
          LateDiffers(buckets, e, i, j);
        }
      }
    }
  }

  // ---------------------------------------------------------------------------
  // The whole pipeline
  // ---------------------------------------------------------------------------

  /**
   Sent through the socket and applied datagram by datagram, the window ends where the sent prefix,
   applied at once, ends.
   */
  ghost predicate PipelineIsDirect(accepts: Acceptor, at: Position, window: Window,
                                   totalBudget: nat, capacity: nat, sender: nat)
  {
    var received := SunkOf(capacity, true, Arrivals(DatagramsOf(window, totalBudget), sender));
    var r := ApplyWindow(accepts, at.group, Selected(window, totalBudget, BUCKET_BUDGET), at.epoch);
    DeliverAll(accepts, at, received) == Position(r.group, r.epoch)
  }

  lemma PipelineIsBucketwise(accepts: Acceptor, at: Position, window: Window,
                             totalBudget: nat, capacity: nat, sender: nat)
    requires capacity >= MAX_DATAGRAM_PAYLOAD
    ensures PipelineIsDirect(accepts, at, window, totalBudget, capacity, sender)
       <==> Direct(accepts, at, BucketsOf(window, totalBudget, BUCKET_BUDGET))
  {
    hide SunkOf, DatagramsOf, BucketsOf, Selected, ApplyWindow, DeliverAll, Flatten, Arrivals;
    SentWindowArrives(window, totalBudget, capacity, sender);
    BucketsAreOptimal(window, totalBudget, BUCKET_BUDGET, []);
  }

  /**
   Bucketing, encoding, marking, demultiplexing, decoding and applying bucket by bucket ends where one
   `apply_commit_window` call on the sent prefix ends, for every library and every receiver, if and
   only if in the buckets cut from the window no commit comes late.
   */
  lemma PipelineExactly(window: Window, totalBudget: nat, capacity: nat, sender: nat)
    requires capacity >= MAX_DATAGRAM_PAYLOAD
    ensures (forall accepts, at :: PipelineIsDirect(accepts, at, window, totalBudget, capacity, sender))
       <==> InStep(BucketsOf(window, totalBudget, BUCKET_BUDGET))
  {
    hide PipelineIsDirect, Direct, BucketsOf, InStep;
    forall accepts, at
      ensures PipelineIsDirect(accepts, at, window, totalBudget, capacity, sender)
         <==> Direct(accepts, at, BucketsOf(window, totalBudget, BUCKET_BUDGET))
    {
      PipelineIsBucketwise(accepts, at, window, totalBudget, capacity, sender);
    }
    DirectExactly(BucketsOf(window, totalBudget, BUCKET_BUDGET));
  }

  lemma EntryOfBucket(buckets: seq<Window>, i: nat, q: nat)
    requires i < |buckets| && q < |buckets[i]|
    ensures var from := |Flatten(buckets[..i])|;
            from + |buckets[i]| <= |Flatten(buckets)| && Flatten(buckets)[from + q] == buckets[i][q]
  {
    BucketIsStretch(buckets, i);
    var from := |Flatten(buckets[..i])|;
    assert Flatten(buckets)[from + q] == Flatten(buckets)[from..from + |buckets[i]|][q];
  }

  lemma OrderedInStep(buckets: seq<Window>)
    requires Ordered(Flatten(buckets))
    ensures InStep(buckets)
  {
    hide Flatten;
    forall e: nat, i: nat, j: nat
      ensures !Late(buckets, e, i, j)
    {
      if Late(buckets, e, i, j) {
        EntryOfBucket(buckets, i, FirstAbove(buckets[i], e));
        EntryOfBucket(buckets, j, FirstAbove(buckets[j], e));
        BucketsInTurn(buckets, i, j);
      }
    }
  }

  lemma BucketsInTurn(buckets: seq<Window>, i: nat, j: nat)
    requires i < j < |buckets|
    ensures |Flatten(buckets[..i])| + |buckets[i]| <= |Flatten(buckets[..j])|
  {
    BucketIsStretch(buckets[..j], i);
    assert buckets[..j][..i] == buckets[..i];
  }

  /**
   So it is for every window in order, as a log's window is: with gaps, with repeats, and with a commit
   the library refuses.
   */
  lemma PipelineRefinesDirect(accepts: Acceptor, at: Position, window: Window,
                              totalBudget: nat, capacity: nat, sender: nat)
    requires Ordered(window) && capacity >= MAX_DATAGRAM_PAYLOAD
    ensures PipelineIsDirect(accepts, at, window, totalBudget, capacity, sender)
  {
    hide PipelineIsDirect, BucketsOf, InStep;
    var buckets := BucketsOf(window, totalBudget, BUCKET_BUDGET);
    BucketsAreOptimal(window, totalBudget, BUCKET_BUDGET, []);
    OrderedInStep(buckets);
    PipelineExactly(window, totalBudget, capacity, sender);
  }

  /**
   A window the two differ on: sent in descending order, two large commits are refused as one window but
   half applied as two datagrams.
   */
  lemma UnsortedWindowsDiffer(accepts: Acceptor, commit: bytes)
    requires |commit| == 1100 && accepts([], commit)
    ensures var w := [Entry(2, commit), Entry(1, commit)];
            && Selected(w, 10000, BUCKET_BUDGET) == w
            && ApplyWindow(accepts, [], w, 0) == ApplyResult([], 0, ResyncNeeded)
            && DeliverAll(accepts, Position([], 0), BucketsOf(w, 10000, BUCKET_BUDGET)) == Position([commit], 1)
  {
    var first, second := Entry(2, commit), Entry(1, commit);
    var w := [first, second];
    BodyLenConcat([first], [second]);
    assert [first][..0] == [] && [second][..0] == [] && w == [first] + [second];
    assert w[..2] == w && w[..1] == [first] && w[1..] == [second];
    SelectedIsLongest(w, 10000, BUCKET_BUDGET, 2);
    assert Pack(w, BUCKET_BUDGET) == [[first]] + Pack([second], BUCKET_BUDGET) by {
      assert EachFits([second], BUCKET_BUDGET);
      PackCloses([first], [second], BUCKET_BUDGET);
    }
    assert Pack([second], BUCKET_BUDGET) == [[second]] by {
      assert [second] + [] == [second];
      PackCloses([second], [], BUCKET_BUDGET);
    }
    assert Selected(w, 10000, BUCKET_BUDGET) == w;
    assert BucketsOf(w, 10000, BUCKET_BUDGET) == [[first], [second]];
    var at := Position([], 0);
    assert [first][1..] == [] && [second][1..] == [];
    assert [[first], [second]][1..] == [[second]] && [[second]][1..] == [];
    assert ApplyWindow(accepts, [], [first], 0) == ApplyResult([], 0, ResyncNeeded);
    assert ApplyWindow(accepts, [], [second], 0) == ApplyResult([commit], 1, Applied);
    assert DeliverAll(accepts, at, [[second]]) == Position([commit], 1);
  }
}
