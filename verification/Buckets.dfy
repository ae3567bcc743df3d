/**
 Cutting a window into datagram-sized buckets, and the proof that no order-preserving
 way of doing it needs fewer.
 */
module Buckets {
  import opened Group
  import opened Transcript

  // ---------------------------------------------------------------------------
  // Which entries are sent
  // ---------------------------------------------------------------------------

  function SelectFrom(w: Window, totalBudget: nat, perDatagram: nat, used: nat): (n: nat)
    ensures n <= |w|
  {
    if w == [] || HEADER_LEN + EntryLen(w[0]) > perDatagram || used + EntryLen(w[0]) > totalBudget then 0
    else 1 + SelectFrom(w[1..], totalBudget, perDatagram, used + EntryLen(w[0]))
  }

  /** The prefix of the window that is sent at all. */
  function Selected(w: Window, totalBudget: nat, perDatagram: nat): Window {
    w[..SelectFrom(w, totalBudget, perDatagram, 0)]
  }

  ghost predicate EachFits(w: Window, perDatagram: nat) {
    forall i :: 0 <= i < |w| ==> HEADER_LEN + EntryLen(w[i]) <= perDatagram
  }

  lemma FitsParts(a: Window, b: Window, perDatagram: nat)
    ensures EachFits(a + b, perDatagram) <==> EachFits(a, perDatagram) && EachFits(b, perDatagram)
  {
    forall i | 0 <= i < |a|
      ensures (a + b)[i] == a[i]
    {
    }
    forall i | 0 <= i < |b|
      ensures (a + b)[|a| + i] == b[i]
    {
    }
  }

  /** Each entry fits an empty datagram; the entries together (headers not counted) fit the total. */
  ghost predicate Admissible(w: Window, totalBudget: nat, perDatagram: nat) {
    EachFits(w, perDatagram) && BodyLen(w) <= totalBudget
  }

  lemma {:induction false} SelectFromIsLongest(w: Window, totalBudget: nat, perDatagram: nat, used: nat, m: nat)
    requires m <= |w| && used <= totalBudget
    ensures m <= SelectFrom(w, totalBudget, perDatagram, used)
       <==> Admissible(w[..m], totalBudget - used, perDatagram)
    decreases |w|
  {
    if m > 0 {
      var rest := w[1..];
      assert w[..m] == [w[0]] + rest[..m - 1];
      BodyLenConcat([w[0]], rest[..m - 1]);
      assert BodyLen([w[0]]) == EntryLen(w[0]) by { assert [w[0]][..0] == []; }
      if used + EntryLen(w[0]) <= totalBudget {
        SelectFromIsLongest(rest, totalBudget, perDatagram, used + EntryLen(w[0]), m - 1);
        FitsParts([w[0]], rest[..m - 1], perDatagram);
      }
    }
  }

  /** The selection is the longest admissible prefix: exactly its own prefixes are admissible. */
  lemma SelectedIsLongest(w: Window, totalBudget: nat, perDatagram: nat, m: nat)
    requires m <= |w|
    ensures m <= |Selected(w, totalBudget, perDatagram)| <==> Admissible(w[..m], totalBudget, perDatagram)
  {
    SelectFromIsLongest(w, totalBudget, perDatagram, 0, m);
  }

  // ---------------------------------------------------------------------------
  // How the selection is packed
  // ---------------------------------------------------------------------------

  lemma FirstFits(w: Window, perDatagram: nat)
    requires w != [] && EachFits(w, perDatagram)
    ensures FitCount(w, perDatagram) > 0
  {
    assert HEADER_LEN + EntryLen(w[0]) <= perDatagram;
  }

  /** Greedy packing by reference: each bucket is the longest prefix whose transcript fits. */
  ghost function Pack(w: Window, perDatagram: nat): seq<Window>
    requires EachFits(w, perDatagram)
    decreases |w|
  {
    if w == [] then []
    else
      FirstFits(w, perDatagram);
      var n := FitCount(w, perDatagram);
      [w[..n]] + Pack(w[n..], perDatagram)
  }

  /** The buckets `bucket_window` makes of a window. */
  ghost function BucketsOf(w: Window, totalBudget: nat, perDatagram: nat): seq<Window> {
    SelectedIsLongest(w, totalBudget, perDatagram, |Selected(w, totalBudget, perDatagram)|);
    Pack(Selected(w, totalBudget, perDatagram), perDatagram)
  }

  /** An entry that would overflow the current bucket closes it. */
  lemma PackCloses(current: Window, rest: Window, perDatagram: nat)
    requires EachFits(current + rest, perDatagram) && EachFits(rest, perDatagram)
    requires current != [] && EncodedLen(current) <= perDatagram
    requires rest == [] || EncodedLen(current) + EntryLen(rest[0]) > perDatagram
    ensures Pack(current + rest, perDatagram) == [current] + Pack(rest, perDatagram)
  {
    var w, n := current + rest, |current|;
    assert w[..n] == current && w[n..] == rest;
    FitCountIsLongest(w, perDatagram, n);
    if rest != [] {
      assert w[..n + 1][..n] == current;
      FitCountIsLongest(w, perDatagram, n + 1);
    }
  }

  /** Where the loop stands: `buckets` are closed, `current` is being filled, `rest` is still to come. */
  ghost predicate Packing(goal: seq<Window>, buckets: seq<Window>, current: Window, rest: Window, perDatagram: nat) {
    && EachFits(current + rest, perDatagram)
    && (current != [] ==> EncodedLen(current) <= perDatagram)
    && goal == buckets + Pack(current + rest, perDatagram)
  }

  lemma PackingCloses(goal: seq<Window>, buckets: seq<Window>, current: Window, rest: Window, perDatagram: nat)
    requires Packing(goal, buckets, current, rest, perDatagram) && current != []
    requires rest == [] || EncodedLen(current) + EntryLen(rest[0]) > perDatagram
    ensures Packing(goal, buckets + [current], [], rest, perDatagram)
  {
    FitsParts(current, rest, perDatagram);
    PackCloses(current, rest, perDatagram);
    assert [] + rest == rest;
  }

  lemma PackingPushes(goal: seq<Window>, buckets: seq<Window>, current: Window, rest: Window, perDatagram: nat)
    requires Packing(goal, buckets, current, rest, perDatagram) && rest != []
    requires EncodedLen(current) + EntryLen(rest[0]) <= perDatagram
    ensures Packing(goal, buckets, current + [rest[0]], rest[1..], perDatagram)
    ensures EncodedLen(current + [rest[0]]) == EncodedLen(current) + EntryLen(rest[0])
  {
    assert (current + [rest[0]]) + rest[1..] == current + rest;
    assert (current + [rest[0]])[..|current|] == current;
  }

  lemma PackingStarts(w: Window, totalBudget: nat, perDatagram: nat)
    ensures Packing(BucketsOf(w, totalBudget, perDatagram), [], [], Selected(w, totalBudget, perDatagram), perDatagram)
  {
    var rest := Selected(w, totalBudget, perDatagram);
    SelectedIsLongest(w, totalBudget, perDatagram, |rest|);
    assert [] + rest == rest;
  }

  lemma PackingEnds(goal: seq<Window>, buckets: seq<Window>, perDatagram: nat)
    requires Packing(goal, buckets, [], [], perDatagram)
    ensures goal == buckets
  {
    assert Pack([] + [], perDatagram) == [];
  }

  /** What is selected of window[i..] when `used` bytes of the total are gone. */
  ghost function Remaining(window: Window, totalBudget: nat, perDatagram: nat, i: nat, used: nat): Window
    requires i <= |window|
  {
    window[i..][..SelectFrom(window[i..], totalBudget, perDatagram, used)]
  }

  lemma RemainingStep(window: Window, totalBudget: nat, perDatagram: nat, i: nat, used: nat)
    requires i < |window|
    ensures Remaining(window, totalBudget, perDatagram, i, used)
         == if HEADER_LEN + EntryLen(window[i]) > perDatagram || used + EntryLen(window[i]) > totalBudget then []
            else [window[i]] + Remaining(window, totalBudget, perDatagram, i + 1, used + EntryLen(window[i]))
  {
    assert window[i..][1..] == window[i + 1..];
  }

  lemma RemainingEnds(window: Window, totalBudget: nat, perDatagram: nat, used: nat)
    ensures Remaining(window, totalBudget, perDatagram, |window|, used) == []
    ensures Remaining(window, totalBudget, perDatagram, 0, 0) == Selected(window, totalBudget, perDatagram)
  {
    assert window[0..] == window;
  }

  lemma EmptyLen()
    ensures EncodedLen([]) == HEADER_LEN
  {
  }

  method BucketWindow(window: Window, totalBudget: nat, perDatagram: nat) returns (buckets: seq<Window>)
    ensures buckets == BucketsOf(window, totalBudget, perDatagram)
  {
    hide EncodedLen, EntryLen, Packing, BucketsOf, Remaining, Selected;
    ghost var goal := BucketsOf(window, totalBudget, perDatagram);
    ghost var rest := Selected(window, totalBudget, perDatagram);
    PackingStarts(window, totalBudget, perDatagram);
    RemainingEnds(window, totalBudget, perDatagram, 0);
    EmptyLen();
    buckets := [];
    var current: Window := [];
    var currentLen: nat := HEADER_LEN;
    var totalLen: nat := 0;
    var i := 0;
    while i < |window|
      invariant 0 <= i <= |window|
      invariant rest == Remaining(window, totalBudget, perDatagram, i, totalLen)
      invariant currentLen == EncodedLen(current)
      invariant Packing(goal, buckets, current, rest, perDatagram)
    {
      var entry := window[i];
      RemainingStep(window, totalBudget, perDatagram, i, totalLen);
      var entryLen := EntryLen(entry);
      if HEADER_LEN + entryLen > perDatagram {
        break;
      }
      if totalLen + entryLen > totalBudget {
        break;
      }
      assert rest[0] == entry;
      if currentLen + entryLen > perDatagram {
        PackingCloses(goal, buckets, current, rest, perDatagram);
        buckets := buckets + [current];
        current := [];
        currentLen := HEADER_LEN;
      }
      PackingPushes(goal, buckets, current, rest, perDatagram);
      current := current + [entry];
      currentLen := currentLen + entryLen;
      totalLen := totalLen + entryLen;
      rest := rest[1..];
      i := i + 1;
    }
    RemainingEnds(window, totalBudget, perDatagram, totalLen);
    assert rest == [];
    if current != [] {
      PackingCloses(goal, buckets, current, rest, perDatagram);
      buckets := buckets + [current];
    }
    PackingEnds(goal, buckets, perDatagram);
  }

  function Flatten(buckets: seq<Window>): Window {
    if buckets == [] then [] else buckets[0] + Flatten(buckets[1..])
  }

  /** An order-preserving split of `w` into parts that each fit a datagram. */
  ghost predicate IsSplit(buckets: seq<Window>, w: Window, perDatagram: nat) {
    && Flatten(buckets) == w
    && forall b <- buckets :: EncodedLen(b) <= perDatagram
  }

  /** Packing loses, adds and reorders nothing, sends no empty bucket and overfills none. */
  lemma {:induction false} PackIsSplit(w: Window, perDatagram: nat)
    requires EachFits(w, perDatagram)
    ensures IsSplit(Pack(w, perDatagram), w, perDatagram)
    ensures forall b <- Pack(w, perDatagram) :: b != []
    decreases |w|
  {
    if w != [] {
      FirstFits(w, perDatagram);
      var n := FitCount(w, perDatagram);
      FitCountIsLongest(w, perDatagram, n);
      PackIsSplit(w[n..], perDatagram);
      assert w == w[..n] + w[n..];
    }
  }

  lemma SuffixFits(w: Window, k: nat, perDatagram: nat)
    requires k < FitCount(w, perDatagram)
    ensures FitCount(w, perDatagram) <= k + FitCount(w[k..], perDatagram)
  {
    var n := FitCount(w, perDatagram);
    FitCountIsLongest(w, perDatagram, n);
    assert w[..n] == w[..k] + w[k..][..n - k];
    BodyLenConcat(w[..k], w[k..][..n - k]);
    FitCountIsLongest(w[k..], perDatagram, n - k);
  }

  /** Dropping entries off the front never costs an extra bucket. */
  lemma {:induction false} PackSuffix(w: Window, k: nat, perDatagram: nat)
    requires EachFits(w, perDatagram) && k <= |w|
    ensures |Pack(w[k..], perDatagram)| <= |Pack(w, perDatagram)|
    decreases |w|
  {
    if 0 < k < |w| {
      FirstFits(w, perDatagram);
      var n := FitCount(w, perDatagram);
      var suffix := w[k..];
      if k >= n {
        assert w[n..][k - n..] == suffix;
        PackSuffix(w[n..], k - n, perDatagram);
      } else {
        FirstFits(suffix, perDatagram);
        var m := FitCount(suffix, perDatagram);
        SuffixFits(w, k, perDatagram);
        assert w[n..][k + m - n..] == suffix[m..];
        PackSuffix(w[n..], k + m - n, perDatagram);
      }
    }
  }

  /** Greedy packing is optimal: no split of the same entries has fewer parts. */
  lemma {:induction false} PackIsOptimal(w: Window, perDatagram: nat, split: seq<Window>)
    requires EachFits(w, perDatagram) && IsSplit(split, w, perDatagram)
    ensures |Pack(w, perDatagram)| <= |split|
    decreases |split|
  {
    hide EncodedLen, EntryLen, FitCount;
    if split != [] {
      var k := |split[0]|;
      assert w[..k] == split[0] && w[k..] == Flatten(split[1..]);
      FitsParts(w[..k], w[k..], perDatagram);
      assert w == w[..k] + w[k..];
      PackIsOptimal(w[k..], perDatagram, split[1..]);
      if w != [] {
        FirstFits(w, perDatagram);
        var n := FitCount(w, perDatagram);
        FitCountIsLongest(w, perDatagram, k);
        if k <= n {
          assert w[k..][n - k..] == w[n..];
          PackSuffix(w[k..], n - k, perDatagram);
        }
      }
    }
  }

  /** No bucket has room for the first entry of the next. */
  ghost predicate Full(buckets: seq<Window>, perDatagram: nat)
    decreases |buckets|
  {
    |buckets| > 1 ==>
      && buckets[1] != [] && EncodedLen(buckets[0] + [buckets[1][0]]) > perDatagram
      && Full(buckets[1..], perDatagram)
  }

  lemma FullParts(buckets: seq<Window>, perDatagram: nat)
    requires buckets != []
    ensures Full(buckets, perDatagram)
       <==> (&& Full(buckets[1..], perDatagram)
             && (|buckets| > 1 ==> buckets[1] != [] && EncodedLen(buckets[0] + [buckets[1][0]]) > perDatagram))
  {
    hide EncodedLen;
  }

  lemma PackParts(w: Window, perDatagram: nat)
    requires w != [] && EachFits(w, perDatagram)
    ensures var n := FitCount(w, perDatagram);
            && n > 0 && EachFits(w[n..], perDatagram)
            && Pack(w, perDatagram) == [w[..n]] + Pack(w[n..], perDatagram)
  {
    FirstFits(w, perDatagram);
  }

  /** A split into full parts that are not empty begins as packing does. */
  lemma FullFirst(buckets: seq<Window>, w: Window, perDatagram: nat)
    requires w != [] && IsSplit(buckets, w, perDatagram) && [] !in buckets && Full(buckets, perDatagram)
    ensures buckets != [] && buckets[0] == w[..FitCount(w, perDatagram)]
    ensures Flatten(buckets[1..]) == w[FitCount(w, perDatagram)..]
  {
    hide EncodedLen, FitCount, Full;
    FullParts(buckets, perDatagram);
    var k := |buckets[0]|;
    assert buckets[0] in buckets && buckets[0] == w[..k] && Flatten(buckets[1..]) == w[k..];
    FitCountIsLongest(w, perDatagram, k);
    if k < |w| {
      assert buckets[1] in buckets && w[k..][0] == buckets[1][0];
      assert w[..k + 1] == buckets[0] + [buckets[1][0]];
      FitCountIsLongest(w, perDatagram, k + 1);
    }
  }

  lemma {:induction false} NoMoreThanEntries(buckets: seq<Window>)
    requires [] !in buckets
    ensures |buckets| <= |Flatten(buckets)|
    decreases |buckets|
  {
    if buckets != [] {
      assert buckets[0] in buckets && forall b <- buckets[1..] :: b in buckets;
      NoMoreThanEntries(buckets[1..]);
    }
  }

  lemma {:induction false} FullIsPack(w: Window, perDatagram: nat, buckets: seq<Window>)
    requires EachFits(w, perDatagram)
    requires IsSplit(buckets, w, perDatagram) && [] !in buckets && Full(buckets, perDatagram)
    ensures buckets == Pack(w, perDatagram)
    decreases |w|
  {
    hide EncodedLen, FitCount, Full, EachFits;
    if w == [] {
      NoMoreThanEntries(buckets);
    } else {
      PackParts(w, perDatagram);
      FullFirst(buckets, w, perDatagram);
      FullParts(buckets, perDatagram);
      assert forall b <- buckets[1..] :: b in buckets;
      FullIsPack(w[FitCount(w, perDatagram)..], perDatagram, buckets[1..]);
    }
  }

  lemma {:induction false} PackIsFull(w: Window, perDatagram: nat)
    requires EachFits(w, perDatagram)
    ensures Full(Pack(w, perDatagram), perDatagram)
    decreases |w|
  {
    hide EncodedLen, FitCount, EachFits, Full;
    if w == [] {
      NoneFull(perDatagram);
    } else {
      PackParts(w, perDatagram);
      var n := FitCount(w, perDatagram);
      var (buckets, rest) := (Pack(w, perDatagram), Pack(w[n..], perDatagram));
      PackIsFull(w[n..], perDatagram);
      assert buckets[1..] == rest;
      if rest != [] {
        PackIsSplit(w[n..], perDatagram);
        assert rest[0] in rest && rest[0][0] == w[n..][0];
        assert w[..n + 1] == w[..n] + [rest[0][0]];
        FitCountIsLongest(w, perDatagram, n + 1);
      }
      FullParts(buckets, perDatagram);
    }
  }

  lemma NoneFull(perDatagram: nat)
    ensures Full([], perDatagram)
  {
  }

  /**
   Among all order-preserving splits into parts that are not empty and fit, packing is the one that fills
   each part before it begins the next.
   */
  lemma PackExactly(w: Window, perDatagram: nat, buckets: seq<Window>)
    requires EachFits(w, perDatagram)
    ensures buckets == Pack(w, perDatagram)
       <==> IsSplit(buckets, w, perDatagram) && [] !in buckets && Full(buckets, perDatagram)
  {
    hide Full, EachFits, Pack;
    PackIsSplit(w, perDatagram);
    PackIsFull(w, perDatagram);
    if IsSplit(buckets, w, perDatagram) && [] !in buckets && Full(buckets, perDatagram) {
      FullIsPack(w, perDatagram, buckets);
    }
  }

  /** Bytes on the wire: one marker byte and one transcript per bucket. */
  function WireBytes(buckets: seq<Window>): nat {
    if buckets == [] then 0 else 1 + EncodedLen(buckets[0]) + WireBytes(buckets[1..])
  }

  lemma {:induction false} WireBytesOf(buckets: seq<Window>)
    ensures WireBytes(buckets) == BodyLen(Flatten(buckets)) + 9 * |buckets|
    decreases |buckets|
  {
    if buckets != [] {
      WireBytesOf(buckets[1..]);
      BodyLenConcat(buckets[0], Flatten(buckets[1..]));
    }
  }

  /** The buckets of a window: the whole selection, optimally packed, at the least cost in wire bytes. */
  lemma BucketsAreOptimal(w: Window, totalBudget: nat, perDatagram: nat, split: seq<Window>)
    ensures var buckets := BucketsOf(w, totalBudget, perDatagram);
            var sent := Selected(w, totalBudget, perDatagram);
            && IsSplit(buckets, sent, perDatagram)
            && (forall b <- buckets :: b != [])
            && WireBytes(buckets) == BodyLen(sent) + 9 * |buckets|
            && (IsSplit(split, sent, perDatagram) ==>
                  |buckets| <= |split| && WireBytes(buckets) <= WireBytes(split))
  {
    var sent := Selected(w, totalBudget, perDatagram);
    SelectedIsLongest(w, totalBudget, perDatagram, |sent|);
    assert w[..|sent|] == sent;
    PackIsSplit(sent, perDatagram);
    WireBytesOf(BucketsOf(w, totalBudget, perDatagram));
    if IsSplit(split, sent, perDatagram) {
      PackIsOptimal(sent, perDatagram, split);
      WireBytesOf(split);
    }
  }

  /** And they are the one such split of the selection in which no bucket has room for the next one's first entry. */
  lemma BucketsExactly(w: Window, totalBudget: nat, perDatagram: nat, buckets: seq<Window>)
    ensures buckets == BucketsOf(w, totalBudget, perDatagram)
       <==> (&& IsSplit(buckets, Selected(w, totalBudget, perDatagram), perDatagram)
             && [] !in buckets && Full(buckets, perDatagram))
  {
    hide Full;
    var sent := Selected(w, totalBudget, perDatagram);
    SelectedIsLongest(w, totalBudget, perDatagram, |sent|);
    assert w[..|sent|] == sent;
    PackExactly(sent, perDatagram, buckets);
  }
}
