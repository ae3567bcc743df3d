/**
 The MLS group as both peers see it, and how a window of commits is applied to it.

 An MLS group is modelled by the sequence of commits applied so far; whether it takes
 one more commit is decided by an `Acceptor`, which stands for the MLS library.
 */
module Group {
  import opened Bytes

  datatype Entry = Entry(epoch: u64, commit: bytes)

  type Window = seq<Entry>

  type History = seq<bytes>

  type Acceptor = (History, bytes) -> bool

  /** Outcome of `apply_commit_window`: Ok(()), Err(ResyncNeeded) or Err(MlsError). */
  datatype Status = Applied | ResyncNeeded | MlsRejected

  datatype ApplyResult = ApplyResult(group: History, epoch: u64, status: Status)

  /** What the library makes of a request to commit: nothing, a commit it then cannot serialise, or a commit. */
  datatype Making = Fails | Lost(commit: bytes) | Makes(commit: bytes)

  /** The library's group object: it either takes a commit or is left as it was. */
  class MlsGroup {
    const accepts: Acceptor
    var applied: History

    constructor (accepts: Acceptor)
      ensures this.accepts == accepts && applied == []
    {
      this.accepts := accepts;
      applied := [];
    }

    method ApplyCommit(commit: bytes) returns (ok: bool)
      modifies this
      ensures ok == accepts(old(applied), commit)
      ensures applied == if ok then old(applied) + [commit] else old(applied)
    {
      ok := accepts(applied, commit);
      if ok {
        applied := applied + [commit];
      }
    }

    /** The pending commit is applied before it is serialised, so a commit can be applied and yet lost. */
    method CreateCommit(making: Making) returns (r: Option<bytes>)
      modifies this
      ensures r == if making.Makes? then Some(making.commit) else None
      ensures applied == old(applied) + if making.Fails? then [] else [making.commit]
    {
      if making.Fails? {
        return None;
      }
      applied := applied + [making.commit];
      r := if making.Makes? then Some(making.commit) else None;
    }
  }

  /** Specification of `apply_commit_window`, entry by entry. */
  function ApplyWindow(accepts: Acceptor, group: History, window: Window, local: u64): ApplyResult
    decreases |window|
  {
    if window == [] then ApplyResult(group, local, Applied)
    else
      var e := window[0];
      if e.epoch <= local then
        ApplyWindow(accepts, group, window[1..], local)
      else if e.epoch == local + 1 then
        if accepts(group, e.commit) then
          ApplyWindow(accepts, group + [e.commit], window[1..], local + 1)
        else
          ApplyResult(group, local, MlsRejected)
      else
        ApplyResult(group, local, ResyncNeeded)
  }

  method ApplyCommitWindow(group: MlsGroup, window: Window, localEpoch: u64)
    returns (status: Status, newEpoch: u64)
    modifies group
    ensures ApplyResult(group.applied, newEpoch, status)
         == ApplyWindow(group.accepts, old(group.applied), window, localEpoch)
  {
    newEpoch := localEpoch;
    for i := 0 to |window|
      invariant ApplyWindow(group.accepts, old(group.applied), window, localEpoch)
             == ApplyWindow(group.accepts, group.applied, window[i..], newEpoch)
    {
      var entry := window[i];
      assert window[i..][1..] == window[i + 1..];
      if entry.epoch <= newEpoch {
        continue;
      }
      var next: u64 := newEpoch + 1;  // cannot overflow, since the entry's epoch lies above newEpoch
      if entry.epoch == next {
        var ok := group.ApplyCommit(entry.commit);
        if !ok {
          return MlsRejected, newEpoch;
        }
        newEpoch := next;
      } else {
        return ResyncNeeded, newEpoch;
      }
    }
    status := Applied;
  }

  // ---------------------------------------------------------------------------
  // What applying a window means, for windows with any labels at all
  // ---------------------------------------------------------------------------

  /** Position of the first entry labelled above `epoch`; |window| when there is none. */
  function FirstAbove(window: Window, epoch: int): (p: nat)
    ensures p <= |window|
    ensures forall i :: 0 <= i < p ==> window[i].epoch <= epoch
    ensures p < |window| ==> window[p].epoch > epoch
  {
    if window == [] || window[0].epoch > epoch then 0 else 1 + FirstAbove(window[1..], epoch)
  }

  /** The commit that leaves epoch e behind is the first entry above e; it is labelled e+1 and was accepted. */
  ghost predicate AddsInOrder(accepts: Acceptor, group: History, window: Window, local: u64, r: ApplyResult)
    requires local <= r.epoch && |r.group| == |group| + (r.epoch - local)
  {
    forall e :: local <= e < r.epoch ==>
      var p := FirstAbove(window, e);
      && p < |window|
      && window[p].epoch == e + 1
      && window[p].commit == r.group[|group| + e - local]
      && accepts(r.group[..|group| + e - local], window[p].commit)
  }

  /** `r` stops at the first entry above r.epoch, for the reason its status names. */
  ghost predicate StopsRightly(accepts: Acceptor, window: Window, r: ApplyResult) {
    var q := FirstAbove(window, r.epoch);
    if q == |window| then r.status == Applied
    else if window[q].epoch == r.epoch + 1 then
      r.status == MlsRejected && !accepts(r.group, window[q].commit)
    else r.status == ResyncNeeded
  }

  /** A reading of the outcome that mentions no execution order. */
  ghost predicate Explains(accepts: Acceptor, group: History, window: Window, local: u64, r: ApplyResult) {
    && local <= r.epoch
    && |r.group| == |group| + (r.epoch - local)
    && group <= r.group
    && AddsInOrder(accepts, group, window, local, r)
    && StopsRightly(accepts, window, r)
  }

  lemma SkippedExplained(accepts: Acceptor, group: History, window: Window, local: u64, r: ApplyResult)
    requires window != [] && window[0].epoch <= local
    requires Explains(accepts, group, window[1..], local, r)
    ensures Explains(accepts, group, window, local, r)
  {
    forall e | e >= local
      ensures FirstAbove(window, e) == 1 + FirstAbove(window[1..], e)
    {
    }
  }

  lemma TakenExplained(accepts: Acceptor, group: History, window: Window, local: u64, r: ApplyResult)
    requires window != [] && window[0].epoch == local + 1 && accepts(group, window[0].commit)
    requires Explains(accepts, group + [window[0].commit], window[1..], local + 1, r)
    ensures Explains(accepts, group, window, local, r)
  {
    var c, tail := window[0].commit, window[1..];
    forall e | e > local
      ensures FirstAbove(window, e) == 1 + FirstAbove(tail, e)
    {
    }
    assert |r.group| == |group| + (r.epoch - local);
    assert r.group[..|group|] == group && r.group[|group|] == c;
    forall e | local <= e < r.epoch
      ensures var p := FirstAbove(window, e);
              && p < |window| && window[p].epoch == e + 1
              && window[p].commit == r.group[|group| + e - local]
              && accepts(r.group[..|group| + e - local], window[p].commit)
    {
      if e > local {
        assert FirstAbove(tail, e) < |tail|;
      }
    }
  }

  lemma {:induction false} ApplyExplained(accepts: Acceptor, group: History, window: Window, local: u64)
    ensures Explains(accepts, group, window, local, ApplyWindow(accepts, group, window, local))
    decreases |window|
  {
    var r := ApplyWindow(accepts, group, window, local);
    if window != [] {
      var first, tail := window[0], window[1..];
      if first.epoch <= local {
        ApplyExplained(accepts, group, tail, local);
        SkippedExplained(accepts, group, window, local, r);
      } else if first.epoch == local + 1 && accepts(group, first.commit) {
        ApplyExplained(accepts, group + [first.commit], tail, local + 1);
        TakenExplained(accepts, group, window, local, r);
      }
    }
  }

  lemma ExplanationsAgree(accepts: Acceptor, group: History, window: Window, local: u64, r: ApplyResult, s: ApplyResult)
    requires Explains(accepts, group, window, local, r)
    requires Explains(accepts, group, window, local, s)
    requires r.epoch <= s.epoch
    ensures r == s
  {
    var n := |r.group|;
    assert r.group == s.group[..n] by {
      forall i | 0 <= i < n
        ensures r.group[i] == s.group[i]
      {
        if i >= |group| {
          var e := local + i - |group|;
          assert window[FirstAbove(window, e)].commit == r.group[i];
        }
      }
    }
    if r.epoch < s.epoch {
      var q := FirstAbove(window, r.epoch);
      assert false;
    }
  }

  /**
   For windows with any labels (unsorted, repeated, hostile), the outcome of
   `apply_commit_window` is the one and only reading of `Explains`: the commits applied are
   exactly those labelled old+1..new, once each and in order, on every exit path.
   */
  lemma ApplyExactly(accepts: Acceptor, group: History, window: Window, local: u64, r: ApplyResult)
    ensures Explains(accepts, group, window, local, r) <==> r == ApplyWindow(accepts, group, window, local)
  {
    ApplyExplained(accepts, group, window, local);
    var s := ApplyWindow(accepts, group, window, local);
    if Explains(accepts, group, window, local, r) {
      if r.epoch <= s.epoch {
        ExplanationsAgree(accepts, group, window, local, r, s);
      } else {
        ExplanationsAgree(accepts, group, window, local, s, r);
      }
    }
  }

  // ---------------------------------------------------------------------------
  // Windows cut from one sender's history
  // ---------------------------------------------------------------------------

  /** Epochs a+1..c of a history, each with its commit. */
  function Slice(history: History, a: nat, c: nat): (w: Window)
    requires a <= c <= |history| < U64_LIMIT
  {
    seq(c - a, i requires 0 <= i < c - a => Entry(a + 1 + i, history[a + i]))
  }

  /** Every entry carries the commit its label names in `history`. */
  ghost predicate Genuine(history: History, window: Window) {
    forall i :: 0 <= i < |window| ==>
      1 <= window[i].epoch <= |history| && window[i].commit == history[window[i].epoch - 1]
  }

  /** Labels never fall, and a repeated label repeats the whole entry. */
  ghost predicate Ordered(window: Window) {
    forall i, j :: 0 <= i < j < |window| ==> window[i].epoch < window[j].epoch || window[i] == window[j]
  }

  /** The library takes each commit of `history` in its turn. */
  ghost predicate Honest(accepts: Acceptor, history: History) {
    forall k :: 0 <= k < |history| ==> accepts(history[..k], history[k])
  }

  /**
   Genuine entries, in whatever order and for whatever the library does, only move a
   receiver along the sender's history, and only by commits the window carried.
   */
  lemma {:induction false} GenuineKeepsPrefix(accepts: Acceptor, history: History, window: Window, local: u64)
    requires Genuine(history, window) && local <= |history|
    ensures var r := ApplyWindow(accepts, history[..local], window, local);
            && local <= r.epoch <= |history|
            && r.group == history[..r.epoch]
            && forall k :: local <= k < r.epoch ==> Entry(k + 1, history[k]) in window
    decreases |window|
  {
    if window != [] {
      var e := window[0];
      if e.epoch <= local {
        GenuineKeepsPrefix(accepts, history, window[1..], local);
      } else if e.epoch == local + 1 && accepts(history[..local], e.commit) {
        assert history[..local] + [e.commit] == history[..local + 1];
        GenuineKeepsPrefix(accepts, history, window[1..], local + 1);
      }
    }
  }

  /** At each point of `history` the library takes the commit made there and no other, and at its end none. */
  ghost predicate Authentic(accepts: Acceptor, history: History) {
    forall k, c {:trigger accepts(history[..k], c)} :: 0 <= k <= |history| && accepts(history[..k], c) ==>
      k < |history| && c == history[k]
  }

  /** This window leaves a receiver at `local` on the history, no further back. */
  ghost predicate KeepsPrefix(accepts: Acceptor, history: History, window: Window, local: u64)
    requires local <= |history|
  {
    var r := ApplyWindow(accepts, history[..local], window, local);
    local <= r.epoch <= |history| && r.group == history[..r.epoch]
  }

  lemma {:induction false} AuthenticKeepsPrefix(accepts: Acceptor, history: History, window: Window, local: u64)
    requires Authentic(accepts, history) && local <= |history|
    ensures KeepsPrefix(accepts, history, window, local)
    decreases |window|
  {
    if window != [] {
      var e := window[0];
      if e.epoch <= local {
        AuthenticKeepsPrefix(accepts, history, window[1..], local);
      } else if e.epoch == local + 1 && accepts(history[..local], e.commit) {
        assert history[..local] + [e.commit] == history[..local + 1];
        AuthenticKeepsPrefix(accepts, history, window[1..], local + 1);
      }
    }
  }

  lemma OneEntryTells(accepts: Acceptor, history: History, k: nat, c: bytes)
    requires k <= |history| && k + 1 < U64_LIMIT && accepts(history[..k], c)
    requires KeepsPrefix(accepts, history, [Entry(k + 1, c)], k)
    ensures k < |history| && c == history[k]
  {
    var group := history[..k] + [c];
    ApplyParts(accepts, history[..k], [Entry(k + 1, c)], k);
    ApplyParts(accepts, group, [Entry(k + 1, c)][1..], k + 1);
    assert group == history[..k + 1];
    assert group[k] == c;
  }

  /**
   Entries of any origin, genuine or not, only move a receiver along the history if and only if the
   library is such.
   */
  lemma PrefixKeptExactly(accepts: Acceptor, history: History)
    requires |history| + 1 < U64_LIMIT
    ensures (forall window, local: u64 :: local <= |history| ==> KeepsPrefix(accepts, history, window, local))
       <==> Authentic(accepts, history)
  {
    if Authentic(accepts, history) {
      forall window, local: u64 | local <= |history|
        ensures KeepsPrefix(accepts, history, window, local)
      {
        AuthenticKeepsPrefix(accepts, history, window, local);
      }
    }
    if forall window, local: u64 :: local <= |history| ==> KeepsPrefix(accepts, history, window, local) {
      forall k, c | 0 <= k <= |history| && accepts(history[..k], c)
        ensures k < |history| && c == history[k]
      {
        assert KeepsPrefix(accepts, history, [Entry(k + 1, c)], k);
        OneEntryTells(accepts, history, k, c);
      }
    }
  }

  /** Closed form of one delivery of epochs a+1..c to a receiver at `local`. */
  function Advance(local: nat, a: nat, c: nat): (r: nat) {
    if a <= local && local < c then c else local
  }

  lemma SliceParts(history: History, a: nat, c: nat)
    requires a <= c <= |history| < U64_LIMIT
    ensures a == c ==> Slice(history, a, c) == []
    ensures a < c ==> Slice(history, a, c) == [Entry(a + 1, history[a])] + Slice(history, a + 1, c)
  {
  }

  /** One turn of the loop. */
  lemma ApplyParts(accepts: Acceptor, group: History, window: Window, local: u64)
    ensures window == [] ==> ApplyWindow(accepts, group, window, local) == ApplyResult(group, local, Applied)
    ensures window != [] ==>
      var (epoch, commit, rest) := (window[0].epoch, window[0].commit, window[1..]);
      && (epoch <= local ==> ApplyWindow(accepts, group, window, local) == ApplyWindow(accepts, group, rest, local))
      && (epoch == local + 1 && accepts(group, commit) ==>
            ApplyWindow(accepts, group, window, local) == ApplyWindow(accepts, group + [commit], rest, local + 1))
      && (epoch > local + 1 ==> ApplyWindow(accepts, group, window, local) == ApplyResult(group, local, ResyncNeeded))
  {
  }

  /**
   With no MLS error, delivering epochs a+1..c moves the receiver to max(local, c) when
   nothing is missing in between, and otherwise leaves it alone and asks for a resync.
   */
  lemma {:induction false} SliceDelivery(accepts: Acceptor, history: History, a: nat, c: nat, local: u64)
    requires a <= c <= |history| < U64_LIMIT && local <= |history|
    requires Honest(accepts, history)
    ensures ApplyWindow(accepts, history[..local], Slice(history, a, c), local)
         == ApplyResult(history[..Advance(local, a, c)], Advance(local, a, c),
                        if a < c && local < a then ResyncNeeded else Applied)
    decreases c - a
  {
    hide Slice, ApplyWindow;
    SliceParts(history, a, c);
    ApplyParts(accepts, history[..local], Slice(history, a, c), local);
    if a < c {
      if a + 1 <= local {
        SliceDelivery(accepts, history, a + 1, c, local);
      } else if a == local {
        assert accepts(history[..local], history[local]);
        assert history[..local] + [history[local]] == history[..local + 1];
        SliceDelivery(accepts, history, a + 1, c, local + 1);
      }
    }
  }

  /** A delivered slice: epochs a+1..c. */
  datatype Span = Span(a: nat, c: nat)

  function DeliverSpans(local: nat, spans: seq<Span>): (r: nat)
    ensures local <= r
    decreases |spans|
  {
    if spans == [] then local
    else DeliverSpans(Advance(local, spans[0].a, spans[0].c), spans[1..])
  }

  lemma {:induction false} DeliverSpansMonotone(low: nat, high: nat, spans: seq<Span>)
    requires low <= high
    ensures DeliverSpans(low, spans) <= DeliverSpans(high, spans)
    decreases |spans|
  {
    if spans != [] {
      DeliverSpansMonotone(Advance(low, spans[0].a, spans[0].c), Advance(high, spans[0].a, spans[0].c), spans[1..]);
    }
  }

  lemma {:induction false} DeliverSpansConcat(local: nat, before: seq<Span>, after: seq<Span>)
    ensures DeliverSpans(local, before + after) == DeliverSpans(DeliverSpans(local, before), after)
    decreases |before|
  {
    if before == [] {
      assert before + after == after;
    } else {
      assert (before + after)[1..] == before[1..] + after;
      DeliverSpansConcat(Advance(local, before[0].a, before[0].c), before[1..], after);
    }
  }

  /** Where a receiver stands: its group and its epoch counter. */
  datatype Position = Position(group: History, epoch: u64)

  /** The sink's effect over several windows: outcomes are logged, never fatal. */
  function DeliverAll(accepts: Acceptor, at: Position, windows: seq<Window>): Position
    decreases |windows|
  {
    if windows == [] then at
    else
      var r := ApplyWindow(accepts, at.group, windows[0], at.epoch);
      DeliverAll(accepts, Position(r.group, r.epoch), windows[1..])
  }

  ghost predicate SpansOf(history: History, spans: seq<Span>) {
    forall s <- spans :: s.a <= s.c <= |history|
  }

  function Slices(history: History, spans: seq<Span>): (ws: seq<Window>)
    requires |history| < U64_LIMIT && SpansOf(history, spans)
    ensures |ws| == |spans|
  {
    seq(|spans|, i requires 0 <= i < |spans| => Slice(history, spans[i].a, spans[i].c))
  }

  /** Any sequence of deliveries of any slices has the effect `DeliverSpans` computes on epochs alone. */
  lemma {:induction false} DeliveriesClosedForm(accepts: Acceptor, history: History, spans: seq<Span>, local: u64)
    requires |history| < U64_LIMIT && SpansOf(history, spans) && local <= |history|
    requires Honest(accepts, history)
    ensures DeliverSpans(local, spans) <= |history|
    ensures DeliverAll(accepts, Position(history[..local], local), Slices(history, spans))
         == Position(history[..DeliverSpans(local, spans)], DeliverSpans(local, spans))
    decreases |spans|
  {
    if spans != [] {
      var s := spans[0];
      assert s in spans;
      SliceDelivery(accepts, history, s.a, s.c, local);
      assert Slices(history, spans)[1..] == Slices(history, spans[1..]);
      DeliveriesClosedForm(accepts, history, spans[1..], Advance(local, s.a, s.c));
    }
  }

  /** A stale, duplicate or unusable slice inserted anywhere never costs the receiver an epoch. */
  lemma ExtraDeliveryNeverHurts(local: nat, before: seq<Span>, extra: seq<Span>, after: seq<Span>)
    ensures DeliverSpans(local, before + after) <= DeliverSpans(local, before + extra + after)
  {
    DeliverSpansConcat(local, before, after);
    DeliverSpansConcat(local, before + extra, after);
    DeliverSpansConcat(local, before, extra);
    DeliverSpansMonotone(DeliverSpans(local, before), DeliverSpans(DeliverSpans(local, before), extra), after);
  }

  /** A slice that was accepted once is a no-op whenever it is delivered again. */
  lemma RedeliveryIsNoOp(local: nat, span: Span, between: seq<Span>)
    requires span.a <= local
    ensures DeliverSpans(local, [span] + between + [span]) == DeliverSpans(local, [span] + between)
  {
    DeliverSpansConcat(local, [span] + between, [span]);
    DeliverSpansConcat(local, [span], between);
    var now := DeliverSpans(local, [span] + between);
    assert DeliverSpans(local, [span]) == Advance(local, span.a, span.c) by {
      assert [span][1..] == [];
    }
    assert DeliverSpans(now, [span]) == now by {
      assert [span][1..] == [];
    }
  }
}
