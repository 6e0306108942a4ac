/** The windowed request limiter of the sponsored-registration relay.

    A bucket maps a key to its current window. Buckets above the capacity are
    pruned of expired windows first, and a bucket still above it refuses all. */
module RateLimiter {
  import opened Basics

  const CAPACITY := 4096

  datatype Entry = Entry(count: nat, until: int)
  type Bucket = map<string, Entry>

  /** Accepted, or refused for the key (429), or refused for want of capacity (503). */
  datatype Verdict = Accepted | TooMany | Exhausted

  ghost function Live(bucket: Bucket, now: int): Bucket {
    map key | key in bucket && bucket[key].until > now :: bucket[key]
  }

  /** The window counter of one key, never pruned. */
  function Count(bucket: Bucket, key: string, maximum: nat, window: nat, now: int): (Bucket, Verdict) {
    if key !in bucket || bucket[key].until <= now then (bucket[key := Entry(1, now + window)], Accepted)
    else if bucket[key].count >= maximum then (bucket, TooMany)
    else (bucket[key := Entry(bucket[key].count + 1, bucket[key].until)], Accepted)
  }

  ghost function Consumed(bucket: Bucket, key: string, maximum: nat, window: nat, now: int): (Bucket, Verdict) {
    if |bucket| <= CAPACITY then Count(bucket, key, maximum, window, now)
    else if |Live(bucket, now)| > CAPACITY then (Live(bucket, now), Exhausted)
    else Count(Live(bucket, now), key, maximum, window, now)
  }

  class Limiter {
    var bucket: Bucket

    constructor ()
      ensures bucket == map[]
    {
      bucket := map[];
    }

    method Prune(now: int)
      modifies this
      ensures bucket == Live(old(bucket), now)
      ensures forall key :: key in bucket <==> key in old(bucket) && old(bucket)[key].until > now
      ensures forall key :: key in bucket ==> bucket[key] == old(bucket)[key]
    {
      var candidates := bucket.Keys;
      while candidates != {}
        invariant candidates <= bucket.Keys <= old(bucket).Keys
        invariant forall key :: key in bucket ==> bucket[key] == old(bucket)[key]
        invariant forall key :: key in old(bucket) && old(bucket)[key].until > now ==> key in bucket
        invariant forall key :: key in bucket && key !in candidates ==> bucket[key].until > now
        decreases candidates
      {
        var candidate :| candidate in candidates;
        candidates := candidates - {candidate};
        if bucket[candidate].until <= now {
          bucket := bucket - {candidate};
        }
      }
    }

    method Consume(key: string, maximum: nat, window: nat, now: int) returns (verdict: Verdict)
      modifies this
      ensures (bucket, verdict) == Consumed(old(bucket), key, maximum, window, now)
    {
      if |bucket| > CAPACITY {
        Prune(now);
        if |bucket| > CAPACITY {
          return Exhausted;
        }
      }
      if key !in bucket || bucket[key].until <= now {
        bucket := bucket[key := Entry(1, now + window)];
        return Accepted;
      }
      if bucket[key].count >= maximum {
        return TooMany;
      }
      bucket := bucket[key := Entry(bucket[key].count + 1, bucket[key].until)];
      return Accepted;
    }
  }

  // ------------------------------------------------------------ capacity

  lemma LiveIsSmaller(bucket: Bucket, now: int)
    ensures |Live(bucket, now)| <= |bucket|
  {
    assert Live(bucket, now).Keys <= bucket.Keys;
    SubsetSize(Live(bucket, now).Keys, bucket.Keys);
  }

  /** 503 is answered exactly when more than the capacity of windows are live,
      and it changes no live window. */
  lemma ExhaustedMeansFull(bucket: Bucket, key: string, maximum: nat, window: nat, now: int)
    ensures var (after, verdict) := Consumed(bucket, key, maximum, window, now);
            && (verdict == Exhausted <==> |Live(bucket, now)| > CAPACITY)
            && (verdict == Exhausted ==> after == Live(bucket, now) && Live(after, now) == Live(bucket, now))
  {
    LiveIsSmaller(bucket, now);
  }

  /** One call, spelled out on the entries: when it is refused and with what,
      what the caller's own entry becomes, and which others survive. */
  lemma ConsumeIs(bucket: Bucket, key: string, maximum: nat, window: nat, now: int)
    ensures var (after, verdict) := Consumed(bucket, key, maximum, window, now);
            var open := key in bucket && bucket[key].until > now;
            && (verdict == Exhausted <==> |set k | k in bucket && bucket[k].until > now| > 4096)
            && (verdict == TooMany <==> verdict != Exhausted && open && bucket[key].count >= maximum)
            && (verdict == TooMany ==> key in after && after[key] == bucket[key])
            && (verdict == Accepted && open ==>
                  key in after && after[key] == Entry(bucket[key].count + 1, bucket[key].until))
            && (verdict == Accepted && !open ==> key in after && after[key] == Entry(1, now + window))
            && forall other :: other != key || verdict == Exhausted ==>
                 && (other in after <==> other in bucket && (|bucket| <= 4096 || bucket[other].until > now))
                 && (other in after ==> after[other] == bucket[other])
  {
    LiveIsSmaller(bucket, now);
    assert Live(bucket, now).Keys == set k | k in bucket && bucket[k].until > now;
    assert |Live(bucket, now)| == |Live(bucket, now).Keys|;
  }

  // ------------------------------------------------- the unpruned counter

  datatype Call = Call(key: string, now: int)

  ghost predicate Ordered(calls: seq<Call>) {
    forall i, j :: 0 <= i < j < |calls| ==> calls[i].now <= calls[j].now
  }

  /** The bucket after the first n calls. */
  ghost function After(calls: seq<Call>, maximum: nat, window: nat, n: nat): Bucket
    requires n <= |calls|
  {
    if n == 0 then map[]
    else Consumed(After(calls, maximum, window, n - 1), calls[n - 1].key, maximum, window, calls[n - 1].now).0
  }

  ghost function Answer(calls: seq<Call>, maximum: nat, window: nat, n: nat): Verdict
    requires n < |calls|
  {
    Consumed(After(calls, maximum, window, n), calls[n].key, maximum, window, calls[n].now).1
  }

  /** The counter that never deletes, fed every call that is not answered 503. */
  ghost function Unpruned(calls: seq<Call>, maximum: nat, window: nat, n: nat): Bucket
    requires n <= |calls|
  {
    if n == 0 then map[]
    else
      var before := Unpruned(calls, maximum, window, n - 1);
      if Answer(calls, maximum, window, n - 1) == Exhausted then before
      else Count(before, calls[n - 1].key, maximum, window, calls[n - 1].now).0
  }

  /** The pruned bucket holds every live window of the full one, and nothing else. */
  ghost predicate Agrees(pruned: Bucket, full: Bucket, now: int) {
    && (forall key :: key in pruned ==> key in full && full[key] == pruned[key])
    && (forall key :: key in full && full[key].until > now ==> key in pruned)
  }

  lemma StepAgrees(pruned: Bucket, full: Bucket, before: int, key: string, maximum: nat, window: nat, now: int)
    requires before <= now && Agrees(pruned, full, before)
    ensures var (after, verdict) := Consumed(pruned, key, maximum, window, now);
            if verdict == Exhausted then Agrees(after, full, now)
            else verdict == Count(full, key, maximum, window, now).1
                 && Agrees(after, Count(full, key, maximum, window, now).0, now)
  {
    assert Agrees(Live(pruned, now), full, now);
  }

  /** Every entry counts between one and the maximum. */
  ghost predicate Bounded(bucket: Bucket, maximum: nat) {
    forall key :: key in bucket ==> 1 <= bucket[key].count <= maximum
  }

  lemma StepBounded(bucket: Bucket, key: string, maximum: nat, window: nat, now: int)
    requires maximum > 0 && |bucket| <= CAPACITY + 1 && Bounded(bucket, maximum)
    ensures var after := Consumed(bucket, key, maximum, window, now).0;
            |after| <= CAPACITY + 1 && Bounded(after, maximum)
  {
    LiveIsSmaller(bucket, now);
    if |bucket| <= CAPACITY {
      CountBounded(bucket, key, maximum, window, now);
    } else if |Live(bucket, now)| <= CAPACITY {
      CountBounded(Live(bucket, now), key, maximum, window, now);
    }
  }

  lemma CountBounded(bucket: Bucket, key: string, maximum: nat, window: nat, now: int)
    requires maximum > 0 && |bucket| <= CAPACITY && Bounded(bucket, maximum)
    ensures var after := Count(bucket, key, maximum, window, now).0;
            |after| <= CAPACITY + 1 && Bounded(after, maximum)
  {
    var after := Count(bucket, key, maximum, window, now).0;
    assert after.Keys <= bucket.Keys + {key};
    SubsetSize(after.Keys, bucket.Keys + {key});
  }

  ghost predicate Refined(calls: seq<Call>, maximum: nat, window: nat, n: nat)
    requires n <= |calls|
  {
    && |After(calls, maximum, window, n)| <= CAPACITY + 1
    && Bounded(After(calls, maximum, window, n), maximum)
    && (n == 0 ==> After(calls, maximum, window, n) == Unpruned(calls, maximum, window, n) == map[])
    && (n > 0 ==> Agrees(After(calls, maximum, window, n), Unpruned(calls, maximum, window, n), calls[n - 1].now))
  }

  /** The pruning limiter answers 503, or what the unpruned counter answers. */
  ghost predicate SameAnswer(calls: seq<Call>, maximum: nat, window: nat, n: nat)
    requires n < |calls|
  {
    Answer(calls, maximum, window, n) == Exhausted ||
    Answer(calls, maximum, window, n) ==
    Count(Unpruned(calls, maximum, window, n), calls[n].key, maximum, window, calls[n].now).1
  }

  lemma CallRefined(calls: seq<Call>, maximum: nat, window: nat, n: nat)
    requires Ordered(calls) && n < |calls| && maximum > 0
    requires Refined(calls, maximum, window, n)
    ensures Refined(calls, maximum, window, n + 1)
    ensures SameAnswer(calls, maximum, window, n)
  {
    hide Consumed, Count;
    var now := if n == 0 then calls[n].now else calls[n - 1].now;
    var bucket := After(calls, maximum, window, n);
    StepAgrees(bucket, Unpruned(calls, maximum, window, n), now, calls[n].key, maximum, window, calls[n].now);
    StepBounded(bucket, calls[n].key, maximum, window, calls[n].now);
  }

  lemma NoCallsRefined(calls: seq<Call>, maximum: nat, window: nat)
    ensures Refined(calls, maximum, window, 0)
  {
  }

  /** The pruning limiter refines the one that never deletes: with a clock that
      does not run backwards it answers exactly as that one whenever it does
      not answer 503, every count stays within the maximum, and the bucket
      never exceeds 4097 windows. */
  lemma {:induction false} PruningIsInvisible(calls: seq<Call>, maximum: nat, window: nat, n: nat)
    requires Ordered(calls) && n <= |calls| && maximum > 0
    ensures forall i :: 0 <= i < n ==> SameAnswer(calls, maximum, window, i)
    ensures Refined(calls, maximum, window, n) && |After(calls, maximum, window, n)| <= 4097
  {
    assert Refined(calls, maximum, window, n) ==> |After(calls, maximum, window, n)| <= 4097;
    if n == 0 {
      NoCallsRefined(calls, maximum, window);
    } else {
      hide *;
      PruningIsInvisible(calls, maximum, window, n - 1);
      CallRefined(calls, maximum, window, n - 1);
    }
  }

  // -------------------------------------------------- what a limit bounds

  /** How many of the times lie in the closed span [from, to]. */
  ghost function Within(times: seq<int>, from: int, to: int): nat {
    if times == [] then 0
    else
      var n := |times| - 1;
      Within(times[..n], from, to) + if from <= times[n] <= to then 1 else 0
  }

  lemma {:induction false} WithinWider(times: seq<int>, a: int, b: int, c: int, d: int)
    requires c <= a && b <= d
    ensures Within(times, a, b) <= Within(times, c, d)
  {
    if times != [] {
      WithinWider(times[..|times| - 1], a, b, c, d);
    }
  }

  lemma {:induction false} WithinSplit(times: seq<int>, a: int, b: int, c: int)
    requires a <= b <= c + 1
    ensures Within(times, a, c) == Within(times, a, b - 1) + Within(times, b, c)
  {
    if times != [] {
      WithinSplit(times[..|times| - 1], a, b, c);
    }
  }

  lemma {:induction false} WithinCapped(times: seq<int>, a: int, b: int, last: int)
    requires last <= b && forall i :: 0 <= i < |times| ==> times[i] <= last
    ensures Within(times, a, b) == Within(times, a, last)
  {
    if times != [] {
      WithinCapped(times[..|times| - 1], a, b, last);
    }
  }

  lemma {:induction false} WithinNone(times: seq<int>, a: int, b: int)
    requires forall i :: 0 <= i < |times| ==> times[i] < a
    ensures Within(times, a, b) == 0
  {
    if times != [] {
      WithinNone(times[..|times| - 1], a, b);
    }
  }

  lemma WithinSnoc(times: seq<int>, now: int, a: int, b: int)
    ensures Within(times + [now], a, b) == Within(times, a, b) + if a <= now <= b then 1 else 0
  {
    assert (times + [now])[..|times|] == times;
  }

  /** Acceptances in the half-open span of the window's length that starts at `from`. */
  ghost function HalfOpen(times: seq<int>, from: int, window: nat): nat {
    Within(times, from, from + window - 1)
  }

  /** And in the closed one, one instant longer. */
  ghost function Closed(times: seq<int>, from: int, window: nat): nat {
    Within(times, from, from + window)
  }

  /** In no span of the window's length were more accepted than this. */
  ghost predicate SpansBounded(times: seq<int>, maximum: nat, window: nat)
    requires window > 0
  {
    && (forall from: int :: HalfOpen(times, from, window) < 2 * maximum)
    && (forall from: int :: Closed(times, from, window) <= 2 * maximum)
    && (forall at: int :: Within(times, at, at) <= maximum)
  }

  /** The accepted times of one key, and the window the counter holds for it:
      since it opened it counted every acceptance, and fewer than a full window's
      worth fell into the span before it opened. */
  ghost predicate Explains(times: seq<int>, entry: Entry, maximum: nat, window: nat, now: int) {
    var start := entry.until - window;
    && 1 <= entry.count <= maximum
    && start <= now
    && (forall i :: 0 <= i < |times| ==> times[i] <= now && times[i] < entry.until)
    && Within(times, start, now) == entry.count
    && Within(times, start + 1, now) < entry.count
    && Within(times, start - window + 1, start - 1) < maximum
    && Within(times, start - window, start - 1) <= maximum
  }

  ghost predicate WindowInvariant(times: seq<int>, bucket: Bucket, key: string, maximum: nat, window: nat, now: int)
    requires window > 0
  {
    && (key !in bucket ==> times == [])
    && (key in bucket ==> Explains(times, bucket[key], maximum, window, now))
    && SpansBounded(times, maximum, window)
  }

  lemma TimePasses(times: seq<int>, entry: Entry, maximum: nat, window: nat, before: int, now: int)
    requires Explains(times, entry, maximum, window, before) && before <= now
    ensures Explains(times, entry, maximum, window, now)
  {
    WithinCapped(times, entry.until - window, now, before);
    WithinCapped(times, entry.until - window + 1, now, before);
  }

  /** One more in the window that is open. */
  lemma SameWindow(times: seq<int>, entry: Entry, maximum: nat, window: nat, now: int)
    requires Explains(times, entry, maximum, window, now)
    requires now < entry.until && entry.count < maximum
    ensures Explains(times + [now], Entry(entry.count + 1, entry.until), maximum, window, now)
    ensures forall from: int :: now - window < from ==> Within(times + [now], from, now) < 2 * maximum
    ensures forall from: int :: now - window <= from ==> Within(times + [now], from, now) <= 2 * maximum
    ensures Within(times + [now], now, now) <= maximum
  {
    var start := entry.until - window;
    WithinSnoc(times, now, start, now);
    WithinSnoc(times, now, start + 1, now);
    WithinSnoc(times, now, start - window + 1, start - 1);
    WithinSnoc(times, now, start - window, start - 1);
    WithinSplit(times + [now], start - window + 1, start, now);
    WithinSplit(times + [now], start - window, start, now);
    WithinWider(times + [now], now, now, start, now);
    forall from: int | now - window <= from
      ensures Within(times + [now], from, now) <= 2 * maximum
      ensures now - window < from ==> Within(times + [now], from, now) < 2 * maximum
    {
      WithinWider(times + [now], from, now, start - window, now);
      if now - window < from {
        WithinWider(times + [now], from, now, start - window + 1, now);
      }
    }
  }

  /** The first of a window that opens after the last one ended. */
  lemma NewWindow(times: seq<int>, entry: Entry, maximum: nat, window: nat, now: int)
    requires Explains(times, entry, maximum, window, now)
    requires window > 0 && entry.until <= now
    ensures Explains(times + [now], Entry(1, now + window), maximum, window, now)
    ensures forall from: int :: now - window < from ==> Within(times + [now], from, now) < 2 * maximum
    ensures forall from: int :: now - window <= from ==> Within(times + [now], from, now) <= 2 * maximum
    ensures Within(times + [now], now, now) <= maximum
  {
    var start := entry.until - window;
    WithinSnoc(times, now, now, now);
    WithinNone(times, now, now);
    WithinSnoc(times, now, now + 1, now);
    WithinNone(times, now + 1, now);
    WithinSnoc(times, now, now - window + 1, now - 1);
    WithinWider(times, now - window + 1, now - 1, start + 1, now);
    WithinSnoc(times, now, now - window, now - 1);
    WithinWider(times, now - window, now - 1, start, now);
    forall from: int | now - window <= from
      ensures Within(times + [now], from, now) <= 2 * maximum
      ensures now - window < from ==> Within(times + [now], from, now) < 2 * maximum
    {
      WithinSnoc(times, now, from, now);
      WithinWider(times, from, now, start, now);
      if now - window < from {
        WithinWider(times, from, now, start + 1, now);
      }
    }
  }

  lemma FirstWindow(maximum: nat, window: nat, now: int)
    requires maximum > 0 && window > 0
    ensures Explains([now], Entry(1, now + window), maximum, window, now)
    ensures SpansBounded([now], maximum, window)
  {
    assert [] + [now] == [now];
    forall a, b
      ensures Within([now], a, b) == if a <= now <= b then 1 else 0
    {
      WithinSnoc([], now, a, b);
    }
    assert forall from: int :: HalfOpen([now], from, window) <= 1 && Closed([now], from, window) <= 1;
  }

  lemma SpansStayBounded(times: seq<int>, maximum: nat, window: nat, now: int)
    requires window > 0 && SpansBounded(times, maximum, window)
    requires forall i :: 0 <= i < |times| ==> times[i] <= now
    requires forall from: int :: now - window < from ==> Within(times + [now], from, now) < 2 * maximum
    requires forall from: int :: now - window <= from ==> Within(times + [now], from, now) <= 2 * maximum
    requires Within(times + [now], now, now) <= maximum
    ensures SpansBounded(times + [now], maximum, window)
  {
    hide Within;
    forall from: int
      ensures HalfOpen(times + [now], from, window) < 2 * maximum
    {
      assert HalfOpen(times, from, window) < 2 * maximum;
      WithinGrows(times, now, from, from + window - 1);
    }
    forall from: int
      ensures Closed(times + [now], from, window) <= 2 * maximum
    {
      assert Closed(times, from, window) <= 2 * maximum;
      WithinGrows(times, now, from, from + window);
    }
    forall at: int
      ensures Within(times + [now], at, at) <= maximum
    {
      WithinGrows(times, now, at, at);
    }
  }

  lemma WithinGrows(times: seq<int>, now: int, a: int, b: int)
    requires forall i :: 0 <= i < |times| ==> times[i] <= now
    ensures Within(times + [now], a, b) == if a <= now <= b then Within(times + [now], a, now) else Within(times, a, b)
  {
    WithinSnoc(times, now, a, b);
    WithinSnoc(times, now, a, now);
    if now <= b {
      WithinCapped(times, a, b, now);
    }
  }

  /** A counted call keeps the bound on every span. */
  lemma CountKeepsSpans(times: seq<int>, bucket: Bucket, key: string, maximum: nat, window: nat, before: int, now: int)
    requires window > 0 && maximum > 0 && before <= now
    requires WindowInvariant(times, bucket, key, maximum, window, before)
    ensures var (after, verdict) := Count(bucket, key, maximum, window, now);
            WindowInvariant(if verdict == Accepted then times + [now] else times, after, key, maximum, window, now)
  {
    if key !in bucket {
      FirstWindow(maximum, window, now);
    } else {
      TimePasses(times, bucket[key], maximum, window, before, now);
      if bucket[key].until <= now {
        NewWindow(times, bucket[key], maximum, window, now);
        SpansStayBounded(times, maximum, window, now);
      } else if bucket[key].count < maximum {
        SameWindow(times, bucket[key], maximum, window, now);
        SpansStayBounded(times, maximum, window, now);
      }
    }
  }

  lemma OtherKeyKeepsSpans(times: seq<int>, bucket: Bucket, key: string, other: string, maximum: nat, window: nat,
                           before: int, now: int)
    requires window > 0 && before <= now && key != other
    requires WindowInvariant(times, bucket, key, maximum, window, before)
    ensures WindowInvariant(times, Count(bucket, other, maximum, window, now).0, key, maximum, window, now)
  {
    if key in bucket {
      TimePasses(times, bucket[key], maximum, window, before, now);
    }
  }

  /** When the first n calls for a key were accepted. */
  ghost function AcceptedTimes(calls: seq<Call>, key: string, maximum: nat, window: nat, n: nat): seq<int>
    requires n <= |calls|
  {
    if n == 0 then []
    else
      AcceptedTimes(calls, key, maximum, window, n - 1) +
      if calls[n - 1].key == key && Answer(calls, maximum, window, n - 1) == Accepted then [calls[n - 1].now] else []
  }

  lemma CallKeepsSpans(calls: seq<Call>, key: string, maximum: nat, window: nat, n: nat, before: int)
    requires window > 0 && maximum > 0 && n < |calls| && before <= calls[n].now
    requires SameAnswer(calls, maximum, window, n)
    requires WindowInvariant(AcceptedTimes(calls, key, maximum, window, n), Unpruned(calls, maximum, window, n), key,
                             maximum, window, before)
    ensures WindowInvariant(AcceptedTimes(calls, key, maximum, window, n + 1), Unpruned(calls, maximum, window, n + 1),
                            key, maximum, window, calls[n].now)
  {
    hide Count, WindowInvariant;
    var times := AcceptedTimes(calls, key, maximum, window, n);
    var full := Unpruned(calls, maximum, window, n);
    assert times + [] == times;
    if Answer(calls, maximum, window, n) == Exhausted {
      InvariantLater(times, full, key, maximum, window, before, calls[n].now);
    } else if calls[n].key == key {
      CountKeepsSpans(times, full, key, maximum, window, before, calls[n].now);
    } else {
      OtherKeyKeepsSpans(times, full, key, calls[n].key, maximum, window, before, calls[n].now);
    }
  }

  lemma InvariantLater(times: seq<int>, bucket: Bucket, key: string, maximum: nat, window: nat, before: int, now: int)
    requires window > 0 && before <= now && WindowInvariant(times, bucket, key, maximum, window, before)
    ensures WindowInvariant(times, bucket, key, maximum, window, now)
  {
    if key in bucket {
      TimePasses(times, bucket[key], maximum, window, before, now);
    }
  }

  lemma NoCallsSpans(key: string, maximum: nat, window: nat, now: int)
    requires window > 0 && maximum > 0
    ensures WindowInvariant([], map[], key, maximum, window, now)
  {
    assert forall from: int :: HalfOpen([], from, window) == 0 && Closed([], from, window) == 0;
    assert forall at: int :: Within([], at, at) == 0;
  }

  /** The clock once n calls were made. */
  ghost function Clock(calls: seq<Call>, n: nat): int
    requires n <= |calls|
  {
    if n > 0 then calls[n - 1].now else if calls == [] then 0 else calls[0].now
  }

  lemma {:induction false} RunKeepsSpans(calls: seq<Call>, key: string, maximum: nat, window: nat, n: nat)
    requires Ordered(calls) && n <= |calls| && maximum > 0 && window > 0
    ensures WindowInvariant(AcceptedTimes(calls, key, maximum, window, n), Unpruned(calls, maximum, window, n), key,
                            maximum, window, Clock(calls, n))
  {
    assert n > 0 ==> Clock(calls, n - 1) <= calls[n - 1].now == Clock(calls, n);
    hide *;
    if n == 0 {
      StartOfRun(calls, key, maximum, window);
      NoCallsSpans(key, maximum, window, Clock(calls, n));
    } else {
      RunKeepsSpans(calls, key, maximum, window, n - 1);
      SameAnswerAt(calls, maximum, window, n - 1);
      CallKeepsSpans(calls, key, maximum, window, n - 1, Clock(calls, n - 1));
    }
  }

  lemma SameAnswerAt(calls: seq<Call>, maximum: nat, window: nat, n: nat)
    requires Ordered(calls) && n < |calls| && maximum > 0
    ensures SameAnswer(calls, maximum, window, n)
  {
    hide *;
    PruningIsInvisible(calls, maximum, window, n + 1);
  }

  lemma StartOfRun(calls: seq<Call>, key: string, maximum: nat, window: nat)
    ensures AcceptedTimes(calls, key, maximum, window, 0) == [] && Unpruned(calls, maximum, window, 0) == map[]
  {
  }

  /** The n-th call is one of this key, made between two instants, and accepted. */
  ghost predicate AcceptedThen(calls: seq<Call>, key: string, maximum: nat, window: nat, n: nat, from: int, to: int)
    requires n < |calls|
  {
    calls[n].key == key && Answer(calls, maximum, window, n) == Accepted && from <= calls[n].now <= to
  }

  /** The acceptances of a key, by the number of the call. */
  ghost function AcceptedCalls(calls: seq<Call>, key: string, maximum: nat, window: nat, n: nat,
                               from: int, to: int): set<nat>
    requires n <= |calls|
  {
    set i: nat | i < n && AcceptedThen(calls, key, maximum, window, i, from, to)
  }

  lemma AcceptedOneMore(calls: seq<Call>, key: string, maximum: nat, window: nat, n: nat, from: int, to: int)
    requires n < |calls|
    ensures |AcceptedCalls(calls, key, maximum, window, n + 1, from, to)| ==
            |AcceptedCalls(calls, key, maximum, window, n, from, to)| +
            if AcceptedThen(calls, key, maximum, window, n, from, to) then 1 else 0
  {
    hide AcceptedThen;
    var earlier := AcceptedCalls(calls, key, maximum, window, n, from, to);
    if AcceptedThen(calls, key, maximum, window, n, from, to) {
      assert AcceptedCalls(calls, key, maximum, window, n + 1, from, to) == earlier + {n};
    } else {
      assert AcceptedCalls(calls, key, maximum, window, n + 1, from, to) == earlier;
    }
  }

  lemma TimesOneMore(calls: seq<Call>, key: string, maximum: nat, window: nat, n: nat, from: int, to: int)
    requires n < |calls|
    ensures Within(AcceptedTimes(calls, key, maximum, window, n + 1), from, to) ==
            Within(AcceptedTimes(calls, key, maximum, window, n), from, to) +
            if AcceptedThen(calls, key, maximum, window, n, from, to) then 1 else 0
  {
    var times := AcceptedTimes(calls, key, maximum, window, n);
    hide Answer, Within;
    WithinSnoc(times, calls[n].now, from, to);
    assert times + [] == times;
  }

  lemma {:induction false} AcceptedAreCounted(calls: seq<Call>, key: string, maximum: nat, window: nat, n: nat,
                                              from: int, to: int)
    requires n <= |calls|
    ensures Within(AcceptedTimes(calls, key, maximum, window, n), from, to) ==
            |AcceptedCalls(calls, key, maximum, window, n, from, to)|
  {
    if n == 0 {
      assert AcceptedCalls(calls, key, maximum, window, 0, from, to) == {};
    } else {
      var m := n - 1;
      assert n == m + 1;
      hide *;
      AcceptedAreCounted(calls, key, maximum, window, m, from, to);
      AcceptedOneMore(calls, key, maximum, window, m, from, to);
      TimesOneMore(calls, key, maximum, window, m, from, to);
    }
  }

  lemma SpansOfRun(calls: seq<Call>, key: string, maximum: nat, window: nat, from: int)
    requires Ordered(calls) && maximum > 0 && window > 0
    ensures HalfOpen(AcceptedTimes(calls, key, maximum, window, |calls|), from, window) < 2 * maximum
    ensures Closed(AcceptedTimes(calls, key, maximum, window, |calls|), from, window) <= 2 * maximum
    ensures Within(AcceptedTimes(calls, key, maximum, window, |calls|), from, from) <= maximum
  {
    hide Unpruned;
    RunKeepsSpans(calls, key, maximum, window, |calls|);
  }

  /** However the calls fall, a key is accepted fewer than twice the maximum in
      any half-open span of the window's length, at most twice in the closed one,
      and at most the maximum at any one instant. */
  lemma AcceptancesPerSpan(calls: seq<Call>, key: string, maximum: nat, window: nat, from: int)
    requires Ordered(calls) && maximum > 0 && window > 0
    ensures |AcceptedCalls(calls, key, maximum, window, |calls|, from, from + window - 1)| < 2 * maximum
    ensures |AcceptedCalls(calls, key, maximum, window, |calls|, from, from + window)| <= 2 * maximum
    ensures |AcceptedCalls(calls, key, maximum, window, |calls|, from, from)| <= maximum
  {
    hide AcceptedTimes, AcceptedCalls, Within;
    SpansOfRun(calls, key, maximum, window, from);
    AcceptedAreCounted(calls, key, maximum, window, |calls|, from, from + window - 1);
    AcceptedAreCounted(calls, key, maximum, window, |calls|, from, from + window);
    AcceptedAreCounted(calls, key, maximum, window, |calls|, from, from);
  }

  // ------------------------------------------------- the bounds are tight

  /** The worst a caller can do: one call opens a window, the rest of the
      maximum waits for the window's last instant, and a full maximum follows at
      the next instant. */
  ghost function BurstTime(maximum: nat, window: nat, i: nat): int
    requires window > 0
  {
    if i == 0 then 0 else if i < maximum then window - 1 else window
  }

  ghost function BurstTimes(maximum: nat, window: nat, n: nat): seq<int>
    requires window > 0
  {
    if n == 0 then [] else BurstTimes(maximum, window, n - 1) + [BurstTime(maximum, window, n - 1)]
  }

  ghost predicate IsBurst(calls: seq<Call>, key: string, maximum: nat, window: nat)
    requires window > 0
  {
    |calls| == 2 * maximum && forall i :: 0 <= i < |calls| ==> calls[i] == Call(key, BurstTime(maximum, window, i))
  }

  /** The window of the burst's key once n of its calls were made. */
  ghost function BurstBucket(key: string, maximum: nat, window: nat, n: nat): Bucket {
    if n == 0 then map[]
    else if n <= maximum then map[key := Entry(n, window)]
    else map[key := Entry(n - maximum, 2 * window)]
  }

  /** Every call of the burst is accepted. */
  lemma BurstStep(key: string, maximum: nat, window: nat, n: nat)
    requires window > 0 && n < 2 * maximum
    ensures Consumed(BurstBucket(key, maximum, window, n), key, maximum, window, BurstTime(maximum, window, n)) ==
            (BurstBucket(key, maximum, window, n + 1), Accepted)
  {
    var bucket := BurstBucket(key, maximum, window, n);
    SubsetSize(bucket.Keys, {key});
    assert |bucket| == |bucket.Keys|;
    var now := BurstTime(maximum, window, n);
    assert Consumed(bucket, key, maximum, window, now) == Count(bucket, key, maximum, window, now);
    if n == 0 || n == maximum {
      assert bucket[key := Entry(1, now + window)] == BurstBucket(key, maximum, window, n + 1);
    } else {
      assert bucket[key := Entry(bucket[key].count + 1, bucket[key].until)] == BurstBucket(key, maximum, window, n + 1);
    }
  }

  lemma CallAccepted(calls: seq<Call>, key: string, maximum: nat, window: nat, n: nat, after: Bucket)
    requires n < |calls| && calls[n].key == key
    requires Consumed(After(calls, maximum, window, n), key, maximum, window, calls[n].now) == (after, Accepted)
    ensures After(calls, maximum, window, n + 1) == after
    ensures AcceptedTimes(calls, key, maximum, window, n + 1) ==
            AcceptedTimes(calls, key, maximum, window, n) + [calls[n].now]
  {
    hide Consumed;
  }

  lemma BurstTimesNext(maximum: nat, window: nat, n: nat)
    requires window > 0
    ensures BurstTimes(maximum, window, n + 1) == BurstTimes(maximum, window, n) + [BurstTime(maximum, window, n)]
  {
  }

  lemma BurstStarts(calls: seq<Call>, key: string, maximum: nat, window: nat)
    requires window > 0
    ensures After(calls, maximum, window, 0) == BurstBucket(key, maximum, window, 0)
    ensures AcceptedTimes(calls, key, maximum, window, 0) == BurstTimes(maximum, window, 0)
  {
  }

  lemma {:induction false} BurstAccepted(calls: seq<Call>, key: string, maximum: nat, window: nat, n: nat)
    requires window > 0 && n <= 2 * maximum && IsBurst(calls, key, maximum, window)
    ensures After(calls, maximum, window, n) == BurstBucket(key, maximum, window, n)
    ensures AcceptedTimes(calls, key, maximum, window, n) == BurstTimes(maximum, window, n)
  {
    if n == 0 {
      BurstStarts(calls, key, maximum, window);
    } else {
      var m := n - 1;
      var call := calls[m];
      assert call == Call(key, BurstTime(maximum, window, m)) && n == m + 1;
      hide *;
      BurstAccepted(calls, key, maximum, window, m);
      BurstStep(key, maximum, window, m);
      assert Consumed(After(calls, maximum, window, m), key, maximum, window, call.now) ==
             (BurstBucket(key, maximum, window, n), Accepted);
      CallAccepted(calls, key, maximum, window, m, BurstBucket(key, maximum, window, n));
      BurstTimesNext(maximum, window, m);
    }
  }

  lemma {:induction false} BurstWithin(maximum: nat, window: nat, n: nat)
    requires window > 0 && maximum > 0
    ensures Within(BurstTimes(maximum, window, n), 0, window) == n
    ensures n > 0 && (window > 1 || maximum == 1) ==> Within(BurstTimes(maximum, window, n), 1, window) == n - 1
  {
    if n > 0 {
      hide Within;
      BurstWithin(maximum, window, n - 1);
      WithinSnoc(BurstTimes(maximum, window, n - 1), BurstTime(maximum, window, n - 1), 0, window);
      WithinSnoc(BurstTimes(maximum, window, n - 1), BurstTime(maximum, window, n - 1), 1, window);
      if n == 1 {
        WithinNone([], 1, window);
      }
    } else {
      WithinNone([], 0, window);
    }
  }

  /** Some run accepts so many in a half-open span of the window's length. */
  ghost predicate HalfOpenReached(key: string, maximum: nat, window: nat, count: nat) {
    exists calls, from: int ::
      Ordered(calls) && HalfOpen(AcceptedTimes(calls, key, maximum, window, |calls|), from, window) == count
  }

  ghost predicate ClosedReached(key: string, maximum: nat, window: nat, count: nat) {
    exists calls, from: int ::
      Ordered(calls) && Closed(AcceptedTimes(calls, key, maximum, window, |calls|), from, window) == count
  }

  /** For every limit the closed bound is reached. The half-open one is reached
      exactly when the window is longer than one instant or the maximum is one;
      a window of one instant holds no more than the maximum. */
  lemma SpanBoundsAreReached(key: string, maximum: nat, window: nat)
    requires maximum > 0 && window > 0
    ensures ClosedReached(key, maximum, window, 2 * maximum)
    ensures HalfOpenReached(key, maximum, window, 2 * maximum - 1) <==> window > 1 || maximum == 1
  {
    var calls := seq(2 * maximum, i requires 0 <= i < 2 * maximum => Call(key, BurstTime(maximum, window, i)));
    assert Ordered(calls) && IsBurst(calls, key, maximum, window);
    hide BurstTimes, BurstTime, AcceptedTimes, Within;
    BurstAccepted(calls, key, maximum, window, |calls|);
    BurstWithin(maximum, window, |calls|);
    assert Closed(AcceptedTimes(calls, key, maximum, window, |calls|), 0, window) == 2 * maximum;
    if window > 1 || maximum == 1 {
      assert HalfOpen(AcceptedTimes(calls, key, maximum, window, |calls|), 1, window) == 2 * maximum - 1;
    } else {
      forall other, from: int | Ordered(other)
        ensures HalfOpen(AcceptedTimes(other, key, maximum, window, |other|), from, window) <= maximum
      {
        SpansOfRun(other, key, maximum, window, from);
      }
    }
  }
}
