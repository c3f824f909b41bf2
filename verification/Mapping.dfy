/**
 Mapping a slave (co/fullMasterCM.cpp _initSlave, co/versionedSlaveCM.cpp addInstanceDatas): which stored versions
 the master sends given what the slave says it has cached, and how the slave merges what it was sent with its cache.
 */
module Mapping {
  import opened Arithmetic
  import opened Common
  import opened MasterHistory

  const VERSION_OLDEST: nat := 0xffff_ffff_ffff_fffc

  /** The version, cached range and cache flag of a map request, the flag after the master instance was compared. */
  datatype Request = Request(version: nat, useCache: bool, minCached: nat, maxCached: nat)

  function ReplyVersion(oldest: nat, request: Request): nat {
    if request.version == VERSION_OLDEST || request.version < oldest then oldest else request.version
  }

  function SendFrom(oldest: nat, head: nat, request: Request): nat {
    var reply := ReplyVersion(oldest, request);
    if request.useCache && request.minCached <= reply <= request.maxCached then request.maxCached + 1 else reply
  }

  function SendTo(oldest: nat, head: nat, request: Request): int {
    var reply := ReplyVersion(oldest, request);
    if request.useCache && !(request.minCached <= reply <= request.maxCached) && request.maxCached == head then
      Max(reply, request.minCached - 1)
    else head
  }

  /** The entries whose version lies in a range, in order. */
  function Between<D>(entries: seq<Entry<D>>, from: int, upto: int): seq<Entry<D>> {
    if entries == [] then []
    else (if from <= entries[0].version <= upto then [entries[0]] else []) + Between(entries[1..], from, upto)
  }

  /** The history a master holds, oldest stored version first. */
  ghost predicate Stores<D>(entries: seq<Entry<D>>, head: nat, log: seq<D>) {
    Consecutive(entries, head) && head <= |log|
    && forall i :: 0 <= i < |entries| ==> entries[i].data == log[entries[i].version - 1]
  }

  function Sent<D>(entries: seq<Entry<D>>, head: nat, request: Request): seq<Entry<D>>
    requires entries != []
  {
    Between(entries, SendFrom(entries[0].version, head, request), SendTo(entries[0].version, head, request))
  }

  /**
   Which versions the slave still needs: without a cache all from the reply on; with one that contains the reply
   version those after it; with one that ends at the head those before it, and the reply version in any case.
   */
  predicate Needed(reply: nat, head: nat, request: Request, v: nat) {
    && reply <= v <= head
    && (request.useCache ==>
          if request.minCached <= reply <= request.maxCached then v > request.maxCached
          else request.maxCached == head ==> v == reply || v < request.minCached)
  }

  ghost predicate Holds(request: Request, v: nat) {
    request.useCache && request.minCached <= v <= request.maxCached
  }

  lemma {:induction false} BetweenContains<D>(entries: seq<Entry<D>>, from: int, upto: int, e: Entry<D>)
    ensures e in Between(entries, from, upto) <==> e in entries && from <= e.version <= upto
  {
    if entries != [] {
      BetweenContains(entries[1..], from, upto, e);
      assert entries == [entries[0]] + entries[1..];
    }
  }

  /** Every version from the reply version to the head is sent or already with the slave. */
  lemma MappingCoversHistory<D>(entries: seq<Entry<D>>, head: nat, request: Request, v: nat)
    requires Consecutive(entries, head) && ReplyVersion(entries[0].version, request) <= v <= head
    ensures Holds(request, v) || exists e :: e in Sent(entries, head, request) && e.version == v
  {
    var e := entries[v - entries[0].version];
    BetweenContains(entries, SendFrom(entries[0].version, head, request), SendTo(entries[0].version, head, request), e);
    assert e in entries;
  }

  /** Nothing outside the reply version to the head is sent. */
  lemma MappingSendsOnlyRequested<D>(entries: seq<Entry<D>>, head: nat, request: Request, e: Entry<D>)
    requires Consecutive(entries, head) && e in Sent(entries, head, request)
    requires ReplyVersion(entries[0].version, request) <= head
    ensures e in entries && ReplyVersion(entries[0].version, request) <= e.version <= head
  {
    BetweenContains(entries, SendFrom(entries[0].version, head, request), SendTo(entries[0].version, head, request), e);
  }

  /**
   Exactly when no version is sent that the slave already holds: the cached range contains the reply version, or
   ends at the head, or misses the requested span altogether.
   */
  lemma NothingSentTwiceIff<D>(entries: seq<Entry<D>>, head: nat, request: Request)
    requires Consecutive(entries, head) && request.useCache && 1 <= request.minCached <= request.maxCached
    requires ReplyVersion(entries[0].version, request) <= head
    ensures var reply := ReplyVersion(entries[0].version, request);
      (forall e :: e in Sent(entries, head, request) ==> !Holds(request, e.version))
      <==> (request.minCached <= reply <= request.maxCached || request.maxCached == head
            || request.maxCached < reply || request.minCached > head)
  {
    var oldest := entries[0].version;
    var reply := ReplyVersion(oldest, request);
    var from, upto := SendFrom(oldest, head, request), SendTo(oldest, head, request);
    forall e | e in Sent(entries, head, request) ensures e in entries && from <= e.version <= upto {
      BetweenContains(entries, from, upto, e);
    }
    if reply < request.minCached <= head && request.maxCached != head {
      var e := entries[request.minCached - oldest];
      BetweenContains(entries, from, upto, e);
      assert e in Sent(entries, head, request) && Holds(request, e.version);
    }
  }

  // ---- the slave ----

  datatype Stream<D> = Stream(version: nat, data: D)

  /** A stream in the instance cache, complete or not. */
  datatype CachedStream<D> = CachedStream(version: nat, data: D, ready: bool)

  /** The cached streams that are looked at: up to the first incomplete one from the start version on. */
  function Usable<D>(cache: seq<CachedStream<D>>, start: nat): seq<Stream<D>> {
    if cache == [] || (cache[0].version >= start && !cache[0].ready) then []
    else [Stream(cache[0].version, cache[0].data)] + Usable(cache[1..], start)
  }

  /** Cached streams from the start version on that precede, respectively follow, the queued ones. */
  function Earlier<D>(cache: seq<Stream<D>>, start: nat, oldest: nat): seq<Stream<D>> {
    if cache == [] then []
    else (if start <= cache[0].version < oldest then [cache[0]] else []) + Earlier(cache[1..], start, oldest)
  }

  function Later<D>(cache: seq<Stream<D>>, start: nat, oldest: nat, newest: nat): seq<Stream<D>> {
    if cache == [] then []
    else
      (if start <= cache[0].version && oldest <= cache[0].version && cache[0].version > newest then [cache[0]] else [])
      + Later(cache[1..], start, oldest, newest)
  }

  function Oldest<D>(queue: seq<Stream<D>>): nat {
    if queue == [] then 0 else queue[0].version
  }

  function Newest<D>(queue: seq<Stream<D>>): nat {
    if queue == [] then 0 else queue[|queue| - 1].version
  }

  function Merge<D>(cache: seq<Stream<D>>, queue: seq<Stream<D>>, start: nat): seq<Stream<D>> {
    Earlier(cache, start, Oldest(queue)) + queue + Later(cache, start, Oldest(queue), Newest(queue))
  }

  /** applyMapData: drops what comes before the version and takes it; None while it is still to come. */
  function Applied<D>(queue: seq<Stream<D>>, version: nat): Option<seq<Stream<D>>> {
    if queue == [] then None
    else if queue[0].version == version then Some(queue[1..])
    else Applied(queue[1..], version)
  }

  /** The streams of the committed versions from `from` up to but not including `upto`. */
  function Span<D>(log: seq<D>, from: nat, upto: nat): (s: seq<Stream<D>>)
    requires 1 <= from <= upto <= |log| + 1
    ensures |s| == upto - from
    decreases upto - from
  {
    if from == upto then [] else [Stream(from, log[from - 1])] + Span(log, from + 1, upto)
  }

  lemma {:induction false} SpanAt<D>(log: seq<D>, from: nat, upto: nat, i: nat)
    requires 1 <= from <= upto <= |log| + 1 && i < upto - from
    ensures Span(log, from, upto)[i].version == from + i
    decreases i
  {
    if i > 0 {
      SpanAt(log, from + 1, upto, i - 1);
    }
  }

  lemma {:induction false} SpanJoin<D>(log: seq<D>, from: nat, mid: nat, upto: nat)
    requires 1 <= from <= mid <= upto <= |log| + 1
    ensures Span(log, from, mid) + Span(log, mid, upto) == Span(log, from, upto)
    decreases mid - from
  {
    if from < mid {
      SpanJoin(log, from + 1, mid, upto);
      assert Span(log, from, mid) + Span(log, mid, upto)
          == [Stream(from, log[from - 1])] + (Span(log, from + 1, mid) + Span(log, mid, upto));
    }
  }

  lemma {:induction false} EarlierOfSpan<D>(log: seq<D>, from: nat, upto: nat, start: nat, oldest: nat)
    requires 1 <= from <= upto <= |log| + 1 && 1 <= start
    ensures var lo := Max(from, start); var hi := Min(upto, oldest);
      Earlier(Span(log, from, upto), start, oldest) == if lo <= hi then Span(log, lo, hi) else []
    decreases upto - from
  {
    if from < upto {
      var s := Span(log, from, upto);
      assert s[0] == Stream(from, log[from - 1]) && s[1..] == Span(log, from + 1, upto);
      EarlierOfSpan(log, from + 1, upto, start, oldest);
    }
  }

  lemma {:induction false} LaterOfSpan<D>(log: seq<D>, from: nat, upto: nat, start: nat, oldest: nat, newest: nat)
    requires 1 <= from <= upto <= |log| + 1 && 1 <= start && oldest <= newest
    ensures var lo := Max(from, Max(start, newest + 1));
      Later(Span(log, from, upto), start, oldest, newest) == if lo <= upto then Span(log, lo, upto) else []
    decreases upto - from
  {
    if from < upto {
      var s := Span(log, from, upto);
      assert s[0] == Stream(from, log[from - 1]) && s[1..] == Span(log, from + 1, upto);
      LaterOfSpan(log, from + 1, upto, start, oldest, newest);
    }
  }

  /**
   Merging a cached span with a queued span gives the span from the start version on, if the queue starts there or
   the cache closes the gap before it, and the cache does not start beyond the end of the queue.
   */
  lemma MergeSpans<D>(log: seq<D>, cacheFrom: nat, cacheTo: nat, queueFrom: nat, queueTo: nat, start: nat)
    requires 1 <= cacheFrom < cacheTo <= |log| + 1 && 1 <= start <= queueFrom < queueTo <= |log| + 1
    requires cacheFrom <= queueTo && (start == queueFrom || (cacheFrom <= start && queueFrom <= cacheTo))
    ensures Merge(Span(log, cacheFrom, cacheTo), Span(log, queueFrom, queueTo), start)
         == Span(log, start, Max(queueTo, cacheTo))
  {
    hide Earlier, Later, Span;
    var cache, queue, end := Span(log, cacheFrom, cacheTo), Span(log, queueFrom, queueTo), Max(queueTo, cacheTo);
    EarlierOfSpan(log, cacheFrom, cacheTo, start, queueFrom);
    SpanAt(log, queueFrom, queueTo, 0);
    SpanAt(log, queueFrom, queueTo, queueTo - queueFrom - 1);
    assert Earlier(cache, start, Oldest(queue)) == Span(log, start, queueFrom);
    LaterOfSpan(log, cacheFrom, cacheTo, start, queueFrom, queueTo - 1);
    assert Later(cache, start, Oldest(queue), Newest(queue)) == Span(log, queueTo, end);
    SpanJoin(log, start, queueFrom, queueTo);
    SpanJoin(log, start, queueTo, end);
  }

  lemma MergeIntoEmpty<D>(log: seq<D>, cacheFrom: nat, cacheTo: nat, start: nat)
    requires 1 <= cacheFrom <= start < cacheTo <= |log| + 1
    ensures Merge(Span(log, cacheFrom, cacheTo), [], start) == Span(log, start, cacheTo)
  {
    hide Earlier, Later, Span;
    EarlierOfSpan(log, cacheFrom, cacheTo, start, 0);
    LaterOfSpan(log, cacheFrom, cacheTo, start, 0, 0);
  }

  // ---- arrival order ----

  /** The queue holds both sequences, each in order. */
  ghost predicate Interleaved<T>(a: seq<T>, b: seq<T>, q: seq<T>)
    decreases |q|
  {
    if q == [] then a == [] && b == []
    else
      || (a != [] && q[0] == a[0] && Interleaved(a[1..], b, q[1..]))
      || (b != [] && q[0] == b[0] && Interleaved(a, b[1..], q[1..]))
  }

  lemma {:induction false} Concatenated<T>(a: seq<T>, b: seq<T>)
    ensures Interleaved(a, b, a + b)
    decreases |a| + |b|
  {
    if a != [] {
      Concatenated(a[1..], b);
      assert (a + b)[1..] == a[1..] + b;
    } else if b != [] {
      Concatenated(a, b[1..]);
      assert (a + b)[1..] == a + b[1..];
    }
  }

  lemma {:induction false} NothingBetween<T>(a: seq<T>, q: seq<T>)
    requires Interleaved(a, [], q)
    ensures q == a
    decreases |q|
  {
    if q != [] {
      NothingBetween(a[1..], q[1..]);
      assert q == [q[0]] + q[1..] && a == [a[0]] + a[1..];
    }
  }

  /** Every element of both sequences is in the queue. */
  lemma {:induction false} Contained<T>(a: seq<T>, b: seq<T>, q: seq<T>, x: T)
    requires Interleaved(a, b, q) && (x in a || x in b)
    ensures x in q
    decreases |q|
  {
    if a != [] && q[0] == a[0] && Interleaved(a[1..], b, q[1..]) {
      if x != a[0] {
        Contained(a[1..], b, q[1..], x);
      }
    } else if x != b[0] {
      Contained(a, b[1..], q[1..], x);
    }
  }

  ghost predicate Rising<D>(q: seq<Stream<D>>) {
    forall i, j :: 0 <= i < j < |q| ==> q[i].version < q[j].version
  }

  /** A rising queue has no version twice, so the sequences in it share none. */
  lemma {:induction false} NothingShared<D>(a: seq<Stream<D>>, b: seq<Stream<D>>, q: seq<Stream<D>>, x: Stream<D>, y: Stream<D>)
    requires Interleaved(a, b, q) && Rising(q) && x in a && y in b
    ensures x.version != y.version
    decreases |q|
  {
    var rest := q[1..];
    if a != [] && q[0] == a[0] && Interleaved(a[1..], b, rest) {
      if x == a[0] {
        Contained(a[1..], b, rest, y);
        var i :| 0 <= i < |rest| && rest[i] == y;
        assert q[i + 1] == y;
      } else {
        NothingShared(a[1..], b, rest, x, y);
      }
    } else {
      if y == b[0] {
        Contained(a, b[1..], rest, x);
        var i :| 0 <= i < |rest| && rest[i] == x;
        assert q[i + 1] == x;
      } else {
        NothingShared(a, b[1..], rest, x, y);
      }
    }
  }

  /** If all of one sequence is older than the other, a rising queue has it first. */
  lemma {:induction false} RisingInOrder<D>(a: seq<Stream<D>>, b: seq<Stream<D>>, q: seq<Stream<D>>)
    requires Interleaved(a, b, q) && Rising(q)
    requires forall x, y :: x in a && y in b ==> x.version < y.version
    ensures q == a + b
    decreases |q|
  {
    if q != [] {
      var rest := q[1..];
      if a != [] && q[0] == a[0] && Interleaved(a[1..], b, rest) {
        RisingInOrder(a[1..], b, rest);
        assert q == [q[0]] + rest && a == [a[0]] + a[1..];
      } else {
        if a != [] {
          Contained(a, b[1..], rest, a[0]);
        }
        RisingInOrder(a, b[1..], rest);
        assert q == [q[0]] + rest && b == [b[0]] + b[1..];
      }
    }
  }

  lemma InSpan<D>(log: seq<D>, from: nat, upto: nat, v: nat)
    requires 1 <= from <= v < upto <= |log| + 1
    ensures Stream(v, log[v - 1]) in Span(log, from, upto)
  {
    SpanData(log, from, upto, v - from);
    assert Span(log, from, upto)[v - from] == Stream(v, log[v - 1]);
  }

  lemma {:induction false} SpanData<D>(log: seq<D>, from: nat, upto: nat, i: nat)
    requires 1 <= from <= upto <= |log| + 1 && i < upto - from
    ensures Span(log, from, upto)[i] == Stream(from + i, log[from + i - 1])
    decreases i
  {
    if i > 0 {
      SpanData(log, from + 1, upto, i - 1);
    }
  }

  lemma SpanRange<D>(log: seq<D>, from: nat, upto: nat, x: Stream<D>)
    requires 1 <= from <= upto <= |log| + 1 && x in Span(log, from, upto)
    ensures from <= x.version < upto
  {
    var i :| 0 <= i < upto - from && Span(log, from, upto)[i] == x;
    SpanAt(log, from, upto, i);
  }

  /** A rising queue of a span and a later-ending span has the first one before the other. */
  lemma InterleavedSpans<D>(log: seq<D>, from: nat, upto: nat, first: nat, end: nat, q: seq<Stream<D>>)
    requires 1 <= from <= upto <= end <= |log| + 1 && 1 <= first <= end
    requires Interleaved(Span(log, from, upto), Span(log, first, end), q) && Rising(q)
    ensures q == Span(log, from, upto) + Span(log, first, end)
    ensures from < upto && first < end ==> upto <= first
  {
    hide Span, Interleaved, Rising;
    var a, b := Span(log, from, upto), Span(log, first, end);
    if from < upto && first < end && first < upto {
      var v := Max(from, first);
      InSpan(log, from, upto, v);
      InSpan(log, first, end, v);
      NothingShared(a, b, q, Stream(v, log[v - 1]), Stream(v, log[v - 1]));
    }
    forall x, y | x in a && y in b ensures x.version < y.version {
      SpanRange(log, from, upto, x);
      SpanRange(log, first, end, y);
    }
    RisingInOrder(a, b, q);
  }

  /** Part of a span is rising, starts no earlier and is consecutive. */
  lemma PartInOrder<D>(before: seq<Stream<D>>, q: seq<Stream<D>>, after: seq<Stream<D>>, log: seq<D>, from: nat, upto: nat)
    requires 1 <= from <= upto <= |log| + 1 && before + q + after == Span(log, from, upto)
    ensures Rising(q) && forall i :: 0 <= i < |q| ==> q[i].version == from + |before| + i
  {
    forall i | 0 <= i < |q| ensures q[i].version == from + |before| + i {
      assert (before + q + after)[|before| + i] == q[i];
      SpanAt(log, from, upto, |before| + i);
    }
  }

  lemma MergedInOrder<D>(cache: seq<Stream<D>>, queue: seq<Stream<D>>, log: seq<D>, start: nat, end: nat)
    requires 1 <= start <= end <= |log| + 1 && Merge(cache, queue, start) == Span(log, start, end)
    ensures Rising(queue)
    ensures forall i :: 0 <= i < |queue| ==> queue[i].version == start + |Earlier(cache, start, Oldest(queue))| + i
  {
    hide Span, Earlier, Later;
    PartInOrder(Earlier(cache, start, Oldest(queue)), queue, Later(cache, start, Oldest(queue), Newest(queue)), log, start, end);
  }

  /** Spans from the same start are the same exactly if they end at the same version. */
  lemma SameSpan<D>(log: seq<D>, from: nat, a: nat, b: nat)
    requires 1 <= from <= a <= |log| + 1 && from <= b <= |log| + 1
    ensures Span(log, from, a) == Span(log, from, b) <==> a == b
  {
  }

  /** Versions sent and commits received in order, merged with the cache: exactly when nothing is missing. */
  lemma MergeJoined<D>(log: seq<D>, min: nat, cacheTo: nat, from: nat, upto: nat, first: nat, end: nat, start: nat,
                       queue: seq<Stream<D>>)
    requires 1 <= min < cacheTo <= |log| + 1 && 1 <= start <= from <= upto <= end <= |log| + 1 && 1 <= first <= end
    requires min <= upto && (start == from || (min <= start && from <= cacheTo))
    requires from == upto ==> min <= start < cacheTo && upto <= cacheTo
    requires queue == Span(log, from, upto) + Span(log, first, end)
    ensures Merge(Span(log, min, cacheTo), queue, start) == Span(log, start, Max(end, cacheTo)) <==>
      if first == end then Max(upto, cacheTo) == Max(end, cacheTo)
      else if from == upto then start <= first <= cacheTo
      else first == upto
  {
    hide Earlier, Later, Span, Merge;
    if first == end {
      NoSpan(log, end);
      assert queue == Span(log, from, upto);
      if from < upto {
        MergeSpans(log, min, cacheTo, from, upto, start);
      } else {
        NoSpan(log, upto);
        MergeIntoEmpty(log, min, cacheTo, start);
      }
      SameSpan(log, start, Max(upto, cacheTo), Max(end, cacheTo));
    } else if from == upto {
      NoSpan(log, upto);
      assert queue == Span(log, first, end);
      MergeCommits(log, min, cacheTo, first, end, start);
    } else if first == upto {
      SpanJoin(log, from, upto, end);
      MergeSpans(log, min, cacheTo, from, end, start);
    } else {
      SpanAt(log, from, upto, 0);
      SpanAt(log, first, end, 0);
      assert queue[0].version == from && queue[upto - from].version == first;
      if Merge(Span(log, min, cacheTo), queue, start) == Span(log, start, Max(end, cacheTo)) {
        MergedInOrder(Span(log, min, cacheTo), queue, log, start, Max(end, cacheTo));
      }
    }
  }

  lemma NoSpan<D>(log: seq<D>, v: nat)
    requires 1 <= v <= |log| + 1
    ensures Span(log, v, v) == []
  {
  }

  /** Only commits in the queue: the cache must reach the first one, which must not precede the start. */
  lemma MergeCommits<D>(log: seq<D>, min: nat, cacheTo: nat, first: nat, end: nat, start: nat)
    requires 1 <= min <= start < cacheTo <= |log| + 1 && 1 <= first < end <= |log| + 1 && min <= end && start <= end
    ensures Merge(Span(log, min, cacheTo), Span(log, first, end), start) == Span(log, start, Max(end, cacheTo))
      <==> start <= first <= cacheTo
  {
    hide Earlier, Later, Span, Merge;
    var cache, queue := Span(log, min, cacheTo), Span(log, first, end);
    if start <= first <= cacheTo {
      MergeSpans(log, min, cacheTo, first, end, start);
    } else if Merge(cache, queue, start) == Span(log, start, Max(end, cacheTo)) {
      MergedInOrder(cache, queue, log, start, Max(end, cacheTo));
      SpanAt(log, first, end, 0);
      EarlierOfSpan(log, min, cacheTo, start, first);
    }
  }

  // ---- end to end ----

  function AsStreams<D>(entries: seq<Entry<D>>): seq<Stream<D>> {
    seq(|entries|, i requires 0 <= i < |entries| => Stream(entries[i].version, entries[i].data))
  }

  lemma {:induction false} BetweenNone<D>(entries: seq<Entry<D>>, from: int, upto: int)
    requires forall i :: 0 <= i < |entries| ==> !(from <= entries[i].version <= upto)
    ensures Between(entries, from, upto) == []
  {
    if entries != [] {
      BetweenNone(entries[1..], from, upto);
    }
  }

  /** What is sent of a range within the stored history is the span of committed versions in that range. */
  lemma {:induction false} BetweenIsSpan<D>(entries: seq<Entry<D>>, first: nat, from: nat, upto: nat, log: seq<D>)
    requires 1 <= first && Max(first, from) <= upto + 1 <= first + |entries| <= |log| + 1
    requires forall i :: 0 <= i < |entries| ==> entries[i].version == first + i && entries[i].data == log[first + i - 1]
    ensures AsStreams(Between(entries, from, upto)) == Span(log, Max(first, from), upto + 1)
    decreases |entries|
  {
    if first > upto {
      BetweenNone(entries, from, upto);
    } else {
      var rest := Between(entries[1..], from, upto);
      BetweenIsSpan(entries[1..], first + 1, from, upto, log);
      if from <= first {
        assert AsStreams([entries[0]] + rest) == [Stream(first, log[first - 1])] + AsStreams(rest);
      }
    }
  }

  /**
   What a slave has queued when it handles the map reply: the streams sent to it and the commits from `first` up to
   `later`, each in order. Nothing orders the two, as they may come over different connections. Commits before `first`
   passed before the slave was attached and are lost.
   */
  ghost predicate Received<D>(entries: seq<Entry<D>>, head: nat, log: seq<D>, request: Request, first: nat, later: nat,
                              queue: seq<Stream<D>>)
    requires entries != [] && head <= later <= |log| && 1 <= first <= later + 1
  {
    Interleaved(AsStreams(Sent(entries, head, request)), Span(log, first, later + 1), queue)
  }

  /** No commit came before a stream that was sent. */
  ghost predicate InOrder<D>(entries: seq<Entry<D>>, head: nat, log: seq<D>, request: Request, first: nat, later: nat,
                             queue: seq<Stream<D>>)
    requires entries != [] && head <= later <= |log| && 1 <= first <= later + 1
  {
    queue == AsStreams(Sent(entries, head, request)) + Span(log, first, later + 1)
  }

  lemma SentIffNeeded<D>(entries: seq<Entry<D>>, head: nat, request: Request, e: Entry<D>)
    requires Consecutive(entries, head) && ReplyVersion(entries[0].version, request) <= head
    ensures e in Sent(entries, head, request) <==>
      e in entries && Needed(ReplyVersion(entries[0].version, request), head, request, e.version)
  {
    var oldest := entries[0].version;
    BetweenContains(entries, SendFrom(oldest, head, request), SendTo(oldest, head, request), e);
  }

  ghost predicate Ascends<D>(s: seq<Entry<D>>) {
    forall i, j :: 0 <= i < j < |s| ==> s[i].version < s[j].version
  }

  lemma {:induction false} BetweenAscends<D>(entries: seq<Entry<D>>, from: int, upto: int)
    requires Ascends(entries)
    ensures Ascends(Between(entries, from, upto))
  {
    if entries != [] {
      var rest := Between(entries[1..], from, upto);
      BetweenAscends(entries[1..], from, upto);
      forall j | 0 <= j < |rest| ensures entries[0].version < rest[j].version {
        BetweenContains(entries[1..], from, upto, rest[j]);
        assert rest[j] in entries[1..];
      }
      var s := Between(entries, from, upto);
      forall i, j | 0 <= i < j < |s| ensures s[i].version < s[j].version {
        if s == [entries[0]] + rest {
          assert s[j] == rest[j - 1] && (i > 0 ==> s[i] == rest[i - 1]);
        }
      }
    }
  }

  lemma SentAscends<D>(entries: seq<Entry<D>>, head: nat, request: Request)
    requires Consecutive(entries, head)
    ensures Ascends(Sent(entries, head, request))
  {
    var oldest := entries[0].version;
    forall i, j | 0 <= i < j < |entries| ensures entries[i].version < entries[j].version {
      assert entries[i].version + (j - i) == entries[j].version;
    }
    BetweenAscends(entries, SendFrom(oldest, head, request), SendTo(oldest, head, request));
  }

  /** A request for an available version, whose cached range is known to the master. */
  ghost predicate Mappable<D>(entries: seq<Entry<D>>, head: nat, log: seq<D>, request: Request) {
    && Stores(entries, head, log) && ReplyVersion(entries[0].version, request) <= head
    && (request.useCache ==> 1 <= request.minCached <= request.maxCached <= head)
  }

  /** The master leaves the end of the span to the slave's cache. */
  predicate CacheHasEnd(reply: nat, head: nat, request: Request) {
    request.useCache && request.maxCached == head && reply < request.minCached
  }

  lemma SentSpan<D>(entries: seq<Entry<D>>, head: nat, log: seq<D>, request: Request)
    requires Mappable(entries, head, log, request)
    ensures var reply := ReplyVersion(entries[0].version, request);
      AsStreams(Sent(entries, head, request)) ==
        if CacheHasEnd(reply, head, request) then Span(log, reply, request.minCached)
        else Span(log, SendFrom(entries[0].version, head, request), head + 1)
  {
    var oldest := entries[0].version;
    var from, upto := SendFrom(oldest, head, request), SendTo(oldest, head, request);
    if from > upto {
      BetweenNone(entries, from, upto);
    } else {
      BetweenIsSpan(entries, oldest, from, upto, log);
    }
  }

  /**
   Without the cache the queue is exactly the committed versions from the reply version on, each once and in order, if
   and only if no commit came before a stream that was sent and the first commit received is the one after the head.
   */
  lemma UncachedSlaveGetsHistoryIff<D>(entries: seq<Entry<D>>, head: nat, log: seq<D>, request: Request,
                                       first: nat, later: nat, queue: seq<Stream<D>>)
    requires Mappable(entries, head, log, request) && head <= later <= |log| && !request.useCache
    requires 1 <= first <= later + 1 && Received(entries, head, log, request, first, later, queue)
    ensures queue == Span(log, ReplyVersion(entries[0].version, request), later + 1)
      <==> InOrder(entries, head, log, request, first, later, queue) && first == head + 1
  {
    hide Span, Between, AsStreams, Interleaved, Sent;
    var reply := ReplyVersion(entries[0].version, request);
    SentSpan(entries, head, log, request);
    if queue == Span(log, reply, later + 1) {
      assert [] + queue + [] == queue;
      PartInOrder([], queue, [], log, reply, later + 1);
      InterleavedSpans(log, reply, head + 1, first, later + 1, queue);
      if first <= later {
        SpanAt(log, first, later + 1, 0);
        assert queue[head + 1 - reply].version == first;
      }
    }
    if first == head + 1 {
      SpanJoin(log, reply, head + 1, later + 1);
    }
  }

  /** When the queue, received in order, and the cache make up all committed versions from the reply on. */
  predicate NothingMissed(oldest: nat, head: nat, request: Request, first: nat, later: nat, cacheTo: nat) {
    var reply := ReplyVersion(oldest, request);
    if first > later then later == head || later < cacheTo
    else if CacheHasEnd(reply, head, request) then first == request.minCached
    else if SendFrom(oldest, head, request) > head then reply <= first <= cacheTo
    else first == head + 1
  }

  /**
   With the cache, to which versions may have been appended since it was advertised, the slave ends up with exactly
   the committed versions from the reply version on, each once and in order, if and only if no commit came before a
   stream that was sent and the first commit received leaves no gap: it follows the head, or the versions that were
   sent if the end of the history was left to the cache, or the cache reaches it if nothing was sent.
   */
  lemma CachedSlaveGetsHistoryIff<D>(entries: seq<Entry<D>>, head: nat, log: seq<D>, request: Request,
                                     first: nat, later: nat, queue: seq<Stream<D>>, cacheTo: nat)
    requires Mappable(entries, head, log, request) && head <= later <= |log| && request.useCache
    requires request.maxCached < cacheTo <= |log| + 1
    requires 1 <= first <= later + 1 && Received(entries, head, log, request, first, later, queue)
    ensures var oldest := entries[0].version;
      var reply := ReplyVersion(oldest, request);
      Merge(Span(log, request.minCached, cacheTo), queue, reply) == Span(log, reply, Max(later + 1, cacheTo))
      <==> InOrder(entries, head, log, request, first, later, queue) && NothingMissed(oldest, head, request, first, later, cacheTo)
  {
    hide Earlier, Later, Span, Between, AsStreams, Interleaved, Merge, Sent;
    var oldest := entries[0].version;
    var reply, min, end := ReplyVersion(oldest, request), request.minCached, Max(later + 1, cacheTo);
    var cache := Span(log, min, cacheTo);
    SentSpan(entries, head, log, request);
    var from := if CacheHasEnd(reply, head, request) then reply else SendFrom(oldest, head, request);
    var upto := if CacheHasEnd(reply, head, request) then min else head + 1;
    if Merge(cache, queue, reply) == Span(log, reply, end) {
      MergedInOrder(cache, queue, log, reply, end);
      InterleavedSpans(log, from, upto, first, later + 1, queue);
    }
    if InOrder(entries, head, log, request, first, later, queue) {
      MergeJoined(log, min, cacheTo, from, upto, first, later + 1, reply, queue);
    }
  }

  /** If everything comes over one connection, no commit overtakes the reply and the slave always gets the history. */
  lemma OneConnectionGetsHistory<D>(entries: seq<Entry<D>>, head: nat, log: seq<D>, request: Request,
                                    queue: seq<Stream<D>>, cacheTo: nat)
    requires Mappable(entries, head, log, request) && head <= |log| && Received(entries, head, log, request, head + 1, head, queue)
    requires request.useCache ==> request.maxCached < cacheTo <= |log| + 1
    ensures var reply := ReplyVersion(entries[0].version, request);
      if request.useCache then
        Merge(Span(log, request.minCached, cacheTo), queue, reply) == Span(log, reply, Max(head + 1, cacheTo))
      else
        queue == Span(log, reply, head + 1)
  {
    hide Interleaved, Merge, Between, Sent, AsStreams;
    NoSpan(log, head + 1);
    NothingBetween(AsStreams(Sent(entries, head, request)), queue);
    assert queue + [] == queue;
    if request.useCache {
      CachedSlaveGetsHistoryIff(entries, head, log, request, head + 1, head, queue, cacheTo);
    } else {
      UncachedSlaveGetsHistoryIff(entries, head, log, request, head + 1, head, queue);
    }
  }

  /** From a complete queue the map data is applied first, and every later version follows. */
  lemma AppliedFirst<D>(log: seq<D>, reply: nat, end: nat)
    requires 1 <= reply < end <= |log| + 1
    ensures Applied(Span(log, reply, end), reply) == Some(Span(log, reply + 1, end))
  {
  }

  // ---- what can go wrong ----

  /**
   The end of the history is left to the cache, map data and reply go over the multicast connection, and the commit of
   version 3, over the unicast connection of the only slave, comes between the two.
   */
  lemma CommitBeforeReply()
    ensures var log, entries, request := ['a', 'b', 'c'], [Entry(1, 0, 'a'), Entry(2, 2, 'b')], Request(1, true, 2, 2);
      var queue := [Stream(1, 'a'), Stream(3, 'c')];
      && Mappable(entries, 2, log, request) && Received(entries, 2, log, request, 3, 3, queue)
      && Merge(Span(log, 2, 4), queue, 1) == queue
  {
    var log, entries, request := ['a', 'b', 'c'], [Entry(1, 0, 'a'), Entry(2, 2, 'b')], Request(1, true, 2, 2);
    ThreeVersions(log);
    SentSpan(entries, 2, log, request);
    assert [Stream(1, 'a')] + [Stream(3, 'c')] == [Stream(1, 'a'), Stream(3, 'c')];
    Concatenated([Stream(1, 'a')], [Stream(3, 'c')]);
    CacheTooLate();
  }

  lemma CacheTooLate()
    ensures Merge([Stream(2, 'b'), Stream(3, 'c')], [Stream(1, 'a'), Stream(3, 'c')], 1) == [Stream(1, 'a'), Stream(3, 'c')]
  {
    var cache := [Stream(2, 'b'), Stream(3, 'c')];
    assert cache[1..] == [Stream(3, 'c')] && cache[1..][1..] == [];
    assert Earlier(cache, 1, 1) == [] && Later(cache, 1, 1, 3) == [];
  }

  /** Without any cache, the commit of version 3 comes before the map data: applying the map data throws it away. */
  lemma CommitBeforeMapData()
    ensures var log, entries, request := ['a', 'b', 'c'], [Entry(1, 0, 'a'), Entry(2, 2, 'b')], Request(1, false, 0, 0);
      var queue := [Stream(3, 'c'), Stream(1, 'a'), Stream(2, 'b')];
      && Mappable(entries, 2, log, request) && Received(entries, 2, log, request, 3, 3, queue)
      && Applied(queue, 1) == Some([Stream(2, 'b')])
  {
    var log, entries, request := ['a', 'b', 'c'], [Entry(1, 0, 'a'), Entry(2, 2, 'b')], Request(1, false, 0, 0);
    var sent, commits := [Stream(1, 'a'), Stream(2, 'b')], [Stream(3, 'c')];
    var queue := [Stream(3, 'c'), Stream(1, 'a'), Stream(2, 'b')];
    ThreeVersions(log);
    SentSpan(entries, 2, log, request);
    assert queue[1..] == sent == sent + [] && commits[1..] == [];
    Concatenated(sent, []);
    assert sent[1..] == [Stream(2, 'b')];
  }

  lemma ThreeVersions(log: seq<char>)
    requires log == ['a', 'b', 'c']
    ensures Span(log, 1, 2) == [Stream(1, 'a')] && Span(log, 3, 4) == [Stream(3, 'c')]
    ensures Span(log, 1, 3) == [Stream(1, 'a'), Stream(2, 'b')] && Span(log, 2, 4) == [Stream(2, 'b'), Stream(3, 'c')]
  {
    assert Span(log, 2, 2) == [] && Span(log, 3, 3) == [] && Span(log, 4, 4) == [];
    assert Span(log, 2, 3) == [Stream(2, 'b')];
  }
}
