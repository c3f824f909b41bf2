/**
 Mapping from end to end: the request announces what the slave's instance cache holds and pins it, the master sends
 the rest of its history, and the reply merges both into the versions the slave will apply.
 */
module MapReplies {
  import opened Arithmetic
  import opened MasterHistory
  import opened Mapping
  import opened FullMaster
  import IC = InstanceCaches
  import CP = CachePins

  /** The request as the master sees it: the cache only counts if it is of the same master instance. */
  function RequestOf(version: nat, r: CP.Request, instance: nat): Request
    requires r.Cached? ==> r.streams != []
  {
    if r.Uncached? then Request(version, false, 0, 0)
    else Request(version, r.master == instance, r.streams[0].version, r.streams[|r.streams| - 1].version)
  }

  /** The cached streams with their data: a stream holds what the master committed as its version. */
  function Contents<D>(streams: seq<IC.Stream>, data: nat -> D): seq<CachedStream<D>> {
    if streams == [] then []
    else [CachedStream(streams[0].version, data(streams[0].version), streams[0].ready)] + Contents(streams[1..], data)
  }

  ghost predicate Genuine<D(!new)>(data: nat -> D, log: seq<D>) {
    forall v: nat :: 1 <= v <= |log| ==> data(v) == log[v - 1]
  }

  /** How many cached streams come before the first incomplete one from the start version on. */
  function Complete(streams: seq<IC.Stream>, start: nat): (n: nat)
    ensures n <= |streams|
    ensures forall i :: 0 <= i < n && streams[i].version >= start ==> streams[i].ready
    ensures n < |streams| ==> streams[n].version >= start && !streams[n].ready
  {
    if streams == [] || (streams[0].version >= start && !streams[0].ready) then 0
    else
      var n := 1 + Complete(streams[1..], start);
      assert forall i :: 0 < i < n ==> streams[i] == streams[1..][i - 1];
      n
  }

  predicate ConsecutiveFrom(streams: seq<IC.Stream>, first: nat) {
    forall i :: 0 <= i < |streams| ==> streams[i].version == first + i
  }

  /** The usable part of a run of cached streams is a span of the committed versions. */
  lemma {:induction false} UsableIsSpan<D(!new)>(streams: seq<IC.Stream>, first: nat, data: nat -> D, log: seq<D>, start: nat)
    requires ConsecutiveFrom(streams, first) && Genuine(data, log) && 1 <= first && first + |streams| <= |log| + 1
    ensures Usable(Contents(streams, data), start) == Span(log, first, first + Complete(streams, start))
    decreases |streams|
  {
    if streams != [] {
      var cache := Contents(streams, data);
      assert streams[0].version == first && data(first) == log[first - 1];
      assert cache[0] == CachedStream(first, data(first), streams[0].ready) && cache[1..] == Contents(streams[1..], data);
      forall i | 0 <= i < |streams[1..]| ensures streams[1..][i].version == first + 1 + i {
        assert streams[1..][i] == streams[i + 1];
      }
      UsableIsSpan(streams[1..], first + 1, data, log, start);
    }
  }

  /** All announced streams were complete. */
  predicate AllReady(streams: seq<IC.Stream>) {
    forall i :: 0 <= i < |streams| ==> streams[i].ready
  }

  /** At the reply the announced streams are still there, so the usable run of the item covers the announced range. */
  lemma AnnouncedUsable(items: IC.Items, requests: CP.Requests, r: nat, start: nat)
    requires IC.AllShaped(items) && CP.Pinning(items, requests) && r in requests && requests[r].Cached?
    requires AllReady(requests[r].streams)
    ensures requests[r].id in items
    ensures var announced, now := requests[r].streams, items[requests[r].id].versions;
      && announced != [] && now != [] && now[0].version == announced[0].version
      && ConsecutiveFrom(now, announced[0].version)
      && announced[|announced| - 1].version == announced[0].version + |announced| - 1
      && |announced| <= Complete(now, start)
  {
    var item := items[requests[r].id];
    assert CP.Holds(item, requests[r]) && IC.Shaped(item);
    var announced, now := requests[r].streams, item.versions;
    assert now[0].version == announced[0].version;
    assert now[|announced| - 1].version == announced[|announced| - 1].version;
    assert forall i :: 0 <= i < |announced| ==> now[i].ready;
  }

  /**
   End to end: for a request sent with announced versions, answered in any reachable state of the slave, merging the
   pinned item with what the slave received gives exactly the committed versions from the reply on, each once and in
   order, if and only if no commit came before a stream that was sent and none is missing between what was sent, the
   cache and the first commit received.
   */
  lemma MappedSlaveGetsHistoryIff<D(!new)>(
      items: IC.Items, requests: CP.Requests, r: nat, version: nat, data: nat -> D,
      entries: seq<Entry<D>>, head: nat, log: seq<D>, first: nat, later: nat, queue: seq<Stream<D>>)
    requires IC.AllShaped(items) && CP.Pinning(items, requests) && r in requests && requests[r].Cached?
    requires requests[r].streams != [] && AllReady(requests[r].streams) && requests[r].id in items
    requires var request := RequestOf(version, requests[r], requests[r].master);
      && Mappable(entries, head, log, request) && head <= later <= |log| && 1 <= first <= later + 1
      && Received(entries, head, log, request, first, later, queue)
    requires var streams := items[requests[r].id].versions;
      Genuine(data, log) && (streams != [] ==> streams[0].version + |streams| <= |log| + 1)
    ensures var request := RequestOf(version, requests[r], requests[r].master);
      var streams, oldest := items[requests[r].id].versions, entries[0].version;
      var reply := ReplyVersion(oldest, request);
      && streams != [] && reply <= Max(later + 1, streams[0].version + Complete(streams, reply)) <= |log| + 1
      && var cacheTo := streams[0].version + Complete(streams, reply);
         Merge(Usable(Contents(streams, data), reply), queue, reply) == Span(log, reply, Max(later + 1, cacheTo))
         <==> InOrder(entries, head, log, request, first, later, queue)
              && NothingMissed(oldest, head, request, first, later, cacheTo)
  {
    hide IC.AllShaped, CP.Pinning, Merge, Usable, Received, InOrder, NothingMissed, Span, Contents, Sent, AllReady, Genuine;
    var request := RequestOf(version, requests[r], requests[r].master);
    var streams, reply := items[requests[r].id].versions, ReplyVersion(entries[0].version, request);
    AnnouncedUsable(items, requests, r, reply);
    var from := streams[0].version;
    UsableIsSpan(streams, from, data, log, reply);
    CachedSlaveGetsHistoryIff(entries, head, log, request, first, later, queue, from + Complete(streams, reply));
  }

  /** A cache of another master instance is not used, and the condition is that of a slave without a cache. */
  lemma OtherInstanceGetsHistoryIff<D>(r: CP.Request, version: nat, instance: nat,
                                       entries: seq<Entry<D>>, head: nat, log: seq<D>, first: nat, later: nat,
                                       queue: seq<Stream<D>>)
    requires r.Cached? ==> r.streams != [] && r.master != instance
    requires Mappable(entries, head, log, RequestOf(version, r, instance)) && head <= later <= |log| && 1 <= first <= later + 1
    requires Received(entries, head, log, RequestOf(version, r, instance), first, later, queue)
    ensures var request := RequestOf(version, r, instance);
      queue == Span(log, ReplyVersion(entries[0].version, request), later + 1)
      <==> InOrder(entries, head, log, request, first, later, queue) && first == head + 1
  {
    UncachedSlaveGetsHistoryIff(entries, head, log, RequestOf(version, r, instance), first, later, queue);
  }

  /** _cmdMapReply: the slave merges the pinned item into what it received, and the pin is given back. */
  method MapReply<D>(store: CP.ObjectStore, slave: VersionedSlaveCM<D>, r: nat, reply: nat, useCache: bool, data: nat -> D)
    requires store.Valid() && r in store.requests && (useCache ==> store.requests[r].Cached?)
    modifies store, store.cache, slave
    ensures store.Valid() && store.requests == old(store.requests) - {r}
    ensures useCache ==> old(store.requests)[r].id in old(store.cache.items)
    ensures slave.queuedVersions ==
      if useCache then
        Merge(Usable(Contents(old(store.cache.items)[old(store.requests)[r].id].versions, data), reply),
              old(slave.queuedVersions), reply)
      else old(slave.queuedVersions)
  {
    hide *;
    var streams := store.Answer(r, useCache);
    if useCache {
      var cache := CacheContents(streams, data);
      slave.AddInstanceDatas(cache, reply);
    }
  }

  method CacheContents<D>(streams: seq<IC.Stream>, data: nat -> D) returns (cache: seq<CachedStream<D>>)
    ensures cache == Contents(streams, data)
  {
    cache := [];
    assert streams[0..] == streams;
    for i := 0 to |streams|
      invariant cache + Contents(streams[i..], data) == Contents(streams, data)
    {
      assert streams[i..][1..] == streams[i + 1..];
      cache := cache + [CachedStream(streams[i].version, data(streams[i].version), streams[i].ready)];
    }
  }

  /**
   The whole mapping on the objects: the reply of a master in this state, handled by a slave that has received what the
   master sent and the commits from `first` to `later` in some order, leaves the slave with exactly the history under
   the same condition.
   */
  method FinishMapping<D(!new)>(
      master: FullMasterCM<D>, store: CP.ObjectStore, slave: VersionedSlaveCM<D>, r: nat, version: nat, data: nat -> D,
      ghost log: seq<D>, ghost first: nat, ghost later: nat) returns (reply: nat)
    requires Inv(master.AsMaster()) && store.Valid() && r in store.requests && store.requests[r].Cached?
    requires store.requests[r].streams != [] && AllReady(store.requests[r].streams)
    requires store.requests[r].id in store.cache.items
    requires var request := RequestOf(version, store.requests[r], store.requests[r].master);
      && Mappable(master.entries, master.version, log, request) && master.version <= later <= |log| && 1 <= first <= later + 1
      && Received(master.entries, master.version, log, request, first, later, slave.queuedVersions)
    requires var streams := store.cache.items[store.requests[r].id].versions;
      Genuine(data, log) && (streams != [] ==> streams[0].version + |streams| <= |log| + 1)
    modifies store, store.cache, slave
    ensures store.Valid() && 1 <= reply <= later && old(master.entries) != []
    ensures var request := RequestOf(version, old(store.requests)[r], old(store.requests)[r].master);
      var streams, head, entries := old(store.cache.items)[old(store.requests)[r].id].versions, old(master.version), old(master.entries);
      && streams != [] && reply <= Max(later + 1, streams[0].version + Complete(streams, reply)) <= |log| + 1
      && var cacheTo := streams[0].version + Complete(streams, reply);
         slave.queuedVersions == Span(log, reply, Max(later + 1, cacheTo))
         <==> InOrder(entries, head, log, request, first, later, old(slave.queuedVersions))
              && NothingMissed(entries[0].version, head, request, first, later, cacheTo)
  {
    hide *;
    var oldest := OldestVersion(master);
    ghost var items, requests, head, entries := store.cache.items, store.requests, master.version, master.entries;
    assert IC.AllShaped(items) && CP.Pinning(items, requests) by {
      store.ValidParts();
      store.cache.ValidParts();
    }
    MappedSlaveGetsHistoryIff(items, requests, r, version, data, entries, head, log, first, later, slave.queuedVersions);
    ReplyOf(entries, head, log, requests[r], version);
    reply := if version == VERSION_OLDEST || version < oldest then oldest else version;
    MapReply(store, slave, r, reply, true, data);
  }

  lemma ReplyOf<D>(entries: seq<Entry<D>>, head: nat, log: seq<D>, r: CP.Request, version: nat)
    requires r.Cached? && r.streams != [] && Mappable(entries, head, log, RequestOf(version, r, r.master))
    ensures entries != []
    ensures var oldest := entries[0].version;
      var reply := ReplyVersion(oldest, RequestOf(version, r, r.master));
      1 <= reply <= head && reply == if version == VERSION_OLDEST || version < oldest then oldest else version
  {
  }

  method OldestVersion<D>(master: FullMasterCM<D>) returns (v: nat)
    requires Inv(master.AsMaster())
    ensures master.entries != [] && v == master.entries[0].version
  {
    v := master.entries[0].version;
  }
}
