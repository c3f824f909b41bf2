/**
 The slave side of mapping and syncing (co/objectStore.cpp): every request that announces cached versions pins their
 item in the instance cache, and its reply looks the item up again and unpins it.
 */
module CachePins {
  import opened Common
  import opened InstanceCaches

  /** A request waiting for its reply; a cached one remembers the streams it announced. */
  datatype Request = Uncached(id: Id) | Cached(id: Id, master: nat, streams: seq<Stream>)

  type Requests = map<nat, Request>

  /** CO_INSTANCE_ALL: a sync with any instance of the object. */
  const INSTANCE_ALL: nat := 0xffffffff

  ghost function PinsOf(requests: Requests, id: Id): set<nat> {
    set r | r in requests && requests[r].Cached? && requests[r].id == id
  }

  /** The access count of an item is the number of requests that announced it. */
  ghost predicate Counted(items: Items, requests: Requests) {
    && (forall k :: k in items ==> items[k].access == |PinsOf(requests, k)|)
    && forall r :: r in requests && requests[r].Cached? ==> requests[r].id in items
  }

  /** The announced streams are still the first ones of the item; complete ones are the same. */
  predicate Holds(item: Item, request: Request)
    requires request.Cached?
  {
    && item.master == request.master
    && 0 < |request.streams| <= |item.versions|
    && forall i :: 0 <= i < |request.streams| ==>
         && item.versions[i].version == request.streams[i].version
         && (request.streams[i].ready ==> item.versions[i] == request.streams[i])
  }

  predicate Announced(items: Items, requests: Requests) {
    forall r :: r in requests && requests[r].Cached? ==>
      requests[r].id in items && Holds(items[requests[r].id], requests[r])
  }

  ghost predicate Pinning(items: Items, requests: Requests) {
    Counted(items, requests) && Announced(items, requests)
  }

  // ---- how the cache may change under outstanding requests ----

  lemma RequestPins(items: Items, requests: Requests, r: nat)
    requires Counted(items, requests) && r in requests && requests[r].Cached?
    ensures requests[r].id in items && items[requests[r].id].access > 0
  {
    assert r in PinsOf(requests, requests[r].id);
  }

  lemma HoldsLonger(was: Item, now: Item, request: Request)
    requires request.Cached? && Holds(was, request) && PinKept(was, now)
    ensures Holds(now, request)
  {
  }

  /** Whatever keeps pinned items keeps what the requests announced. */
  lemma PinningKept(was: Items, now: Items, requests: Requests)
    requires Pinning(was, requests) && PinsKept(was, now)
    ensures Pinning(now, requests)
  {
    forall r | r in requests && requests[r].Cached?
      ensures requests[r].id in now && Holds(now[requests[r].id], requests[r])
    {
      RequestPins(was, requests, r);
      HoldsLonger(was[requests[r].id], now[requests[r].id], requests[r]);
    }
    forall k | k in now ensures now[k].access == |PinsOf(requests, k)| {
      if k !in was {
        assert PinsOf(requests, k) == {};
      }
    }
  }

  lemma EvictedKeepsPins(was: Items, now: Items)
    requires EvictedFrom(was, now)
    ensures PinsKept(was, now)
  {
  }

  lemma RemovedEvicts(was: Items, now: Items, node: nat)
    requires AllShaped(was) && RemovedFrom(was, now, node)
    ensures EvictedFrom(was, now)
  {
  }

  lemma ExpiredEvicts(was: Items, now: Items, time: int)
    requires AllShaped(was) && ExpiredFrom(was, now, time)
    ensures EvictedFrom(was, now)
  {
  }

  lemma PinsOfAdd(requests: Requests, r: nat, request: Request, k: Id)
    requires r !in requests
    ensures PinsOf(requests[r := request], k) ==
      PinsOf(requests, k) + if request.Cached? && request.id == k then {r} else {}
  {
  }

  lemma PinsOfRemove(requests: Requests, r: nat, k: Id)
    requires r in requests
    ensures PinsOf(requests - {r}, k) == PinsOf(requests, k) - {r}
    ensures r in PinsOf(requests, k) <==> requests[r].Cached? && requests[r].id == k
  {
  }

  lemma AnnounceCounts(items: Items, requests: Requests, r: nat, id: Id, request: Request)
    requires Counted(items, requests) && r !in requests && id in items && request.Cached? && request.id == id
    ensures Counted(items[id := Pinned(items[id], 1)], requests[r := request])
  {
    var now, more := items[id := Pinned(items[id], 1)], requests[r := request];
    forall k | k in now ensures now[k].access == |PinsOf(more, k)| {
      PinsOfAdd(requests, r, request, k);
      assert r !in PinsOf(requests, k);
    }
  }

  lemma AnnounceHolds(items: Items, requests: Requests, r: nat, id: Id)
    requires Announced(items, requests) && r !in requests && id in items && items[id].versions != []
    ensures Announced(items[id := Pinned(items[id], 1)],
      requests[r := Cached(id, items[id].master, items[id].versions)])
  {
    var now := items[id := Pinned(items[id], 1)];
    var more := requests[r := Cached(id, items[id].master, items[id].versions)];
    forall q | q in more && more[q].Cached? ensures more[q].id in now && Holds(now[more[q].id], more[q]) {
      assert q != r ==> Holds(items[more[q].id], more[q]);
    }
  }

  /** Announcing an item while pinning it. */
  lemma AnnounceKeeps(items: Items, requests: Requests, r: nat, id: Id)
    requires Pinning(items, requests) && r !in requests && id in items && items[id].versions != []
    ensures Pinning(items[id := Pinned(items[id], 1)],
      requests[r := Cached(id, items[id].master, items[id].versions)])
  {
    AnnounceCounts(items, requests, r, id, Cached(id, items[id].master, items[id].versions));
    AnnounceHolds(items, requests, r, id);
  }

  lemma UncachedKeeps(items: Items, requests: Requests, r: nat, id: Id)
    requires Pinning(items, requests) && r !in requests
    ensures Pinning(items, requests[r := Uncached(id)])
  {
    forall k ensures PinsOf(requests[r := Uncached(id)], k) == PinsOf(requests, k) {
      PinsOfAdd(requests, r, Uncached(id), k);
    }
  }

  /** Pinning an item and unpinning it as often leaves it as it was, but for its usage. */
  lemma PinUnpin(items: Items, id: Id, requests: Requests)
    requires id in items && Pinning(items, requests)
    ensures Pinning(items[id := Unpinned(Pinned(items[id], 1), 1)], requests)
  {
  }

  lemma AnswerCounts(items: Items, requests: Requests, r: nat, item: Item)
    requires Counted(items, requests) && r in requests && requests[r].Cached? && requests[r].id in items
    requires item.access == items[requests[r].id].access - 1
    ensures Counted(items[requests[r].id := item], requests - {r})
  {
    var id := requests[r].id;
    var now, fewer := items[id := item], requests - {r};
    forall k | k in now ensures now[k].access == |PinsOf(fewer, k)| {
      PinsOfRemove(requests, r, k);
    }
  }

  lemma AnswerHolds(items: Items, requests: Requests, r: nat, item: Item)
    requires Announced(items, requests) && r in requests && requests[r].Cached? && requests[r].id in items
    requires var was := items[requests[r].id]; item.master == was.master && item.versions == was.versions
    ensures Announced(items[requests[r].id := item], requests - {r})
  {
    var now, fewer := items[requests[r].id := item], requests - {r};
    forall q | q in fewer && fewer[q].Cached? ensures fewer[q].id in now && Holds(now[fewer[q].id], fewer[q]) {
      assert Holds(items[fewer[q].id], fewer[q]);
    }
  }

  /** Answering a request takes back its pin. */
  lemma AnswerKeeps(items: Items, requests: Requests, r: nat, item: Item)
    requires Pinning(items, requests) && r in requests && requests[r].Cached? && requests[r].id in items
    requires var was := items[requests[r].id];
      was.access > 0 && item == was.(access := was.access - 1, used := item.used)
    ensures Pinning(items[requests[r].id := item], requests - {r})
  {
    AnswerCounts(items, requests, r, item);
    AnswerHolds(items, requests, r, item);
  }

  lemma AnswerUncachedKeeps(items: Items, requests: Requests, r: nat)
    requires Pinning(items, requests) && r in requests && requests[r].Uncached?
    ensures Pinning(items, requests - {r})
  {
    forall k ensures PinsOf(requests - {r}, k) == PinsOf(requests, k) {
      PinsOfRemove(requests, r, k);
    }
  }

  class ObjectStore {
    const cache: InstanceCache
    var requests: Requests

    ghost predicate Valid()
      reads this, cache
    {
      cache.Valid() && Pinning(cache.items, requests)
    }

    constructor (cache: InstanceCache)
      requires cache.Valid() && cache.items == map[]
      ensures Valid() && requests == map[] && this.cache == cache
    {
      this.cache, requests := cache, map[];
    }

    /** mapNB with _checkInstanceCache: pins and announces the cached versions, if there are any. */
    method MapNB(r: nat, id: Id)
      requires Valid() && r !in requests
      modifies this, cache`items
      ensures Valid()
      ensures requests == old(requests)[r :=
        if id in old(cache.items) then Cached(id, old(cache.items)[id].master, old(cache.items)[id].versions) else Uncached(id)]
      ensures cache.items == if id in old(cache.items) then old(cache.items)[id := Pinned(old(cache.items)[id], 1)]
                             else old(cache.items)
    {
      hide *;
      assert cache.Valid() && Pinning(cache.items, requests) by { ValidParts(); }
      assert NoneEmpty(cache.items) by { cache.ValidParts(); }
      AnnouncementKeeps(cache.items, requests, r, id);
      var found := cache.Get(id);
      if found {
        requests := requests[r := Cached(id, cache.items[id].master, cache.items[id].versions)];
      } else {
        requests := requests[r := Uncached(id)];
      }
      Revalidate();
    }

    /** _startSync: as for mapping, but the cache is not used for another instance than the requested one. */
    method StartSync(r: nat, id: Id, instance: nat)
      requires Valid() && r !in requests
      modifies this, cache
      ensures Valid()
      ensures requests == old(requests)[r :=
        if id in old(cache.items) && (instance == INSTANCE_ALL || instance == old(cache.items)[id].master)
        then Cached(id, old(cache.items)[id].master, old(cache.items)[id].versions) else Uncached(id)]
    {
      hide *;
      assert cache.Valid() && Pinning(cache.items, requests) by { ValidParts(); }
      assert NoneEmpty(cache.items) by { cache.ValidParts(); }
      ghost var was := cache.items;
      AnnouncementKeeps(was, requests, r, id);
      var found := cache.Get(id);
      if found && (instance == INSTANCE_ALL || instance == cache.items[id].master) {
        requests := requests[r := Cached(id, cache.items[id].master, cache.items[id].versions)];
      } else if found {
        PinUnpin(was, id, requests);
        UncachedKeeps(was[id := Unpinned(Pinned(was[id], 1), 1)], requests, r, id);
        ghost var back := was[id := Unpinned(Pinned(was[id], 1), 1)];
        assert back == cache.items[id := Unpinned(cache.items[id], 1)];
        UnpinnedIs(cache.items[id], 1);
        var released := cache.Release(id, 1);
        EvictedKeepsPins(back, cache.items);
        PinningKept(back, cache.items, requests[r := Uncached(id)]);
        requests := requests[r := Uncached(id)];
      } else {
        requests := requests[r := Uncached(id)];
      }
      Revalidate();
    }

    /** The part of _cmdMapReply and _cmdSyncReply that reads the cached streams and gives the pin back. */
    method Answer(r: nat, useCache: bool) returns (streams: seq<Stream>)
      requires Valid() && r in requests && (useCache ==> requests[r].Cached?)
      modifies this, cache
      ensures Valid() && requests == old(requests) - {r}
      ensures useCache ==> old(requests)[r].id in old(cache.items) && streams == old(cache.items)[old(requests)[r].id].versions
      ensures useCache ==> StillThere(streams, old(requests)[r].streams)
    {
      hide *;
      assert cache.Valid() && Pinning(cache.items, requests) by { ValidParts(); }
      var id := requests[r].id;
      ghost var was := cache.items;
      streams := [];
      if requests[r].Cached? {
        AnswerParts(was, requests, r);
        ghost var item;
        if useCache {
          var found := cache.Get(id);
          streams := cache.items[id].versions;
          item := Unpinned(Pinned(was[id], 1), 2);
          AnswerKeeps(was, requests, r, item);
          assert was[id := item] == cache.items[id := Unpinned(cache.items[id], 2)];
          var released := cache.Release(id, 2);
        } else {
          item := Unpinned(was[id], 1);
          AnswerKeeps(was, requests, r, item);
          var released := cache.Release(id, 1);
        }
        EvictedKeepsPins(was[id := item], cache.items);
        PinningKept(was[id := item], cache.items, requests - {r});
      } else {
        AnswerUncachedKeeps(was, requests, r);
      }
      requests := requests - {r};
      Revalidate();
    }

    /** _cmdInstance: instance data enters the cache. */
    method AddInstance(c: Command, usage: nat, now: int)
      requires Valid()
      modifies cache
      ensures Valid() && PinsKept(old(cache.items), cache.items)
      ensures old(cache.Valid()) && Next(cache.maxSize, Op.Add(c, usage, now), old(cache.AsCache()), cache.AsCache())
    {
      hide *;
      assert cache.Valid() && Pinning(cache.items, requests) by { ValidParts(); }
      ghost var was := cache.items;
      var entered := cache.Add(c, usage, now);
      PinningKept(was, cache.items, requests);
      Revalidate();
    }

    /** Unmapping or swapping an object drops its item unless it is pinned. */
    method DropInstance(id: Id)
      requires Valid()
      modifies cache
      ensures Valid() && PinsKept(old(cache.items), cache.items)
      ensures cache.items ==
        if id in old(cache.items) && old(cache.items)[id].access == 0 then old(cache.items) - {id} else old(cache.items)
    {
      hide *;
      assert cache.Valid() && Pinning(cache.items, requests) by { ValidParts(); }
      ghost var was := cache.items;
      assert AllShaped(was) && NoneEmpty(was) by { cache.ValidParts(); }
      var erased := cache.Erase(id);
      if erased {
        EvictedErase(was, id);
        EvictedKeepsPins(was, cache.items);
        PinningKept(was, cache.items, requests);
      } else {
        PinsKeptRefl(was);
      }
      Revalidate();
    }

    /** removeInstanceData of a node that went away. */
    method RemoveInstanceData(node: nat)
      requires Valid()
      modifies cache
      ensures Valid() && PinsKept(old(cache.items), cache.items)
      ensures RemovedFrom(old(cache.items), cache.items, node)
    {
      hide *;
      assert cache.Valid() && Pinning(cache.items, requests) by { ValidParts(); }
      ghost var was := cache.items;
      assert AllShaped(was) && NoneEmpty(was) by { cache.ValidParts(); }
      cache.Remove(node);
      RemovedEvicts(was, cache.items, node);
      EvictedKeepsPins(was, cache.items);
      PinningKept(was, cache.items, requests);
      Revalidate();
    }

    /** expireInstanceData. */
    method ExpireInstanceData(clock: int, age: int)
      requires Valid()
      modifies cache
      ensures Valid() && PinsKept(old(cache.items), cache.items)
      ensures if clock - age <= 0 then cache.items == old(cache.items) else ExpiredFrom(old(cache.items), cache.items, clock - age)
    {
      hide *;
      assert cache.Valid() && Pinning(cache.items, requests) by { ValidParts(); }
      ghost var was := cache.items;
      assert AllShaped(was) && NoneEmpty(was) by { cache.ValidParts(); }
      cache.Expire(clock, age);
      if clock - age > 0 {
        ExpiredEvicts(was, cache.items, clock - age);
        EvictedKeepsPins(was, cache.items);
        PinningKept(was, cache.items, requests);
      } else {
        PinsKeptRefl(was);
      }
      Revalidate();
    }

    /**
     _cmdSyncReply: takes the newest cached stream. It is the newest one announced exactly if nothing was added to the
     item since; otherwise it is a later version, or has more data, and it need not be complete.
     */
    method AnswerSync(r: nat, useCache: bool) returns (stream: Option<Stream>)
      requires Valid() && r in requests && (useCache ==> requests[r].Cached?)
      modifies this, cache
      ensures Valid() && requests == old(requests) - {r} && stream.Some? == useCache
      ensures useCache ==>
        && old(requests)[r].id in old(cache.items)
        && StillThere(old(cache.items)[old(requests)[r].id].versions, old(requests)[r].streams)
        && var announced, now := old(requests)[r].streams, old(cache.items)[old(requests)[r].id].versions;
           && stream.value == now[|now| - 1]
           && stream.value.version == announced[0].version + |now| - 1 >= announced[|announced| - 1].version
           && (stream.value.version == announced[|announced| - 1].version <==> |now| == |announced|)
           && (announced[|announced| - 1].ready ==>
                 (stream.value == announced[|announced| - 1] <==> |now| == |announced|))
    {
      hide *;
      assert AllShaped(cache.items) by { ValidParts(); cache.ValidParts(); }
      assert Pinning(cache.items, requests) by { ValidParts(); }
      if useCache {
        NewestCached(cache.items, requests, r);
      }
      var streams := Answer(r, useCache);
      stream := if useCache then Some(streams[|streams| - 1]) else None;
    }

    lemma ValidParts()
      requires Valid()
      ensures cache.Valid() && Pinning(cache.items, requests)
    {
    }

    lemma Revalidate()
      requires cache.Valid() && Pinning(cache.items, requests)
      ensures Valid()
    {
    }
  }

  predicate StillThere(streams: seq<Stream>, announced: seq<Stream>) {
    && 0 < |announced| <= |streams|
    && forall i :: 0 <= i < |announced| ==>
         && streams[i].version == announced[i].version
         && (announced[i].ready ==> streams[i] == announced[i])
  }

  lemma AnnouncementKeeps(items: Items, requests: Requests, r: nat, id: Id)
    requires Pinning(items, requests) && r !in requests && NoneEmpty(items)
    ensures id !in items ==> Pinning(items, requests[r := Uncached(id)])
    ensures id in items ==>
      && Pinned(items[id], 1).master == items[id].master && Pinned(items[id], 1).versions == items[id].versions
      && Pinned(items[id], 1).access >= 1
      && Pinning(items[id := Pinned(items[id], 1)], requests[r := Cached(id, items[id].master, items[id].versions)])
  {
    if id in items {
      AnnounceKeeps(items, requests, r, id);
    } else {
      UncachedKeeps(items, requests, r, id);
    }
  }

  /** The newest stream of a pinned item, compared with the newest one announced. */
  lemma NewestCached(items: Items, requests: Requests, r: nat)
    requires AllShaped(items) && Pinning(items, requests) && r in requests && requests[r].Cached?
    ensures requests[r].id in items
    ensures var announced, now := requests[r].streams, items[requests[r].id].versions;
      && StillThere(now, announced)
      && 0 < |announced| <= |now|
      && now[|now| - 1].version == announced[0].version + |now| - 1 >= announced[|announced| - 1].version
      && (now[|now| - 1].version == announced[|announced| - 1].version <==> |now| == |announced|)
      && (announced[|announced| - 1].ready ==> (now[|now| - 1] == announced[|announced| - 1] <==> |now| == |announced|))
  {
    var item := items[requests[r].id];
    assert Holds(item, requests[r]) && Shaped(item);
    var announced, now := requests[r].streams, item.versions;
    assert now[|announced| - 1].version == announced[|announced| - 1].version;
  }

  lemma AnswerParts(items: Items, requests: Requests, r: nat)
    requires Pinning(items, requests) && r in requests && requests[r].Cached?
    ensures requests[r].id in items
    ensures var item := items[requests[r].id];
      && item.access >= 1 && Pinned(item, 1).access >= 2 && Pinned(item, 1).versions == item.versions
      && StillThere(item.versions, requests[r].streams)
      && Unpinned(item, 1) == item.(access := item.access - 1)
      && Unpinned(Pinned(item, 1), 2) == item.(access := item.access - 1, used := item.used + 1)
  {
    RequestPins(items, requests, r);
  }
}
