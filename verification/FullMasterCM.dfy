/** The buffered master change managers: the history fields and the operations that update them in place. */
module FullMaster {
  import opened Arithmetic
  import opened Common
  import opened MasterHistory
  import opened Mapping

  class FullMasterCM<D> {
    var entries: seq<Entry<D>>
    var version: nat
    var commitCount: nat
    var nVersions: nat
    /** Whether the delta stream sent data the last time it was used; it keeps that between commits. */
    var deltaSent: bool

    ghost function AsMaster(): Master<D>
      reads this
    {
      Master(entries, version, commitCount, nVersions)
    }

    constructor (data: D)
      ensures AsMaster() == Init(data) && Inv(AsMaster()) && !deltaSent
    {
      entries, version, commitCount, nVersions := [Entry(1, 0, data)], 1, 1, 0;
      deltaSent := false;
    }

    method SetAutoObsolete(count: nat)
      requires Inv(AsMaster())
      modifies this
      ensures AsMaster() == MasterHistory.SetAutoObsolete(old(AsMaster()), count) && Inv(AsMaster())
      ensures deltaSent == old(deltaSent)
    {
      nVersions := count;
      ObsoleteOld();
    }

    method UpdateCommitCount(incarnation: Incarnation)
      requires entries != []
      modifies this
      ensures AsMaster() == MasterHistory.UpdateCommitCount(old(AsMaster()), incarnation)
      ensures commitCount == if incarnation.Next? then old(commitCount) + 1 else incarnation.count
      ensures NonDecreasing(old(AsMaster()), incarnation) ==> entries == old(entries) && version == old(version)
      ensures nVersions == old(nVersions) && deltaSent == old(deltaSent)
    {
      if incarnation.Next? {
        commitCount := commitCount + 1;
        return;
      }
      if incarnation.count >= commitCount {
        commitCount := incarnation.count;
        return;
      }
      commitCount := incarnation.count;
      while |entries| > 1 && entries[|entries| - 1].commitCount > commitCount
        invariant entries != [] && DropLater(entries, commitCount) == DropLater(old(entries), commitCount)
        invariant version == old(version) && commitCount == incarnation.count && nVersions == old(nVersions)
        invariant deltaSent == old(deltaSent)
        decreases |entries|
      {
        entries := entries[..|entries| - 1];
      }
      var last := entries[|entries| - 1];
      if last.commitCount > commitCount {
        entries := entries[..|entries| - 1] + [last.(commitCount := 0)];
        version := last.version;
      }
    }

    method ObsoleteOld()
      requires Consecutive(entries, version) && CountsAscend(entries, commitCount)
      modifies this`entries
      ensures AsMaster() == Prune(old(AsMaster())) && Inv(AsMaster())
      ensures |entries| <= |old(entries)| && entries == old(entries)[|old(entries)| - |entries|..]
      ensures entries[|entries| - 1] == old(entries)[|old(entries)| - 1]
    {
      PruneInv(AsMaster());
      ghost var k := ObsoleteIsSuffix(entries, commitCount, nVersions);
      while |entries| > 1 && commitCount > nVersions
        invariant entries != []
        invariant Obsolete(entries, commitCount, nVersions) == Obsolete(old(entries), commitCount, nVersions)
        decreases |entries|
      {
        if entries[0].commitCount >= commitCount - nVersions {
          break;
        }
        entries := entries[1..];
      }
    }

    /** The part of _commit that makes a version. */
    method AddInstanceData(data: D)
      requires Consecutive(entries, version) && CountsAscend(entries, commitCount)
      modifies this`entries, this`version
      ensures Consecutive(entries, version) && CountsAscend(entries, commitCount)
      ensures AsMaster() == AddVersion(old(AsMaster()), data) && version == old(version) + 1
      ensures entries[|entries| - 1] == Entry(version, commitCount, data)
    {
      entries := entries + [Entry(version + 1, commitCount, data)];
      version := version + 1;
    }

    /** FullMasterCM::commit; `dirty` and `data` are what the object reports and serialises. */
    method Commit(incarnation: Incarnation, dirty: bool, data: Option<D>) returns (head: nat)
      requires Inv(AsMaster()) && NonDecreasing(AsMaster(), incarnation)
      modifies this
      ensures AsMaster() == MasterHistory.Commit(old(AsMaster()), incarnation, if dirty then data else None)
      ensures Inv(AsMaster()) && head == version
      ensures commitCount == if incarnation.Next? then old(commitCount) + 1 else incarnation.count
      ensures version == old(version) + if dirty && data.Some? then 1 else 0
      ensures dirty && data.Some? ==> entries[|entries| - 1] == Entry(version, commitCount, data.value)
    {
      hide Obsolete;
      UpdateCommitCount(incarnation);
      if dirty && data.Some? {
        AddInstanceData(data.value);
      }
      ObsoleteOld();
      head := version;
    }

    /**
     DeltaMasterCM::commit: with slaves, a version is made if the delta has data; without, if the instance data
     has data or the delta stream's flag is still set from an earlier commit.
     */
    method CommitDelta(incarnation: Incarnation, dirty: bool, hasSlaves: bool, delta: bool, instanceSent: bool, data: D)
      returns (head: nat)
      requires Inv(AsMaster()) && NonDecreasing(AsMaster(), incarnation)
      modifies this
      ensures deltaSent == if dirty && hasSlaves then delta else old(deltaSent)
      ensures var commits := dirty && (if hasSlaves then delta else old(deltaSent) || instanceSent);
        && AsMaster() == MasterHistory.Commit(old(AsMaster()), incarnation, if commits then Some(data) else None)
        && Inv(AsMaster()) && version == old(version) + (if commits then 1 else 0)
        && (commits ==> entries[|entries| - 1] == Entry(version, commitCount, data))
      ensures commitCount == if incarnation.Next? then old(commitCount) + 1 else incarnation.count
      ensures Inv(AsMaster()) && head == version
    {
      hide Obsolete;
      UpdateCommitCount(incarnation);
      if dirty {
        if hasSlaves {
          deltaSent := delta;
        }
        if !hasSlaves || deltaSent {
          if deltaSent || instanceSent {
            AddInstanceData(data);
          }
        }
      }
      ObsoleteOld();
      head := version;
    }

    /** FullMasterCM::_initSlave: the version replied and the stored versions sent, in order. */
    method InitSlave(request: Request) returns (reply: nat, sent: seq<Entry<D>>)
      requires Inv(AsMaster())
      ensures reply == ReplyVersion(entries[0].version, request) && sent == Sent(entries, version, request)
      ensures request.version < entries[0].version || request.version == VERSION_OLDEST ==> reply == entries[0].version
      ensures entries[0].version <= request.version <= version && request.version != VERSION_OLDEST ==> reply == request.version
      ensures !request.useCache && entries[0].version <= request.version <= version && request.version != VERSION_OLDEST ==>
        forall e :: e in sent <==> e in entries && request.version <= e.version <= version
      ensures reply <= version ==> forall e :: e in sent <==> e in entries && Needed(reply, version, request, e.version)
      ensures Ascends(sent)
    {
      var oldest := entries[0].version;
      var start := if request.version == VERSION_OLDEST || request.version < oldest then oldest else request.version;
      var end: int := version;
      reply := start;
      if request.useCache {
        if request.minCached <= start && request.maxCached >= start {
          start := request.maxCached + 1;
        } else if request.maxCached == end {
          end := Max(start, request.minCached - 1);
        }
      }
      sent := SendBetween(start, end);
      if reply <= version {
        forall e ensures e in sent <==> e in entries && Needed(reply, version, request, e.version) {
          SentIffNeeded(entries, version, request, e);
        }
      }
      SentAscends(entries, version, request);
    }

    method SendBetween(start: nat, end: int) returns (sent: seq<Entry<D>>)
      requires Consecutive(entries, version)
      ensures sent == Between(entries, start, end)
    {
      hide Between;
      var i := 0;
      assert entries[0..] == entries;
      while i < |entries| && entries[i].version < start
        invariant 0 <= i <= |entries|
        invariant Between(entries[i..], start, end) == Between(entries, start, end)
      {
        assert entries[i..][1..] == entries[i + 1..];
        BetweenFirst(entries[i..], start, end);
        i := i + 1;
      }
      sent := [];
      while i < |entries| && entries[i].version <= end
        invariant 0 <= i <= |entries| && (i < |entries| ==> start <= entries[i].version)
        invariant sent + Between(entries[i..], start, end) == Between(entries, start, end)
      {
        assert entries[i..][1..] == entries[i + 1..];
        BetweenFirst(entries[i..], start, end);
        sent := sent + [entries[i]];
        i := i + 1;
      }
      BetweenNone(entries[i..], start, end);
    }
  }

  lemma BetweenFirst<D>(entries: seq<Entry<D>>, start: int, end: int)
    requires entries != []
    ensures Between(entries, start, end) ==
      (if start <= entries[0].version <= end then [entries[0]] else []) + Between(entries[1..], start, end)
  {
  }

  function Reverse<T>(s: seq<T>): seq<T> {
    if s == [] then [] else Reverse(s[1..]) + [s[0]]
  }

  lemma NothingSplit<D>(start: nat, oldest: nat, newest: nat)
    ensures Earlier<D>([], start, oldest) == [] && Later<D>([], start, oldest, newest) == [] && Reverse<Stream<D>>([]) == []
    ensures Usable<D>([], start) == []
  {
  }

  lemma UsableFirst<D>(cache: seq<CachedStream<D>>, start: nat)
    requires cache != []
    ensures if cache[0].version >= start && !cache[0].ready then Usable(cache, start) == []
      else
        && Usable(cache, start) != [] && Usable(cache, start)[0] == Stream(cache[0].version, cache[0].data)
        && Usable(cache, start)[1..] == Usable(cache[1..], start)
  {
  }

  lemma SplitFirst<D>(cache: seq<Stream<D>>, start: nat, oldest: nat, newest: nat)
    requires cache != []
    ensures Earlier(cache, start, oldest) ==
      (if start <= cache[0].version < oldest then [cache[0]] else []) + Earlier(cache[1..], start, oldest)
    ensures Later(cache, start, oldest, newest) ==
      (if start <= cache[0].version && oldest <= cache[0].version && newest < cache[0].version then [cache[0]] else [])
        + Later(cache[1..], start, oldest, newest)
  {
  }

  lemma ReverseFirst<T>(x: T, s: seq<T>)
    ensures Reverse([x] + s) == Reverse(s) + [x]
  {
    assert ([x] + s)[1..] == s;
  }

  class VersionedSlaveCM<D> {
    var queuedVersions: seq<Stream<D>>

    constructor ()
      ensures queuedVersions == []
    {
      queuedVersions := [];
    }

    /** Merges cached streams into the queue of received versions. */
    method AddInstanceDatas(cache: seq<CachedStream<D>>, startVersion: nat)
      modifies this
      ensures queuedVersions == Merge(Usable(cache, startVersion), old(queuedVersions), startVersion)
    {
      var oldest, newest := 0, 0;
      if queuedVersions != [] {
        oldest := queuedVersions[0].version;
        newest := queuedVersions[|queuedVersions| - 1].version;
      }
      var head, tail := SplitCache(cache, startVersion, oldest, newest);
      PushFrontAll(head);
      queuedVersions := queuedVersions + tail;
    }

    /** The streams that go before the queue, newest first, and those that go behind it. */
    static method SplitCache(cache: seq<CachedStream<D>>, startVersion: nat, oldest: nat, newest: nat)
      returns (head: seq<Stream<D>>, tail: seq<Stream<D>>)
      ensures Reverse(head) == Earlier(Usable(cache, startVersion), startVersion, oldest)
      ensures tail == Later(Usable(cache, startVersion), startVersion, oldest, newest)
    {
      hide Earlier, Later, Reverse, Usable;
      head, tail := [], [];
      NothingSplit<D>(startVersion, oldest, newest);
      assert cache[0..] == cache;
      ghost var all := Usable(cache, startVersion);
      for i := 0 to |cache|
        invariant Reverse(head) + Earlier(Usable(cache[i..], startVersion), startVersion, oldest)
               == Earlier(all, startVersion, oldest)
        invariant tail + Later(Usable(cache[i..], startVersion), startVersion, oldest, newest)
               == Later(all, startVersion, oldest, newest)
      {
        assert cache[i..][0] == cache[i] && cache[i..][1..] == cache[i + 1..];
        UsableFirst(cache[i..], startVersion);
        var stream := Stream(cache[i].version, cache[i].data);
        if stream.version >= startVersion && !cache[i].ready {
          assert Reverse(head) + [] == Reverse(head) && tail + [] == tail;
          return;
        }
        SplitFirst(Usable(cache[i..], startVersion), startVersion, oldest, newest);
        ReverseFirst(stream, head);
        if stream.version >= startVersion {
          if stream.version < oldest {
            head := [stream] + head;
          } else if stream.version > newest {
            tail := tail + [stream];
          }
        }
      }
      assert cache[|cache|..] == [];
      assert Reverse(head) + [] == Reverse(head) && tail + [] == tail;
    }

    /** applyMapData: the data of the mapped version, and what is queued behind it; None if it has to wait. */
    method ApplyMapData(version: nat) returns (data: Option<D>)
      modifies this
      ensures match Applied(old(queuedVersions), version)
        case None => data == None && queuedVersions == []
        case Some(rest) => data.Some? && queuedVersions == rest && Stream(version, data.value) in old(queuedVersions)
    {
      ghost var was := queuedVersions;
      while queuedVersions != []
        invariant Applied(queuedVersions, version) == Applied(was, version)
        invariant forall s :: s in queuedVersions ==> s in was
        decreases |queuedVersions|
      {
        var first := queuedVersions[0];
        queuedVersions := queuedVersions[1..];
        if first.version == version {
          return Some(first.data);
        }
      }
      return None;
    }

    method PushFrontAll(head: seq<Stream<D>>)
      modifies this
      ensures queuedVersions == Reverse(head) + old(queuedVersions)
    {
      for i := 0 to |head|
        invariant Reverse(head[i..]) + queuedVersions == Reverse(head) + old(queuedVersions)
      {
        assert head[i..][1..] == head[i + 1..];
        queuedVersions := [head[i]] + queuedVersions;
      }
    }
  }
}
