/**
 The instance cache (co/instanceCache.cpp): per object a run of consecutive versions, pinned while accessed, and
 evicted oldest first when the cache grows beyond its size.
 */
module InstanceCaches {
  import opened Arithmetic

  type Id = nat

  /** ObjectDataIStream as the cache sees it: the version, the bytes received and whether the last command arrived. */
  datatype Stream = Stream(version: nat, size: nat, ready: bool)

  datatype Item = Item(master: nat, from: nat, versions: seq<Stream>, times: seq<int>, used: nat, access: nat)

  type Items = map<Id, Item>

  /** _size is a uint64_t. */
  const WORD: nat := 0x1_0000_0000_0000_0000

  // ---- sums over the stored items ----

  function Bytes(versions: seq<Stream>): nat {
    if versions == [] then 0 else (if versions[0].ready then versions[0].size else 0) + Bytes(versions[1..])
  }

  /** Bytes received for streams that are not complete. */
  function Incomplete(versions: seq<Stream>): nat {
    if versions == [] then 0 else (if versions[0].ready then 0 else versions[0].size) + Incomplete(versions[1..])
  }

  function ItemBytes(item: Item): nat { Bytes(item.versions) }
  function ItemIncomplete(item: Item): nat { Incomplete(item.versions) }
  function ItemCount(item: Item): nat { |item.versions| }

  ghost function Sum(items: Items, f: Item -> nat): nat {
    if items == map[] then 0
    else
      var k :| k in items;
      f(items[k]) + Sum(items - {k}, f)
  }

  lemma {:induction false} SumRemove(items: Items, f: Item -> nat, k: Id)
    requires k in items
    ensures Sum(items, f) == f(items[k]) + Sum(items - {k}, f)
    decreases |items|
  {
    var c :| c in items && Sum(items, f) == f(items[c]) + Sum(items - {c}, f);
    if c != k {
      var a, b := items - {c}, items - {k};
      assert a.Keys == items.Keys - {c} && b.Keys == items.Keys - {k};
      SumRemove(a, f, k);
      SumRemove(b, f, c);
      assert a - {k} == b - {c};
    }
  }

  lemma SumUpdate(items: Items, f: Item -> nat, k: Id, item: Item)
    ensures Sum(items[k := item], f) == Sum(items - {k}, f) + f(item)
    ensures k in items ==> Sum(items[k := item], f) == Sum(items, f) - f(items[k]) + f(item)
  {
    SumRemove(items[k := item], f, k);
    assert items[k := item] - {k} == items - {k};
    if k in items {
      SumRemove(items, f, k);
    }
  }

  lemma {:induction false} BytesAppend(versions: seq<Stream>, s: Stream)
    ensures Bytes(versions + [s]) == Bytes(versions) + if s.ready then s.size else 0
    ensures Incomplete(versions + [s]) == Incomplete(versions) + if s.ready then 0 else s.size
  {
    if versions != [] {
      BytesAppend(versions[1..], s);
      assert (versions + [s])[1..] == versions[1..] + [s];
    } else {
      assert (versions + [s])[1..] == [];
    }
  }

  lemma WordSub(total: int, size: nat, part: nat)
    requires size == total % WORD
    ensures (size - part) % WORD == (total - part) % WORD && (size + part) % WORD == (total + part) % WORD
  {
    ModShift(size - part, WORD, total / WORD);
    ModShift(size + part, WORD, total / WORD);
  }

  // ---- what the cache keeps ----

  /** The versions of an item are consecutive and each has its arrival time; a pinned item counts as used. */
  predicate Shaped(item: Item) {
    && |item.times| == |item.versions|
    && (forall i :: 0 <= i < |item.versions| ==> item.versions[i].version == item.versions[0].version + i)
    && (item.access > 0 ==> item.used > 0 && item.versions != [])
  }

  predicate AllShaped(items: Items) {
    forall k :: k in items ==> Shaped(items[k])
  }

  predicate NoneEmpty(items: Items) {
    forall k :: k in items ==> items[k].versions != []
  }

  predicate AllPinned(items: Items) {
    forall k :: k in items ==> items[k].access > 0
  }

  ghost function Total(items: Items): nat { Sum(items, ItemBytes) }

  /** Bytes of the stored incomplete streams. */
  ghost function Partial(items: Items): nat { Sum(items, ItemIncomplete) }

  /**
   The size counts the bytes of all stored complete streams, less those of incomplete streams that were deleted:
   they are subtracted although they were never added. `owed` are the bytes of incomplete streams, stored or deleted.
   */
  ghost predicate Accounted(items: Items, size: nat, drift: nat, owed: int) {
    size == (Total(items) - drift) % WORD && drift + Partial(items) == owed
  }

  /** The item lost some of its oldest streams and nothing else. */
  predicate Trimmed(was: Item, now: Item) {
    && |was.times| == |was.versions| && |now.times| == |now.versions| <= |was.versions|
    && now.versions == was.versions[|was.versions| - |now.versions|..]
    && now.times == was.times[|was.times| - |now.times|..]
    && now == was.(versions := now.versions, times := now.times)
  }

  /** Eviction only trims or removes unpinned items. */
  predicate EvictedFrom(was: Items, now: Items) {
    && (forall k :: k in now ==> k in was && Trimmed(was[k], now[k]))
    && forall k :: k in was && was[k].access > 0 ==> k in now && now[k] == was[k]
  }

  /** Every remaining item is pinned or below the usage limit. */
  predicate NothingEvictable(items: Items, minUsage: nat) {
    forall k :: k in items ==> items[k].access > 0 || items[k].used < minUsage
  }

  function WithoutFirst(item: Item): (r: Item)
    requires item.versions != [] && |item.times| == |item.versions|
    ensures Trimmed(item, r)
  {
    item.(versions := item.versions[1..], times := item.times[1..])
  }

  /** An item without its complete streams not younger than the time, up to the first other one. */
  function Aged(item: Item, minTime: int): (r: Item)
    requires |item.times| == |item.versions|
    decreases |item.versions|
  {
    if item.versions == [] || item.times[0] > minTime || !item.versions[0].ready then item
    else Aged(WithoutFirst(item), minTime)
  }

  /** Ageing drops exactly the leading streams that are complete and old. */
  lemma {:induction false} AgedDropsOld(item: Item, minTime: int)
    requires |item.times| == |item.versions|
    ensures var r := Aged(item, minTime);
      && Trimmed(item, r)
      && (r.versions == [] || r.times[0] > minTime || !r.versions[0].ready)
      && forall i :: 0 <= i < |item.versions| - |r.versions| ==> item.times[i] <= minTime && item.versions[i].ready
    decreases |item.versions|
  {
    if item.versions == [] || item.times[0] > minTime || !item.versions[0].ready {
      assert Aged(item, minTime) == item;
    } else {
      var rest, r := WithoutFirst(item), Aged(item, minTime);
      AgedDropsOld(rest, minTime);
      TrimmedTwice(item, rest, r);
      forall i | 0 <= i < |item.versions| - |r.versions| ensures item.times[i] <= minTime && item.versions[i].ready {
        assert i > 0 ==> item.times[i] == rest.times[i - 1] && item.versions[i] == rest.versions[i - 1];
      }
    }
  }

  lemma TrimmedTwice(a: Item, b: Item, c: Item)
    requires Trimmed(a, b) && Trimmed(b, c)
    ensures Trimmed(a, c)
  {
    assert a.versions[|a.versions| - |b.versions|..][|b.versions| - |c.versions|..] == a.versions[|a.versions| - |c.versions|..];
    assert a.times[|a.times| - |b.times|..][|b.times| - |c.times|..] == a.times[|a.times| - |c.times|..];
  }

  lemma TrimmedShaped(was: Item, now: Item)
    requires Shaped(was) && Trimmed(was, now) && was.access == 0
    ensures Shaped(now)
  {
    var n := |was.versions| - |now.versions|;
    forall i | 0 <= i < |now.versions| ensures now.versions[i].version == now.versions[0].version + i {
      assert now.versions[i] == was.versions[n + i] && now.versions[0] == was.versions[n];
    }
  }

  class InstanceCache {
    var items: Items
    var size: nat
    const maxSize: nat
    /** The size to shrink to, four fifths of the maximum in floating point. */
    const target: nat
    /** Bytes of incomplete streams deleted so far. */
    ghost var drift: nat
    /** Bytes of incomplete streams that are stored or were deleted. */
    ghost var owed: int
    /** The size before the last stream was deleted. */
    ghost var previous: nat

    ghost predicate Valid()
      reads this
    {
      target <= maxSize && AllShaped(items) && NoneEmpty(items) && Accounted(items, size, drift, owed)
    }

    ghost function AsCache(): Cache
      reads this
    {
      Cache(items, size)
    }

    constructor (maxSize: nat, target: nat)
      requires target <= maxSize
      ensures Valid() && items == map[] && size == 0 && drift == 0 && this.maxSize == maxSize && this.target == target
    {
      this.maxSize, this.target := maxSize, target;
      items, size, drift, owed, previous := map[], 0, 0, 0, 0;
    }

    /** _deleteStream of a stream just taken out of an item. */
    method DeleteStream(stream: Stream, ghost before: Items)
      requires Total(items) == Total(before) - (if stream.ready then stream.size else 0)
      requires Partial(items) == Partial(before) - (if stream.ready then 0 else stream.size)
      requires Accounted(before, size, drift, owed)
      modifies this`size, this`drift, this`previous
      ensures Accounted(items, size, drift, owed) && previous == old(size)
      ensures drift == old(drift) + if stream.ready then 0 else stream.size
    {
      WordSub(Total(before) - drift, size, stream.size);
      previous := size;
      size := (size - stream.size) % WORD;
      if !stream.ready {
        drift := drift + stream.size;
      }
    }

    /** _releaseFirstStream. */
    method ReleaseFirstStream(k: Id)
      requires k in items && items[k].versions != [] && Shaped(items[k]) && items[k].access == 0
      requires Accounted(items, size, drift, owed)
      modifies this`items, this`size, this`drift, this`previous
      ensures Accounted(items, size, drift, owed) && previous == old(size)
      ensures items == old(items)[k := WithoutFirst(old(items)[k])]
      ensures drift == old(drift) + if old(items)[k].versions[0].ready then 0 else old(items)[k].versions[0].size
    {
      var stream := items[k].versions[0];
      ghost var before := items;
      var trimmed := WithoutFirst(items[k]);
      SumUpdate(items, ItemBytes, k, trimmed);
      SumUpdate(items, ItemIncomplete, k, trimmed);
      items := items[k := trimmed];
      DeleteStream(stream, before);
    }

    /** Stores an item with the same complete streams. */
    method Replace(k: Id, item: Item)
      requires Accounted(items, size, drift, owed)
      requires ItemBytes(item) == if k in items then ItemBytes(items[k]) else 0
      requires ItemIncomplete(item) == if k in items then ItemIncomplete(items[k]) else 0
      modifies this`items
      ensures Accounted(items, size, drift, owed) && items == old(items)[k := item]
    {
      SumUpdate(items, ItemBytes, k, item);
      SumUpdate(items, ItemIncomplete, k, item);
      assert k !in items ==> items - {k} == items;
      items := items[k := item];
    }

    /** One step of _releaseStreams. */
    method ReleaseLastStream(k: Id)
      requires k in items && items[k].versions != [] && Accounted(items, size, drift, owed)
      modifies this`items, this`size, this`drift, this`previous
      ensures Accounted(items, size, drift, owed)
      ensures items == old(items)[k := old(items)[k].(versions := old(items)[k].versions[..|old(items)[k].versions| - 1])]
      ensures drift + Incomplete(items[k].versions) == old(drift) + Incomplete(old(items)[k].versions)
    {
      ghost var before := items;
      var item := items[k];
      var stream := item.versions[|item.versions| - 1];
      var rest := item.versions[..|item.versions| - 1];
      BytesAppend(rest, stream);
      assert item.versions == rest + [stream];
      SumUpdate(items, ItemBytes, k, item.(versions := rest));
      SumUpdate(items, ItemIncomplete, k, item.(versions := rest));
      items := items[k := item.(versions := rest)];
      DeleteStream(stream, before);
    }

    /** _releaseStreams: all streams, newest first. */
    method ReleaseStreams(k: Id)
      requires k in items && items[k].access == 0 && Accounted(items, size, drift, owed)
      modifies this`items, this`size, this`drift, this`previous
      ensures Accounted(items, size, drift, owed) && drift == old(drift) + Incomplete(old(items)[k].versions)
      ensures items == old(items)[k := old(items)[k].(versions := [], times := [])]
    {
      hide Accounted, Sum;
      ghost var was := items;
      while items[k].versions != []
        invariant k in items && Accounted(items, size, drift, owed)
        invariant items == was[k := was[k].(versions := items[k].versions)]
        invariant drift + Incomplete(items[k].versions) == old(drift) + Incomplete(was[k].versions)
        decreases |items[k].versions|
      {
        ReleaseLastStream(k);
      }
      Replace(k, items[k].(times := []));
    }

    /** _releaseStreams with a time. */
    method ReleaseOldStreams(k: Id, minTime: int)
      requires k in items && Shaped(items[k]) && items[k].access == 0 && Accounted(items, size, drift, owed)
      modifies this`items, this`size, this`drift, this`previous
      ensures Accounted(items, size, drift, owed) && drift == old(drift)
      ensures items == old(items)[k := Aged(old(items)[k], minTime)]
    {
      ghost var was := items;
      while items[k].versions != [] && items[k].times[0] <= minTime && items[k].versions[0].ready
        invariant k in items && Accounted(items, size, drift, owed) && drift == old(drift)
        invariant Shaped(items[k]) && items[k].access == 0 && items == was[k := items[k]]
        invariant Aged(items[k], minTime) == Aged(was[k], minTime)
        decreases |items[k].versions|
      {
        TrimmedShaped(items[k], WithoutFirst(items[k]));
        ReleaseFirstStream(k);
      }
    }

    /** First pass of _releaseItems: one stream of each evictable item, in any order of the hash map. */
    method ReleaseFirstStreams(minUsage: nat) returns (keys: seq<Id>, streamsLeft: bool)
      requires AllShaped(items) && NoneEmpty(items) && Accounted(items, size, drift, owed)
      modifies this`items, this`size, this`drift, this`previous
      ensures AllShaped(items) && Accounted(items, size, drift, owed) && Shrunk(old(items), items, keys, minUsage)
      ensures size <= target || Visited(items, keys, {}, minUsage)
      ensures streamsLeft == AnyLeft(items, keys) && Distinct(keys)
      ensures items == old(items) || previous > target
    {
      hide Shrunk, Trimmed, Shaped, AllShaped, Accounted, Sum;
      keys, streamsLeft := [], false;
      ghost var was := items;
      var todo := items.Keys;
      UntrimmedShrunk(items, minUsage);
      while todo != {} && size > target
        invariant AllShaped(items) && Accounted(items, size, drift, owed)
        invariant Shrunk(was, items, keys, minUsage) && Visited(items, keys, todo, minUsage)
        invariant forall k :: k in todo ==> k in items && items[k].versions != [] && k !in keys
        invariant streamsLeft == AnyLeft(items, keys) && Distinct(keys)
        invariant items == was || previous > target
        decreases todo
      {
        var k :| k in todo;
        todo := todo - {k};
        if items[k].access == 0 && items[k].used >= minUsage {
          ShrinkOne(was, items, keys, minUsage, k);
          AnyLeftAfter(items, keys, k);
          ReleaseFirstOf(k);
          keys := keys + [k];
          if items[k].versions != [] {
            streamsLeft := true;
          }
        }
      }
    }

    /** _releaseFirstStream of an unpinned item of a shaped cache. */
    method ReleaseFirstOf(k: Id)
      requires k in items && items[k].versions != [] && AllShaped(items) && items[k].access == 0
      requires Accounted(items, size, drift, owed)
      modifies this`items, this`size, this`drift, this`previous
      ensures Accounted(items, size, drift, owed) && AllShaped(old(items)) && items == ReleasedFirst(old(items), k)
      ensures previous == old(size)
    {
      ReleaseFirstStream(k);
    }

    /** One round over the keys of the first pass: one more stream of each. */
    method ReleaseRound(keys: seq<Id>, minUsage: nat, ghost was: Items) returns (streamsLeft: bool)
      requires AllShaped(items) && Accounted(items, size, drift, owed) && Shrunk(was, items, keys, minUsage) && size > target
      requires AnyLeft(items, keys) && Distinct(keys)
      modifies this`items, this`size, this`drift, this`previous
      ensures AllShaped(items) && Accounted(items, size, drift, owed) && Shrunk(was, items, keys, minUsage)
      ensures Sum(items, ItemCount) < old(Sum(items, ItemCount))
      ensures streamsLeft ==> AnyLeft(items, keys)
      ensures size <= target || streamsLeft || !AnyLeft(items, keys)
      ensures previous > target
    {
      hide Shrunk, Trimmed, Shaped, AllShaped, Accounted, Sum, AnyLeft;
      streamsLeft := false;
      var i := 0;
      NoneLeft(items);
      while i < |keys| && size > target
        invariant 0 <= i <= |keys| && AllShaped(items) && Accounted(items, size, drift, owed)
        invariant Shrunk(was, items, keys, minUsage)
        invariant (Sum(items, ItemCount) < old(Sum(items, ItemCount)) && previous > target)
               || (items == old(items) && size == old(size) && !streamsLeft)
        invariant streamsLeft == AnyLeft(items, keys[..i])
      {
        var k := keys[i];
        assert k in keys && k !in keys[..i] && keys[..i + 1] == keys[..i] + [k];
        ShrunkKey(was, items, keys, minUsage, k);
        if items[k].versions != [] {
          ShrinkOne(was, items, keys, minUsage, k);
          CountDrops(items, k);
          AnyLeftAfter(items, keys[..i], k);
          ReleaseFirstOf(k);
          if items[k].versions != [] {
            streamsLeft := true;
          }
        } else {
          AnyLeftSkip(items, keys[..i], k);
        }
        i := i + 1;
      }
      assert keys[..|keys|] == keys;
      AnyLeftPrefix(items, keys, i);
    }

    /** Removes the named items that have no stream left. */
    method EraseEmpty(keys: seq<Id>, ghost was: Items, minUsage: nat)
      requires AllShaped(items) && Accounted(items, size, drift, owed) && Shrunk(was, items, keys, minUsage) && NoneEmpty(was)
      modifies this`items
      ensures Accounted(items, size, drift, owed) && AllShaped(items) && NoneEmpty(items) && EvictedFrom(was, items)
      ensures Erased(old(items), items, keys)
    {
      hide Accounted, Sum, Shaped, AllShaped, NoneEmpty, Shrunk, Trimmed, EvictedFrom;
      ghost var before := items;
      for i := 0 to |keys|
        invariant Accounted(items, size, drift, owed) && Erased(before, items, keys[..i])
      {
        var k := keys[i];
        ErasedNext(before, items, keys[..i], k);
        if k in items && items[k].versions == [] {
          AccountedErase(items, size, drift, owed, k);
          items := items - {k};
        }
        assert keys[..i + 1] == keys[..i] + [k];
      }
      assert keys[..|keys|] == keys;
      ErasedEvicts(was, before, items, keys, minUsage);
    }

    /** _releaseItems: evict streams of unpinned items used at least `minUsage` times until the target is met. */
    method ReleaseItems(minUsage: nat)
      requires target <= maxSize && AllShaped(items) && NoneEmpty(items) && Accounted(items, size, drift, owed)
      modifies this`items, this`size, this`drift, this`previous
      ensures AllShaped(items) && NoneEmpty(items) && Accounted(items, size, drift, owed) && EvictedFrom(old(items), items)
      ensures old(size) > maxSize ==> size <= target || NothingEvictable(items, minUsage)
      ensures items == old(items) || previous > target
      ensures drift == old(drift) + Partial(old(items)) - Partial(items)
      ensures old(size) <= maxSize ==> items == old(items) && size == old(size) && drift == old(drift)
    {
      hide Accounted, Sum, Shaped, AllShaped, NoneEmpty, Shrunk, Trimmed, EvictedFrom, AnyLeft, Visited, NothingEvictable;
      if size <= maxSize {
        NothingEvicted(items);
        return;
      }
      ghost var was := items;
      Owing(items, size, drift, owed);
      var keys, streamsLeft := ReleaseFirstStreams(minUsage);
      VisitedShrunk(was, items, keys, minUsage);
      while streamsLeft && size > target
        invariant AllShaped(items) && Accounted(items, size, drift, owed) && Shrunk(was, items, keys, minUsage)
        invariant size <= target || Visited(was, keys, {}, minUsage)
        invariant (streamsLeft ==> AnyLeft(items, keys)) && Distinct(keys)
        invariant size <= target || streamsLeft || !AnyLeft(items, keys)
        invariant items == was || previous > target
        decreases Sum(items, ItemCount)
      {
        streamsLeft := ReleaseRound(keys, minUsage, was);
      }
      ghost var before := items;
      EraseEmpty(keys, was, minUsage);
      NoneErased(was, items, keys);
      Owing(items, size, drift, owed);
      if size > target {
        VisitedShrunk(was, before, keys, minUsage);
        AllTaken(before, items, keys, minUsage);
      }
    }

    // ---- public operations ----

    /** The item for a command: a new one, the present one, or the present one emptied for a different master. */
    method Claim(c: Command, usage: nat) returns (ok: bool)
      requires AllShaped(items) && Accounted(items, size, drift, owed)
      modifies this`items, this`size, this`drift, this`previous
      ensures Accounted(items, size, drift, owed)
      ensures ok == !Refuses(old(items), c)
      ensures items == if ok then old(items)[c.id := Claimed(old(items), c, usage)] else old(items)
      ensures !ok || c.id !in old(items) || Claimed(old(items), c, usage).versions != [] ==>
                size == old(size) && drift == old(drift)
    {
      hide Sum, Accounted, AllShaped;
      if c.id !in items {
        Replace(c.id, Item(c.instance, c.node, [], [], 0, 0));
      }
      if items[c.id].master != c.instance || items[c.id].from != c.node {
        if items[c.id].access != 0 {
          return false;
        }
        ReleaseStreams(c.id);
        Replace(c.id, items[c.id].(master := c.instance, from := c.node, used := usage));
      } else {
        Replace(c.id, items[c.id].(used := Max(items[c.id].used, usage)));
      }
      return true;
    }

    /** Opens a stream for the command's version if needed; false if the command is not wanted. */
    method OpenStream(c: Command, now: int) returns (ok: bool)
      requires c.id in items && Shaped(items[c.id]) && Accounted(items, size, drift, owed)
      modifies this`items, this`size, this`drift, this`previous
      ensures Accounted(items, size, drift, owed)
      ensures ok == Wants(old(items)[c.id], c)
      ensures items == if ok then old(items)[c.id := Opened(old(items)[c.id], c, now)] else old(items)
      ensures !ok || old(items)[c.id].versions == [] ==> size == old(size) && drift == old(drift)
    {
      hide Sum, Accounted, Shaped;
      var item := items[c.id];
      if item.versions != [] {
        var back := item.versions[|item.versions| - 1];
        if back.version == c.version {
          assert items == items[c.id := item];
          return !back.ready;
        }
        if back.version > c.version {
          return false;
        }
        if back.version + 1 != c.version {
          if item.access != 0 {
            return false;
          }
          ReleaseStreams(c.id);
        }
      }
      item := items[c.id];
      var longer := item.(versions := item.versions + [Stream(c.version, 0, false)], times := item.times + [now]);
      assert [] + [Stream(c.version, 0, false)] == [Stream(c.version, 0, false)] && [] + [now] == [now];
      BytesAppend(item.versions, Stream(c.version, 0, false));
      Replace(c.id, longer);
      return true;
    }

    /** Adds the command to the item's last stream and counts the stream once it is complete. */
    method AddCommand(c: Command)
      requires c.id in items && Shaped(items[c.id]) && Accounted(items, size, drift, owed)
      requires items[c.id].versions != [] && !items[c.id].versions[|items[c.id].versions| - 1].ready
      modifies this`items, this`size, this`owed
      ensures Accounted(items, size, drift, owed) && items == old(items)[c.id := Grown(old(items)[c.id], c)]
      ensures owed == old(owed) + Partial(items) - Partial(old(items))
      ensures !c.last ==> size == old(size)
    {
      ghost var before := items;
      var item := items[c.id];
      var grown := Grown(item, c);
      var stream := grown.versions[|grown.versions| - 1];
      GrownBytes(item, c);
      SumUpdate(items, ItemBytes, c.id, grown);
      items := items[c.id := grown];
      owed := drift + Partial(items);
      if stream.ready {
        WordSub(Total(before) - drift, size, stream.size);
        size := (size + stream.size) % WORD;
      }
    }

    method Add(c: Command, usage: nat, now: int) returns (entered: bool)
      requires Valid()
      modifies this
      ensures Valid() && PinsKept(old(items), items) && entered == Enters(old(items), c, usage)
      ensures Next(maxSize, Op.Add(c, usage, now), old(AsCache()), AsCache())
      ensures drift == old(drift) + Lost(Op.Add(c, usage, now), old(items), items)
      ensures c.id !in old(items) && old(size) <= maxSize && !c.last ==>
        size == old(size) && drift == old(drift) && items == Added(old(items), c, usage, now)
    {
      hide *;
      ghost var was := items;
      assert AllShaped(was) && NoneEmpty(was) && Accounted(was, size, drift, owed) by { ValidParts(); }
      assert target <= maxSize by { ValidParts(); }
      ghost var op := Op.Add(c, usage, now);
      ClaimedNew(was, c, usage);
      EntersIff(was, c, usage, now);
      var ok := Claim(c, usage);
      if !ok {
        PinsKeptRefl(was);
        MovedIs(op, old(items), items);
        Conclude(op);
        return false;
      }
      ClaimedShaped(was, c, usage);
      ok := OpenStream(c, now);
      if !ok {
        ClaimedOnly(was, c, usage);
        MovedIs(op, old(items), items);
        Conclude(op);
        return false;
      }
      assert items == Reopened(was, c, usage, now);
      AddedShaped(was, c, usage, now);
      AddCommand(c);
      ghost var added := items;
      assert added == Added(was, c, usage, now);
      ReleaseItems(1);
      ghost var first := items;
      ReleaseItems(0);
      EvictedTwice(added, first, items);
      PinsKeptEvicted(was, added, items);
      NothingUnused(items);
      MovedIs(op, old(items), items);
      Conclude(op);
      return true;
    }

    /** operator[]: looks the item up and pins it. */
    method Get(id: Id) returns (found: bool)
      requires Valid()
      modifies this`items
      ensures Valid() && found == (id in old(items))
      ensures items == if found then old(items)[id := Pinned(old(items)[id], 1)] else old(items)
      ensures found ==> id in items && items[id] == old(items)[id].(access := old(items)[id].access + 1, used := old(items)[id].used + 1)
      ensures Next(maxSize, Op.Get(id), old(AsCache()), AsCache())
    {
      hide *;
      assert AllShaped(items) && NoneEmpty(items) && Accounted(items, size, drift, owed) && target <= maxSize by { ValidParts(); }
      PreparedKeeps(Op.Get(id), items);
      if id in items {
        Replace(id, Pinned(items[id], 1));
      }
      found := id in items;
      if found {
        PinnedIs(old(items)[id], 1);
      }
      MovedIs(Op.Get(id), old(items), items);
      Conclude(Op.Get(id));
    }

    method Release(id: Id, count: nat) returns (found: bool)
      requires Valid()
      requires id in items ==> items[id].access >= count
      modifies this`items, this`size, this`drift, this`previous
      ensures Valid() && found == (id in old(items))
      ensures Next(maxSize, Op.Release(id, count), old(AsCache()), AsCache())
      ensures drift == old(drift) + Lost(Op.Release(id, count), old(items), items)
      ensures found ==> EvictedFrom(old(items)[id := old(items)[id].(access := old(items)[id].access - count)], items)
      ensures !found ==> items == old(items)
    {
      hide *;
      assert AllShaped(items) && NoneEmpty(items) && Accounted(items, size, drift, owed) && target <= maxSize by { ValidParts(); }
      ghost var was, op := items, Op.Release(id, count);
      PreparedKeeps(op, was);
      found := id in items;
      if found {
        UnpinnedShaped(items, id, count);
        UnpinnedIs(items[id], count);
        Replace(id, Unpinned(items[id], count));
        ReleaseItems(1);
        UsedEvicted(was, id, count, items);
      }
      MovedIs(op, old(items), items);
      Conclude(op);
    }

    /** Removes an item unless it is pinned. */
    method Erase(id: Id) returns (erased: bool)
      requires Valid()
      modifies this`items, this`size, this`drift, this`previous
      ensures Valid() && erased == (id in old(items) && old(items)[id].access == 0)
      ensures items == if erased then old(items) - {id} else old(items)
      ensures drift == old(drift) + if erased then Incomplete(old(items)[id].versions) else 0
      ensures Next(maxSize, Op.Erase(id), old(AsCache()), AsCache())
    {
      hide *;
      assert AllShaped(items) && NoneEmpty(items) && Accounted(items, size, drift, owed) && target <= maxSize by { ValidParts(); }
      PreparedKeeps(Op.Erase(id), items);
      if id !in items || items[id].access != 0 {
        MovedIs(Op.Erase(id), old(items), items);
        Conclude(Op.Erase(id));
        return false;
      }
      ghost var was := items;
      EvictedErase(items, id);
      ReleaseStreams(id);
      AccountedErase(items, size, drift, owed, id);
      items := items - {id};
      assert items == was - {id};
      MovedIs(Op.Erase(id), old(items), items);
      Conclude(Op.Erase(id));
      return true;
    }

    /** remove: drops the unpinned items that came from a node. */
    method Remove(node: nat)
      requires Valid()
      modifies this`items, this`size, this`drift, this`previous
      ensures Valid() && RemovedFrom(old(items), items, node)
      ensures Next(maxSize, Op.Remove(node), old(AsCache()), AsCache())
      ensures drift == old(drift) + Lost(Op.Remove(node), old(items), items)
    {
      hide Accounted, Sum, Shaped, AllShaped, NoneEmpty, Incomplete;
      ghost var was := items;
      var keys: set<Id> := {};
      var todo := items.Keys;
      while todo != {}
        invariant todo <= was.Keys && Accounted(items, size, drift, owed) && drift >= old(drift)
        invariant keys == set k | k in was && k !in todo && was[k].from == node && was[k].access == 0
        invariant items == Emptied(was, keys)
        decreases todo
      {
        var k :| k in todo;
        todo := todo - {k};
        if items[k].from == node && items[k].access == 0 {
          ReleaseStreams(k);
          keys := keys + {k};
          assert items == Emptied(was, keys);
        }
      }
      EraseKeys(keys);
      assert items == Leftover(was, node);
      LeftoverKept(was, node);
      PreparedKeeps(Op.Remove(node), was);
      MovedIs(Op.Remove(node), old(items), items);
      Conclude(Op.Remove(node));
    }

    /** expire: drops the complete streams of unpinned items that are older than the time limit. */
    method Expire(clock: int, timeout: int)
      requires Valid()
      modifies this`items, this`size, this`drift, this`previous
      ensures Valid() && drift == old(drift)
      ensures if clock - timeout <= 0 then items == old(items) else ExpiredFrom(old(items), items, clock - timeout)
      ensures Next(maxSize, Op.Expire(clock - timeout), old(AsCache()), AsCache())
    {
      hide *;
      assert AllShaped(items) && NoneEmpty(items) && Accounted(items, size, drift, owed) && target <= maxSize by { ValidParts(); }
      var time := clock - timeout;
      PreparedKeeps(Op.Expire(time), items);
      if time <= 0 {
        MovedIs(Op.Expire(time), old(items), items);
        Conclude(Op.Expire(time));
        return;
      }
      ghost var was := items;
      var keys: set<Id> := {};
      var todo := items.Keys;
      AgingAll(was, time);
      while todo != {}
        invariant todo <= was.Keys && Accounted(items, size, drift, owed) && drift == old(drift)
        invariant keys <= was.Keys && items == Aging(was, todo, time)
        invariant keys == Outlived(was, items, todo)
        decreases todo
      {
        var k :| k in todo;
        AgingOne(was, todo, time, k);
        todo := todo - {k};
        if items[k].access == 0 {
          ReleaseOldStreams(k, time);
          if items[k].versions == [] {
            keys := keys + {k};
          }
        }
      }
      AgingDone(was, items, time);
      YoungKept(was, time);
      EraseKeys(keys);
      MovedIs(Op.Expire(time), old(items), items);
      Conclude(Op.Expire(time));
    }

    /** Erases items without streams from the map. */
    method EraseKeys(keys: set<Id>)
      requires Accounted(items, size, drift, owed)
      requires forall k :: k in keys ==> k in items && items[k].versions == []
      modifies this`items
      ensures Accounted(items, size, drift, owed) && items == old(items) - keys
    {
      hide Accounted;
      var todo := keys;
      ghost var was := items;
      while todo != {}
        invariant todo <= keys && items == was - (keys - todo) && Accounted(items, size, drift, owed)
        decreases todo
      {
        var k :| k in todo;
        AccountedErase(items, size, drift, owed, k);
        todo := todo - {k};
        items := items - {k};
      }
      assert keys - todo == keys;
    }

    lemma ValidParts()
      requires Valid()
      ensures target <= maxSize && AllShaped(items) && NoneEmpty(items) && Accounted(items, size, drift, owed)
    {
    }

    lemma Revalidate()
      requires target <= maxSize && AllShaped(items) && NoneEmpty(items) && Accounted(items, size, drift, owed)
      ensures Valid()
    {
    }

    /** The state after an operation, from its effect on the items and on the books. */
    twostate lemma Conclude(op: Op)
      requires Accounted(old(items), old(size), old(drift), old(owed)) && AllShaped(old(items))
      requires target <= maxSize && AllShaped(items) && NoneEmpty(items) && Accounted(items, size, drift, owed)
      requires owed - old(owed) == Partial(Prepared(op, old(items))) - Partial(Reopening(op, old(items)))
      requires Moved(op, old(items), items)
      requires (op.Add? && !Enters(old(items), op.c, op.usage)) || op.Get? ==> size == old(size)
      requires op.Release? && op.id !in old(items) ==> size == old(size)
      requires op.Add? && Enters(old(items), op.c, op.usage) ==> size <= maxSize || AllPinned(items)
      requires op.Release? && (old(size) <= maxSize || AllPinned(old(items))) ==> size <= maxSize || AllPinned(items)
      ensures Valid() && Next(maxSize, op, old(AsCache()), AsCache())
      ensures drift == old(drift) + Lost(op, old(items), items)
    {
      hide Accounted, AllShaped, NoneEmpty, Moved, Prepared, Reopening, Partial, Total, AllPinned, Enters;
      hide Next, Within, Follows, Lost;
      ghost var was, now := Cache(old(items), old(size)), Cache(items, size);
      Owing(was.items, was.size, old(drift), old(owed));
      Owing(items, size, drift, owed);
      Following(was, now, old(drift), drift, old(owed), owed);
      LostIs(op, was.items, items);
      NextFrom(maxSize, op, was, now);
    }
  }

  /** The named items that were empty are gone, and no others. */
  predicate Erased(was: Items, now: Items, keys: seq<Id>) {
    && (forall k :: k in now ==> k in was && now[k] == was[k])
    && (forall k :: k in was && k !in keys ==> k in now)
    && forall k :: k in was && k in keys ==> (k in now <==> was[k].versions != [])
  }

  lemma NoneErased(was: Items, now: Items, keys: seq<Id>)
    requires NoneEmpty(was)
    ensures Erased(was, now, keys) ==> now == was
  {
  }

  lemma ErasedNext(was: Items, now: Items, keys: seq<Id>, k: Id)
    requires Erased(was, now, keys)
    ensures if k in now && now[k].versions == [] then Erased(was, now - {k}, keys + [k]) else Erased(was, now, keys + [k])
  {
  }

  lemma AccountedErase(items: Items, size: nat, drift: nat, owed: int, k: Id)
    requires k in items && items[k].versions == [] && Accounted(items, size, drift, owed)
    ensures Accounted(items - {k}, size, drift, owed)
  {
    SumRemove(items, ItemBytes, k);
    SumRemove(items, ItemIncomplete, k);
  }

  lemma ErasedEvicts(was: Items, before: Items, now: Items, keys: seq<Id>, minUsage: nat)
    requires NoneEmpty(was) && AllShaped(before) && Shrunk(was, before, keys, minUsage) && Erased(before, now, keys)
    ensures AllShaped(now) && NoneEmpty(now) && EvictedFrom(was, now)
  {
  }

  lemma NothingEvicted(items: Items)
    requires AllShaped(items)
    ensures EvictedFrom(items, items)
  {
  }

  /** If no named item has a stream left, only items that cannot be evicted remain. */
  lemma AllTaken(before: Items, now: Items, keys: seq<Id>, minUsage: nat)
    requires !AnyLeft(before, keys) && Visited(before, keys, {}, minUsage) && Erased(before, now, keys)
    ensures NothingEvictable(now, minUsage)
  {
  }

  predicate Distinct(keys: seq<Id>) {
    forall i, j :: 0 <= i < j < |keys| ==> keys[i] != keys[j]
  }

  lemma NoneLeft(items: Items)
    ensures !AnyLeft(items, [])
  {
  }

  lemma AnyLeftSkip(items: Items, keys: seq<Id>, k: Id)
    requires k in items && items[k].versions == []
    ensures AnyLeft(items, keys + [k]) == AnyLeft(items, keys)
  {
    var longer := keys + [k];
    if AnyLeft(items, keys) {
      var i :| 0 <= i < |keys| && keys[i] in items && items[keys[i]].versions != [];
      assert longer[i] == keys[i];
    }
  }

  lemma AnyLeftPrefix(items: Items, keys: seq<Id>, n: nat)
    requires n <= |keys|
    ensures AnyLeft(items, keys[..n]) ==> AnyLeft(items, keys)
  {
    if AnyLeft(items, keys[..n]) {
      var i :| 0 <= i < n && keys[..n][i] in items && items[keys[..n][i]].versions != [];
      assert keys[i] == keys[..n][i];
    }
  }

  lemma CountDrops(items: Items, k: Id)
    requires k in items && items[k].versions != [] && AllShaped(items)
    ensures Sum(ReleasedFirst(items, k), ItemCount) < Sum(items, ItemCount)
  {
    SumUpdate(items, ItemCount, k, WithoutFirst(items[k]));
  }

  /** The items after the oldest stream of one of them is gone. */
  function ReleasedFirst(items: Items, k: Id): Items
    requires k in items && items[k].versions != [] && AllShaped(items)
  {
    items[k := WithoutFirst(items[k])]
  }

  predicate AnyLeft(items: Items, keys: seq<Id>) {
    exists i :: 0 <= i < |keys| && keys[i] in items && items[keys[i]].versions != []
  }

  /** Items neither named nor still to do are not evictable. */
  predicate Visited(items: Items, keys: seq<Id>, todo: set<Id>, minUsage: nat) {
    forall k :: k in items && k !in keys && k !in todo ==> items[k].access > 0 || items[k].used < minUsage
  }

  lemma UntrimmedShrunk(items: Items, minUsage: nat)
    requires AllShaped(items)
    ensures Shrunk(items, items, [], minUsage)
  {
  }

  lemma VisitedShrunk(was: Items, now: Items, keys: seq<Id>, minUsage: nat)
    requires Shrunk(was, now, keys, minUsage)
    ensures Visited(was, keys, {}, minUsage) == Visited(now, keys, {}, minUsage)
  {
  }

  lemma ShrunkKey(was: Items, now: Items, keys: seq<Id>, minUsage: nat, k: Id)
    requires Shrunk(was, now, keys, minUsage) && k in keys
    ensures k in now && now[k].access == 0 && now[k].used >= minUsage
  {
  }

  lemma ShrinkOne(was: Items, now: Items, keys: seq<Id>, minUsage: nat, k: Id)
    requires AllShaped(now) && Shrunk(was, now, keys, minUsage)
    requires k in now && now[k].versions != [] && now[k].access == 0 && now[k].used >= minUsage
    ensures AllShaped(ReleasedFirst(now, k)) && Shrunk(was, ReleasedFirst(now, k), keys + [k], minUsage)
    ensures k in keys ==> Shrunk(was, ReleasedFirst(now, k), keys, minUsage)
  {
    TrimmedShaped(now[k], WithoutFirst(now[k]));
    TrimmedTwice(was[k], now[k], WithoutFirst(now[k]));
  }

  /** Taking a stream of an item adds to what is left among the keys exactly if that item still has one. */
  lemma AnyLeftAfter(items: Items, keys: seq<Id>, k: Id)
    requires k in items && items[k].versions != [] && AllShaped(items)
    ensures var after := ReleasedFirst(items, k);
      && (after[k].versions != [] ==> AnyLeft(after, keys + [k]))
      && (k !in keys ==> AnyLeft(after, keys + [k]) == (AnyLeft(items, keys) || after[k].versions != []))
      && (after[k].versions == [] && AnyLeft(after, keys + [k]) ==> AnyLeft(items, keys))
  {
    var after := ReleasedFirst(items, k);
    var longer := keys + [k];
    assert longer[|keys|] == k;
    if AnyLeft(items, keys) {
      var i :| 0 <= i < |keys| && keys[i] in items && items[keys[i]].versions != [];
      assert longer[i] == keys[i];
    }
    if AnyLeft(after, longer) && after[k].versions == [] {
      var i :| 0 <= i < |longer| && longer[i] in after && after[longer[i]].versions != [];
      assert longer[i] == keys[i];
    }
  }

  /** Only items named by the keys were trimmed, and all of them are evictable. */
  predicate Shrunk(was: Items, now: Items, keys: seq<Id>, minUsage: nat) {
    && now.Keys == was.Keys
    && (forall k :: k in was ==> Trimmed(was[k], now[k]) && (k !in keys ==> now[k] == was[k]))
    && forall k :: k in keys ==> k in was && was[k].access == 0 && was[k].used >= minUsage
  }

  // ---- adding a command ----

  datatype Command = Command(id: Id, version: nat, instance: nat, node: nat, bytes: nat, last: bool)

  /** A pinned item of another master is left alone. */
  predicate Refuses(items: Items, c: Command) {
    c.id in items && (items[c.id].master != c.instance || items[c.id].from != c.node) && items[c.id].access != 0
  }

  function Claimed(items: Items, c: Command, usage: nat): Item {
    if c.id !in items then Item(c.instance, c.node, [], [], usage, 0)
    else if items[c.id].master != c.instance || items[c.id].from != c.node then
      Item(c.instance, c.node, [], [], usage, items[c.id].access)
    else items[c.id].(used := Max(items[c.id].used, usage))
  }

  /** The next version, more of an incomplete one, or any later version of an unpinned item. */
  predicate Wants(item: Item, c: Command) {
    item.versions == [] ||
    var back := item.versions[|item.versions| - 1];
    if back.version == c.version then !back.ready
    else back.version < c.version && (back.version + 1 == c.version || item.access == 0)
  }

  function Opened(item: Item, c: Command, now: int): (r: Item)
    ensures r.versions != []
  {
    var empty := Stream(c.version, 0, false);
    if item.versions != [] && item.versions[|item.versions| - 1].version == c.version then item
    else if item.versions == [] || item.versions[|item.versions| - 1].version + 1 == c.version then
      item.(versions := item.versions + [empty], times := item.times + [now])
    else
      item.(versions := [empty], times := [now])
  }

  function Grown(item: Item, c: Command): Item
    requires item.versions != []
  {
    var back := item.versions[|item.versions| - 1];
    item.(versions := item.versions[..|item.versions| - 1] + [Stream(back.version, back.size + c.bytes, c.last)])
  }

  lemma GrownBytes(item: Item, c: Command)
    requires item.versions != [] && !item.versions[|item.versions| - 1].ready
    ensures var stream := Grown(item, c).versions[|item.versions| - 1];
      ItemBytes(Grown(item, c)) == ItemBytes(item) + if stream.ready then stream.size else 0
  {
    var init, back := item.versions[..|item.versions| - 1], item.versions[|item.versions| - 1];
    assert item.versions == init + [back];
    BytesAppend(init, back);
    BytesAppend(init, Grown(item, c).versions[|init|]);
  }

  lemma ClaimedShaped(items: Items, c: Command, usage: nat)
    requires AllShaped(items) && !Refuses(items, c)
    ensures Shaped(Claimed(items, c, usage))
  {
  }

  lemma ClaimedNew(items: Items, c: Command, usage: nat)
    ensures c.id !in items ==> Claimed(items, c, usage) == Item(c.instance, c.node, [], [], usage, 0)
    ensures c.id !in items ==> !Refuses(items, c) && Wants(Claimed(items, c, usage), c)
  {
  }

  lemma OpenedShaped(item: Item, c: Command, now: int)
    requires Shaped(item) && Wants(item, c)
    ensures var r := Opened(item, c, now);
      Shaped(r) && r.versions != [] && !r.versions[|r.versions| - 1].ready
  {
  }

  lemma GrownShaped(item: Item, c: Command)
    requires Shaped(item) && item.versions != []
    ensures Shaped(Grown(item, c))
  {
  }

  lemma AddedShaped(items: Items, c: Command, usage: nat, now: int)
    requires AllShaped(items) && NoneEmpty(items) && !Refuses(items, c) && Wants(Claimed(items, c, usage), c)
    ensures var item := Opened(Claimed(items, c, usage), c, now);
      && Shaped(item) && item.versions != [] && !item.versions[|item.versions| - 1].ready
      && var added := items[c.id := Grown(item, c)];
         AllShaped(added) && NoneEmpty(added) && PinsKept(items, added)
  {
    var claimed := Claimed(items, c, usage);
    ClaimedShaped(items, c, usage);
    OpenedShaped(claimed, c, now);
    GrownShaped(Opened(claimed, c, now), c);
    AddedPin(items, c, usage, now);
    hide Claimed, Opened, Grown, Wants, Refuses, Shaped, PinKept;
  }

  /** A pinned item that takes a command keeps its master and streams. */
  lemma AddedPin(items: Items, c: Command, usage: nat, now: int)
    requires !Refuses(items, c) && Wants(Claimed(items, c, usage), c)
    ensures var grown := Grown(Opened(Claimed(items, c, usage), c, now), c);
      && grown.versions != []
      && grown.access == (if c.id in items then items[c.id].access else 0)
      && (c.id in items && items[c.id].access > 0 ==> PinKept(items[c.id], grown))
  {
  }

  /** A command that is not wanted leaves at most a higher usage count behind. */
  lemma ClaimedOnly(items: Items, c: Command, usage: nat)
    requires AllShaped(items) && NoneEmpty(items) && !Refuses(items, c) && !Wants(Claimed(items, c, usage), c)
    ensures Claimed(items, c, usage).versions != []
    ensures var now := items[c.id := Claimed(items, c, usage)];
      AllShaped(now) && NoneEmpty(now) && PinsKept(items, now) && (AllPinned(items) ==> AllPinned(now))
  {
  }

  lemma PinsKeptRefl(items: Items)
    ensures PinsKept(items, items)
  {
  }

  lemma PinsKeptEvicted(was: Items, added: Items, now: Items)
    requires PinsKept(was, added) && EvictedFrom(added, now)
    ensures PinsKept(was, now)
  {
  }

  lemma NothingUnused(items: Items)
    ensures NothingEvictable(items, 0) ==> AllPinned(items)
  {
  }

  lemma EvictedTwice(a: Items, b: Items, c: Items)
    requires EvictedFrom(a, b) && EvictedFrom(b, c)
    ensures EvictedFrom(a, c)
  {
    forall k | k in c ensures k in a && Trimmed(a[k], c[k]) {
      TrimmedTwice(a[k], b[k], c[k]);
    }
  }

  // ---- the public operations as steps ----

  datatype Cache = Cache(items: Items, size: nat)

  datatype Op =
    | Add(c: Command, usage: nat, now: int)
    | Get(id: Id)
    | Release(id: Id, count: nat)
    | Erase(id: Id)
    | Remove(node: nat)
    | Expire(time: int)

  predicate Enters(items: Items, c: Command, usage: nat) {
    !Refuses(items, c) && Wants(Claimed(items, c, usage), c)
  }

  function Reopened(items: Items, c: Command, usage: nat, now: int): Items {
    items[c.id := Opened(Claimed(items, c, usage), c, now)]
  }

  function Added(items: Items, c: Command, usage: nat, now: int): Items {
    items[c.id := Grown(Opened(Claimed(items, c, usage), c, now), c)]
  }

  /** The items once a command has its stream and before it is added to it. */
  function Reopening(op: Op, items: Items): Items {
    if op.Add? && Enters(items, op.c, op.usage) then Reopened(items, op.c, op.usage, op.now) else Prepared(op, items)
  }

  /** The items before an operation evicts or removes streams, but for those a new master or a hole replaces. */
  function Prepared(op: Op, items: Items): Items {
    match op
    case Add(c, usage, now) =>
      if Enters(items, c, usage) then Added(items, c, usage, now)
      else if Refuses(items, c) then items
      else items[c.id := Claimed(items, c, usage)]
    case Get(id) => if id in items then items[id := Pinned(items[id], 1)] else items
    case Release(id, count) =>
      if id in items && items[id].access >= count then items[id := Unpinned(items[id], count)] else items
    case _ => items
  }

  /** What an operation does to the items. */
  predicate Moved(op: Op, was: Items, now: Items)
    requires AllShaped(was)
  {
    match op
    case Add(c, usage, t) => if Enters(was, c, usage) then EvictedFrom(Prepared(op, was), now) else now == Prepared(op, was)
    case Get(id) => now == Prepared(op, was)
    case Release(id, count) => if id in was then EvictedFrom(Prepared(op, was), now) else now == was
    case Erase(id) => now == if id in was && was[id].access == 0 then was - {id} else was
    case Remove(node) => now == Leftover(was, node)
    case Expire(time) => now == if time <= 0 then was else Young(was, time)
  }

  /** Bytes of incomplete streams that an operation deletes. */
  ghost function Lost(op: Op, was: Items, now: Items): int {
    (Partial(was) - Partial(Reopening(op, was))) + (Partial(Prepared(op, was)) - Partial(now))
  }

  /** The cache is within its size unless everything left in it is pinned. */
  predicate Within(max: nat, c: Cache) {
    c.size <= max || AllPinned(c.items)
  }

  /** The size follows the stored bytes, but also subtracts those that were lost. */
  ghost predicate Follows(was: Cache, now: Cache, lost: int) {
    now.size == (was.size + Total(now.items) - Total(was.items) - lost) % WORD
  }

  /** One public operation: items, size and whether the cache is within its size. */
  ghost predicate Next(max: nat, op: Op, was: Cache, now: Cache)
    requires AllShaped(was.items)
  {
    && AllShaped(now.items) && NoneEmpty(now.items)
    && Moved(op, was.items, now.items) && Follows(was, now, Lost(op, was.items, now.items))
    && (op.Add? && Enters(was.items, op.c, op.usage) ==> Within(max, now))
    && (op.Release? && Within(max, was) ==> Within(max, now))
    && ((op.Add? && !Enters(was.items, op.c, op.usage)) || op.Get? ==> now.size == was.size)
    && (op.Release? && op.id !in was.items ==> now.size == was.size)
  }

  lemma Owing(items: Items, size: nat, drift: nat, owed: int)
    requires Accounted(items, size, drift, owed)
    ensures drift == owed - Partial(items)
  {
  }

  lemma LostIs(op: Op, was: Items, now: Items)
    ensures Lost(op, was, now) == (Partial(was) - Partial(Reopening(op, was))) + (Partial(Prepared(op, was)) - Partial(now))
  {
  }

  lemma NextFrom(max: nat, op: Op, was: Cache, now: Cache)
    requires AllShaped(was.items) && AllShaped(now.items) && NoneEmpty(now.items)
    requires Moved(op, was.items, now.items) && Follows(was, now, Lost(op, was.items, now.items))
    requires (op.Add? && !Enters(was.items, op.c, op.usage)) || op.Get? ==> now.size == was.size
    requires op.Release? && op.id !in was.items ==> now.size == was.size
    requires op.Add? && Enters(was.items, op.c, op.usage) ==> now.size <= max || AllPinned(now.items)
    requires op.Release? && (was.size <= max || AllPinned(was.items)) ==> now.size <= max || AllPinned(now.items)
    ensures Next(max, op, was, now)
  {
    hide AllShaped, NoneEmpty, Moved, Lost, Follows, Enters, AllPinned;
  }

  lemma Following(was: Cache, now: Cache, wasDrift: nat, drift: nat, wasOwed: int, owed: int)
    requires Accounted(was.items, was.size, wasDrift, wasOwed) && Accounted(now.items, now.size, drift, owed)
    ensures Follows(was, now, (Partial(was.items) - Partial(now.items)) + (owed - wasOwed))
  {
    var before, change := Total(was.items) - wasDrift, Total(now.items) - drift - Total(was.items) + wasDrift;
    ModAdd(before, change, WORD);
    ModAdd(was.size, change, WORD);
    SmallMod(was.size, WORD);
  }

  /** When a command enters: for a new or unpinned item of another master, and else for the next or current version. */
  lemma EntersMeans(items: Items, c: Command, usage: nat)
    requires NoneEmpty(items)
    ensures Enters(items, c, usage) <==>
      c.id in items ==>
        var item := items[c.id];
        var back := item.versions[|item.versions| - 1];
        if item.master != c.instance || item.from != c.node then item.access == 0
        else
          || (back.version == c.version && !back.ready) || back.version + 1 == c.version
          || (back.version < c.version && item.access == 0)
  {
  }

  /** What an entering command makes of its item. */
  lemma AddedMeans(items: Items, c: Command, usage: nat, now: int)
    requires NoneEmpty(items) && Enters(items, c, usage)
    ensures c.id !in items ==>
      Added(items, c, usage, now) ==
        items[c.id := Item(c.instance, c.node, [Stream(c.version, c.bytes, c.last)], [now], usage, 0)]
    ensures c.id in items ==>
      var item := items[c.id];
      var n := |item.versions| - 1;
      var same, back := item.master == c.instance && item.from == c.node, item.versions[n];
      var used := if !same then usage else if item.used < usage then usage else item.used;
      Added(items, c, usage, now) == items[c.id :=
        if same && back.version == c.version then
          item.(versions := item.versions[..n] + [Stream(c.version, back.size + c.bytes, c.last)], used := used)
        else if same && back.version + 1 == c.version then
          item.(versions := item.versions + [Stream(c.version, c.bytes, c.last)], times := item.times + [now], used := used)
        else
          Item(c.instance, c.node, [Stream(c.version, c.bytes, c.last)], [now], used, item.access)]
  {
    hide Grown, Opened;
    GrownMeans(Claimed(items, c, usage), c, now);
    var stream := Stream(c.version, c.bytes, c.last);
    assert [] + [stream] == [stream] && [] + [now] == [now];
  }

  /** The stream a command is added to: the last one if it is of the same version, or a new one. */
  lemma GrownMeans(item: Item, c: Command, now: int)
    requires item.versions != [] && item.versions[|item.versions| - 1].version == c.version ==>
      !item.versions[|item.versions| - 1].ready
    ensures var grown, n := Grown(Opened(item, c, now), c), |item.versions| - 1;
      if n >= 0 && item.versions[n].version == c.version then
        grown == item.(versions := item.versions[..n] + [Stream(c.version, item.versions[n].size + c.bytes, c.last)])
      else if n < 0 || item.versions[n].version + 1 == c.version then
        grown == item.(versions := item.versions + [Stream(c.version, c.bytes, c.last)], times := item.times + [now])
      else
        grown == item.(versions := [Stream(c.version, c.bytes, c.last)], times := [now])
  {
    var empty := Stream(c.version, 0, false);
    assert (item.versions + [empty])[..|item.versions|] == item.versions;
    assert [empty][..0] + [Stream(c.version, c.bytes, c.last)] == [Stream(c.version, c.bytes, c.last)];
  }

  /** Operations that add no command only change pins before they evict. */
  lemma PreparedKeeps(op: Op, items: Items)
    ensures !op.Add? ==> Reopening(op, items) == Prepared(op, items)
    ensures op.Get? ==> Prepared(op, items) == if op.id in items then items[op.id := Pinned(items[op.id], 1)] else items
    ensures op.Release? && op.id in items && items[op.id].access >= op.count ==>
      Prepared(op, items) == items[op.id := Unpinned(items[op.id], op.count)]
    ensures op.Get? && op.id in items ==>
      ItemBytes(Pinned(items[op.id], 1)) == ItemBytes(items[op.id]) &&
      ItemIncomplete(Pinned(items[op.id], 1)) == ItemIncomplete(items[op.id])
    ensures op.Get? && AllShaped(items) && NoneEmpty(items) ==>
      AllShaped(Prepared(op, items)) && NoneEmpty(Prepared(op, items))
  {
  }

  lemma MovedIs(op: Op, was: Items, now: Items)
    requires AllShaped(was)
    ensures Moved(op, was, now) <==>
      match op
      case Add(c, usage, t) => if Enters(was, c, usage) then EvictedFrom(Prepared(op, was), now) else now == Prepared(op, was)
      case Get(id) => now == Prepared(op, was)
      case Release(id, count) => if id in was then EvictedFrom(Prepared(op, was), now) else now == was
      case Erase(id) => now == if id in was && was[id].access == 0 then was - {id} else was
      case Remove(node) => now == Leftover(was, node)
      case Expire(time) => now == if time <= 0 then was else Young(was, time)
  {
  }

  lemma EntersIff(items: Items, c: Command, usage: nat, now: int)
    ensures Enters(items, c, usage) == (!Refuses(items, c) && Wants(Claimed(items, c, usage), c))
    ensures Reopened(items, c, usage, now) == items[c.id := Opened(Claimed(items, c, usage), c, now)]
    ensures Added(items, c, usage, now) == items[c.id := Grown(Opened(Claimed(items, c, usage), c, now), c)]
    ensures var op := Op.Add(c, usage, now);
      if Enters(items, c, usage) then
        Prepared(op, items) == Added(items, c, usage, now) && Reopening(op, items) == Reopened(items, c, usage, now)
      else
        Prepared(op, items) == Reopening(op, items) == if Refuses(items, c) then items else items[c.id := Claimed(items, c, usage)]
  {
    hide Claimed, Opened, Grown, Wants, Refuses;
  }

  // ---- pins ----

  /** While pinned an item keeps its master and its streams, and only gains newer ones. */
  predicate PinKept(was: Item, now: Item) {
    && now.access == was.access && now.master == was.master && now.from == was.from
    && |was.versions| <= |now.versions|
    && forall i :: 0 <= i < |was.versions| ==>
         && now.versions[i].version == was.versions[i].version
         && (was.versions[i].ready ==> now.versions[i] == was.versions[i])
  }

  predicate PinsKept(was: Items, now: Items) {
    && (forall k :: k in was && was[k].access > 0 ==> k in now && PinKept(was[k], now[k]))
    && forall k :: k in now && now[k].access > 0 ==> k in was && was[k].access > 0
  }

  function Pinned(item: Item, count: nat): Item {
    item.(access := item.access + count, used := item.used + count)
  }

  function Unpinned(item: Item, count: nat): Item
    requires item.access >= count
  {
    item.(access := item.access - count)
  }

  lemma UnpinnedShaped(items: Items, id: Id, count: nat)
    requires id in items && AllShaped(items) && NoneEmpty(items) && items[id].access >= count
    ensures var now := items[id := Unpinned(items[id], count)];
      && AllShaped(now) && NoneEmpty(now) && ItemBytes(Unpinned(items[id], count)) == ItemBytes(items[id])
      && ItemIncomplete(Unpinned(items[id], count)) == ItemIncomplete(items[id])
  {
  }

  /** A pinned item has been used, so releasing used items leaves only pinned ones. */
  lemma UsedEvicted(was: Items, id: Id, count: nat, now: Items)
    requires AllShaped(was) && id in was && was[id].access >= count
    requires EvictedFrom(was[id := Unpinned(was[id], count)], now)
    ensures AllPinned(was) && NothingEvictable(now, 1) ==> AllPinned(now)
  {
  }

  // ---- removing and expiring ----

  /** What is left after dropping the unpinned items of a node. */
  function Leftover(items: Items, node: nat): Items {
    map k | k in items && (items[k].from != node || items[k].access != 0) :: items[k]
  }

  function Emptied(items: Items, keys: set<Id>): Items {
    map k | k in items :: if k in keys then items[k].(versions := [], times := []) else items[k]
  }

  /** What is left after ageing the unpinned items and dropping those without streams. */
  function Young(items: Items, time: int): Items
    requires AllShaped(items)
  {
    map k | k in items && (items[k].access > 0 || Aged(items[k], time).versions != [])
      :: if items[k].access > 0 then items[k] else Aged(items[k], time)
  }

  function Aging(items: Items, todo: set<Id>, time: int): Items
    requires AllShaped(items)
  {
    map k | k in items :: if k in todo || items[k].access > 0 then items[k] else Aged(items[k], time)
  }

  lemma EvictedErase(items: Items, id: Id)
    requires AllShaped(items) && NoneEmpty(items) && id in items && items[id].access == 0
    ensures EvictedFrom(items, items - {id}) && AllShaped(items - {id}) && NoneEmpty(items - {id})
  {
  }

  /** Exactly the unpinned items of the node are gone, and all others are as they were. */
  predicate RemovedFrom(was: Items, now: Items, node: nat) {
    && (forall k :: k in now ==> k in was && now[k] == was[k])
    && forall k :: k in was ==> (k in now <==> was[k].from != node || was[k].access > 0)
  }

  /** How many streams at the front of an item are complete and not younger than the time. */
  predicate OldStreams(item: Item, time: int, n: nat) {
    && |item.times| == |item.versions| && n <= |item.versions|
    && (forall i :: 0 <= i < n ==> item.times[i] <= time && item.versions[i].ready)
    && (n < |item.versions| ==> item.times[n] > time || !item.versions[n].ready)
  }

  /** Pinned items stay; of each other one the old streams at its front are gone, and with all of them the item. */
  predicate ExpiredFrom(was: Items, now: Items, time: int) {
    && (forall k :: k in now ==> k in was)
    && (forall k :: k in was && was[k].access > 0 ==> k in now && now[k] == was[k])
    && (forall k :: k in was && was[k].access == 0 && k !in now ==> OldStreams(was[k], time, |was[k].versions|))
    && forall k :: k in now && was[k].access == 0 ==>
         && 0 < |now[k].versions| <= |was[k].versions| && Trimmed(was[k], now[k])
         && OldStreams(was[k], time, |was[k].versions| - |now[k].versions|)
  }

  lemma PinnedIs(item: Item, count: nat)
    ensures Pinned(item, count) == item.(access := item.access + count, used := item.used + count)
  {
  }

  lemma UnpinnedIs(item: Item, count: nat)
    requires item.access >= count
    ensures Unpinned(item, count) == item.(access := item.access - count)
  {
  }

  lemma LeftoverKept(items: Items, node: nat)
    requires AllShaped(items) && NoneEmpty(items)
    ensures var now := Leftover(items, node);
      EvictedFrom(items, now) && AllShaped(now) && NoneEmpty(now) && RemovedFrom(items, now, node)
  {
  }

  lemma AgedOldStreams(item: Item, time: int)
    requires Shaped(item)
    ensures var r := Aged(item, time);
      |r.versions| <= |item.versions| && Trimmed(item, r) && OldStreams(item, time, |item.versions| - |r.versions|)
  {
    AgedDropsOld(item, time);
    var r := Aged(item, time);
    var n := |item.versions| - |r.versions|;
    if n < |item.versions| {
      assert r.versions[0] == item.versions[n] && r.times[0] == item.times[n];
    }
  }

  lemma YoungExpired(items: Items, time: int)
    requires AllShaped(items)
    ensures ExpiredFrom(items, Young(items, time), time)
  {
    hide Aged, OldStreams, Trimmed, Shaped;
    var now := Young(items, time);
    forall k | k in items && items[k].access == 0
      ensures k !in now ==> OldStreams(items[k], time, |items[k].versions|)
      ensures k in now ==>
        && 0 < |now[k].versions| <= |items[k].versions| && Trimmed(items[k], now[k])
        && OldStreams(items[k], time, |items[k].versions| - |now[k].versions|)
    {
      AgedOldStreams(items[k], time);
    }
  }

  lemma YoungKept(items: Items, time: int)
    requires AllShaped(items) && NoneEmpty(items)
    ensures var now := Young(items, time);
      EvictedFrom(items, now) && AllShaped(now) && NoneEmpty(now)
    ensures ExpiredFrom(items, Young(items, time), time)
  {
    YoungExpired(items, time);
    hide ExpiredFrom;
    var now := Young(items, time);
    forall k | k in now ensures Shaped(now[k]) && now[k].versions != [] && Trimmed(items[k], now[k]) {
      if items[k].access == 0 {
        AgedDropsOld(items[k], time);
        TrimmedShaped(items[k], now[k]);
      }
    }
  }

  /** The unpinned items already aged that have no stream left. */
  function Outlived(was: Items, now: Items, todo: set<Id>): set<Id> {
    set k | k in was && k in now && k !in todo && was[k].access == 0 && now[k].versions == []
  }

  lemma AgingAll(items: Items, time: int)
    requires AllShaped(items)
    ensures Aging(items, items.Keys, time) == items && Outlived(items, items, items.Keys) == {}
  {
  }

  lemma AgingOne(items: Items, todo: set<Id>, time: int, k: Id)
    requires AllShaped(items) && k in todo && k in items
    ensures var was, now := Aging(items, todo, time), Aging(items, todo - {k}, time);
      && Shaped(items[k]) && k in was && was[k] == items[k]
      && now == (if items[k].access > 0 then was else was[k := Aged(items[k], time)])
      && Outlived(items, now, todo - {k}) ==
           Outlived(items, was, todo) + if items[k].access == 0 && now[k].versions == [] then {k} else {}
  {
    hide Shaped, Trimmed;
  }

  lemma AgingDone(items: Items, now: Items, time: int)
    requires AllShaped(items) && now == Aging(items, {}, time)
    ensures var keys := Outlived(items, now, {});
      && (forall k :: k in keys ==> k in now && now[k].versions == [])
      && now - keys == Young(items, time)
  {
    hide Shaped, Trimmed;
  }

  lemma {:induction false} BytesSplit(versions: seq<Stream>, n: nat)
    requires n <= |versions|
    ensures Bytes(versions) == Bytes(versions[..n]) + Bytes(versions[n..])
    ensures Incomplete(versions) == Incomplete(versions[..n]) + Incomplete(versions[n..])
  {
    if n > 0 {
      BytesSplit(versions[1..], n - 1);
      assert versions[1..][n - 1..] == versions[n..] && versions[..n][1..] == versions[1..][..n - 1];
    } else {
      assert versions[0..] == versions;
    }
  }

  lemma FirstIncomplete(c: Command)
    requires !c.last
    ensures var item := Grown(Opened(Claimed(map[], c, 0), c, 0), c);
      item.access == 0 && Incomplete(item.versions) == c.bytes && Added(map[], c, 0, 0) == map[c.id := item]
  {
    var item := Grown(Opened(Claimed(map[], c, 0), c, 0), c);
    assert item.versions == [Stream(c.version, c.bytes, false)];
  }

  lemma Drifted(bytes: nat, size: nat)
    requires 0 < bytes < WORD
    ensures forall owed :: Accounted(map[], size, bytes, owed) ==> size == WORD - bytes
  {
    DivModUnique(0 - bytes, WORD, 0 - 1, WORD - bytes);
  }

  /** Erasing an object whose first command is still alone in the cache makes the size wrap below zero. */
  method EraseIncomplete(bytes: nat) returns (size: nat)
    requires 0 < bytes < WORD
    ensures size == WORD - bytes
  {
    hide *;
    var cache := new InstanceCache(0, 0);
    var c := Command(1, 1, 1, 1, bytes, false);
    var entered := cache.Add(c, 0, 0);
    FirstIncomplete(c);
    var erased := cache.Erase(1);
    assert cache.items == map[];
    cache.ValidParts();
    Drifted(bytes, cache.size);
    return cache.size;
  }
}
