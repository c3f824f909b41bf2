/** Whole runs of the instance cache: when its size is exact, and that it stays within its limit. */
module CacheRuns {
  import opened Arithmetic
  import opened InstanceCaches

  /** Deleting the stream subtracts nothing that was not added before. */
  predicate Harmless(s: Stream) {
    s.ready || s.size == 0
  }

  predicate AllHarmless(versions: seq<Stream>) {
    forall i :: 0 <= i < |versions| ==> Harmless(versions[i])
  }

  /** The streams of an item that are gone: its oldest ones, or all of them. */
  function Dropped(was: Item, now: Items, k: Id): seq<Stream> {
    if k in now && |now[k].versions| <= |was.versions| then was.versions[..|was.versions| - |now[k].versions|]
    else was.versions
  }

  predicate SparesPartial(was: Items, now: Items) {
    forall k :: k in was ==> AllHarmless(Dropped(was[k], now, k))
  }

  /** The command continues the item's run of versions instead of starting a new one. */
  predicate Continues(items: Items, c: Command, usage: nat, now: int) {
    c.id in items ==> items[c.id].versions <= Opened(Claimed(items, c, usage), c, now).versions
  }

  predicate SparesReplaced(op: Op, items: Items) {
    op.Add? && Enters(items, op.c, op.usage) && !Continues(items, op.c, op.usage, op.now) ==>
      op.c.id in items && AllHarmless(items[op.c.id].versions)
  }

  /** No stream with bytes that an operation deletes is incomplete. */
  predicate Spared(op: Op, was: Items, now: Items) {
    SparesReplaced(op, was) && SparesPartial(Prepared(op, was), now)
  }

  // ---- lost bytes ----

  lemma {:induction false} NoneLost(versions: seq<Stream>)
    ensures Incomplete(versions) == 0 <==> AllHarmless(versions)
  {
    if versions != [] {
      NoneLost(versions[1..]);
      assert forall i :: 0 < i < |versions| ==> versions[i] == versions[1..][i - 1];
      assert forall i :: 0 <= i < |versions[1..]| ==> versions[1..][i] == versions[i + 1];
    }
  }

  /** What an item contributes to a sum, if it is there. */
  function Part(items: Items, f: Item -> nat, k: Id): nat {
    if k in items then f(items[k]) else 0
  }

  lemma SumSplit(items: Items, f: Item -> nat, k: Id)
    ensures Sum(items, f) == Part(items, f, k) + Sum(items - {k}, f)
  {
    if k in items {
      SumRemove(items, f, k);
    } else {
      assert items - {k} == items;
    }
  }

  lemma {:induction false} SumCompare(was: Items, now: Items, f: Item -> nat)
    requires now.Keys <= was.Keys && forall k :: k in was ==> Part(now, f, k) <= f(was[k])
    ensures Sum(now, f) <= Sum(was, f)
    ensures Sum(now, f) == Sum(was, f) <==> forall k :: k in was ==> Part(now, f, k) == f(was[k])
    decreases |was|
  {
    if was != map[] {
      var k :| k in was;
      SumSplit(was, f, k);
      SumSplit(now, f, k);
      var w, n := was - {k}, now - {k};
      assert w.Keys == was.Keys - {k};
      forall j | j in w ensures Part(n, f, j) == Part(now, f, j) && w[j] == was[j] {
      }
      SumCompare(w, n, f);
    } else {
      assert now == map[];
    }
  }

  lemma TrimmedSums(was: Items, now: Items, k: Id)
    requires EvictedFrom(was, now) && k in was
    ensures Part(now, ItemBytes, k) <= ItemBytes(was[k]) && Part(now, ItemIncomplete, k) <= ItemIncomplete(was[k])
    ensures Part(now, ItemIncomplete, k) == ItemIncomplete(was[k]) <==> AllHarmless(Dropped(was[k], now, k))
  {
    if k in now {
      BytesSplit(was[k].versions, |was[k].versions| - |now[k].versions|);
    }
    NoneLost(Dropped(was[k], now, k));
  }

  /** Evicting never increases the stored bytes, and loses none exactly if it spares incomplete streams. */
  lemma EvictedSums(was: Items, now: Items)
    requires EvictedFrom(was, now)
    ensures Total(now) <= Total(was) && Partial(now) <= Partial(was)
    ensures Partial(now) == Partial(was) <==> SparesPartial(was, now)
  {
    hide EvictedFrom, Dropped, AllHarmless, ItemBytes, ItemIncomplete;
    forall k | k in was
      ensures Part(now, ItemBytes, k) <= ItemBytes(was[k]) && Part(now, ItemIncomplete, k) <= ItemIncomplete(was[k])
      ensures Part(now, ItemIncomplete, k) == ItemIncomplete(was[k]) <==> AllHarmless(Dropped(was[k], now, k))
    {
      TrimmedSums(was, now, k);
    }
    EvictedKeys(was, now);
    SumCompare(was, now, ItemBytes);
    SumCompare(was, now, ItemIncomplete);
  }

  lemma EvictedKeys(was: Items, now: Items)
    requires EvictedFrom(was, now)
    ensures now.Keys <= was.Keys
  {
  }

  lemma PartialUpdate(items: Items, k: Id, item: Item)
    ensures Partial(items[k := item]) == Partial(items) - Part(items, ItemIncomplete, k) + ItemIncomplete(item)
  {
    SumUpdate(items, ItemIncomplete, k, item);
    SumSplit(items, ItemIncomplete, k);
  }

  /** Opening a stream loses the bytes of the streams it replaces. */
  lemma ReopenedItem(items: Items, c: Command, usage: nat, now: int)
    requires Enters(items, c, usage)
    ensures var r := ItemIncomplete(Opened(Claimed(items, c, usage), c, now));
      && r <= Part(items, ItemIncomplete, c.id)
      && (r == Part(items, ItemIncomplete, c.id) <==>
            Continues(items, c, usage, now) || (c.id in items && AllHarmless(items[c.id].versions)))
  {
    var opened' := Opened(Claimed(items, c, usage), c, now);
    var empty := Stream(c.version, 0, false);
    BytesAppend([], empty);
    assert [] + [empty] == [empty];
    if c.id in items {
      BytesAppend(items[c.id].versions, empty);
      NoneLost(items[c.id].versions);
    }
  }

  lemma ReopenedPartial(items: Items, c: Command, usage: nat, now: int)
    requires Enters(items, c, usage)
    ensures Partial(Reopened(items, c, usage, now)) <= Partial(items)
    ensures Partial(Reopened(items, c, usage, now)) == Partial(items) <==> SparesReplaced(Op.Add(c, usage, now), items)
  {
    hide Opened, Claimed, ItemIncomplete, AllHarmless, Enters;
    PartialUpdate(items, c.id, Opened(Claimed(items, c, usage), c, now));
    ReopenedItem(items, c, usage, now);
  }

  lemma GrownPartial(items: Items, c: Command, usage: nat, now: int)
    requires Enters(items, c, usage)
    ensures Partial(Added(items, c, usage, now)) <= Partial(Reopened(items, c, usage, now)) + c.bytes
  {
    var item := Opened(Claimed(items, c, usage), c, now);
    var init, back := item.versions[..|item.versions| - 1], item.versions[|item.versions| - 1];
    assert item.versions == init + [back];
    BytesAppend(init, back);
    BytesAppend(init, Grown(item, c).versions[|init|]);
    PartialUpdate(items, c.id, item);
    PartialUpdate(items, c.id, Grown(item, c));
  }

  /** Changing pins or usage loses nothing. */
  lemma PinsLoseNothing(op: Op, items: Items)
    requires NoneEmpty(items) && !(op.Add? && Enters(items, op.c, op.usage))
    ensures Partial(Prepared(op, items)) == Partial(items) && Reopening(op, items) == Prepared(op, items)
  {
    match op
    case Add(c, usage, now) => PartialUpdate(items, c.id, Claimed(items, c, usage));
    case Get(id) => if id in items { PartialUpdate(items, id, Pinned(items[id], 1)); }
    case Release(id, count) =>
      if id in items && items[id].access >= count { PartialUpdate(items, id, Unpinned(items[id], count)); }
    case _ =>
  }

  function Arriving(op: Op): nat {
    if op.Add? then op.c.bytes else 0
  }

  lemma MovedEvicts(op: Op, was: Items, now: Items)
    requires AllShaped(was) && NoneEmpty(was) && AllShaped(now) && Moved(op, was, now)
    ensures EvictedFrom(Prepared(op, was), now)
  {
    if now == Prepared(op, was) {
      NothingEvicted(now);
    } else {
      match op
      case Erase(id) => EvictedErase(was, id);
      case Remove(node) => LeftoverKept(was, node);
      case Expire(time) => YoungKept(was, time);
      case _ =>
    }
  }

  /** The bytes lost by an operation are none exactly if it spares incomplete streams. */
  lemma LostIff(op: Op, was: Items, now: Items)
    requires AllShaped(was) && NoneEmpty(was) && AllShaped(now) && Moved(op, was, now)
    ensures 0 <= Lost(op, was, now) <= Partial(was) + Arriving(op)
    ensures Lost(op, was, now) == 0 <==> Spared(op, was, now)
  {
    hide EvictedFrom, Moved, SparesPartial, Enters, Partial, Continues, AllHarmless;
    MovedEvicts(op, was, now);
    EvictedSums(Prepared(op, was), now);
    if op.Add? && Enters(was, op.c, op.usage) {
      ReopenedPartial(was, op.c, op.usage, op.now);
      GrownPartial(was, op.c, op.usage, op.now);
    } else {
      PinsLoseNothing(op, was);
    }
  }

  // ---- operations ----

  /** A cache whose size is exact stays exact through an operation exactly if that spares incomplete streams. */
  lemma StepExactIff(max: nat, op: Op, was: Cache, now: Cache)
    requires AllShaped(was.items) && NoneEmpty(was.items) && was.size == Total(was.items) && Next(max, op, was, now)
    requires Total(now.items) < WORD && Partial(was.items) + Arriving(op) < WORD
    ensures now.size == Total(now.items) <==> Spared(op, was.items, now.items)
  {
    hide Moved, Spared, Lost, Total, Partial;
    var total, lost := Total(now.items), Lost(op, was.items, now.items);
    LostIff(op, was.items, now.items);
    if lost == 0 {
      SmallMod(total, WORD);
    } else if lost <= total {
      SmallMod(total - lost, WORD);
    } else {
      DivModUnique(total - lost, WORD, -1, total - lost + WORD);
    }
  }

  /** With an exact size, the cache is within its limit after every operation, or all that is left is pinned. */
  lemma StepWithin(max: nat, op: Op, was: Cache, now: Cache)
    requires AllShaped(was.items) && NoneEmpty(was.items) && was.size == Total(was.items) && Within(max, was)
    requires Next(max, op, was, now) && now.size == Total(now.items)
    ensures Within(max, now)
  {
    hide Lost, Follows, Total, Partial, Shaped;
    match op
    case Add(c, usage, t) =>
      if !Enters(was.items, c, usage) {
        UnenteredPins(was.items, c, usage);
      }
    case Get(id) =>
    case Release(id, count) =>
    case _ =>
      MovedEvicts(op, was.items, now.items);
      EvictedSums(was.items, now.items);
  }

  lemma UnenteredPins(items: Items, c: Command, usage: nat)
    requires NoneEmpty(items) && !Enters(items, c, usage)
    ensures AllPinned(items) ==> AllPinned(Prepared(Op.Add(c, usage, 0), items))
    ensures forall t :: Prepared(Op.Add(c, usage, t), items) == Prepared(Op.Add(c, usage, 0), items)
  {
  }

  // ---- runs ----

  ghost predicate RunStep(max: nat, op: Op, was: Cache, now: Cache) {
    AllShaped(was.items) && Next(max, op, was, now)
  }

  /** States of a cache from empty on, one public operation after another. */
  ghost predicate Run(max: nat, run: seq<Cache>, ops: seq<Op>) {
    && |run| == |ops| + 1 && run[0] == Cache(map[], 0)
    && forall i :: 0 <= i < |ops| ==> RunStep(max, ops[i], run[i], run[i + 1])
  }

  /** The bytes of the stored complete streams fit the counter. */
  ghost predicate Fits(c: Cache) {
    Total(c.items) < WORD
  }

  ghost predicate Sound(max: nat, c: Cache) {
    && AllShaped(c.items) && NoneEmpty(c.items)
    && c.size == Total(c.items) && Within(max, c)
  }

  lemma StepSound(max: nat, op: Op, was: Cache, now: Cache)
    requires Sound(max, was) && Next(max, op, was, now) && Fits(now) && Spared(op, was.items, now.items)
    ensures Sound(max, now)
  {
    hide Moved, Spared, Total, Partial, Shaped, Within;
    LostIff(op, was.items, now.items);
    SmallMod(Total(now.items), WORD);
    StepWithin(max, op, was, now);
  }

  /**
   In every run in which no operation deletes an incomplete stream, the size equals the bytes of all complete
   streams, no stored item is empty, and the cache is within its limit or everything in it is pinned.
   */
  lemma {:induction false} RunSound(max: nat, run: seq<Cache>, ops: seq<Op>, i: nat)
    requires Run(max, run, ops) && i < |run|
    requires forall j :: 0 <= j < i ==> Spared(ops[j], run[j].items, run[j + 1].items)
    requires forall j :: 0 <= j <= i ==> Fits(run[j])
    ensures Sound(max, run[i])
  {
    if i > 0 {
      RunSound(max, run, ops, i - 1);
      assert RunStep(max, ops[i - 1], run[i - 1], run[i]);
      StepSound(max, ops[i - 1], run[i - 1], run[i]);
    }
  }

  /** What a caller can check before the call: unpinned items, with the command added, have no incomplete stream. */
  lemma CompleteMeansSpared(op: Op, was: Items, now: Items)
    requires AllShaped(was) && NoneEmpty(was) && AllShaped(now) && Moved(op, was, now) && SparesReplaced(op, was)
    requires forall k :: k in Prepared(op, was) && Prepared(op, was)[k].access == 0 ==> AllHarmless(Prepared(op, was)[k].versions)
    ensures Spared(op, was, now)
  {
    hide Moved, SparesReplaced;
    MovedEvicts(op, was, now);
    var prepared := Prepared(op, was);
    forall k | k in prepared ensures AllHarmless(Dropped(prepared[k], now, k)) {
    }
  }

  // ---- streams that arrive in several commands ----

  function SumBytes(cs: seq<Command>): nat {
    if cs == [] then 0 else SumBytes(cs[..|cs| - 1]) + cs[|cs| - 1].bytes
  }

  /** The commands of one version of an object from one master, of which the final one is marked last. */
  predicate OneVersion(cs: seq<Command>) {
    && cs != []
    && forall i :: 0 <= i < |cs| ==>
         && cs[i].id == cs[0].id && cs[i].version == cs[0].version && cs[i].instance == cs[0].instance && cs[i].node == cs[0].node
         && cs[i].last == (i == |cs| - 1)
  }

  /** The item is new, or the version follows its last one. */
  predicate Succeeds(items: Items, c: Command) {
    c.id in items ==>
      && items[c.id].master == c.instance && items[c.id].from == c.node && items[c.id].versions != []
      && items[c.id].versions[|items[c.id].versions| - 1].version + 1 == c.version
  }

  /** The newest stream of the item. */
  function Back(items: Items, id: Id): Stream
    requires id in items && items[id].versions != []
  {
    items[id].versions[|items[id].versions| - 1]
  }

  predicate BackIs(items: Items, c: Command, size: nat, ready: bool) {
    && c.id in items && items[c.id].versions != [] && items[c.id].master == c.instance && items[c.id].from == c.node
    && Back(items, c.id) == Stream(c.version, size, ready)
  }

  lemma FirstCommand(was: Items, now: Items, c: Command, usage: nat, t: int)
    requires AllShaped(was) && NoneEmpty(was) && NoneEmpty(now) && Succeeds(was, c)
    requires Moved(Op.Add(c, usage, t), was, now) && c.id in now
    ensures Enters(was, c, usage) && BackIs(now, c, c.bytes, c.last)
  {
    EntersMeans(was, c, usage);
    AddedMeans(was, c, usage, t);
    hide Enters, Added;
  }

  lemma NextCommand(was: Items, now: Items, c: Command, usage: nat, t: int, size: nat)
    requires AllShaped(was) && NoneEmpty(was) && NoneEmpty(now) && BackIs(was, c, size, false)
    requires Moved(Op.Add(c, usage, t), was, now) && c.id in now
    ensures Enters(was, c, usage) && BackIs(now, c, size + c.bytes, c.last)
  {
    EntersMeans(was, c, usage);
    AddedMeans(was, c, usage, t);
    hide Enters, Added;
  }

  /** Nothing was evicted: other items are as before, and the item still starts with the same version. */
  predicate Unevicted(was: Items, now: Items, id: Id) {
    && now - {id} == was - {id} && id in now && now[id].versions != []
    && (id in was && was[id].versions != [] ==> now[id].versions[0].version == was[id].versions[0].version)
  }

  lemma AddedFirst(was: Items, c: Command, usage: nat, t: int)
    requires AllShaped(was) && NoneEmpty(was) && Enters(was, c, usage)
    requires Succeeds(was, c) || exists size :: BackIs(was, c, size, false)
    ensures var added := Added(was, c, usage, t);
      && c.id in added && added == was[c.id := added[c.id]] && Shaped(added[c.id]) && added[c.id].versions != []
      && (c.id !in was ==> |added[c.id].versions| == 1)
      && (c.id in was ==> was[c.id].versions != [] && added[c.id].versions[0].version == was[c.id].versions[0].version)
  {
    AddedMeans(was, c, usage, t);
    AddedShaped(was, c, usage, t);
    hide Enters, PinsKept, Claimed, Opened, Grown;
  }

  lemma Untrimmed(a: Item, n: Item)
    requires Shaped(a) && Trimmed(a, n) && n.versions != []
    requires |a.versions| == 1 || n.versions[0].version == a.versions[0].version
    ensures n == a
  {
    assert n.versions[0] == a.versions[|a.versions| - |n.versions|];
  }

  lemma SameButOne(was: Items, now: Items, id: Id)
    requires now - {id} == was - {id} && id in now
    ensures now == was[id := now[id]]
  {
    forall k | k != id ensures (k in now <==> k in was) && (k in now ==> now[k] == was[k]) {
      assert k in now <==> k in now - {id};
      assert k in was <==> k in was - {id};
      if k in now {
        assert (now - {id})[k] == now[k] && (was - {id})[k] == was[k];
      }
    }
  }

  /** With nothing evicted, the cache is exactly as adding the command leaves it. */
  lemma UnevictedAdded(was: Items, now: Items, c: Command, usage: nat, t: int)
    requires AllShaped(was) && NoneEmpty(was) && Unevicted(was, now, c.id) && Enters(was, c, usage)
    requires Succeeds(was, c) || exists size :: BackIs(was, c, size, false)
    requires EvictedFrom(Added(was, c, usage, t), now)
    ensures now == Added(was, c, usage, t)
  {
    AddedFirst(was, c, usage, t);
    hide Enters, Added, Shaped, AllShaped, NoneEmpty, Succeeds, BackIs, Trimmed;
    var added := Added(was, c, usage, t);
    assert Trimmed(added[c.id], now[c.id]);
    Untrimmed(added[c.id], now[c.id]);
    SameButOne(was, now, c.id);
  }

  lemma AddedItemBytes(was: Items, c: Command, usage: nat, t: int)
    requires NoneEmpty(was) && Enters(was, c, usage)
    requires Succeeds(was, c) || exists size :: BackIs(was, c, size, false)
    ensures var added := Added(was, c, usage, t);
      && c.id in added && added[c.id].versions != []
      && ItemBytes(added[c.id]) == Part(was, ItemBytes, c.id) + if c.last then Back(added, c.id).size else 0
  {
    AddedMeans(was, c, usage, t);
    hide Enters, Added;
    var stream := Stream(c.version, c.bytes, c.last);
    BytesAppend([], stream);
    assert [] + [stream] == [stream];
    if c.id in was {
      var versions := was[c.id].versions;
      var init, back := versions[..|versions| - 1], versions[|versions| - 1];
      assert versions == init + [back];
      BytesAppend(versions, stream);
      BytesAppend(init, back);
      BytesAppend(init, Stream(c.version, back.size + c.bytes, c.last));
    }
  }

  lemma AddContinues(was: Items, c: Command, usage: nat, t: int)
    requires Succeeds(was, c) || exists size :: BackIs(was, c, size, false)
    ensures SparesReplaced(Op.Add(c, usage, t), was)
  {
  }

  /** Adding a command with nothing evicted: the size grows by the whole stream once it is complete, and not before. */
  lemma AddGrows(max: nat, was: Cache, now: Cache, c: Command, usage: nat, t: int)
    requires AllShaped(was.items) && NoneEmpty(was.items) && Next(max, Op.Add(c, usage, t), was, now)
    requires Enters(was.items, c, usage) && Unevicted(was.items, now.items, c.id)
    requires Succeeds(was.items, c) || exists size :: BackIs(was.items, c, size, false)
    ensures now.size == (was.size + if c.last then Back(now.items, c.id).size else 0) % WORD
  {
    hide *;
    var op := Op.Add(c, usage, t);
    NextMoved(max, op, was, now);
    MovedIs(op, was.items, now.items);
    EntersIff(was.items, c, usage, t);
    AddContinues(was.items, c, usage, t);
    UnevictedAdded(was.items, now.items, c, usage, t);
    AddedItemBytes(was.items, c, usage, t);
    ReopenedPartial(was.items, c, usage, t);
    SumSplit(was.items, ItemBytes, c.id);
    AddedIs(was.items, c, usage, t);
    SumUpdate(was.items, ItemBytes, c.id, now.items[c.id]);
    GrowthIs(op, was, now, if c.last then Back(now.items, c.id).size else 0);
  }

  lemma NextMoved(max: nat, op: Op, was: Cache, now: Cache)
    requires AllShaped(was.items) && Next(max, op, was, now)
    ensures Moved(op, was.items, now.items) && Follows(was, now, Lost(op, was.items, now.items))
  {
  }

  lemma GrowthIs(op: Op, was: Cache, now: Cache, growth: nat)
    requires Follows(was, now, Lost(op, was.items, now.items))
    requires now.items == Prepared(op, was.items) && Partial(Reopening(op, was.items)) == Partial(was.items)
    requires Sum(now.items, ItemBytes) == Sum(was.items, ItemBytes) + growth
    ensures now.size == (was.size + growth) % WORD
  {
    hide Sum, Prepared, Reopening, ItemBytes, ItemIncomplete;
  }

  lemma AddedIs(was: Items, c: Command, usage: nat, t: int)
    ensures var added := Added(was, c, usage, t); c.id in added && added == was[c.id := added[c.id]]
  {
  }

  /** The cache before and after each command of a version, nothing being evicted of its item. */
  ghost predicate Receiving(max: nat, run: seq<Cache>, ops: seq<Op>, cs: seq<Command>) {
    && OneVersion(cs) && |ops| == |cs| && |run| == |cs| + 1
    && AllShaped(run[0].items) && NoneEmpty(run[0].items) && Succeeds(run[0].items, cs[0])
    && forall i :: 0 <= i < |cs| ==>
         && ops[i].Add? && ops[i].c == cs[i] && RunStep(max, ops[i], run[i], run[i + 1])
         && cs[i].id in run[i + 1].items
  }

  /** However a version is cut into commands, its stream has all their bytes, as long as the item is not evicted. */
  lemma {:induction false} StreamHasAllBytes(max: nat, run: seq<Cache>, ops: seq<Op>, cs: seq<Command>, i: nat)
    requires Receiving(max, run, ops, cs) && 0 < i <= |cs|
    ensures AllShaped(run[i].items) && NoneEmpty(run[i].items)
    ensures BackIs(run[i].items, cs[i - 1], SumBytes(cs[..i]), i == |cs|)
    ensures Enters(run[i - 1].items, cs[i - 1], ops[i - 1].usage)
    ensures i > 1 ==> BackIs(run[i - 1].items, cs[i - 1], SumBytes(cs[..i - 1]), false)
  {
    hide Moved, Follows, Lost, AllShaped, NoneEmpty, Enters, Shaped;
    var c, op := cs[i - 1], ops[i - 1];
    assert RunStep(max, op, run[i - 1], run[i]);
    assert cs[..i][..i - 1] == cs[..i - 1] && cs[..i][i - 1] == c;
    if i == 1 {
      FirstCommand(run[0].items, run[1].items, c, op.usage, op.now);
      assert SumBytes(cs[..0]) == 0;
    } else {
      StreamHasAllBytes(max, run, ops, cs, i - 1);
      NextCommand(run[i - 1].items, run[i].items, c, op.usage, op.now, SumBytes(cs[..i - 1]));
    }
  }

  /** With nothing evicted at all, the size grows by the sum of the commands' bytes once the last one is there. */
  lemma {:induction false} StreamIsCounted(max: nat, run: seq<Cache>, ops: seq<Op>, cs: seq<Command>, i: nat)
    requires Receiving(max, run, ops, cs) && 0 < i <= |cs| && run[0].size < WORD
    requires forall j :: 0 <= j < i ==> Unevicted(run[j].items, run[j + 1].items, cs[0].id)
    ensures run[i].size == if i == |cs| then (run[0].size + SumBytes(cs)) % WORD else run[0].size
  {
    hide Moved, Follows, Lost, AllShaped, NoneEmpty, Enters, Shaped, Unevicted;
    var c, op := cs[i - 1], ops[i - 1];
    StreamHasAllBytes(max, run, ops, cs, i);
    assert RunStep(max, op, run[i - 1], run[i]) && Unevicted(run[i - 1].items, run[i].items, c.id);
    if i > 1 {
      StreamIsCounted(max, run, ops, cs, i - 1);
    }
    AddGrows(max, run[i - 1], run[i], c, op.usage, op.now);
    assert cs[..|cs|] == cs;
    SmallMod(run[0].size, WORD);
  }
}
