/**
 Two RDMA connections joined by the network: the objects of both ends, the writes and flow-control messages between
 them, and the bytes that went in and came out. Every operation is a step of the protocol and keeps its invariant.
 */
module RdmaLinks {
  import opened Arithmetic
  import opened Common
  import opened Ring
  import opened Rdma
  import opened RdmaConnections
  import opened RdmaProtocol
  import opened RdmaTheorems

  /** One end of a connection after it has sent its setup message. */
  method OpenEnd(depth: nat, size: nat) returns (end: RdmaConnection)
    requires depth >= 2 && 0 < size < WORD
    ensures fresh(end) && fresh(end.sourcebuf) && fresh(end.sinkbuf) && end.Valid()
    ensures end.sourcebuf.Length == end.sinkbuf.Length == size && end.srcHead == end.srcMiddle == START
    ensures end.AsWriter() == Writer(START, START, START, START, START, size, WriteCredits(depth), 0, end.sourcebuf[..])
    ensures end.AsReader() == Reader(START, START, 0, 0, FcCredits(depth) - 1, 0, end.sinkbuf[..])
  {
    end := new RdmaConnection(size);
    var ok := end.InitProtocol(depth);
    end.PostSetup();
  }

  /** One data direction, from the near connection to the far one. */
  class Link {
    const near: RdmaConnection
    const far: RdmaConnection
    const config: Config

    /** Writes posted so far, and how many have landed, are completed at the near end and polled at the far end. */
    var posts: seq<Post>
    var landed: nat
    var completed: nat
    var polled: nat
    /** Flow-control messages sent so far, and how many the near end has taken. */
    var fcs: seq<Fc>
    var taken: nat

    ghost var accepted: seq<Byte>
    ghost var delivered: seq<Byte>

    ghost function AsDirection(): Direction
      reads this, near, near.sourcebuf, far, far.sinkbuf
    {
      Direction(near.AsWriter(), far.AsReader(), posts, landed, completed, polled, fcs, taken, accepted, delivered)
    }

    ghost predicate Separate()
      reads this, near, far
    {
      near != far && near.sourcebuf != far.sinkbuf && near.Valid() && far.Valid()
    }

    /** The protocol invariant, and all that was copied into the source ring is posted. */
    ghost predicate Valid()
      reads this, near, near.sourcebuf, far, far.sinkbuf
    {
      && Separate() && Supported(config) && Inv(config, AsDirection())
      && near.srcHead.value == near.srcMiddle.value
    }

    /** Both ends after the setup exchange. */
    constructor (depth: nat, size: nat)
      requires Supported(Config(depth, size))
      ensures Valid() && accepted == [] && delivered == [] && config == Config(depth, size)
      ensures fresh(near) && fresh(near.sourcebuf) && fresh(far) && fresh(far.sinkbuf)
    {
      hide *;
      SupportedRing(depth, size);
      var a := OpenEnd(depth, size);
      var b := OpenEnd(depth, size);
      near, far := a, b;
      config := Config(depth, size);
      posts, landed, completed, polled, fcs, taken := [], 0, 0, 0, [], 0;
      accepted, delivered := [], [];
      new;
      Parts();
      assert near.sourcebuf != far.sinkbuf;
      Started(config, AsDirection());
      Revalidate();
    }

    /** The bytes read are a prefix of the bytes written. */
    lemma PrefixDelivered()
      requires Valid()
      ensures delivered <= accepted
    {
    }

    /** write(): one attempt after the poll; what it takes is posted at once. */
    method Write(data: seq<Byte>) returns (put: nat)
      requires Valid()
      modifies this, near, near.sourcebuf
      ensures Valid() && put <= |data| && accepted == old(accepted) + data[..put] && delivered == old(delivered)
      ensures old(completed) <= |old(posts)| && old(taken) <= |old(fcs)|
      ensures var total, num := |old(accepted)|, config.num;
        put == if old(near.wcredits) == 0 then 0
               else Min(Min(|data|, 0xfff_ffff),
                        Min(num - total % num,
                            Min(num - (total - SumTo(old(posts), old(completed), Length)),
                                num - (total - SumTo(old(fcs), old(taken), FcBytes)))))
      ensures put == 0 ==> posts == old(posts)
      ensures put > 0 ==> |posts| == |old(posts)| + 1 && posts[..|old(posts)|] == old(posts)
      ensures put > 0 ==> posts[|old(posts)|].length == put
      ensures put > 0 ==> ImmReturned(posts[|old(posts)|].imm) == Min(15, old(near.fcs))
    {
      hide *;
      ValidParts();
      ghost var d := AsDirection();
      CreditsLeft(config, d);
      Shortened(data);
      WriteTakes(config, d, data);
      var post;
      put, post := near.TryWrite(data);
      if d.w.wcredits > 0 {
        Attempt(config, d, data);
      }
      if post.Some? {
        posts := posts + [post.value];
      }
      accepted := accepted + data[..put];
      assert put == 0 ==> accepted == old(accepted);
      Parts();
      assert AsDirection() == if d.w.wcredits > 0 then Attempted(config, d, data) else d;
      Revalidate();
    }

    /** A byte of a posted write reaches the sink early. */
    method LandByte(i: nat, k: nat)
      requires Valid() && landed <= i < |posts| && k < posts[i].length
      modifies far.sinkbuf
      ensures Valid() && posts[i].from + k < near.sourcebuf.Length && posts[i].to + k < far.sinkbuf.Length
      ensures far.sinkbuf[..] == old(far.sinkbuf[..])[posts[i].to + k := near.sourcebuf[posts[i].from + k]]
    {
      hide *;
      ValidParts();
      ghost var d, step := AsDirection(), Step.LandByte(i, k);
      LandByteEnabled(config, d, i, k);
      StepIs(config, d, step);
      far.sinkbuf[posts[i].to + k] := near.sourcebuf[posts[i].from + k];
      assert far.sinkbuf[..] == d.r.sink[posts[i].to + k := d.w.source[posts[i].from + k]];
      SinkWritten();
      Stepped(d, step);
    }

    /** The oldest write in flight is complete in the sink. */
    method Land()
      requires Valid() && landed < |posts|
      modifies this`landed, far.sinkbuf
      ensures Valid() && landed == old(landed) + 1
      ensures var p := posts[old(landed)];
        && p.from + p.length <= near.sourcebuf.Length && p.to + p.length <= far.sinkbuf.Length
        && far.sinkbuf[..] == Overlay(old(far.sinkbuf[..]), p.to, near.sourcebuf[p.from..p.from + p.length])
    {
      hide *;
      ValidParts();
      ghost var d := AsDirection();
      LandEnabled(config, d);
      StepIs(config, d, Step.Land);
      var p := posts[landed];
      CopyInto(far.sinkbuf, p.to, near.sourcebuf[p.from..p.from + p.length]);
      assert d.w.source[p.from..p.from + p.length] == near.sourcebuf[p.from..p.from + p.length];
      landed := landed + 1;
      SinkWritten();
      Stepped(d, Step.Land);
    }

    /** The near end polls the completion of its oldest write. */
    method Complete()
      requires Valid() && completed < landed
      modifies this`completed, near
      ensures Valid() && completed == old(completed) + 1
    {
      hide *;
      ValidParts();
      ghost var d := AsDirection();
      Shaped(config, d);
      StepIs(config, d, Step.Complete);
      near.CompleteRdmaWrite(posts[completed].length);
      completed := completed + 1;
      Stepped(d, Step.Complete);
    }

    /** The far end polls a write that has landed. */
    method Poll()
      requires Valid() && polled < landed
      modifies this`polled, far
      ensures Valid() && polled == old(polled) + 1
    {
      hide *;
      ValidParts();
      ghost var d := AsDirection();
      Shaped(config, d);
      StepIs(config, d, Step.Poll);
      far.RecvRdmaWrite(posts[polled].imm);
      polled := polled + 1;
      Stepped(d, Step.Poll);
    }

    /** readSync(): returns the next bytes that were written, at least one if any was announced. */
    method Read(bytes: nat) returns (data: seq<Byte>)
      requires Valid() && bytes % WORD != 0
      modifies this, far
      ensures Valid() && accepted == old(accepted) && delivered == old(delivered) + data && delivered <= accepted
      ensures |data| == Min(bytes % WORD, old(far.pending)) <= bytes
      ensures far.pending == old(far.pending) - |data| && far.writes < 12
    {
      hide *;
      ValidParts();
      ghost var d, step := AsDirection(), Step.Read(bytes);
      Shaped(config, d);
      ReadTakes(config, d, bytes);
      var fc;
      data, fc := far.TryRead(bytes);
      Parts();
      if fc.Some? {
        fcs := fcs + [fc.value];
      }
      delivered := delivered + data;
      if d.r.pending > 0 {
        ReadFacts(config, d, bytes);
        StepIs(config, d, step);
        Stepped(d, step);
      } else {
        ReadNothing(d.r, bytes);
        assert delivered == old(delivered);
        Parts();
        assert AsDirection() == d;
        Revalidate();
      }
      PrefixDelivered();
    }

    /** The near end polls a flow-control message. */
    method TakeFc()
      requires Valid() && taken < |fcs|
      modifies this`taken, near
      ensures Valid() && taken == old(taken) + 1
    {
      hide *;
      ValidParts();
      ghost var d := AsDirection();
      Shaped(config, d);
      StepIs(config, d, Step.TakeFc);
      near.RecvFc(fcs[taken]);
      taken := taken + 1;
      Stepped(d, Step.TakeFc);
    }

    twostate lemma SinkWritten()
      requires unchanged(far)
      ensures far.AsReader() == old(far.AsReader()).(sink := far.sinkbuf[..])
    {
    }

    lemma Parts()
      ensures AsDirection() ==
        Direction(near.AsWriter(), far.AsReader(), posts, landed, completed, polled, fcs, taken, accepted, delivered)
      ensures near.AsWriter().source == near.sourcebuf[..] && far.AsReader().sink == far.sinkbuf[..]
      ensures near.AsWriter().srcHead == near.srcHead && near.AsWriter().srcMiddle == near.srcMiddle
      ensures near.AsWriter().wcredits == near.wcredits && near.AsWriter().fcs == near.fcs
      ensures far.AsReader().pending == far.pending && far.AsReader().writes == far.writes
    {
    }

    lemma ValidParts()
      requires Valid()
      ensures Separate() && near != far && near.sourcebuf != far.sinkbuf && near.Valid() && far.Valid()
      ensures Supported(config) && Inv(config, AsDirection()) && WellShaped(config, AsDirection())
      ensures near.srcHead.value == near.srcMiddle.value
      ensures near.sourcebuf.Length == far.sinkbuf.Length == config.num
      ensures AsDirection() ==
        Direction(near.AsWriter(), far.AsReader(), posts, landed, completed, polled, fcs, taken, accepted, delivered)
      ensures near.AsWriter().source == near.sourcebuf[..] && far.AsReader().sink == far.sinkbuf[..]
      ensures near.AsWriter().srcHead == near.srcHead && near.AsWriter().srcMiddle == near.srcMiddle
      ensures near.AsWriter().wcredits == near.wcredits && near.AsWriter().fcs == near.fcs
      ensures far.AsReader().pending == far.pending && far.AsReader().writes == far.writes
    {
    }

    lemma Revalidate()
      requires near != far && near.sourcebuf != far.sinkbuf && near.Valid() && far.Valid()
      requires Supported(config) && Inv(config, AsDirection()) && near.srcHead.value == near.srcMiddle.value
      ensures Valid()
    {
    }

    /** The objects are where the step leads. */
    lemma Stepped(d: Direction, step: Step)
      requires near != far && near.sourcebuf != far.sinkbuf && near.Valid() && far.Valid()
      requires Supported(config) && Inv(config, d) && WellShaped(config, d) && Enabled(config, d, step)
      requires Apply(config, d, step) ==
        Direction(near.AsWriter(), far.AsReader(), posts, landed, completed, polled, fcs, taken, accepted, delivered)
      requires near.srcHead.value == near.srcMiddle.value
      ensures Valid()
    {
      hide *;
      StepKeeps(config, d, step);
      Parts();
      Revalidate();
    }
  }

  // ---- the steps as values ----

  lemma SupportedRing(depth: nat, size: nat)
    requires Supported(Config(depth, size))
    ensures depth >= 2 && 0 < size < WORD
  {
  }

  /** Both ends after their setup messages are in the initial state of the protocol. */
  lemma Started(c: Config, d: Direction)
    requires Supported(c) && |d.w.source| == |d.r.sink| == c.num
    requires d.w == Writer(START, START, START, START, START, c.num, WriteCredits(c.depth), 0, d.w.source)
    requires d.r == Reader(START, START, 0, 0, FcCredits(c.depth) - 1, 0, d.r.sink)
    requires d.posts == [] && d.landed == d.completed == d.polled == 0
    requires d.fcs == [] && d.taken == 0 && d.accepted == [] && d.delivered == []
    ensures Inv(c, d)
  {
    InitInv(c, d);
  }

  lemma StepIs(c: Config, d: Direction, step: Step)
    requires WellShaped(c, d) && Enabled(c, d, step)
    ensures Apply(c, d, step) ==
      match step
      case LandByte(i, k) => d.(r := d.r.(sink := d.r.sink[d.posts[i].to + k := d.w.source[d.posts[i].from + k]]))
      case Land =>
        var p := d.posts[d.landed];
        d.(r := d.r.(sink := Overlay(d.r.sink, p.to, d.w.source[p.from..p.from + p.length])), landed := d.landed + 1)
      case Complete => d.(w := CompleteWrite(d.w, d.posts[d.completed].length), completed := d.completed + 1)
      case Poll => d.(r := RecvWrite(d.r, d.posts[d.polled].imm), polled := d.polled + 1)
      case Read(bytes) =>
        var r := Rdma.Drain(d.r, bytes);
        var d' := d.(r := r, delivered := d.delivered + Drained(d.r, bytes));
        if Rdma.NeedFc(r) then d'.(r := Rdma.PostFc(r), fcs := d.fcs + [FcOf(r)]) else d'
      case TakeFc => d.(w := Rdma.RecvFc(d.w, d.fcs[d.taken]), taken := d.taken + 1)
      case _ => Apply(c, d, step)
  {
  }

  lemma Shortened(data: seq<Byte>)
    ensures 0 <= Min(|data|, MAX_BS) <= |data| && |data[..Min(|data|, MAX_BS)]| == Min(|data|, MAX_BS)
  {
  }

  /** How much a write attempt takes, and what its post carries. */
  lemma WriteTakes(c: Config, d: Direction, data: seq<Byte>)
    requires Supported(c) && Inv(c, d) && d.w.srcHead.value == d.w.srcMiddle.value
    ensures WriterRings(d.w) && d.completed <= |d.posts| && d.taken <= |d.fcs|
    ensures var total, num, part := |d.accepted|, c.num, data[..Min(|data|, MAX_BS)];
      var b := FillCount(d.w, |part|);
      && b == Min(Min(|data|, 0xfff_ffff),
                  Min(num - total % num,
                      Min(num - (total - SumTo(d.posts, d.completed, Length)),
                          num - (total - SumTo(d.fcs, d.taken, FcBytes)))))
      && (d.w.wcredits > 0 && b > 0 ==>
            && PostOf(Rdma.Fill(d.w, part)).length == b
            && ImmReturned(PostOf(Rdma.Fill(d.w, part)).imm) == Min(15, d.w.fcs))
  {
    hide Pointers, Totals, PostsOk, Memory, Conserved, ReturnsCovered, ZeroAcksFollowBig, Owed, Incr, Offset, Available, NegAvailable, Overlay, PackImm, ImmReturned;
    FillsAll(c, d, Min(|data|, MAX_BS));
    if d.w.wcredits > 0 && FillCount(d.w, Min(|data|, MAX_BS)) > 0 {
      FilledCanPost(c, d, data);
      var filled := Apply(c, d, Step.Accept(data));
      NothingUnposted(c, d);
      PostReturnsAll(c, filled);
    }
  }

  /** How much a read attempt takes, and what it leaves announced and owed. */
  lemma ReadTakes(c: Config, d: Direction, bytes: nat)
    requires Supported(c) && Inv(c, d) && bytes % WORD != 0
    ensures ReaderRing(d.r)
    ensures d.r.pending > 0 ==> |Drained(d.r, bytes)| == Min(bytes % WORD, d.r.pending)
    ensures Min(bytes % WORD, d.r.pending) <= bytes && (d.r.pending == 0 ==> Min(bytes % WORD, d.r.pending) == 0)
    ensures ReadAttempt(d.r, bytes).pending == d.r.pending - Min(bytes % WORD, d.r.pending)
    ensures ReadAttempt(d.r, bytes).writes < 12
  {
    hide Pointers, PostsOk, Memory, ReturnsCovered, ZeroAcksFollowBig, Incr, Offset, Available;
    AtMostAsked(bytes);
    if d.r.pending > 0 {
      ReadDelivers(c, d, bytes);
      ReadSettles(c, d, bytes);
      ReadStepIsAttempt(c, d, bytes);
      DrainFacts(c, d, bytes);
    }
  }

  lemma CreditsLeft(c: Config, d: Direction)
    requires Inv(c, d)
    ensures d.w.wcredits >= 0
  {
  }

  lemma Shaped(c: Config, d: Direction)
    requires Inv(c, d)
    ensures WellShaped(c, d)
    ensures d.completed < d.landed ==> d.completed < |d.posts| && Enabled(c, d, Step.Complete)
    ensures d.polled < d.landed ==> d.polled < |d.posts| && Enabled(c, d, Step.Poll)
    ensures d.taken < |d.fcs| ==> Enabled(c, d, Step.TakeFc)
  {
  }

  lemma LandByteEnabled(c: Config, d: Direction, i: nat, k: nat)
    requires Inv(c, d) && d.landed <= i < |d.posts| && k < d.posts[i].length
    ensures WellShaped(c, d) && d.posts[i].from + k < c.num && d.posts[i].to + k < c.num && Enabled(c, d, Step.LandByte(i, k))
    ensures |d.r.sink| == |d.w.source| == c.num
  {
    assert PostOk(c, d, i);
  }

  lemma LandEnabled(c: Config, d: Direction)
    requires Inv(c, d) && d.landed < |d.posts|
    ensures WellShaped(c, d) && Enabled(c, d, Step.Land)
    ensures var p := d.posts[d.landed]; p.from + p.length <= c.num && p.to + p.length <= c.num
    ensures |d.r.sink| == |d.w.source| == c.num
  {
    assert PostOk(c, d, d.landed);
  }

  lemma ReadFacts(c: Config, d: Direction, bytes: nat)
    requires Supported(c) && Inv(c, d) && d.r.pending > 0 && bytes % WORD != 0
    ensures WellShaped(c, d) && Enabled(c, d, Step.Read(bytes))
    ensures 0 < |Drained(d.r, bytes)| && ReaderRing(d.r) && d.r.writes >= 0
    ensures var r := Rdma.Drain(d.r, bytes);
      r.writes >= 0 && ReadAttempt(d.r, bytes) == if Rdma.NeedFc(r) then Rdma.PostFc(r) else r
  {
    hide Pointers, Totals, Memory, PostsOk, ReturnsCovered, ZeroAcksFollowBig, Owed, Incr;
    DrainFacts(c, d, bytes);
  }

  lemma ReadNothing(r: Reader, bytes: nat)
    requires ReaderRing(r) && r.pending == 0
    ensures ReadAttempt(r, bytes) == r
  {
  }

  /** A write attempt with a credit: the fill, and the post of what was copied. */
  ghost function Attempted(c: Config, d: Direction, data: seq<Byte>): Direction
    requires Supported(c) && Inv(c, d) && d.w.wcredits > 0 && d.w.srcHead.value == d.w.srcMiddle.value
  {
    var filled := Apply(c, d, Step.Accept(data));
    StepKeeps(c, d, Step.Accept(data));
    if FillCount(d.w, Min(|data|, MAX_BS)) == 0 then filled
    else
      FilledCanPost(c, d, data);
      Apply(c, filled, Step.PostNext)
  }

  lemma FilledCanPost(c: Config, d: Direction, data: seq<Byte>)
    requires Supported(c) && Inv(c, d) && d.w.wcredits > 0 && d.w.srcHead.value == d.w.srcMiddle.value
    ensures Enabled(c, d, Step.Accept(data))
    ensures var filled := Apply(c, d, Step.Accept(data));
      && Inv(c, filled)
      && (FillCount(d.w, Min(|data|, MAX_BS)) == 0 <==> filled.w.srcHead.value == filled.w.srcMiddle.value)
  {
    hide PostsOk, Memory, Conserved, ReturnsCovered, ZeroAcksFollowBig, Owed, Represents, Overlay, Incr, FillCount, Place;
    var filled := Apply(c, d, Step.Accept(data));
    StepKeeps(c, d, Step.Accept(data));
    NothingUnposted(c, d);
    NothingUnposted(c, filled);
  }

  lemma PostedAll(c: Config, d: Direction)
    requires Supported(c) && Inv(c, d) && Enabled(c, d, Step.PostNext)
    ensures Inv(c, Apply(c, d, Step.PostNext))
    ensures var d' := Apply(c, d, Step.PostNext); d'.w.srcHead.value == d'.w.srcMiddle.value
  {
    hide PostsOk, Memory, Conserved, ReturnsCovered, ZeroAcksFollowBig, Owed, Represents, Incr, Place;
    var d' := Apply(c, d, Step.PostNext);
    StepKeeps(c, d, Step.PostNext);
    NothingUnposted(c, d);
    PostSums(c, d, |d.posts|);
    NothingUnposted(c, d');
  }

  /** A write attempt keeps the invariant, leaves nothing unposted, and is what the connection does. */
  lemma Attempt(c: Config, d: Direction, data: seq<Byte>)
    requires Supported(c) && Inv(c, d) && d.w.wcredits > 0 && d.w.srcHead.value == d.w.srcMiddle.value
    ensures WriterRings(d.w)
    ensures var d', part := Attempted(c, d, data), data[..Min(|data|, MAX_BS)];
      var b := FillCount(d.w, |part|);
      && b <= |data| && data[..b] == part[..b]
      && Inv(c, d') && d'.w.srcHead.value == d'.w.srcMiddle.value
      && d' == d.(w := if b == 0 then Rdma.Fill(d.w, part) else PostWrite(Rdma.Fill(d.w, part)),
                  posts := if b == 0 then d.posts else d.posts + [PostOf(Rdma.Fill(d.w, part))],
                  accepted := d.accepted + data[..b])
  {
    hide Pointers, Totals, PostsOk, Memory, Conserved, ReturnsCovered, ZeroAcksFollowBig, Owed, Incr, Offset, Available, NegAvailable;
    FilledCanPost(c, d, data);
    var filled := Apply(c, d, Step.Accept(data));
    if FillCount(d.w, Min(|data|, MAX_BS)) > 0 {
      PostedAll(c, filled);
    }
  }
}
