/** What the RDMA protocol guarantees in every reachable state of one direction, and of two directions together. */
module RdmaTheorems {
  import opened Arithmetic
  import opened Common
  import opened Ring
  import opened Rdma
  import opened RdmaProtocol

  lemma StepKeeps(c: Config, d: Direction, step: Step)
    requires Supported(c) && Inv(c, d) && Enabled(c, d, step)
    ensures Inv(c, Apply(c, d, step))
  {
    hide *;
    match step
    case Accept(data) => AcceptKeeps(c, d, data);
    case PostNext => PostKeeps(c, d);
    case LandByte(i, k) => LandByteKeeps(c, d, i, k);
    case Land => LandKeeps(c, d);
    case Complete => CompleteKeeps(c, d);
    case Poll => PollKeeps(c, d);
    case Read(bytes) => ReadKeeps(c, d, bytes);
    case TakeFc => TakeFcKeeps(c, d);
  }

  /** The invariant holds in every state of every run. */
  lemma {:induction false} RunInv(c: Config, run: seq<Direction>, steps: seq<Step>, i: nat)
    requires Supported(c) && Run(c, run, steps) && i < |run|
    ensures Inv(c, run[i])
  {
    hide Inv, Init, Enabled, Apply, WellShaped;
    if i == 0 {
      InitInv(c, run[0]);
    } else {
      RunInv(c, run, steps, i - 1);
      assert RunStep(c, run[i - 1], steps[i - 1], run[i]);
      StepKeeps(c, run[i - 1], steps[i - 1]);
    }
  }

  /** In every run the bytes returned by the reader are a prefix of the bytes accepted by the writer. */
  lemma DeliveredIsPrefixOfAccepted(c: Config, run: seq<Direction>, steps: seq<Step>, i: nat)
    requires Supported(c) && Run(c, run, steps) && i < |run|
    ensures run[i].delivered <= run[i].accepted
  {
    RunInv(c, run, steps, i);
  }

  /** An unread byte and the byte of any write that may still land never share a place in the sink. */
  lemma LandingSparesUnread(c: Config, d: Direction, unread: nat, p: nat, k: nat)
    requires Supported(c) && Inv(c, d) && d.landed <= p < |d.posts| && k < d.posts[p].length
    requires |d.delivered| <= unread < PostBytes(d, d.landed)
    ensures d.posts[p].to + k != unread % c.num
    ensures PostBytes(d, p) + k < |d.accepted| && d.posts[p].from + k < c.num
    ensures d.w.source[d.posts[p].from + k] == d.accepted[PostBytes(d, p) + k]
  {
    hide Pointers, ReturnsCovered, ZeroAcksFollowBig, Owed, Conserved, Slice;
    assert PostOk(c, d, p);
    LandingPosition(c, d, p, k);
    ModDistinct(unread, PostBytes(d, p) + k, c.num);
    SourceHoldsPost(c, d, p, k);
  }

  lemma SourceHoldsPost(c: Config, d: Direction, p: nat, k: nat)
    requires WellShaped(c, d) && Totals(c, d) && Memory(c, d)
    requires d.landed <= p < |d.posts| && PostOk(c, d, p) && k < d.posts[p].length
    requires PostBytes(d, p) + d.posts[p].length <= |d.accepted|
    ensures d.w.source[d.posts[p].from + k] == d.accepted[PostBytes(d, p) + k]
  {
    var at, length := PostBytes(d, p), d.posts[p].length;
    SumToMonotone(d.posts, d.completed, p, Length);
    HoldsRange(d.w.source, PostBytes(d, d.completed), |d.accepted|, d.accepted, at, length);
    assert d.w.source[at % c.num..at % c.num + length][k] == d.accepted[at..at + length][k];
  }

  /**
   Every posted write is contiguous in both buffers at the same offset and fits its 28 bits, so the guard of
   Land never blocks a write, and a flow-control message carries the exact number of bytes read since the last.
   */
  lemma WritesContiguousAndLossless(c: Config, run: seq<Direction>, steps: seq<Step>, i: nat)
    requires Supported(c) && Run(c, run, steps) && i < |run|
    ensures WellShaped(c, run[i])
    ensures forall p :: 0 <= p < |run[i].posts| ==> PostOk(c, run[i], p)
    ensures run[i].landed < |run[i].posts| ==> Enabled(c, run[i], Land)
    ensures run[i].r.readBytes <= c.num && run[i].r.writes >= 0 && FcOf(run[i].r).bytes == run[i].r.readBytes
  {
    RunInv(c, run, steps, i);
    var d := run[i];
    AckedAtMostPosted(c, d);
    SumToMonotone(d.fcs, d.taken, |d.fcs|, FcBytes);
    SmallMod(d.r.readBytes, WORD);
    assert d.landed < |d.posts| ==> PostOk(c, d, d.landed);
  }

  // ---- flow-control credits ----

  /** From any point of the log on, there are at most as many messages as writes they acknowledge, plus one after a big one. */
  lemma {:induction false} MessagesCoveredByAcks(d: Direction, n: nat)
    requires ZeroAcksFollowBig(d) && n <= |d.fcs|
    ensures |d.fcs| - n <= AckWrites(d, |d.fcs|) - AckWrites(d, n) + if BigAck(d, n) then 1 else 0
    decreases |d.fcs| - n
  {
    if n < |d.fcs| {
      MessagesCoveredByAcks(d, n + 1);
      assert d.fcs[n].writes == 0 ==> BigAck(d, n);
    }
  }

  /** Flow-control messages posted whose credit the reader does not have back. */
  ghost function OutstandingFcs(d: Direction): int
    requires d.taken <= |d.fcs| && d.polled <= |d.posts|
  {
    (|d.fcs| - d.taken) + d.w.fcs + (PostReturns(d, |d.posts|) - PostReturns(d, d.polled))
  }

  lemma OutstandingBound(c: Config, d: Direction)
    requires Inv(c, d)
    ensures OutstandingFcs(d) <= WriteCredits(c.depth) + 1 - d.r.writes
    ensures d.r.fcredits >= 2 + d.r.writes
  {
    hide Pointers, Totals, PostOk, MemoryAt;
    MessagesCoveredByAcks(d, d.taken);
    assert ReturnsCoveredFrom(d, d.polled);
  }

  /**
   At most depth/2 - 1 flow-control messages are ever outstanding, so the reader always has two credits, posting
   one after a drain never goes below zero, and the retry for lack of a credit is never taken.
   */
  lemma FlowControlNeverStarves(c: Config, run: seq<Direction>, steps: seq<Step>, i: nat)
    requires Supported(c) && Run(c, run, steps) && i < |run|
    ensures WellShaped(c, run[i]) && OutstandingFcs(run[i]) <= c.depth / 2 - 1
    ensures run[i].r.fcredits >= 2 && PostFc(run[i].r).fcredits >= 0
    ensures !(NeedFc(run[i].r) && run[i].r.fcredits == 0)
  {
    hide Place, Represents, Offset;
    RunInv(c, run, steps, i);
    OutstandingBound(c, run[i]);
  }

  lemma OutstandingNonNegative(c: Config, d: Direction)
    requires Inv(c, d)
    ensures OutstandingFcs(d) >= |d.fcs| - d.taken
    ensures AckWrites(d, d.taken) <= AckWrites(d, |d.fcs|)
  {
    SumToMonotone(d.posts, d.polled, |d.posts|, Return);
    SumToMonotone(d.fcs, d.taken, |d.fcs|, FcWrites);
  }

  /**
   Credit conservation in every reachable state, and with it the asserted bounds: neither credit counter exceeds
   the depth or falls below zero.
   */
  lemma CreditsConserved(c: Config, run: seq<Direction>, steps: seq<Step>, i: nat)
    requires Supported(c) && Run(c, run, steps) && i < |run|
    ensures WellShaped(c, run[i])
    ensures var d := run[i];
      && d.w.wcredits + (|d.posts| - d.polled) + d.r.writes + (AckWrites(d, |d.fcs|) - AckWrites(d, d.taken))
         == c.depth / 2 - 2
      && d.r.fcredits + (|d.fcs| - d.taken) + d.w.fcs + (PostReturns(d, |d.posts|) - PostReturns(d, d.polled))
         == c.depth / 2 + 1
    ensures 0 <= run[i].w.wcredits <= c.depth / 2 - 2
    ensures 2 <= run[i].r.fcredits <= c.depth / 2 + 1 <= c.depth
  {
    hide Place, Represents, Offset;
    RunInv(c, run, steps, i);
    OutstandingBound(c, run[i]);
    OutstandingNonNegative(c, run[i]);
  }

  /**
   Two directions between the same peers: the messages one side must still receive (the peer's writes and the
   peer's flow-control messages for the opposite direction) never exceed its posted receives.
   */
  lemma ReceivesSuffice(c: Config, to: seq<Direction>, toSteps: seq<Step>, i: nat,
                        back: seq<Direction>, backSteps: seq<Step>, j: nat)
    requires Supported(c) && Run(c, to, toSteps) && i < |to| && Run(c, back, backSteps) && j < |back|
    ensures (|to[i].posts| - to[i].polled) + (|back[j].fcs| - back[j].taken) <= c.depth - 3
  {
    hide Place, Represents, Offset;
    RunInv(c, to, toSteps, i);
    RunInv(c, back, backSteps, j);
    OutstandingNonNegative(c, to[i]);
    OutstandingNonNegative(c, back[j]);
    OutstandingBound(c, back[j]);
  }

  /**
   A read attempt keeps the announced bytes equal to the bytes in the sink if and only if its size is not a
   multiple of 2^32: such a size is narrowed to zero, and the announcement is lost.
   */
  lemma ReadSizeMustNotBeWholeWords(c: Config, d: Direction, bytes: nat)
    requires Supported(c) && Inv(c, d) && d.r.pending > 0
    ensures var r := ReadAttempt(d.r, bytes);
      r.pending == Available(r.sinkHead, r.sinkTail, WORD) <==> bytes % WORD != 0
  {
    hide Place, Represents, Offset, MemoryAt, PostOk, Slice, Incr, Available;
    AckedAtMostPosted(c, d);
    SumToMonotone(d.fcs, d.taken, |d.fcs|, FcBytes);
    SumToMonotone(d.posts, d.polled, d.landed, Length);
    AvailableIsDifference(d.r.sinkHead, d.r.sinkTail, PostBytes(d, d.polled), |d.delivered|, c.num, WORD);
    if bytes % WORD != 0 {
      DrainFacts(c, d, bytes);
      AvailableIsDifference(d.r.sinkHead, Drain(d.r, bytes).sinkTail, PostBytes(d, d.polled),
                            |d.delivered| + DrainCount(d.r, bytes), c.num, WORD);
    } else {
      IncrRepresents(d.r.sinkTail, |d.delivered|, 0, c.num, WORD);
      AvailableIsDifference(d.r.sinkHead, Incr(d.r.sinkTail, 0, c.num, WORD), PostBytes(d, d.polled), |d.delivered|,
                            c.num, WORD);
    }
  }

  /** The Read step of the protocol is what a read attempt does. */
  lemma ReadStepIsAttempt(c: Config, d: Direction, bytes: nat)
    requires Supported(c) && Inv(c, d) && Enabled(c, d, Read(bytes))
    ensures Apply(c, d, Read(bytes)).r == ReadAttempt(d.r, bytes)
  {
    hide Place, Represents, Offset, MemoryAt, PostOk, Slice, Incr, Available;
    DrainFacts(c, d, bytes);
  }

  /** A read delivers exactly the next announced bytes, as many as were asked for or as there are. */
  lemma ReadDelivers(c: Config, d: Direction, bytes: nat)
    requires Supported(c) && Inv(c, d) && Enabled(c, d, Read(bytes))
    ensures var n := Min(bytes % WORD, PostBytes(d, d.polled) - |d.delivered|);
      && 0 < n <= bytes && |d.delivered| + n <= |d.accepted|
      && Apply(c, d, Read(bytes)).delivered == d.accepted[..|d.delivered| + n]
      && Apply(c, d, Read(bytes)).r.pending == d.r.pending - n
  {
    hide Place, Represents, Offset, MemoryAt, PostOk, Slice, Incr, Available, Drained;
    AckedAtMostPosted(c, d);
    SumToMonotone(d.posts, d.polled, d.landed, Length);
    SumToMonotone(d.fcs, d.taken, |d.fcs|, FcBytes);
    AvailableIsDifference(d.r.sinkHead, d.r.sinkTail, PostBytes(d, d.polled), |d.delivered|, c.num, WORD);
    DrainFacts(c, d, bytes);
    DeliveredPrefix(c, d);
    AtMostAsked(bytes);
    var n := DrainCount(d.r, bytes);
    assert d.delivered + d.accepted[|d.delivered|..|d.delivered| + n] == d.accepted[..|d.delivered| + n];
  }

  lemma AtMostAsked(bytes: nat)
    ensures bytes % WORD <= bytes
  {
  }

  /** After a read the reader owes fewer than twelve writes, and none if the sink is empty. */
  lemma ReadSettles(c: Config, d: Direction, bytes: nat)
    requires Supported(c) && Inv(c, d) && Enabled(c, d, Read(bytes))
    ensures var d' := Apply(c, d, Read(bytes));
      && d'.r.writes < 12 && (d'.r.pending == 0 ==> d'.r.writes == 0)
      && (d'.fcs == d.fcs || (d'.fcs == d.fcs + [Fc(d.r.readBytes + |d'.delivered| - |d.delivered|, d.r.writes)] && d'.r.writes == 0))
      && (|d'.fcs| > |d.fcs| <==> d'.r.pending == 0 || d.r.writes >= 12)
  {
    hide Place, Represents, Offset, MemoryAt, PostOk, Slice, Incr, Available, Drained;
    DrainFacts(c, d, bytes);
    SmallMod(Drain(d.r, bytes).readBytes, WORD);
  }

  /** A write returns as many flow-control credits as it can carry. */
  lemma PostReturnsAll(c: Config, d: Direction)
    requires Supported(c) && Inv(c, d) && Enabled(c, d, PostNext)
    ensures var d' := Apply(c, d, PostNext);
      && |d'.posts| == |d.posts| + 1
      && ImmReturned(d'.posts[|d.posts|].imm) == Min(15, d.w.fcs) == d.w.fcs - d'.w.fcs
      && d'.posts[|d.posts|].length == |d.accepted| - PostBytes(d, |d.posts|)
  {
    hide Place, Represents, Offset, MemoryAt, PostOk, Slice, Incr, Available;
    NothingUnposted(c, d);
    UnreturnedBound(c, d);
    SmallMod(d.w.fcs, 0x1_0000);
    ImmRoundTrip(PostLength(d.w), Returned(d.w));
  }

  /** What a write attempt with nothing unposted takes: all that both rings and the end of the buffer leave room for. */
  lemma FillsAll(c: Config, d: Direction, bytes: nat)
    requires Supported(c) && Inv(c, d) && d.w.srcHead.value == d.w.srcMiddle.value
    ensures FillCount(d.w, bytes) ==
      Min(bytes, Min(c.num - |d.accepted| % c.num,
                     Min(c.num - (|d.accepted| - PostBytes(d, d.completed)), c.num - (|d.accepted| - AckBytes(d, d.taken)))))
  {
    hide Place, MemoryAt, PostOk, Slice, Incr, NegAvailable, Available, Offset, Represents;
    NothingUnposted(c, d);
    AckedAtMostPosted(c, d);
    SumToMonotone(d.posts, d.completed, |d.posts|, Length);
    AvailableIsDifference(d.w.srcHead, d.w.srcTail, |d.accepted|, PostBytes(d, d.completed), c.num, WORD);
    AvailableIsDifference(d.w.rHead, d.w.rTail, PostBytes(d, |d.posts|), AckBytes(d, d.taken), c.num, WORD);
    OffsetIsTotalModNum(d.w.srcHead, |d.accepted|, c.num, WORD);
  }

  // ---- no stranded credit, no deadlock ----

  ghost predicate Quiet(d: Direction) {
    d.polled == |d.posts| && d.taken == |d.fcs| && d.r.pending == 0
  }

  /** An empty sink owes no write and no byte, so once both queues are empty everything is back with the writer. */
  lemma NothingStranded(c: Config, run: seq<Direction>, steps: seq<Step>, i: nat)
    requires Supported(c) && Run(c, run, steps) && i < |run|
    ensures WellShaped(c, run[i])
    ensures run[i].r.pending == 0 ==> run[i].r.writes == 0 && run[i].r.readBytes == 0
    ensures Quiet(run[i]) ==>
      && run[i].w.wcredits == c.depth / 2 - 2
      && NegAvailable(run[i].w.rHead, run[i].w.rTail, c.num, WORD) == c.num
  {
    hide Place, Represents, Offset, NegAvailable, Available;
    RunInv(c, run, steps, i);
    var d := run[i];
    if Quiet(d) {
      AvailableIsDifference(d.w.rHead, d.w.rTail, PostBytes(d, |d.posts|), AckBytes(d, d.taken), c.num, WORD);
    }
  }

  /** With a positive number of write credits, a writer that can accept nothing always has another step to wait for. */
  lemma NoDeadlock(c: Config, d: Direction, data: seq<Byte>)
    requires Supported(c) && 6 <= c.depth && Inv(c, d) && data != []
    ensures Enabled(c, d, PostNext) || Enabled(c, d, Land) || Enabled(c, d, Complete) || Enabled(c, d, Poll)
         || Enabled(c, d, Read(1)) || Enabled(c, d, TakeFc)
         || (Enabled(c, d, Accept(data)) && FillCount(d.w, |data|) > 0)
  {
    hide Place, Represents, Offset, NegAvailable, Available, MemoryAt;
    NothingUnposted(c, d);
    if d.landed < |d.posts| {
      assert PostOk(c, d, d.landed);
    } else if d.completed == d.landed && d.polled == d.landed && d.taken == |d.fcs| && d.r.pending == 0
           && |d.accepted| == PostBytes(d, |d.posts|) {
      AvailableIsDifference(d.w.srcHead, d.w.srcTail, |d.accepted|, PostBytes(d, d.completed), c.num, WORD);
      AvailableIsDifference(d.w.rHead, d.w.rTail, PostBytes(d, |d.posts|), AckBytes(d, d.taken), c.num, WORD);
    }
  }

  /** Work left once the writer stops accepting. */
  ghost function Work(c: Config, d: Direction): nat
    requires Inv(c, d)
  {
    AckedAtMostPosted(c, d);
    2 * (|d.accepted| - |d.delivered|) + (|d.fcs| - d.taken)
    + (|d.posts| - d.landed) + (|d.posts| - d.completed) + (|d.posts| - d.polled)
    + if |d.accepted| > PostBytes(d, |d.posts|) then 4 else 0
  }

  lemma ReadDrainsWork(c: Config, d: Direction, bytes: nat)
    requires Supported(c) && Inv(c, d) && Enabled(c, d, Read(bytes)) && Inv(c, Apply(c, d, Read(bytes)))
    ensures Work(c, Apply(c, d, Read(bytes))) < Work(c, d)
  {
    hide Place, Represents, Offset, MemoryAt, PostOk, Slice, Incr, ReturnsCoveredFrom;
    DrainFacts(c, d, bytes);
  }

  lemma PostDrainsWork(c: Config, d: Direction)
    requires Supported(c) && Inv(c, d) && Enabled(c, d, PostNext) && Inv(c, Apply(c, d, PostNext))
    ensures Work(c, Apply(c, d, PostNext)) < Work(c, d)
  {
    hide Place, Represents, Offset, MemoryAt, PostOk, Slice, Incr, ReturnsCoveredFrom;
    NothingUnposted(c, d);
    PostSums(c, d, |d.posts|);
  }

  /** Every step but accepting and early landing shrinks the work left, so the protocol always comes to rest. */
  lemma StepsDrainWork(c: Config, d: Direction, step: Step)
    requires Supported(c) && Inv(c, d) && Enabled(c, d, step) && !step.Accept? && !step.LandByte?
    ensures Inv(c, Apply(c, d, step)) && Work(c, Apply(c, d, step)) < Work(c, d)
  {
    StepKeeps(c, d, step);
    hide Place, Represents, Offset, MemoryAt, PostOk, Slice, Incr, ReturnsCoveredFrom;
    match step
    case Read(bytes) => ReadDrainsWork(c, d, bytes);
    case PostNext => PostDrainsWork(c, d);
    case _ =>
  }

  /** At rest, when nothing but accepting data is left to do, everything accepted is delivered and all is quiet. */
  lemma RestMeansDelivered(c: Config, d: Direction)
    requires Supported(c) && Inv(c, d)
    requires forall step :: Enabled(c, d, step) ==> step.Accept? || step.LandByte?
    ensures d.delivered == d.accepted && Quiet(d)
  {
    hide Place, Represents, Offset, MemoryAt, Slice, ReturnsCoveredFrom;
    NothingUnposted(c, d);
    assert d.landed < |d.posts| ==> PostOk(c, d, d.landed);
    assert !Enabled(c, d, PostNext) && !Enabled(c, d, Land) && !Enabled(c, d, Complete) && !Enabled(c, d, Poll);
    assert !Enabled(c, d, Read(1)) && !Enabled(c, d, TakeFc);
    DeliveredPrefix(c, d);
  }

  lemma DeliveredPrefix(c: Config, d: Direction)
    requires Inv(c, d)
    ensures d.delivered <= d.accepted
  {
  }

  /**
   A run after which a read of 2^32 bytes loses the notice of data that is there: one byte is accepted, posted, landed
   and polled on rings of one byte.
   */
  lemma WholeWordReadLosesNotice(x: Byte, fill: Byte)
    ensures exists run: seq<Direction>, steps: seq<Step> ::
      && Run(Config(6, 1), run, steps) && |run| == 5 && WellShaped(Config(6, 1), run[4]) && run[4].r.pending > 0
      && var r := ReadAttempt(run[4].r, WORD);
         r.pending != Available(r.sinkHead, r.sinkTail, WORD)
  {
    hide *;
    var c, steps := Config(6, 1), [Accept([x]), PostNext, Land, Poll];
    var d0 := Direction(InitWriter(6, [fill], 1), InitReader(6, [fill]), [], 0, 0, 0, [], 0, [], []);
    var d1 := FirstFill(d0, x, fill);
    var d2 := PostStep(c, d1);
    var d3 := LandStep(c, d2);
    var d4 := PollStep(c, d3);
    var run := [d0, d1, d2, d3, d4];
    MakeRun(c, run, steps);
    PolledIsPending(c, d4);
    WholeWordNarrows();
    ReadSizeMustNotBeWholeWords(c, d4, WORD);
  }

  lemma MakeRun(c: Config, run: seq<Direction>, steps: seq<Step>)
    requires |run| == 5 && |steps| == 4 && Init(c, run[0])
    requires RunStep(c, run[0], steps[0], run[1]) && RunStep(c, run[1], steps[1], run[2])
    requires RunStep(c, run[2], steps[2], run[3]) && RunStep(c, run[3], steps[3], run[4])
    ensures Run(c, run, steps)
  {
    hide RunStep, Init;
    forall i | 0 <= i < |steps| ensures RunStep(c, run[i], steps[i], run[i + 1]) {
      assert i == 0 || i == 1 || i == 2 || i == 3;
    }
  }

  lemma WholeWordNarrows()
    ensures WORD % WORD == 0
  {
  }

  /** The first byte accepted by a new connection with rings of one byte. */
  lemma FirstFill(d: Direction, x: Byte, fill: Byte) returns (d': Direction)
    requires d == Direction(InitWriter(6, [fill], 1), InitReader(6, [fill]), [], 0, 0, 0, [], 0, [], [])
    ensures Supported(Config(6, 1)) && Init(Config(6, 1), d) && Inv(Config(6, 1), d')
    ensures RunStep(Config(6, 1), d, Accept([x]), d') && WellShaped(Config(6, 1), d') && Enabled(Config(6, 1), d', PostNext)
    ensures d'.posts == [] && d'.landed == d'.polled == 0 && d'.delivered == []
  {
    hide Inv, Fill, FillCount;
    var c := Config(6, 1);
    InitInv(c, d);
    FillOne(d.w, x);
    d' := Apply(c, d, Accept([x]));
    StepKeeps(c, d, Accept([x]));
  }

  lemma FillOne(w: Writer, x: Byte)
    requires |w.source| == 1 && w == InitWriter(6, w.source, 1)
    ensures [x][..Min(|[x]|, MAX_BS)] == [x] && FillCount(w, 1) == 1
    ensures Fill(w, [x]).srcHead.value == 1 && Fill(w, [x]).srcMiddle.value == 0
    ensures |Fill(w, [x]).source| == 1 && Fill(w, [x]).rnum == 1
  {
    hide Available, NegAvailable, Offset, Represents;
    StartRepresents(1, WORD);
    AvailableIsDifference(START, START, 0, 0, 1, WORD);
    OffsetIsTotalModNum(START, 0, 1, WORD);
    SmallMod(1, WORD);
  }

  lemma PostStep(c: Config, d: Direction) returns (d': Direction)
    requires Supported(c) && Inv(c, d) && WellShaped(c, d) && Enabled(c, d, PostNext)
    ensures RunStep(c, d, PostNext, d') && Inv(c, d') && d'.landed == d.landed && d'.polled == d.polled
    ensures |d'.posts| == |d.posts| + 1 && d'.delivered == d.delivered
  {
    hide Inv;
    d' := Apply(c, d, PostNext);
    StepKeeps(c, d, PostNext);
  }

  lemma LandStep(c: Config, d: Direction) returns (d': Direction)
    requires Supported(c) && Inv(c, d) && d.landed < |d.posts|
    ensures RunStep(c, d, Land, d') && Inv(c, d') && d'.landed == d.landed + 1 && d'.polled == d.polled
    ensures d'.delivered == d.delivered
  {
    hide Pointers, Totals, Memory, Conserved, ReturnsCovered, ZeroAcksFollowBig, Owed, Overlay;
    assert PostOk(c, d, d.landed);
    d' := Apply(c, d, Land);
    StepKeeps(c, d, Land);
  }

  lemma PollStep(c: Config, d: Direction) returns (d': Direction)
    requires Supported(c) && Inv(c, d) && d.polled < d.landed
    ensures RunStep(c, d, Poll, d') && Inv(c, d') && d'.polled == d.polled + 1 && d'.delivered == d.delivered
    ensures WellShaped(c, d')
  {
    hide Pointers, Totals, PostsOk, Memory, Conserved, ReturnsCovered, ZeroAcksFollowBig, Owed, Incr;
    d' := Apply(c, d, Poll);
    StepKeeps(c, d, Poll);
  }

  lemma PolledIsPending(c: Config, d: Direction)
    requires Inv(c, d) && d.polled > 0 && d.delivered == []
    ensures d.r.pending > 0
  {
    assert PostOk(c, d, 0);
    SumToMonotone(d.posts, 1, d.polled, Length);
  }
}
