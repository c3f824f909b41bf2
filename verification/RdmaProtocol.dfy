/**
 One data direction of an RDMA connection as a step system: a writer, a reader, the RDMA writes and flow-control
 messages exchanged so far (each log in order, with how far each side has got), and both memories.
 */
module RdmaProtocol {
  import opened Arithmetic
  import opened Common
  import opened Ring
  import opened Rdma

  datatype Config = Config(depth: nat, num: nat)

  /** Depths with at least zero write credits whose FC counts fit the uint16_t narrowing; rings of at most half a word. */
  ghost predicate Supported(c: Config) {
    4 <= c.depth < 0x2_0000 && 0 < c.num <= 0x8000_0000
  }

  datatype Direction = Direction(
    w: Writer, r: Reader,
    posts: seq<Post>, landed: nat, completed: nat, polled: nat,
    fcs: seq<Fc>, taken: nat,
    accepted: seq<Byte>, delivered: seq<Byte>)

  datatype Step =
    | Accept(data: seq<Byte>)      // write(): copy into the source ring
    | PostNext                     // write(): post what was copied
    | LandByte(i: nat, k: nat)     // one byte of a posted write reaches the sink early
    | Land                         // the oldest outstanding write is complete in the sink
    | Complete                     // the writer polls a local completion
    | Poll                         // the reader polls a received write
    | Read(bytes: nat)             // readSync(): drain, and send flow control if needed
    | TakeFc                       // the writer polls a flow-control message

  ghost predicate WellShaped(c: Config, d: Direction) {
    && 0 < c.num < WORD && |d.w.source| == |d.r.sink| == d.w.rnum == c.num
    && d.completed <= d.landed <= |d.posts| && d.polled <= d.landed && d.taken <= |d.fcs|
  }

  ghost predicate Enabled(c: Config, d: Direction, step: Step)
    requires WellShaped(c, d)
  {
    match step
    case Accept(data) => d.w.wcredits > 0 && d.w.srcHead.value == d.w.srcMiddle.value
    case PostNext => d.w.srcHead.value != d.w.srcMiddle.value
    case LandByte(i, k) =>
      && d.landed <= i < |d.posts| && k < d.posts[i].length
      && d.posts[i].from + k < c.num && d.posts[i].to + k < c.num
    case Land =>
      && d.landed < |d.posts|
      && d.posts[d.landed].from + d.posts[d.landed].length <= c.num
      && d.posts[d.landed].to + d.posts[d.landed].length <= c.num
    case Complete => d.completed < d.landed
    case Poll => d.polled < d.landed
    case Read(bytes) => d.r.pending > 0 && bytes % WORD != 0 && d.r.writes >= 0
    case TakeFc => d.taken < |d.fcs|
  }

  ghost function Apply(c: Config, d: Direction, step: Step): Direction
    requires WellShaped(c, d) && Enabled(c, d, step)
  {
    match step
    case Accept(data) =>
      var data := data[..Min(|data|, MAX_BS)];
      d.(w := Fill(d.w, data), accepted := d.accepted + data[..FillCount(d.w, |data|)])
    case PostNext =>
      d.(w := PostWrite(d.w), posts := d.posts + [PostOf(d.w)])
    case LandByte(i, k) =>
      d.(r := d.r.(sink := d.r.sink[d.posts[i].to + k := d.w.source[d.posts[i].from + k]]))
    case Land =>
      var p := d.posts[d.landed];
      d.(r := d.r.(sink := Overlay(d.r.sink, p.to, d.w.source[p.from..p.from + p.length])), landed := d.landed + 1)
    case Complete =>
      d.(w := CompleteWrite(d.w, d.posts[d.completed].length), completed := d.completed + 1)
    case Poll =>
      d.(r := RecvWrite(d.r, d.posts[d.polled].imm), polled := d.polled + 1)
    case Read(bytes) =>
      var r := Drain(d.r, bytes);
      var d := d.(r := r, delivered := d.delivered + Drained(d.r, bytes));
      if NeedFc(r) then d.(r := PostFc(r), fcs := d.fcs + [FcOf(r)]) else d
    case TakeFc =>
      d.(w := RecvFc(d.w, d.fcs[d.taken]), taken := d.taken + 1)
  }

  ghost predicate Init(c: Config, d: Direction) {
    && |d.w.source| == |d.r.sink| == c.num
    && d.w == InitWriter(c.depth, d.w.source, c.num) && d.r == InitReader(c.depth, d.r.sink)
    && d.posts == [] && d.landed == d.completed == d.polled == 0
    && d.fcs == [] && d.taken == 0 && d.accepted == [] && d.delivered == []
  }

  /** States reached one step after another from an initial one. */
  ghost predicate Run(c: Config, run: seq<Direction>, steps: seq<Step>) {
    && |run| == |steps| + 1
    && Init(c, run[0])
    && forall i :: 0 <= i < |steps| ==> RunStep(c, run[i], steps[i], run[i + 1])
  }

  ghost predicate RunStep(c: Config, d: Direction, step: Step, d': Direction) {
    WellShaped(c, d) && Enabled(c, d, step) && d' == Apply(c, d, step)
  }

  // ---- prefix sums over the logs ----

  function SumTo<T>(log: seq<T>, n: nat, f: T -> nat): nat
    requires n <= |log|
  {
    if n == 0 then 0 else SumTo(log, n - 1, f) + f(log[n - 1])
  }

  lemma {:induction false} SumToAppend<T>(log: seq<T>, x: T, n: nat, f: T -> nat)
    requires n <= |log|
    ensures SumTo(log + [x], n, f) == SumTo(log, n, f)
    ensures SumTo(log + [x], |log| + 1, f) == SumTo(log + [x], |log|, f) + f(x)
  {
    if n > 0 {
      SumToAppend(log, x, n - 1, f);
    }
  }

  lemma {:induction false} SumToMonotone<T>(log: seq<T>, m: nat, n: nat, f: T -> nat)
    requires m <= n <= |log|
    ensures SumTo(log, m, f) <= SumTo(log, n, f)
    decreases n
  {
    if m < n {
      SumToMonotone(log, m, n - 1, f);
    }
  }

  function Length(p: Post): nat { p.length }
  function Return(p: Post): nat { ImmReturned(p.imm) }
  function FcBytes(f: Fc): nat { f.bytes }
  function FcWrites(f: Fc): nat { f.writes }

  /** Bytes in the first n posts, and flow-control credits they return. */
  function PostBytes(d: Direction, n: nat): nat requires n <= |d.posts| { SumTo(d.posts, n, Length) }
  function PostReturns(d: Direction, n: nat): nat requires n <= |d.posts| { SumTo(d.posts, n, Return) }
  /** Bytes and writes acknowledged by the first n flow-control messages. */
  function AckBytes(d: Direction, n: nat): nat requires n <= |d.fcs| { SumTo(d.fcs, n, FcBytes) }
  function AckWrites(d: Direction, n: nat): nat requires n <= |d.fcs| { SumTo(d.fcs, n, FcWrites) }

  // ---- the invariant ----

  /** Every ring pointer stands for the true total it counts. */
  ghost predicate Pointers(c: Config, d: Direction)
    requires WellShaped(c, d)
  {
    && Represents(d.w.srcHead, |d.accepted|, c.num, WORD)
    && Represents(d.w.srcMiddle, PostBytes(d, |d.posts|), c.num, WORD)
    && Represents(d.w.srcTail, PostBytes(d, d.completed), c.num, WORD)
    && Represents(d.w.rHead, PostBytes(d, |d.posts|), c.num, WORD)
    && Represents(d.w.rTail, AckBytes(d, d.taken), c.num, WORD)
    && Represents(d.r.sinkHead, PostBytes(d, d.polled), c.num, WORD)
    && Represents(d.r.sinkTail, |d.delivered|, c.num, WORD)
  }

  /** Where a stream position lies in a ring. */
  ghost function Place(position: nat, num: nat): nat
    requires num > 0
  {
    position % num
  }

  /** acknowledged <= delivered <= polled <= posted <= accepted, and no more than one lap between any two. */
  ghost predicate Totals(c: Config, d: Direction)
    requires WellShaped(c, d)
  {
    && AckBytes(d, |d.fcs|) + d.r.readBytes == |d.delivered|
    && |d.delivered| + d.r.pending == PostBytes(d, d.polled)
    && PostBytes(d, |d.posts|) <= |d.accepted| <= PostBytes(d, d.completed) + c.num
    && |d.accepted| <= AckBytes(d, d.taken) + c.num
    && var unposted := |d.accepted| - PostBytes(d, |d.posts|);
       && unposted <= MAX_BS
       && (unposted > 0 ==> d.w.wcredits > 0 && Place(PostBytes(d, |d.posts|), c.num) + unposted <= c.num)
  }

  /** A write is contiguous at the same offset of both buffers, fits 28 bits, and its immediate data decodes. */
  ghost predicate PostOk(c: Config, d: Direction, i: nat)
    requires WellShaped(c, d) && i < |d.posts|
  {
    var p := d.posts[i];
    && 0 < p.length <= MAX_BS && ImmBytes(p.imm) == p.length
    && p.from == p.to == Place(PostBytes(d, i), c.num) && p.to + p.length <= c.num
  }

  ghost predicate PostsOk(c: Config, d: Direction)
    requires WellShaped(c, d)
  {
    forall i :: 0 <= i < |d.posts| ==> PostOk(c, d, i)
  }

  /** Both kinds of credit are conserved. */
  ghost predicate Conserved(c: Config, d: Direction)
    requires WellShaped(c, d)
  {
    && d.w.wcredits + (|d.posts| - d.polled) + d.r.writes + (AckWrites(d, |d.fcs|) - AckWrites(d, d.taken))
       == WriteCredits(c.depth)
    && d.r.fcredits + (|d.fcs| - d.taken) + d.w.fcs + (PostReturns(d, |d.posts|) - PostReturns(d, d.polled))
       == FcCredits(c.depth) - 1
    && d.w.wcredits >= 0 && d.w.fcs >= 0 && d.r.writes >= 0
  }

  ghost predicate BigAck(d: Direction, n: nat)
    requires n <= |d.fcs|
  {
    n > 0 && d.fcs[n - 1].writes >= FC_MESSAGE_FREQUENCY
  }

  /** A flow-control message acknowledging no write directly follows one that acknowledged at least twelve. */
  ghost predicate ZeroAcksFollowBig(d: Direction) {
    forall j :: 0 <= j < |d.fcs| && d.fcs[j].writes == 0 ==> BigAck(d, j)
  }

  /** An empty sink owes nothing; an owed byte without an owed write was acknowledged by a big message. */
  ghost predicate Owed(d: Direction) {
    && (d.r.pending == 0 ==> d.r.writes == 0 && d.r.readBytes == 0)
    && (d.r.pending > 0 && d.r.writes == 0 ==> BigAck(d, |d.fcs|))
  }

  /**
   For every suffix of the writes in flight: the flow-control credits it returns, with those not yet returned,
   are at most the writes in it plus the write credits, plus one unless the last message taken was big.
   */
  ghost predicate ReturnsCovered(d: Direction)
    requires d.polled <= |d.posts| && d.taken <= |d.fcs|
  {
    forall i :: d.polled <= i <= |d.posts| ==> ReturnsCoveredFrom(d, i)
  }

  ghost predicate ReturnsCoveredFrom(d: Direction, i: nat)
    requires i <= |d.posts| && d.taken <= |d.fcs|
  {
    PostReturns(d, |d.posts|) - PostReturns(d, i) + d.w.fcs
      <= |d.posts| - i + d.w.wcredits + if BigAck(d, d.taken) then 0 else 1
  }

  /** The ring still holds the stream's bytes from position `from` up to `upto`. */
  ghost predicate Holds(ring: seq<Byte>, from: nat, upto: nat, stream: seq<Byte>)
    requires |ring| > 0 && from <= upto <= |stream|
  {
    Slice(ring, from, upto - from) == stream[from..upto]
  }

  /** Unread sink bytes and the source bytes of incomplete writes still hold what was accepted. */
  ghost predicate MemoryAt(source: seq<Byte>, sink: seq<Byte>, completed: nat, landed: nat,
                           accepted: seq<Byte>, delivered: seq<Byte>)
  {
    && 0 < |source| == |sink| && completed <= |accepted| && |delivered| <= landed <= |accepted|
    && Holds(source, completed, |accepted|, accepted)
    && Holds(sink, |delivered|, landed, accepted)
    && delivered == accepted[..|delivered|]
  }

  ghost predicate Memory(c: Config, d: Direction)
    requires WellShaped(c, d)
  {
    MemoryAt(d.w.source, d.r.sink, PostBytes(d, d.completed), PostBytes(d, d.landed), d.accepted, d.delivered)
  }

  ghost predicate Inv(c: Config, d: Direction) {
    && WellShaped(c, d) && Pointers(c, d) && Totals(c, d) && PostsOk(c, d)
    && Conserved(c, d) && ZeroAcksFollowBig(d) && Owed(d) && ReturnsCovered(d)
    && Memory(c, d)
  }

  // ---- what a ring holds after a copy ----

  lemma HoldsPrefix(ring: seq<Byte>, from: nat, upto: nat, stream: seq<Byte>, longer: seq<Byte>)
    requires |ring| > 0 && from <= upto <= |stream| && stream <= longer && Holds(ring, from, upto, stream)
    ensures Holds(ring, from, upto, longer)
  {
    assert longer[from..upto] == stream[from..upto];
  }

  lemma HoldsOverlay(ring: seq<Byte>, from: nat, upto: nat, data: seq<Byte>, stream: seq<Byte>)
    requires |ring| > 0 && from <= upto <= upto + |data| <= |stream| && Holds(ring, from, upto, stream)
    requires stream[upto..upto + |data|] == data
    requires upto + |data| - from <= |ring| && upto % |ring| + |data| <= |ring|
    ensures Holds(Overlay(ring, upto % |ring|, data), from, upto + |data|, stream)
  {
    SliceOverlay(ring, from, upto - from, data);
    assert stream[from..upto + |data|] == stream[from..upto] + data;
  }

  lemma HoldsLater(ring: seq<Byte>, from: nat, later: nat, upto: nat, stream: seq<Byte>)
    requires |ring| > 0 && from <= later <= upto <= |stream| && Holds(ring, from, upto, stream)
    ensures Slice(ring, from, later - from) == stream[from..later]
    ensures Holds(ring, later, upto, stream)
  {
    SliceSplit(ring, from, upto - from, later - from);
    var whole := Slice(ring, from, upto - from);
    assert Slice(ring, from, later - from) == whole[..later - from];
    assert Slice(ring, later, upto - later) == whole[later - from..];
  }

  lemma HoldsRange(ring: seq<Byte>, from: nat, upto: nat, stream: seq<Byte>, at: nat, length: nat)
    requires |ring| > 0 && from <= at <= at + length <= upto <= |stream| && Holds(ring, from, upto, stream)
    requires at % |ring| + length <= |ring|
    ensures ring[at % |ring|..at % |ring| + length] == stream[at..at + length]
  {
    HoldsLater(ring, from, at, upto, stream);
    HoldsLater(ring, at, at + length, upto, stream);
    SliceContiguous(ring, at, length);
  }

  /** Copying a contiguous run from one ring that holds the stream to the same offset of another. */
  lemma HoldsCopy(source: seq<Byte>, sink: seq<Byte>, kept: nat, from: nat, at: nat, length: nat, stream: seq<Byte>)
    requires 0 < |source| == |sink| && kept <= at && from <= at <= at + length <= |stream|
    requires at + length - from <= |sink| && at % |sink| + length <= |sink|
    requires Holds(source, kept, |stream|, stream) && Holds(sink, from, at, stream)
    ensures Holds(Overlay(sink, at % |sink|, source[at % |sink|..at % |sink| + length]), from, at + length, stream)
  {
    HoldsRange(source, kept, |stream|, stream, at, length);
    HoldsOverlay(sink, from, at, source[at % |sink|..at % |sink| + length], stream);
  }

  // ---- every step keeps the invariant ----

  lemma InitInv(c: Config, d: Direction)
    requires Supported(c) && Init(c, d)
    ensures Inv(c, d)
  {
    StartRepresents(c.num, WORD);
  }

  lemma AcceptTotals(c: Config, d: Direction, data: seq<Byte>)
    requires Supported(c) && WellShaped(c, d) && Pointers(c, d) && Totals(c, d) && Enabled(c, d, Accept(data))
    ensures var d' := Apply(c, d, Accept(data)); WellShaped(c, d') && Pointers(c, d') && Totals(c, d')
  {
    hide Represents, Incr, Offset, Available, NegAvailable, Holds, Slice, Overlay;
    var put := data[..Min(|data|, MAX_BS)];
    var b := FillCount(d.w, |put|);
    var posted, completed, acked := PostBytes(d, |d.posts|), PostBytes(d, d.completed), AckBytes(d, d.taken);
    NothingUnposted(c, d);
    AckedAtMostPosted(c, d);
    AvailableIsDifference(d.w.srcHead, d.w.srcTail, |d.accepted|, completed, c.num, WORD);
    AvailableIsDifference(d.w.rHead, d.w.rTail, posted, acked, c.num, WORD);
    OffsetIsTotalModNum(d.w.srcHead, |d.accepted|, c.num, WORD);
    IncrRepresents(d.w.srcHead, |d.accepted|, b, c.num, WORD);
  }

  lemma MemoryFill(source: seq<Byte>, sink: seq<Byte>, completed: nat, landed: nat,
                   accepted: seq<Byte>, delivered: seq<Byte>, data: seq<Byte>)
    requires MemoryAt(source, sink, completed, landed, accepted, delivered)
    requires |accepted| + |data| - completed <= |source| && |accepted| % |source| + |data| <= |source|
    ensures MemoryAt(Overlay(source, |accepted| % |source|, data), sink, completed, landed, accepted + data, delivered)
  {
    HoldsPrefix(source, completed, |accepted|, accepted, accepted + data);
    HoldsPrefix(sink, |delivered|, landed, accepted, accepted + data);
    HoldsOverlay(source, completed, |accepted|, data, accepted + data);
  }

  lemma AcceptMemory(c: Config, d: Direction, data: seq<Byte>)
    requires Supported(c) && WellShaped(c, d) && Pointers(c, d) && Enabled(c, d, Accept(data)) && Memory(c, d)
    requires |Apply(c, d, Accept(data)).accepted| - PostBytes(d, d.completed) <= c.num
    ensures Memory(c, Apply(c, d, Accept(data)))
  {
    hide Represents, Incr, Offset, Available, NegAvailable, Holds, Slice;
    var put := data[..Min(|data|, MAX_BS)];
    OffsetIsTotalModNum(d.w.srcHead, |d.accepted|, c.num, WORD);
    MemoryFill(d.w.source, d.r.sink, PostBytes(d, d.completed), PostBytes(d, d.landed), d.accepted, d.delivered,
               put[..FillCount(d.w, |put|)]);
  }

  lemma AcceptKeeps(c: Config, d: Direction, data: seq<Byte>)
    requires Supported(c) && Inv(c, d) && Enabled(c, d, Accept(data))
    ensures Inv(c, Apply(c, d, Accept(data)))
  {
    hide Represents, Incr, Offset, Available, Holds, Slice, Place;
    AcceptTotals(c, d, data);
    AcceptMemory(c, d, data);
    var d' := Apply(c, d, Accept(data));
    assert forall i :: 0 <= i < |d.posts| && PostOk(c, d, i) ==> PostOk(c, d', i);
    assert forall i :: d.polled <= i <= |d.posts| && ReturnsCoveredFrom(d, i) ==> ReturnsCoveredFrom(d', i);
  }

  /** Before a fill the writer has posted everything it accepted. */
  lemma NothingUnposted(c: Config, d: Direction)
    requires Supported(c) && WellShaped(c, d) && Pointers(c, d) && Totals(c, d)
    ensures d.w.srcHead.value == d.w.srcMiddle.value <==> |d.accepted| == PostBytes(d, |d.posts|)
    ensures PostLength(d.w) == |d.accepted| - PostBytes(d, |d.posts|)
  {
    AvailableIsDifference(d.w.srcHead, d.w.srcMiddle, |d.accepted|, PostBytes(d, |d.posts|), c.num, WORD);
    if d.w.srcHead.value == d.w.srcMiddle.value {
      SmallMod(0, WORD);
    }
  }

  lemma AckedAtMostPosted(c: Config, d: Direction)
    requires WellShaped(c, d) && Totals(c, d)
    ensures AckBytes(d, d.taken) <= |d.delivered| <= PostBytes(d, d.landed) <= PostBytes(d, |d.posts|)
    ensures PostBytes(d, d.completed) <= PostBytes(d, d.landed)
  {
    SumToMonotone(d.posts, d.completed, d.landed, Length);
    SumToMonotone(d.fcs, d.taken, |d.fcs|, FcBytes);
    SumToMonotone(d.posts, d.polled, d.landed, Length);
    SumToMonotone(d.posts, d.landed, |d.posts|, Length);
  }

  // Post

  lemma PostSums(c: Config, d: Direction, n: nat)
    requires WellShaped(c, d) && n <= |d.posts| && Enabled(c, d, PostNext)
    ensures var d' := Apply(c, d, PostNext);
      && PostBytes(d', n) == PostBytes(d, n) && PostReturns(d', n) == PostReturns(d, n)
      && PostBytes(d', |d.posts| + 1) == PostBytes(d', |d.posts|) + PostOf(d.w).length
      && PostReturns(d', |d.posts| + 1) == PostReturns(d', |d.posts|) + ImmReturned(PostOf(d.w).imm)
  {
    SumToAppend(d.posts, PostOf(d.w), n, Length);
    SumToAppend(d.posts, PostOf(d.w), n, Return);
  }

  lemma PostTotals(c: Config, d: Direction)
    requires Supported(c) && WellShaped(c, d) && Pointers(c, d) && Totals(c, d) && Enabled(c, d, PostNext)
    ensures var d' := Apply(c, d, PostNext);
      WellShaped(c, d') && Pointers(c, d') && Totals(c, d') && PostOk(c, d', |d.posts|)
  {
    hide Represents, Incr, Offset, Available, NegAvailable, Holds, Slice, Overlay;
    var posted := PostBytes(d, |d.posts|);
    NothingUnposted(c, d);
    PostSums(c, d, |d.posts|);
    PostSums(c, d, d.completed);
    PostSums(c, d, d.polled);
    OffsetIsTotalModNum(d.w.srcMiddle, posted, c.num, WORD);
    OffsetIsTotalModNum(d.w.rHead, posted, c.num, WORD);
    IncrRepresents(d.w.srcMiddle, posted, PostLength(d.w), c.num, WORD);
    IncrRepresents(d.w.rHead, posted, PostLength(d.w), c.num, WORD);
    ImmRoundTrip(PostLength(d.w), Returned(d.w));
  }

  /** A post returns at least one flow-control credit if there is one to return. */
  lemma ReturnedBounds(w: Writer)
    requires 0 <= w.fcs < 0x1_0000
    ensures Min(1, w.fcs) <= Returned(w) <= w.fcs && Returned(w) <= MAX_FC
  {
    SmallMod(w.fcs, 0x1_0000);
  }

  lemma UnreturnedBound(c: Config, d: Direction)
    requires Supported(c) && WellShaped(c, d) && Conserved(c, d) && ReturnsCovered(d)
    ensures d.w.wcredits <= WriteCredits(c.depth)
    ensures d.w.fcs <= WriteCredits(c.depth) + 1 < 0x1_0000
  {
    SumToMonotone(d.fcs, d.taken, |d.fcs|, FcWrites);
    assert ReturnsCoveredFrom(d, |d.posts|);
  }

  lemma PostConserves(c: Config, d: Direction)
    requires Supported(c) && WellShaped(c, d) && Totals(c, d) && Pointers(c, d) && Enabled(c, d, PostNext)
    requires Conserved(c, d) && ReturnsCovered(d)
    ensures ImmReturned(PostOf(d.w).imm) == Returned(d.w)
    ensures var d' := Apply(c, d, PostNext); WellShaped(c, d') && Conserved(c, d')
  {
    hide Represents, Incr, Offset, Available, Slice;
    NothingUnposted(c, d);
    UnreturnedBound(c, d);
    ReturnedBounds(d.w);
    ImmRoundTrip(PostLength(d.w), Returned(d.w));
    PostSums(c, d, d.polled);
    PostSums(c, d, |d.posts|);
  }

  lemma PostCovers(c: Config, d: Direction)
    requires Supported(c) && WellShaped(c, d) && Enabled(c, d, PostNext)
    requires Conserved(c, d) && ReturnsCovered(d)
    requires ImmReturned(PostOf(d.w).imm) == Returned(d.w)
    requires var d' := Apply(c, d, PostNext); WellShaped(c, d') && Conserved(c, d')
    ensures ReturnsCovered(Apply(c, d, PostNext))
  {
    hide Represents, Incr, Offset, Available, Slice;
    var d' := Apply(c, d, PostNext);
    UnreturnedBound(c, d);
    ReturnedBounds(d.w);
    PostSums(c, d, |d.posts|);
    assert ReturnsCoveredFrom(d, |d.posts|);
    forall i | d'.polled <= i <= |d'.posts| ensures ReturnsCoveredFrom(d', i) {
      if i <= |d.posts| {
        PostSums(c, d, i);
        assert ReturnsCoveredFrom(d, i);
      }
    }
  }

  lemma PostKeeps(c: Config, d: Direction)
    requires Supported(c) && Inv(c, d) && Enabled(c, d, PostNext)
    ensures Inv(c, Apply(c, d, PostNext))
  {
    hide Represents, Incr, Offset, Available, Holds, Slice, Place;
    var d' := Apply(c, d, PostNext);
    PostTotals(c, d);
    PostConserves(c, d);
    PostCovers(c, d);
    PostSums(c, d, d.completed);
    PostSums(c, d, d.landed);
    forall i | 0 <= i < |d'.posts| ensures PostOk(c, d', i) {
      if i < |d.posts| {
        PostSums(c, d, i);
        assert PostOk(c, d, i);
      }
    }
    assert forall j :: 0 <= j <= |d.fcs| ==> BigAck(d', j) == BigAck(d, j);
  }

  // LandByte and Land

  /** The parts of the invariant that do not look at the sink memory or at how much has landed. */
  lemma LandingFrame(c: Config, d: Direction, d': Direction)
    requires Inv(c, d) && WellShaped(c, d')
    requires d' == d.(r := d.r.(sink := d'.r.sink), landed := d'.landed)
    ensures Pointers(c, d') && Totals(c, d') && PostsOk(c, d')
    ensures Conserved(c, d') && ZeroAcksFollowBig(d') && Owed(d') && ReturnsCovered(d')
  {
    hide Represents, Incr, Offset, Available, Holds, Slice, Place;
    assert forall i :: 0 <= i < |d.posts| && PostOk(c, d, i) ==> PostOk(c, d', i);
    assert forall i :: d.polled <= i <= |d.posts| && ReturnsCoveredFrom(d, i) ==> ReturnsCoveredFrom(d', i);
    assert forall j :: 0 <= j <= |d.fcs| ==> BigAck(d', j) == BigAck(d, j);
  }

  /** Where a byte of a write that has not landed belongs: past the landed bytes, within one lap of the unread ones. */
  lemma LandingPosition(c: Config, d: Direction, i: nat, k: nat)
    requires WellShaped(c, d) && Totals(c, d) && d.landed <= i < |d.posts| && PostOk(c, d, i) && k < d.posts[i].length
    ensures PostBytes(d, d.landed) <= PostBytes(d, i) + k < |d.delivered| + c.num
    ensures PostBytes(d, i) + d.posts[i].length <= |d.accepted|
    ensures d.posts[i].to + k == (PostBytes(d, i) + k) % c.num
  {
    AckedAtMostPosted(c, d);
    SumToMonotone(d.posts, d.landed, i, Length);
    SumToMonotone(d.posts, i + 1, |d.posts|, Length);
    ModStep(PostBytes(d, i), k, c.num);
  }

  lemma LandByteMemory(c: Config, d: Direction, i: nat, k: nat)
    requires WellShaped(c, d) && Totals(c, d) && Memory(c, d) && Enabled(c, d, LandByte(i, k)) && PostOk(c, d, i)
    ensures Memory(c, Apply(c, d, LandByte(i, k)))
  {
    LandingPosition(c, d, i, k);
    SliceUntouched(d.r.sink, |d.delivered|, PostBytes(d, d.landed) - |d.delivered|, PostBytes(d, i) + k,
                   d.w.source[d.posts[i].from + k]);
  }

  lemma LandByteKeeps(c: Config, d: Direction, i: nat, k: nat)
    requires Inv(c, d) && Enabled(c, d, LandByte(i, k))
    ensures Inv(c, Apply(c, d, LandByte(i, k)))
  {
    hide Represents, Incr, Offset, Available, Holds, Slice, Place;
    LandingFrame(c, d, Apply(c, d, LandByte(i, k)));
    LandByteMemory(c, d, i, k);
  }

  lemma LandMemory(c: Config, d: Direction)
    requires WellShaped(c, d) && Totals(c, d) && Memory(c, d) && Enabled(c, d, Land) && PostOk(c, d, d.landed)
    ensures Memory(c, Apply(c, d, Land))
  {
    hide Represents, Incr, Offset, Available, NegAvailable, Holds, Slice;
    var p := d.posts[d.landed];
    AckedAtMostPosted(c, d);
    SumToMonotone(d.posts, d.landed + 1, |d.posts|, Length);
    HoldsCopy(d.w.source, d.r.sink, PostBytes(d, d.completed), |d.delivered|, PostBytes(d, d.landed), p.length,
              d.accepted);
  }

  lemma LandKeeps(c: Config, d: Direction)
    requires Inv(c, d) && Enabled(c, d, Land)
    ensures Inv(c, Apply(c, d, Land))
  {
    hide Represents, Incr, Offset, Available, Holds, Slice, Place;
    LandingFrame(c, d, Apply(c, d, Land));
    LandMemory(c, d);
  }

  // Complete

  lemma CompleteTotals(c: Config, d: Direction)
    requires Supported(c) && WellShaped(c, d) && Pointers(c, d) && Totals(c, d) && Memory(c, d)
    requires Enabled(c, d, Complete) && PostOk(c, d, d.completed)
    ensures var d' := Apply(c, d, Complete);
      WellShaped(c, d') && Pointers(c, d') && Totals(c, d') && Memory(c, d')
  {
    hide Place, Represents, Incr, Offset, Available, NegAvailable, Holds, Slice, Overlay;
    AckedAtMostPosted(c, d);
    SumToMonotone(d.posts, d.completed + 1, |d.posts|, Length);
    IncrRepresents(d.w.srcTail, PostBytes(d, d.completed), d.posts[d.completed].length, c.num, WORD);
    HoldsLater(d.w.source, PostBytes(d, d.completed), PostBytes(d, d.completed + 1), |d.accepted|, d.accepted);
  }

  lemma CompleteKeeps(c: Config, d: Direction)
    requires Supported(c) && Inv(c, d) && Enabled(c, d, Complete)
    ensures Inv(c, Apply(c, d, Complete))
  {
    hide Represents, Incr, Offset, Available, Holds, Slice, Place;
    var d' := Apply(c, d, Complete);
    CompleteTotals(c, d);
    assert forall i :: 0 <= i < |d.posts| && PostOk(c, d, i) ==> PostOk(c, d', i);
    assert forall i :: d.polled <= i <= |d.posts| && ReturnsCoveredFrom(d, i) ==> ReturnsCoveredFrom(d', i);
  }

  // Poll

  lemma PollTotals(c: Config, d: Direction)
    requires Supported(c) && WellShaped(c, d) && Pointers(c, d) && Totals(c, d) && Memory(c, d)
    requires Enabled(c, d, Poll) && PostOk(c, d, d.polled)
    ensures var d' := Apply(c, d, Poll);
      WellShaped(c, d') && Pointers(c, d') && Totals(c, d') && Memory(c, d')
  {
    hide Place, Represents, Incr, Offset, Available, NegAvailable, Holds, Slice, Overlay;
    IncrRepresents(d.r.sinkHead, PostBytes(d, d.polled), d.posts[d.polled].length, c.num, WORD);
  }

  lemma PollKeeps(c: Config, d: Direction)
    requires Supported(c) && Inv(c, d) && Enabled(c, d, Poll)
    ensures Inv(c, Apply(c, d, Poll))
  {
    hide Represents, Incr, Offset, Available, Holds, Slice, Place;
    var d' := Apply(c, d, Poll);
    PollTotals(c, d);
    assert forall i :: 0 <= i < |d.posts| && PostOk(c, d, i) ==> PostOk(c, d', i);
    assert forall i :: d.polled <= i <= |d.posts| && ReturnsCoveredFrom(d, i) ==> ReturnsCoveredFrom(d', i);
  }

  // TakeFc

  lemma TakeFcTotals(c: Config, d: Direction)
    requires Supported(c) && WellShaped(c, d) && Pointers(c, d) && Totals(c, d) && Enabled(c, d, TakeFc)
    ensures var d' := Apply(c, d, TakeFc); WellShaped(c, d') && Pointers(c, d') && Totals(c, d')
  {
    hide Place, Represents, Incr, Offset, Available, NegAvailable, Holds, Slice, Overlay;
    AckedAtMostPosted(c, d);
    SumToMonotone(d.fcs, d.taken + 1, |d.fcs|, FcBytes);
    IncrRepresents(d.w.rTail, AckBytes(d, d.taken), d.fcs[d.taken].bytes, c.num, WORD);
  }

  lemma TakeFcCredits(c: Config, d: Direction)
    requires WellShaped(c, d) && Conserved(c, d) && ZeroAcksFollowBig(d) && ReturnsCovered(d) && Enabled(c, d, TakeFc)
    ensures var d' := Apply(c, d, TakeFc); WellShaped(c, d') && Conserved(c, d') && ReturnsCovered(d')
  {
    hide Place, Represents, Incr, Offset, Available, Slice;
    var d' := Apply(c, d, TakeFc);
    forall i | d'.polled <= i <= |d'.posts| ensures ReturnsCoveredFrom(d', i) {
      assert ReturnsCoveredFrom(d, i);
      assert d.fcs[d.taken].writes == 0 ==> BigAck(d, d.taken);
    }
  }

  lemma TakeFcKeeps(c: Config, d: Direction)
    requires Supported(c) && Inv(c, d) && Enabled(c, d, TakeFc)
    ensures Inv(c, Apply(c, d, TakeFc))
  {
    hide Represents, Incr, Offset, Available, Holds, Slice, Place;
    var d' := Apply(c, d, TakeFc);
    TakeFcTotals(c, d);
    TakeFcCredits(c, d);
    assert forall i :: 0 <= i < |d.posts| && PostOk(c, d, i) ==> PostOk(c, d', i);
    assert forall j :: 0 <= j <= |d.fcs| ==> BigAck(d', j) == BigAck(d, j);
  }

  // Read

  lemma DrainFacts(c: Config, d: Direction, bytes: nat)
    requires Supported(c) && WellShaped(c, d) && Pointers(c, d) && Totals(c, d) && Memory(c, d)
    requires Enabled(c, d, Read(bytes))
    ensures 0 < DrainCount(d.r, bytes) <= d.r.pending
    ensures |d.delivered| + DrainCount(d.r, bytes) <= PostBytes(d, d.landed) <= |d.accepted|
    ensures Drained(d.r, bytes) == d.accepted[|d.delivered|..|d.delivered| + DrainCount(d.r, bytes)]
    ensures Represents(Drain(d.r, bytes).sinkTail, |d.delivered| + DrainCount(d.r, bytes), c.num, WORD)
    ensures Holds(d.r.sink, |d.delivered| + DrainCount(d.r, bytes), PostBytes(d, d.landed), d.accepted)
    ensures Drain(d.r, bytes).readBytes <= c.num
  {
    hide Place;
    AckedAtMostPosted(c, d);
    SumToMonotone(d.posts, d.polled, d.landed, Length);
    SumToMonotone(d.fcs, d.taken, |d.fcs|, FcBytes);
    AvailableIsDifference(d.r.sinkHead, d.r.sinkTail, PostBytes(d, d.polled), |d.delivered|, c.num, WORD);
    var b := DrainCount(d.r, bytes);
    OffsetIsTotalModNum(d.r.sinkTail, |d.delivered|, c.num, WORD);
    IncrRepresents(d.r.sinkTail, |d.delivered|, b, c.num, WORD);
    SliceModStart(d.r.sink, |d.delivered|, b);
    HoldsLater(d.r.sink, |d.delivered|, |d.delivered| + b, PostBytes(d, d.landed), d.accepted);
  }

  lemma FcSums(d: Direction, d': Direction, fc: Fc, n: nat)
    requires n <= |d.fcs| && d'.fcs == d.fcs + [fc]
    ensures AckBytes(d', n) == AckBytes(d, n) && AckWrites(d', n) == AckWrites(d, n)
    ensures AckBytes(d', |d.fcs| + 1) == AckBytes(d', |d.fcs|) + fc.bytes
    ensures AckWrites(d', |d.fcs| + 1) == AckWrites(d', |d.fcs|) + fc.writes
  {
    SumToAppend(d.fcs, fc, n, FcBytes);
    SumToAppend(d.fcs, fc, n, FcWrites);
  }

  lemma ReadTotals(c: Config, d: Direction, bytes: nat)
    requires Supported(c) && WellShaped(c, d) && Pointers(c, d) && Totals(c, d) && Memory(c, d)
    requires Enabled(c, d, Read(bytes))
    ensures var d' := Apply(c, d, Read(bytes)); WellShaped(c, d') && Pointers(c, d') && Totals(c, d')
  {
    hide Place, Represents, Incr, Offset, Available, NegAvailable, Holds, Slice, Overlay;
    var d' := Apply(c, d, Read(bytes));
    var r := Drain(d.r, bytes);
    DrainFacts(c, d, bytes);
    if NeedFc(r) {
      SmallMod(r.readBytes, WORD);
      FcSums(d, d', FcOf(r), d.taken);
      FcSums(d, d', FcOf(r), |d.fcs|);
    }
  }

  lemma ReadMemory(c: Config, d: Direction, bytes: nat)
    requires Supported(c) && WellShaped(c, d) && Pointers(c, d) && Totals(c, d) && Memory(c, d)
    requires Enabled(c, d, Read(bytes))
    ensures Memory(c, Apply(c, d, Read(bytes)))
  {
    hide Represents, Incr, Offset, Available, NegAvailable, Holds, Slice;
    DrainFacts(c, d, bytes);
    var b := |d.delivered| + DrainCount(d.r, bytes);
    assert d.accepted[..b] == d.accepted[..|d.delivered|] + d.accepted[|d.delivered|..b];
  }

  lemma ReadCredits(c: Config, d: Direction, bytes: nat)
    requires WellShaped(c, d) && Conserved(c, d) && ZeroAcksFollowBig(d) && Owed(d) && ReturnsCovered(d)
    requires Enabled(c, d, Read(bytes))
    ensures var d' := Apply(c, d, Read(bytes));
      WellShaped(c, d') && Conserved(c, d') && ZeroAcksFollowBig(d') && Owed(d') && ReturnsCovered(d')
  {
    hide Place, Represents, Incr, Offset, Available, Slice;
    var d' := Apply(c, d, Read(bytes));
    var r := Drain(d.r, bytes);
    if NeedFc(r) {
      FcSums(d, d', FcOf(r), d.taken);
      FcSums(d, d', FcOf(r), |d.fcs|);
    }
    assert forall j :: 0 <= j <= |d.fcs| ==> BigAck(d', j) == BigAck(d, j);
    assert forall i :: d.polled <= i <= |d.posts| && ReturnsCoveredFrom(d, i) ==> ReturnsCoveredFrom(d', i);
  }

  lemma ReadKeeps(c: Config, d: Direction, bytes: nat)
    requires Supported(c) && Inv(c, d) && Enabled(c, d, Read(bytes))
    ensures Inv(c, Apply(c, d, Read(bytes)))
  {
    hide Represents, Incr, Offset, Available, Holds, Slice, Place;
    var d' := Apply(c, d, Read(bytes));
    ReadTotals(c, d, bytes);
    ReadMemory(c, d, bytes);
    ReadCredits(c, d, bytes);
    assert forall i :: 0 <= i < |d.posts| && PostOk(c, d, i) ==> PostOk(c, d', i);
  }
}
