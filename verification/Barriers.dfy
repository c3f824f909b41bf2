/**
 The network barrier (co/barrier.cpp): participants on any nodes, a master that counts entries, and one notification
 per node and round. Timeouts are indefinite and the version is fixed.
 */
module Barriers {
  import opened Arithmetic

  type Node = nat

  /** The incarnation is a 32-bit counter. */
  const WORD: nat := 0x1_0000_0000

  function Wrap(n: nat): nat { n % WORD }

  /** Where the participants run; several may share the barrier object of one node. The height is their number. */
  datatype Config = Config(nodeOf: seq<Node>, master: Node)

  function Height(c: Config): nat { |c.nodeOf| }

  /** How often a participant has entered and left, and the incarnation it waits for. */
  datatype Participant = Participant(entered: nat, left: nat, leaveVal: nat)

  /**
   `entering` and `replies` are the commands in flight; the last two fields only record history: the rounds the master
   completed and how often each node's incarnation was increased.
   */
  datatype State = State(
    parts: seq<Participant>,
    incarnation: map<Node, nat>,
    entering: multiset<Node>,
    nodes: seq<Node>,
    replies: multiset<Node>,
    completed: nat,
    counts: map<Node, nat>)

  datatype Step = Enter(p: nat) | CmdEnter(node: Node) | CmdEnterReply(node: Node) | Leave(p: nat)

  function Hosts(c: Config): set<Node> {
    set p | 0 <= p < |c.nodeOf| :: c.nodeOf[p]
  }

  function Init(c: Config): State {
    var zero := map n | n in Hosts(c) :: 0;
    State(seq(|c.nodeOf|, _ => Participant(0, 0, 0)), zero, multiset{}, [], multiset{}, 0, zero)
  }

  predicate Shaped(c: Config, s: State) {
    |s.parts| == |c.nodeOf| && s.incarnation.Keys == Hosts(c) && s.counts.Keys == Hosts(c)
  }

  predicate Waiting(p: Participant) { p.entered > p.left }

  predicate Enabled(c: Config, s: State, step: Step)
    requires Shaped(c, s)
  {
    match step
    case Enter(p) => p < |s.parts| && !Waiting(s.parts[p])
    case CmdEnter(n) => n in s.entering
    case CmdEnterReply(n) => n in s.replies && n in Hosts(c)
    case Leave(p) => p < |s.parts| && Waiting(s.parts[p]) && s.incarnation[c.nodeOf[p]] == s.parts[p].leaveVal
  }

  /** ++incarnation of one node. */
  function Increase(s: State, n: Node): State
    requires n in s.incarnation && n in s.counts
  {
    s.(incarnation := s.incarnation[n := Wrap(s.incarnation[n] + 1)], counts := s.counts[n := s.counts[n] + 1])
  }

  /** usort: each node once. */
  function Unique(nodes: seq<Node>): set<Node> {
    set n | n in nodes
  }

  /** The entry that fills the barrier: each node is notified once, the master's own node directly. */
  function Notify(c: Config, s: State, nodes: seq<Node>): State
    requires Shaped(c, s)
  {
    var unique := Unique(nodes);
    var s' := s.(nodes := [], completed := s.completed + 1, replies := s.replies + multiset(unique - {c.master}));
    if c.master in unique && c.master in Hosts(c) then Increase(s', c.master) else s'
  }

  function Apply(c: Config, s: State, step: Step): State
    requires Shaped(c, s) && Enabled(c, s, step)
  {
    match step
    case Enter(p) =>
      var n := c.nodeOf[p];
      s.(parts := s.parts[p := s.parts[p].(entered := s.parts[p].entered + 1,
                                           leaveVal := Wrap(s.incarnation[n] + 1))],
         entering := s.entering + multiset{n})
    case CmdEnter(n) =>
      var s' := s.(entering := s.entering - multiset{n});
      if |s.nodes| + 1 < Height(c) then s'.(nodes := s.nodes + [n]) else Notify(c, s', s.nodes + [n])
    case CmdEnterReply(n) =>
      Increase(s.(replies := s.replies - multiset{n}), n)
    case Leave(p) =>
      s.(parts := s.parts[p := s.parts[p].(left := s.parts[p].left + 1)])
  }

  // ---- invariant ----

  /** The nodes of the participants that have entered the round the master is collecting. */
  function Gathering(parts: seq<Participant>, nodeOf: seq<Node>, completed: nat): multiset<Node>
    requires |parts| == |nodeOf|
  {
    if parts == [] then multiset{}
    else (if parts[0].entered > completed then multiset{nodeOf[0]} else multiset{})
         + Gathering(parts[1..], nodeOf[1..], completed)
  }

  /** Where a participant can be, relative to the rounds completed and to its node's count. */
  predicate InStep(p: Participant, count: nat, completed: nat) {
    if p.entered == completed + 1 then
      p.left == completed == count && p.leaveVal == Wrap(completed + 1)
    else
      && p.entered == completed
      && (p.left == completed == count
          || (p.left + 1 == completed && p.left <= count <= completed && p.leaveVal == Wrap(completed)))
  }

  predicate NodeInStep(s: State, n: Node)
    requires n in s.counts && n in s.incarnation
  {
    s.incarnation[n] == Wrap(s.counts[n]) && s.counts[n] + s.replies[n] == s.completed && s.replies[n] <= 1
  }

  predicate Inv(c: Config, s: State) {
    && Shaped(c, s)
    && (forall p :: 0 <= p < |s.parts| ==> InStep(s.parts[p], s.counts[c.nodeOf[p]], s.completed))
    && (forall n :: n in Hosts(c) ==> NodeInStep(s, n))
    && multiset(s.nodes) + s.entering == Gathering(s.parts, c.nodeOf, s.completed)
    && (|s.nodes| < Height(c) || Height(c) == 0)
    && forall n :: n in s.replies ==> n in Hosts(c)
  }

  lemma HostOf(c: Config, p: nat)
    requires p < |c.nodeOf|
    ensures c.nodeOf[p] in Hosts(c)
  {
  }

  lemma {:induction false} NobodyGathers(parts: seq<Participant>, nodeOf: seq<Node>, completed: nat)
    requires |parts| == |nodeOf| && forall p :: 0 <= p < |parts| ==> parts[p].entered <= completed
    ensures Gathering(parts, nodeOf, completed) == multiset{}
  {
    if parts != [] {
      NobodyGathers(parts[1..], nodeOf[1..], completed);
    }
  }

  predicate AllEntered(parts: seq<Participant>, completed: nat) {
    forall p :: 0 <= p < |parts| ==> parts[p].entered > completed
  }

  lemma AllEnteredTail(parts: seq<Participant>, completed: nat)
    requires parts != []
    ensures AllEntered(parts, completed) <==> parts[0].entered > completed && AllEntered(parts[1..], completed)
  {
    assert forall p :: 0 < p < |parts| ==> parts[p] == parts[1..][p - 1];
    assert forall p :: 0 <= p < |parts[1..]| ==> parts[1..][p] == parts[p + 1];
  }

  /** As many entries as participants only if everyone entered. */
  lemma {:induction false} AllGather(parts: seq<Participant>, nodeOf: seq<Node>, completed: nat)
    requires |parts| == |nodeOf|
    ensures |Gathering(parts, nodeOf, completed)| <= |parts|
    ensures |Gathering(parts, nodeOf, completed)| == |parts| <==> AllEntered(parts, completed)
  {
    if parts != [] {
      AllGather(parts[1..], nodeOf[1..], completed);
      AllEnteredTail(parts, completed);
      hide AllEntered;
    }
  }

  /** Once everyone entered, the entries are from all hosts and from no other node. */
  lemma {:induction false} GatherHosts(parts: seq<Participant>, nodeOf: seq<Node>, completed: nat, n: Node)
    requires |parts| == |nodeOf| && AllEntered(parts, completed)
    ensures n in Gathering(parts, nodeOf, completed) <==> n in nodeOf
  {
    if parts != [] {
      AllEnteredTail(parts, completed);
      GatherHosts(parts[1..], nodeOf[1..], completed, n);
      assert nodeOf == [nodeOf[0]] + nodeOf[1..];
    }
  }

  lemma {:induction false} GatherOne(parts: seq<Participant>, nodeOf: seq<Node>, completed: nat, p: nat, q: Participant)
    requires |parts| == |nodeOf| && p < |parts| && parts[p].entered <= completed
    ensures Gathering(parts[p := q], nodeOf, completed) ==
      Gathering(parts, nodeOf, completed) + if q.entered > completed then multiset{nodeOf[p]} else multiset{}
  {
    if p == 0 {
      assert parts[p := q][1..] == parts[1..];
    } else {
      GatherOne(parts[1..], nodeOf[1..], completed, p - 1, q);
      assert parts[p := q][1..] == parts[1..][p - 1 := q];
    }
  }

  lemma NextIncarnation(k: nat)
    ensures Wrap(Wrap(k) + 1) == Wrap(k + 1)
  {
    ModAdd(k, 1, WORD);
  }

  lemma InitInv(c: Config)
    requires Height(c) >= 2
    ensures Inv(c, Init(c))
  {
    NobodyGathers(Init(c).parts, c.nodeOf, 0);
  }

  lemma EnterKeeps(c: Config, s: State, p: nat)
    requires Inv(c, s) && Enabled(c, s, Enter(p))
    ensures Inv(c, Apply(c, s, Enter(p)))
  {
    hide Wrap, Gathering;
    var s' := Apply(c, s, Enter(p));
    HostOf(c, p);
    GatherOne(s.parts, c.nodeOf, s.completed, p, s'.parts[p]);
    assert NodeInStep(s, c.nodeOf[p]);
    NextIncarnation(s.completed);
    forall n | n in Hosts(c) ensures NodeInStep(s', n) {
      assert NodeInStep(s, n);
    }
  }

  /** The incarnation a participant waits for only comes with the end of its round, also after wrapping around. */
  lemma InStepLeft(p: Participant, count: nat, completed: nat)
    requires InStep(p, count, completed) && Waiting(p) && Wrap(count) == p.leaveVal
    ensures p.entered == completed && InStep(p.(left := p.left + 1), count, completed)
  {
    if count < p.entered {
      ModDistinct(count, p.entered, WORD);
    }
  }

  lemma LeaveKeeps(c: Config, s: State, p: nat)
    requires Inv(c, s) && Enabled(c, s, Leave(p))
    ensures s.parts[p].entered == s.completed
    ensures Inv(c, Apply(c, s, Leave(p)))
  {
    hide Wrap, Gathering, InStep;
    var s' := Apply(c, s, Leave(p));
    HostOf(c, p);
    assert NodeInStep(s, c.nodeOf[p]);
    InStepLeft(s.parts[p], s.counts[c.nodeOf[p]], s.completed);
    GatherOne(s.parts, c.nodeOf, s.completed, p, s'.parts[p]);
    forall n | n in Hosts(c) ensures NodeInStep(s', n) {
      assert NodeInStep(s, n);
    }
  }

  lemma InStepReplied(p: Participant, count: nat, completed: nat)
    requires InStep(p, count, completed) && count + 1 == completed
    ensures InStep(p, completed, completed)
  {
    hide Wrap;
  }

  lemma ReplyKeeps(c: Config, s: State, n: Node)
    requires Inv(c, s) && Enabled(c, s, CmdEnterReply(n))
    ensures Inv(c, Apply(c, s, CmdEnterReply(n)))
  {
    hide Wrap, Gathering, InStep;
    var s' := Apply(c, s, CmdEnterReply(n));
    assert NodeInStep(s, n);
    NextIncarnation(s.counts[n]);
    forall m | m in Hosts(c) ensures NodeInStep(s', m) {
      assert NodeInStep(s, m);
    }
    forall p | 0 <= p < |s.parts| ensures InStep(s'.parts[p], s'.counts[c.nodeOf[p]], s'.completed) {
      HostOf(c, p);
      if c.nodeOf[p] == n {
        InStepReplied(s.parts[p], s.counts[n], s.completed);
      }
    }
  }

  /** When the master has all entries, everyone has entered and every node has been notified of the rounds before. */
  lemma LastEntry(c: Config, s: State, n: Node)
    requires Inv(c, s) && n in s.entering && |s.nodes| + 1 >= Height(c)
    ensures AllEntered(s.parts, s.completed) && s.entering == multiset{n}
    ensures Unique(s.nodes + [n]) == Hosts(c)
    ensures forall m :: m in Hosts(c) ==> s.counts[m] == s.completed && s.replies[m] == 0
  {
    var all := Gathering(s.parts, c.nodeOf, s.completed);
    AllGather(s.parts, c.nodeOf, s.completed);
    assert |all| == |s.nodes| + |s.entering|;
    assert s.entering == multiset{n} + (s.entering - multiset{n});
    assert |s.entering| == 1 + |s.entering - multiset{n}|;
    assert s.entering - multiset{n} == multiset{};
    assert multiset(s.nodes + [n]) == all;
    forall m ensures m in s.nodes + [n] <==> m in Hosts(c) {
      GatherHosts(s.parts, c.nodeOf, s.completed, m);
      assert m in s.nodes + [n] <==> m in multiset(s.nodes + [n]);
    }
    forall m | m in Hosts(c) ensures s.counts[m] == s.completed && s.replies[m] == 0 {
      var p :| 0 <= p < |c.nodeOf| && c.nodeOf[p] == m;
      assert InStep(s.parts[p], s.counts[m], s.completed) && NodeInStep(s, m);
    }
  }

  lemma CmdEnterKeeps(c: Config, s: State, n: Node)
    requires Inv(c, s) && Enabled(c, s, CmdEnter(n)) && Height(c) >= 2
    ensures Inv(c, Apply(c, s, CmdEnter(n)))
  {
    hide Wrap, Gathering, InStep;
    if |s.nodes| + 1 < Height(c) {
      var s' := Apply(c, s, CmdEnter(n));
      assert multiset(s.nodes + [n]) + (s.entering - multiset{n}) == multiset(s.nodes) + s.entering;
      forall m | m in Hosts(c) ensures NodeInStep(s', m) {
        assert NodeInStep(s, m);
      }
    } else {
      hide Hosts;
      LastEntry(c, s, n);
      Notified(c, s, n);
      NotifyKeeps(c, s, Apply(c, s, CmdEnter(n)));
    }
  }

  /** Whether a node's incarnation is increased directly when the barrier is reached. */
  function Direct(c: Config, n: Node): nat {
    if n == c.master then 1 else 0
  }

  /** What the last entry of a round does. */
  predicate IsNotified(c: Config, s: State, s': State)
    requires Shaped(c, s)
  {
    && Shaped(c, s') && s'.parts == s.parts && s'.nodes == [] && s'.entering == multiset{}
    && s'.completed == s.completed + 1
    && (forall m :: m in Hosts(c) ==>
          && s'.counts[m] == s.completed + Direct(c, m)
          && s'.incarnation[m] == (if m == c.master then Wrap(s.incarnation[m] + 1) else s.incarnation[m])
          && s'.replies[m] == 1 - Direct(c, m))
    && forall m :: m in s'.replies ==> m in Hosts(c)
  }

  lemma NotifiedShape(c: Config, s: State, nodes: seq<Node>)
    requires Shaped(c, s) && Unique(nodes) == Hosts(c)
    ensures var s' := Notify(c, s, nodes);
      && Shaped(c, s') && s'.parts == s.parts && s'.nodes == [] && s'.entering == s.entering
      && s'.completed == s.completed + 1 && forall m :: m in s'.replies ==> m in s.replies || m in Hosts(c)
  {
    hide Wrap, Unique, Hosts;
  }

  lemma NotifiedNode(c: Config, s: State, nodes: seq<Node>, m: Node)
    requires Shaped(c, s) && Unique(nodes) == Hosts(c) && m in Hosts(c)
    ensures var s' := Notify(c, s, nodes);
      && m in s'.counts && m in s'.incarnation && s'.counts[m] == s.counts[m] + Direct(c, m)
      && s'.replies[m] == s.replies[m] + 1 - Direct(c, m)
      && s'.incarnation[m] == if m == c.master then Wrap(s.incarnation[m] + 1) else s.incarnation[m]
  {
    hide Wrap, Unique, Hosts;
  }

  lemma Notified(c: Config, s: State, n: Node)
    requires Shaped(c, s) && |s.nodes| + 1 >= Height(c) && s.entering == multiset{n}
    requires Unique(s.nodes + [n]) == Hosts(c)
    requires forall m :: m in Hosts(c) ==> s.counts[m] == s.completed && s.replies[m] == 0
    requires forall m :: m in s.replies ==> m in Hosts(c)
    ensures IsNotified(c, s, Apply(c, s, CmdEnter(n)))
  {
    hide Wrap, Unique, Hosts, Notify, Increase;
    var before := s.(entering := s.entering - multiset{n});
    NotifiedShape(c, before, s.nodes + [n]);
    forall m | m in Hosts(c)
      ensures var s' := Apply(c, s, CmdEnter(n));
        && m in s'.counts && m in s'.incarnation && s'.counts[m] == s.completed + Direct(c, m)
        && s'.replies[m] == 1 - Direct(c, m)
        && s'.incarnation[m] == if m == c.master then Wrap(s.incarnation[m] + 1) else s.incarnation[m]
    {
      NotifiedNode(c, before, s.nodes + [n], m);
    }
  }

  lemma NotAhead(p: Participant, count: nat, completed: nat)
    requires InStep(p, count, completed)
    ensures completed <= p.entered <= completed + 1
  {
  }

  /** The last entry moves everyone on. */
  lemma InStepNotified(p: Participant, count: nat, completed: nat, direct: nat)
    requires InStep(p, count, completed) && p.entered > completed && direct <= 1
    ensures InStep(p, completed + direct, completed + 1)
  {
    hide Wrap;
  }

  lemma PartsNotified(c: Config, s: State, s': State, p: nat)
    requires Inv(c, s) && AllEntered(s.parts, s.completed) && IsNotified(c, s, s') && p < |s.parts|
    ensures c.nodeOf[p] in s'.counts && InStep(s'.parts[p], s'.counts[c.nodeOf[p]], s'.completed)
    ensures s'.parts[p].entered <= s'.completed
  {
    hide Wrap, Gathering, InStep;
    HostOf(c, p);
    InStepNotified(s.parts[p], s.counts[c.nodeOf[p]], s.completed, Direct(c, c.nodeOf[p]));
    NotAhead(s.parts[p], s.counts[c.nodeOf[p]], s.completed);
  }

  lemma NodeNotified(c: Config, s: State, s': State, m: Node)
    requires Inv(c, s) && IsNotified(c, s, s') && m in Hosts(c) && s.counts[m] == s.completed
    ensures NodeInStep(s', m)
  {
    hide Wrap, Gathering, InStep, Hosts;
    assert NodeInStep(s, m);
    NextIncarnation(s.completed);
  }

  lemma NotifyKeeps(c: Config, s: State, s': State)
    requires Inv(c, s) && AllEntered(s.parts, s.completed) && IsNotified(c, s, s') && Height(c) >= 2
    requires forall m :: m in Hosts(c) ==> s.counts[m] == s.completed
    ensures Inv(c, s')
  {
    forall p | 0 <= p < |s'.parts|
      ensures c.nodeOf[p] in s'.counts && InStep(s'.parts[p], s'.counts[c.nodeOf[p]], s'.completed)
      ensures s'.parts[p].entered <= s'.completed
    {
      PartsNotified(c, s, s', p);
    }
    forall m | m in Hosts(c) ensures NodeInStep(s', m) {
      NodeNotified(c, s, s', m);
    }
    NobodyGathers(s'.parts, c.nodeOf, s'.completed);
    hide Wrap, Gathering, InStep, NodeInStep;
  }

  // ---- runs ----

  lemma StepKeeps(c: Config, s: State, step: Step)
    requires Inv(c, s) && Enabled(c, s, step) && Height(c) >= 2
    ensures Inv(c, Apply(c, s, step))
  {
    match step
    case Enter(p) => EnterKeeps(c, s, p);
    case CmdEnter(n) => CmdEnterKeeps(c, s, n);
    case CmdEnterReply(n) => ReplyKeeps(c, s, n);
    case Leave(p) => LeaveKeeps(c, s, p);
  }

  /** The states some run leads to. */
  ghost predicate Reaches(c: Config, s: State, steps: seq<Step>, t: State)
    decreases |steps|
  {
    if steps == [] then s == t
    else Shaped(c, s) && Enabled(c, s, steps[0]) && Reaches(c, Apply(c, s, steps[0]), steps[1..], t)
  }

  lemma {:induction false} RunInv(c: Config, s: State, steps: seq<Step>, t: State)
    requires Height(c) >= 2 && Inv(c, s) && Reaches(c, s, steps, t)
    ensures Inv(c, t)
    decreases |steps|
  {
    if steps != [] {
      StepKeeps(c, s, steps[0]);
      RunInv(c, Apply(c, s, steps[0]), steps[1..], t);
    }
  }

  /** Nobody leaves a round before everybody entered it, and everybody leaves each round they entered once. */
  lemma NobodyLeavesEarly(c: Config, steps: seq<Step>, t: State, p: nat, q: nat)
    requires Height(c) >= 2 && Reaches(c, Init(c), steps, t) && p < Height(c) && q < Height(c)
    ensures |t.parts| == Height(c)
    ensures t.parts[p].left <= t.parts[q].entered
    ensures t.parts[p].left <= t.parts[p].entered <= t.parts[p].left + 1
  {
    InitInv(c);
    RunInv(c, Init(c), steps, t);
    assert InStep(t.parts[p], t.counts[c.nodeOf[p]], t.completed);
    assert InStep(t.parts[q], t.counts[c.nodeOf[q]], t.completed);
  }

  /** Each node is notified once per round, so the incarnations never differ by more than one. */
  lemma IncarnationsStayTogether(c: Config, steps: seq<Step>, t: State, m: Node, n: Node)
    requires Height(c) >= 2 && Reaches(c, Init(c), steps, t) && m in Hosts(c) && n in Hosts(c)
    ensures m in t.counts && n in t.counts && n in t.incarnation
    ensures t.counts[n] + t.replies[n] == t.completed
    ensures t.counts[m] <= t.counts[n] + 1 && t.counts[n] <= t.counts[m] + 1
    ensures t.incarnation[n] == Wrap(t.counts[n])
  {
    InitInv(c);
    RunInv(c, Init(c), steps, t);
    assert NodeInStep(t, m) && NodeInStep(t, n);
  }

  /** Once everyone has entered, some command is still to be handled or someone can leave: nobody is left behind. */
  lemma NoDeadlock(c: Config, steps: seq<Step>, t: State)
    requires Height(c) >= 2 && Reaches(c, Init(c), steps, t) && Shaped(c, t)
    requires forall p :: 0 <= p < |t.parts| ==> Waiting(t.parts[p])
    ensures exists step :: Enabled(c, t, step)
  {
    InitInv(c);
    RunInv(c, Init(c), steps, t);
    if n :| n in t.entering {
      assert Enabled(c, t, CmdEnter(n));
    } else if n :| n in t.replies {
      assert Enabled(c, t, CmdEnterReply(n));
    } else {
      AllGather(t.parts, c.nodeOf, t.completed);
      assert t.entering == multiset{};
      assert |multiset(t.nodes)| == |t.nodes|;
      var p :| 0 <= p < |t.parts| && t.parts[p].entered <= t.completed;
      HostOf(c, p);
      assert InStep(t.parts[p], t.counts[c.nodeOf[p]], t.completed) && NodeInStep(t, c.nodeOf[p]);
      assert Enabled(c, t, Leave(p));
    }
  }

  /**
   No waiting participant is forgotten: once its round is complete it can leave or its node's notification is on the
   way; before, entries are on the way to the master or someone has not entered yet.
   */
  lemma NobodyForgotten(c: Config, steps: seq<Step>, t: State, p: nat)
    requires Height(c) >= 2 && Reaches(c, Init(c), steps, t) && p < Height(c) && Shaped(c, t) && Waiting(t.parts[p])
    ensures t.parts[p].entered <= t.completed ==> Enabled(c, t, Leave(p)) || Enabled(c, t, CmdEnterReply(c.nodeOf[p]))
    ensures t.parts[p].entered > t.completed ==>
      (exists n :: n in t.entering) || exists q :: 0 <= q < Height(c) && t.parts[q].entered == t.completed
  {
    InitInv(c);
    RunInv(c, Init(c), steps, t);
    HostOf(c, p);
    assert InStep(t.parts[p], t.counts[c.nodeOf[p]], t.completed) && NodeInStep(t, c.nodeOf[p]);
    if !exists n :: n in t.entering {
      assert t.entering == multiset{};
      AllGather(t.parts, c.nodeOf, t.completed);
      assert |multiset(t.nodes)| == |t.nodes|;
      var q :| 0 <= q < |t.parts| && t.parts[q].entered <= t.completed;
      assert InStep(t.parts[q], t.counts[c.nodeOf[q]], t.completed);
    }
  }

  // ---- the barrier object ----

  predicate Ascending(nodes: seq<Node>) {
    forall i, j :: 0 <= i < j < |nodes| ==> nodes[i] < nodes[j]
  }

  lemma UniqueInsert(a: seq<Node>, n: Node, b: seq<Node>)
    ensures Unique(a + [n] + b) == Unique(a + b) + {n} && Unique(a + [n]) == Unique(a) + {n}
    ensures n in Unique(a) <==> n in a
  {
    assert forall m :: m in a + [n] + b <==> m in a + b || m == n;
  }

  /** usort: sorts and removes duplicates. */
  method Usort(nodes: seq<Node>) returns (r: seq<Node>)
    ensures Ascending(r) && Unique(r) == Unique(nodes)
  {
    hide Unique;
    r := [];
    assert nodes[..0] == [];
    for i := 0 to |nodes|
      invariant Ascending(r) && Unique(r) == Unique(nodes[..i])
    {
      var n := nodes[i];
      var k := 0;
      while k < |r| && r[k] < n
        invariant 0 <= k <= |r| && forall j :: 0 <= j < k ==> r[j] < n
      {
        k := k + 1;
      }
      assert nodes[..i + 1] == nodes[..i] + [n];
      UniqueInsert(nodes[..i], n, []);
      UniqueInsert(r, n, []);
      UniqueInsert(r[..k], n, r[k..]);
      if k == |r| || r[k] != n {
        assert r == r[..k] + r[k..];
        r := r[..k] + [n] + r[k..];
      }
    }
    assert nodes[..|nodes|] == nodes;
  }

  lemma Below(replies: seq<Node>, unique: seq<Node>, i: nat, j: nat)
    requires i < |unique| && j < |replies| && Ascending(unique) && Unique(replies) <= Unique(unique[..i])
    ensures replies[j] < unique[i]
  {
    assert replies[j] in Unique(replies);
  }

  /** A barrier object; only the master's counts entries. */
  class Barrier {
    const height: nat
    const local: Node
    var nodes: seq<Node>
    var incarnation: nat

    constructor (height: nat, local: Node)
      ensures this.height == height && this.local == local && nodes == [] && incarnation == 0
    {
      this.height, this.local := height, local;
      nodes, incarnation := [], 0;
    }

    /** _cmdEnter with _sendNotify: the nodes that get a reply once the last participant entered. */
    method CmdEnter(node: Node) returns (replies: seq<Node>)
      requires |nodes| < height
      modifies this
      ensures |old(nodes)| + 1 < height ==>
        nodes == old(nodes) + [node] && replies == [] && incarnation == old(incarnation)
      ensures |old(nodes)| + 1 >= height ==>
        && nodes == [] && Ascending(replies) && Unique(replies) == Unique(old(nodes) + [node]) - {local}
        && incarnation == if local in old(nodes) + [node] then Wrap(old(incarnation) + 1) else old(incarnation)
    {
      nodes := nodes + [node];
      replies := [];
      if |nodes| < height {
        return;
      }
      var unique := Usort(nodes);
      for i := 0 to |unique|
        invariant Ascending(replies) && Unique(replies) == Unique(unique[..i]) - {local}
        invariant incarnation == if local in unique[..i] then Wrap(old(incarnation) + 1) else old(incarnation)
        invariant nodes == old(nodes) + [node]
      {
        assert unique[..i + 1] == unique[..i] + [unique[i]] && unique[i] !in unique[..i];
        UniqueInsert(unique[..i], unique[i], []);
        if unique[i] == local {
          CmdEnterReply();
        } else {
          forall j | 0 <= j < |replies| ensures replies[j] < unique[i] {
            Below(replies, unique, i, j);
          }
          UniqueInsert(replies, unique[i], []);
          replies := replies + [unique[i]];
        }
      }
      assert unique[..|unique|] == unique;
      assert local in nodes <==> local in Unique(nodes);
      nodes := [];
    }

    /** _cmdEnterReply. */
    method CmdEnterReply()
      modifies this`incarnation
      ensures incarnation == Wrap(old(incarnation) + 1)
    {
      incarnation := (incarnation + 1) % WORD;
    }
  }

  // ---- the objects in the system ----

  /** The master's barrier object in a state of the system. */
  ghost predicate IsMaster(c: Config, s: State, b: Barrier)
    requires Shaped(c, s)
    reads b
  {
    && b.height == Height(c) && b.local == c.master && b.nodes == s.nodes
    && (c.master in Hosts(c) ==> b.incarnation == s.incarnation[c.master])
  }

  lemma AscendingOnce(nodes: seq<Node>)
    requires Ascending(nodes)
    ensures multiset(nodes) == multiset(Unique(nodes))
  {
    if nodes != [] {
      var init, last := nodes[..|nodes| - 1], nodes[|nodes| - 1];
      assert nodes == init + [last] && last !in init;
      AscendingOnce(init);
      UniqueInsert(init, last, []);
    } else {
      assert Unique(nodes) == {};
    }
  }

  /** What the last entry of a round leaves behind at the master. */
  lemma LastEntryIs(c: Config, s: State, n: Node)
    requires Inv(c, s) && n in s.entering && |s.nodes| + 1 >= Height(c) >= 2
    ensures Enabled(c, s, CmdEnter(n))
    ensures var s', all := Apply(c, s, CmdEnter(n)), Unique(s.nodes + [n]);
      && Shaped(c, s') && s'.nodes == [] && s'.replies == s.replies + multiset(all - {c.master})
      && (c.master in Hosts(c) <==> c.master in s.nodes + [n])
      && (c.master in Hosts(c) ==> s'.incarnation[c.master] == Wrap(s.incarnation[c.master] + 1))
  {
    hide Wrap, Gathering, InStep, NodeInStep, Hosts, Inv;
    LastEntry(c, s, n);
    UniqueInsert(s.nodes + [n], c.master, []);
    InvShaped(c, s);
  }

  lemma InvShaped(c: Config, s: State)
    requires Inv(c, s)
    ensures Shaped(c, s) && (|s.nodes| < Height(c) || Height(c) == 0)
  {
  }

  /** What an entry does to the part of the system the master's object stands for. */
  lemma EntryIs(c: Config, s: State, n: Node)
    requires Inv(c, s) && n in s.entering && Height(c) >= 2
    ensures Shaped(c, s) && Enabled(c, s, CmdEnter(n)) && |s.nodes| < Height(c)
    ensures var s' := Apply(c, s, CmdEnter(n));
      && Inv(c, s') && Shaped(c, s')
      && if |s.nodes| + 1 < Height(c) then
           s'.nodes == s.nodes + [n] && s'.replies == s.replies && s'.incarnation == s.incarnation
         else
           && s'.nodes == [] && s'.replies == s.replies + multiset(Unique(s.nodes + [n]) - {c.master})
           && (c.master in Hosts(c) <==> c.master in s.nodes + [n])
           && (c.master in Hosts(c) ==> s'.incarnation[c.master] == Wrap(s.incarnation[c.master] + 1))
  {
    hide Wrap, Gathering, InStep, NodeInStep, Hosts, Inv, Unique, Notify;
    InvShaped(c, s);
    CmdEnterKeeps(c, s, n);
    InvShaped(c, Apply(c, s, CmdEnter(n)));
    if |s.nodes| + 1 >= Height(c) {
      LastEntryIs(c, s, n);
    }
  }

  /** A command handled by the master's object is a step of the system, with the replies it sends in flight. */
  method HandleEnter(c: Config, ghost s: State, b: Barrier, n: Node) returns (replies: seq<Node>)
    requires Inv(c, s) && Height(c) >= 2 && n in s.entering && IsMaster(c, s, b)
    modifies b
    ensures Enabled(c, s, CmdEnter(n))
    ensures var s' := Apply(c, s, CmdEnter(n));
      Inv(c, s') && IsMaster(c, s', b) && s'.replies == s.replies + multiset(replies)
  {
    hide Wrap, Hosts, Unique, Apply, Notify, Inv, Enabled, Shaped, Ascending;
    EntryIs(c, s, n);
    replies := b.CmdEnter(n);
    AscendingOnce(replies);
  }

  lemma ReplyIs(c: Config, s: State, n: Node)
    requires Inv(c, s) && n in s.replies
    ensures Shaped(c, s) && Enabled(c, s, CmdEnterReply(n)) && n in s.incarnation
    ensures var s' := Apply(c, s, CmdEnterReply(n));
      Inv(c, s') && n in s'.incarnation && s'.incarnation[n] == Wrap(s.incarnation[n] + 1)
  {
    hide Wrap, Gathering, InStep, NodeInStep;
    assert n in Hosts(c);
    var s' := Apply(c, s, CmdEnterReply(n));
    assert s'.incarnation[n] == Wrap(s.incarnation[n] + 1);
    hide Inv;
    ReplyKeeps(c, s, n);
  }

  /** A notification handled by the object of another node is a step of the system. */
  method HandleReply(c: Config, ghost s: State, b: Barrier, n: Node)
    requires Inv(c, s) && n in s.replies && n in s.incarnation && b.incarnation == s.incarnation[n]
    modifies b
    ensures Enabled(c, s, CmdEnterReply(n))
    ensures var s' := Apply(c, s, CmdEnterReply(n));
      Inv(c, s') && n in s'.incarnation && b.incarnation == s'.incarnation[n]
  {
    hide *;
    ReplyIs(c, s, n);
    b.CmdEnterReply();
  }
}
