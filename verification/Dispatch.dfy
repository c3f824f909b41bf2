/**
 Dispatching received commands (co/localNode.cpp, co/objectStore.cpp): commands for objects that are not attached yet
 are kept and tried again after every dispatch, since any dispatched command may attach or detach objects.
 */
module Dispatch {
  type Id = nat

  /** A single object instance, all instances, or all instances if there are any. */
  datatype Instance = Only(n: nat) | All | Any

  datatype Target = ToNode | ToObject(id: Id, instance: Instance)

  /** A command and its number in the order of arrival. */
  datatype Command = Command(no: nat, target: Target)

  /** The attached instances of each object; an object without instances has no entry. */
  type Attached = map<Id, seq<nat>>

  /** A dispatched command, what was attached then, and the instances that received it. */
  datatype Entry = Entry(command: Command, attached: Attached, receivers: seq<(Id, nat)>)

  /** What dispatching the n-th command does to the attached objects: anything. */
  type Effect = (Attached, nat, Command) -> Attached

  datatype State = State(attached: Attached, pending: seq<Command>, log: seq<Entry>)

  /** dispatchCommand and dispatchObjectCommand: whether the command is taken. */
  predicate Dispatchable(attached: Attached, c: Command) {
    match c.target
    case ToNode => true
    case ToObject(id, instance) =>
      if id !in attached then instance == Any
      else instance.Only? ==> instance.n in attached[id]
  }

  function Pairs(id: Id, instances: seq<nat>): (r: seq<(Id, nat)>)
    ensures forall x :: x in r <==> x.0 == id && x.1 in instances
  {
    if instances == [] then [] else [(id, instances[0])] + Pairs(id, instances[1..])
  }

  function Receivers(attached: Attached, c: Command): seq<(Id, nat)> {
    match c.target
    case ToNode => []
    case ToObject(id, instance) =>
      if id !in attached then []
      else if instance.Only? then (if instance.n in attached[id] then [(id, instance.n)] else [])
      else Pairs(id, attached[id])
  }

  /** The command is meant for this instance. */
  predicate Addresses(c: Command, x: (Id, nat)) {
    c.target.ToObject? && c.target.id == x.0 && (c.target.instance.Only? ==> c.target.instance.n == x.1)
  }

  function Dispatched(effect: Effect, s: State, c: Command): State {
    s.(attached := effect(s.attached, |s.log|, c), log := s.log + [Entry(c, s.attached, Receivers(s.attached, c))])
  }

  function Without(cs: seq<Command>, i: nat): seq<Command>
    requires i < |cs|
  {
    cs[..i] + cs[i + 1..]
  }

  /** The first command that can be dispatched, or the length. */
  function FirstReady(attached: Attached, cs: seq<Command>): (i: nat)
    ensures i <= |cs|
    ensures i < |cs| ==> Dispatchable(attached, cs[i])
    ensures forall j :: 0 <= j < i ==> !Dispatchable(attached, cs[j])
  {
    if cs == [] || Dispatchable(attached, cs[0]) then 0
    else
      var i := 1 + FirstReady(attached, cs[1..]);
      assert forall j :: 0 < j < i ==> cs[j] == cs[1..][j - 1];
      i
  }

  /** Dispatches pending commands, always the first possible one, until none is possible. */
  function Redispatch(effect: Effect, s: State): State
    decreases |s.pending|
  {
    var i := FirstReady(s.attached, s.pending);
    if i == |s.pending| then s
    else Redispatch(effect, Dispatched(effect, s, s.pending[i]).(pending := Without(s.pending, i)))
  }

  /** _dispatchCommand for a command that just arrived. */
  function Handle(effect: Effect, s: State, c: Command): State {
    if Dispatchable(s.attached, c) then Redispatch(effect, Dispatched(effect, s, c))
    else
      var r := Redispatch(effect, s);
      r.(pending := r.pending + [c])
  }

  function Run(effect: Effect, s: State, cs: seq<Command>): State
    decreases |cs|
  {
    if cs == [] then s else Run(effect, Handle(effect, s, cs[0]), cs[1..])
  }

  // ---- invariants ----

  predicate Idle(s: State) {
    forall i :: 0 <= i < |s.pending| ==> !Dispatchable(s.attached, s.pending[i])
  }

  predicate Ascending(cs: seq<Command>) {
    forall i, j :: 0 <= i < j < |cs| ==> cs[i].no < cs[j].no
  }

  /** No pending command is for an instance that already received a later one. */
  predicate NoneOvertaken(pending: seq<Command>, log: seq<Entry>) {
    forall i, k, x :: 0 <= i < |pending| && 0 <= k < |log| && x in log[k].receivers && Addresses(pending[i], x) ==>
      log[k].command.no < pending[i].no
  }

  /** Each instance received its commands in the order of their numbers. */
  predicate InOrder(log: seq<Entry>) {
    forall i, j, x :: 0 <= i < j < |log| && x in log[i].receivers && x in log[j].receivers ==>
      log[i].command.no < log[j].command.no
  }

  function Logged(log: seq<Entry>): multiset<Command> {
    if log == [] then multiset{} else Logged(log[..|log| - 1]) + multiset{log[|log| - 1].command}
  }

  predicate Inv(s: State, arrived: seq<Command>) {
    && Ascending(s.pending) && NoneOvertaken(s.pending, s.log) && InOrder(s.log)
    && Logged(s.log) + multiset(s.pending) == multiset(arrived)
  }

  /** A command reaches exactly the attached instances it is meant for. */
  lemma ReceiversExact(attached: Attached, c: Command, x: (Id, nat))
    ensures x in Receivers(attached, c) <==> x.0 in attached && x.1 in attached[x.0] && Addresses(c, x)
  {
    if x.0 in attached && x.1 in attached[x.0] && Addresses(c, x) {
      assert x == (c.target.id, x.1);
    }
  }

  /** Whatever is meant for an instance that received a command could be dispatched at that time. */
  lemma ReceiversAddressed(attached: Attached, c: Command, x: (Id, nat))
    requires x in Receivers(attached, c)
    ensures Addresses(c, x)
    ensures forall d: Command :: Addresses(d, x) ==> Dispatchable(attached, d)
  {
  }

  /** Dispatching a command that no earlier pending one can follow keeps the order. */
  lemma DispatchOrder(attached: Attached, pending: seq<Command>, log: seq<Entry>, c: Command)
    requires NoneOvertaken(pending, log) && InOrder(log)
    requires forall k, x :: 0 <= k < |log| && x in log[k].receivers && Addresses(c, x) ==> log[k].command.no < c.no
    requires forall i :: 0 <= i < |pending| && Dispatchable(attached, pending[i]) ==> c.no < pending[i].no
    ensures var more := log + [Entry(c, attached, Receivers(attached, c))];
      NoneOvertaken(pending, more) && InOrder(more)
  {
    var more := log + [Entry(c, attached, Receivers(attached, c))];
    forall i, k, x | 0 <= i < |pending| && 0 <= k < |more| && x in more[k].receivers && Addresses(pending[i], x)
      ensures more[k].command.no < pending[i].no
    {
      if k < |log| {
        assert more[k] == log[k];
      } else {
        ReceiversAddressed(attached, c, x);
      }
    }
    forall i, j, x | 0 <= i < j < |more| && x in more[i].receivers && x in more[j].receivers
      ensures more[i].command.no < more[j].command.no
    {
      assert more[i] == log[i];
      if j < |log| {
        assert more[j] == log[j];
      } else {
        ReceiversAddressed(attached, c, x);
      }
    }
  }

  lemma WithoutAscending(cs: seq<Command>, i: nat)
    requires i < |cs| && Ascending(cs)
    ensures Ascending(Without(cs, i)) && multiset(Without(cs, i)) + multiset{cs[i]} == multiset(cs)
    ensures forall j :: 0 <= j < |cs| - 1 ==> Without(cs, i)[j] == cs[if j < i then j else j + 1]
  {
    assert cs == cs[..i] + [cs[i]] + cs[i + 1..];
  }

  lemma FewerOvertaken(pending: seq<Command>, log: seq<Entry>, i: nat)
    requires i < |pending| && NoneOvertaken(pending, log)
    ensures NoneOvertaken(Without(pending, i), log)
  {
    var fewer := Without(pending, i);
    assert forall j :: 0 <= j < |fewer| ==> fewer[j] == pending[if j < i then j else j + 1];
  }

  lemma LoggedMore(log: seq<Entry>, e: Entry)
    ensures Logged(log + [e]) == Logged(log) + multiset{e.command}
  {
    assert (log + [e])[..|log|] == log;
  }

  lemma OvertakenNot(pending: seq<Command>, log: seq<Entry>, i: nat)
    requires i < |pending| && NoneOvertaken(pending, log)
    ensures forall k, x :: 0 <= k < |log| && x in log[k].receivers && Addresses(pending[i], x) ==>
      log[k].command.no < pending[i].no
  {
  }

  /** The other pending commands that could be dispatched are later than the first one. */
  lemma FirstIsFirst(attached: Attached, pending: seq<Command>, i: nat)
    requires Ascending(pending) && i == FirstReady(attached, pending) < |pending|
    ensures forall j :: 0 <= j < |Without(pending, i)| && Dispatchable(attached, Without(pending, i)[j]) ==>
      pending[i].no < Without(pending, i)[j].no
  {
    hide Dispatchable;
    var fewer := Without(pending, i);
    forall j | 0 <= j < |fewer| && Dispatchable(attached, fewer[j]) ensures pending[i].no < fewer[j].no {
      assert fewer[j] == pending[if j < i then j else j + 1];
    }
  }

  /** Dispatching the first possible pending command keeps the invariant. */
  lemma FirstKeeps(effect: Effect, s: State, arrived: seq<Command>)
    requires Inv(s, arrived) && FirstReady(s.attached, s.pending) < |s.pending|
    ensures var i := FirstReady(s.attached, s.pending);
      Inv(Dispatched(effect, s, s.pending[i]).(pending := Without(s.pending, i)), arrived)
  {
    hide NoneOvertaken, InOrder, Ascending, Logged, Without, Receivers, Dispatchable, Addresses;
    var i := FirstReady(s.attached, s.pending);
    var c, fewer := s.pending[i], Without(s.pending, i);
    WithoutAscending(s.pending, i);
    FewerOvertaken(s.pending, s.log, i);
    FirstIsFirst(s.attached, s.pending, i);
    OvertakenNot(s.pending, s.log, i);
    DispatchOrder(s.attached, fewer, s.log, c);
    LoggedMore(s.log, Entry(c, s.attached, Receivers(s.attached, c)));
  }

  /** Trying the pending commands again ends with none that can be dispatched, and keeps everything else. */
  lemma {:induction false} RedispatchKeeps(effect: Effect, s: State, arrived: seq<Command>)
    requires Inv(s, arrived)
    ensures Inv(Redispatch(effect, s), arrived) && Idle(Redispatch(effect, s))
    decreases |s.pending|
  {
    hide Inv, Dispatched, Dispatchable;
    var i := FirstReady(s.attached, s.pending);
    if i < |s.pending| {
      FirstKeeps(effect, s, arrived);
      RedispatchKeeps(effect, Dispatched(effect, s, s.pending[i]).(pending := Without(s.pending, i)), arrived);
    }
  }

  lemma IdleRedispatch(effect: Effect, s: State)
    requires Idle(s)
    ensures Redispatch(effect, s) == s
  {
  }

  /** The command that arrives is later than all before. */
  predicate Latest(s: State, c: Command) {
    && (forall i :: 0 <= i < |s.pending| ==> s.pending[i].no < c.no)
    && forall k :: 0 <= k < |s.log| ==> s.log[k].command.no < c.no
  }

  lemma ArrivalDispatched(effect: Effect, s: State, c: Command, arrived: seq<Command>)
    requires Inv(s, arrived) && Idle(s) && Latest(s, c)
    ensures Inv(Dispatched(effect, s, c), arrived + [c])
  {
    DispatchOrder(s.attached, s.pending, s.log, c);
    LoggedMore(s.log, Entry(c, s.attached, Receivers(s.attached, c)));
    hide NoneOvertaken, InOrder, Ascending, Logged, Receivers, Dispatchable;
    assert multiset(arrived + [c]) == multiset(arrived) + multiset{c};
  }

  lemma ArrivalKept(s: State, c: Command, arrived: seq<Command>)
    requires Inv(s, arrived) && Idle(s) && Latest(s, c) && !Dispatchable(s.attached, c)
    ensures Inv(s.(pending := s.pending + [c]), arrived + [c]) && Idle(s.(pending := s.pending + [c]))
  {
    hide Dispatchable, Logged;
    assert multiset(arrived + [c]) == multiset(arrived) + multiset{c};
    assert multiset(s.pending + [c]) == multiset(s.pending) + multiset{c};
  }

  lemma HandleKeeps(effect: Effect, s: State, c: Command, arrived: seq<Command>)
    requires Inv(s, arrived) && Idle(s) && Latest(s, c)
    ensures var t := Handle(effect, s, c);
      Inv(t, arrived + [c]) && Idle(t)
  {
    hide Inv, Idle, Latest, Dispatched, Dispatchable, Redispatch;
    if Dispatchable(s.attached, c) {
      ArrivalDispatched(effect, s, c, arrived);
      RedispatchKeeps(effect, Dispatched(effect, s, c), arrived + [c]);
    } else {
      IdleRedispatch(effect, s);
      ArrivalKept(s, c, arrived);
    }
  }

  lemma {:induction false} LoggedIn(log: seq<Entry>, k: nat)
    requires k < |log|
    ensures log[k].command in Logged(log)
  {
    if k < |log| - 1 {
      LoggedIn(log[..|log| - 1], k);
    }
  }

  /** All commands seen so far have lower numbers. */
  lemma LaterThanAll(s: State, arrived: seq<Command>, c: Command)
    requires Inv(s, arrived) && forall i :: 0 <= i < |arrived| ==> arrived[i].no < c.no
    ensures Latest(s, c)
  {
    var all := multiset(arrived);
    forall d | d in all ensures d.no < c.no {
      assert d in arrived;
    }
    forall i | 0 <= i < |s.pending| ensures s.pending[i].no < c.no {
      assert s.pending[i] in multiset(s.pending);
    }
    forall k | 0 <= k < |s.log| ensures s.log[k].command.no < c.no {
      LoggedIn(s.log, k);
    }
  }

  lemma {:induction false} RunKeeps(effect: Effect, s: State, arrived: seq<Command>, cs: seq<Command>)
    requires Inv(s, arrived) && Idle(s) && Ascending(arrived + cs)
    ensures Inv(Run(effect, s, cs), arrived + cs) && Idle(Run(effect, s, cs))
    decreases |cs|
  {
    if cs == [] {
      assert arrived + cs == arrived;
    } else {
      var all := arrived + cs;
      forall i | 0 <= i < |arrived| ensures arrived[i].no < cs[0].no {
        assert all[i] == arrived[i] && all[|arrived|] == cs[0];
      }
      LaterThanAll(s, arrived, cs[0]);
      HandleKeeps(effect, s, cs[0], arrived);
      assert arrived + [cs[0]] + cs[1..] == all;
      RunKeeps(effect, Handle(effect, s, cs[0]), arrived + [cs[0]], cs[1..]);
    }
  }

  /** A node that has received nothing yet. */
  function Start(attached: Attached): State {
    State(attached, [], [])
  }

  /**
   After every list of arrivals, whatever dispatching does to the attached objects: no kept command could be
   dispatched, each command was dispatched once or is kept, and each instance received its commands in order.
   */
  lemma DispatchIsOrderly(effect: Effect, attached: Attached, cs: seq<Command>)
    requires Ascending(cs)
    ensures var t := Run(effect, Start(attached), cs);
      && (forall i :: 0 <= i < |t.pending| ==> !Dispatchable(t.attached, t.pending[i]))
      && Logged(t.log) + multiset(t.pending) == multiset(cs)
      && InOrder(t.log) && Ascending(t.pending)
  {
    assert [] + cs == cs;
    RunKeeps(effect, Start(attached), [], cs);
  }

  // ---- who is reached ----

  /** An attached instance the command is meant for. */
  predicate Meets(attached: Attached, c: Command, x: (Id, nat)) {
    Addresses(c, x) && x.0 in attached && x.1 in attached[x.0]
  }

  /** The node itself takes the command, it only concerns instances that are there, or one is there. */
  ghost predicate Awaited(attached: Attached, c: Command) {
    c.target.ToNode? || c.target.instance == Any || exists x :: Meets(attached, c, x)
  }

  /** Objects that are attached have an instance. */
  ghost predicate Populated(attached: Attached) {
    forall id :: id in attached ==> attached[id] != []
  }

  ghost predicate KeepsPopulated(effect: Effect) {
    forall a: Attached, n: nat, c: Command :: Populated(a) ==> Populated(effect(a, n, c))
  }

  /** A command is taken exactly if someone it is meant for is there. */
  lemma TakenIffAwaited(attached: Attached, c: Command)
    requires Populated(attached)
    ensures Dispatchable(attached, c) <==> Awaited(attached, c)
  {
    if c.target.ToObject? && c.target.id in attached {
      var id := c.target.id;
      if c.target.instance.Only? {
        if c.target.instance.n in attached[id] {
          assert Meets(attached, c, (id, c.target.instance.n));
        }
      } else {
        assert Meets(attached, c, (id, attached[id][0]));
      }
    }
  }

  /** The entry's command was awaited, and exactly the instances it meets received it. */
  ghost predicate Reached(e: Entry) {
    && Populated(e.attached) && Awaited(e.attached, e.command)
    && forall x :: x in e.receivers <==> Meets(e.attached, e.command, x)
  }

  ghost predicate AllReached(log: seq<Entry>) {
    forall k :: 0 <= k < |log| ==> Reached(log[k])
  }

  lemma DispatchedReaches(effect: Effect, s: State, c: Command)
    requires KeepsPopulated(effect) && Populated(s.attached) && AllReached(s.log) && Dispatchable(s.attached, c)
    ensures var t := Dispatched(effect, s, c); Populated(t.attached) && AllReached(t.log)
  {
    TakenIffAwaited(s.attached, c);
    forall x ensures x in Receivers(s.attached, c) <==> Meets(s.attached, c, x) {
      ReceiversExact(s.attached, c, x);
    }
    hide Populated, Awaited, Meets, Receivers, Dispatchable;
    assert Reached(Entry(c, s.attached, Receivers(s.attached, c)));
  }

  lemma {:induction false} RedispatchReaches(effect: Effect, s: State)
    requires KeepsPopulated(effect) && Populated(s.attached) && AllReached(s.log)
    ensures var t := Redispatch(effect, s); Populated(t.attached) && AllReached(t.log) && s.log <= t.log
    decreases |s.pending|
  {
    hide Populated, AllReached, Dispatchable, Receivers;
    var i := FirstReady(s.attached, s.pending);
    if i < |s.pending| {
      DispatchedReaches(effect, s, s.pending[i]);
      RedispatchReaches(effect, Dispatched(effect, s, s.pending[i]).(pending := Without(s.pending, i)));
    }
  }

  lemma HandleReaches(effect: Effect, s: State, c: Command)
    requires KeepsPopulated(effect) && Populated(s.attached) && AllReached(s.log)
    ensures var t := Handle(effect, s, c); Populated(t.attached) && AllReached(t.log)
  {
    hide Populated, AllReached, Dispatchable, Redispatch, KeepsPopulated, Dispatched;
    if Dispatchable(s.attached, c) {
      DispatchedReaches(effect, s, c);
      RedispatchReaches(effect, Dispatched(effect, s, c));
    } else {
      RedispatchReaches(effect, s);
    }
  }

  lemma {:induction false} RunReaches(effect: Effect, s: State, cs: seq<Command>)
    requires KeepsPopulated(effect) && Populated(s.attached) && AllReached(s.log)
    ensures var t := Run(effect, s, cs); Populated(t.attached) && AllReached(t.log)
    decreases |cs|
  {
    hide Populated, AllReached, Handle, KeepsPopulated;
    if cs != [] {
      HandleReaches(effect, s, cs[0]);
      RunReaches(effect, Handle(effect, s, cs[0]), cs[1..]);
    }
  }

  /**
   In every run: each dispatched command for an object, other than one that only concerns instances that are there,
   was received by someone, and always by exactly the attached instances it was meant for; and between arrivals no kept
   command is meant for anyone attached.
   */
  lemma DispatchReachesEveryone(effect: Effect, attached: Attached, cs: seq<Command>)
    requires Ascending(cs) && KeepsPopulated(effect) && Populated(attached)
    ensures var t := Run(effect, Start(attached), cs);
      && (forall k, x :: 0 <= k < |t.log| ==> (x in t.log[k].receivers <==> Meets(t.log[k].attached, t.log[k].command, x)))
      && (forall k :: 0 <= k < |t.log| && t.log[k].command.target.ToObject? && t.log[k].command.target.instance != Any ==>
            t.log[k].receivers != [])
      && (forall i :: 0 <= i < |t.pending| ==> t.pending[i].target.ToObject? && t.pending[i].target.instance != Any)
      && forall i, x :: 0 <= i < |t.pending| ==> !Meets(t.attached, t.pending[i], x)
  {
    var t := Run(effect, Start(attached), cs);
    RunReaches(effect, Start(attached), cs);
    DispatchIsOrderly(effect, attached, cs);
    hide Run, Meets, Dispatchable, Populated;
    forall k | 0 <= k < |t.log| && t.log[k].command.target.ToObject? && t.log[k].command.target.instance != Any
      ensures t.log[k].receivers != []
    {
      assert Reached(t.log[k]);
      var x :| Meets(t.log[k].attached, t.log[k].command, x);
      assert x in t.log[k].receivers;
    }
    forall i | 0 <= i < |t.pending| ensures !Awaited(t.attached, t.pending[i]) {
      TakenIffAwaited(t.attached, t.pending[i]);
    }
    forall k, x | 0 <= k < |t.log| ensures x in t.log[k].receivers <==> Meets(t.log[k].attached, t.log[k].command, x) {
      assert Reached(t.log[k]);
    }
  }

  /** A command that arrives is dispatched at once exactly if it is awaited; otherwise it is kept and nothing happens. */
  lemma ArrivalTakenIff(effect: Effect, s: State, c: Command)
    requires Populated(s.attached) && KeepsPopulated(effect) && AllReached(s.log) && Idle(s)
    ensures var t := Handle(effect, s, c);
      if Awaited(s.attached, c) then |t.log| > |s.log| && t.log[..|s.log|] == s.log && t.log[|s.log|].command == c
      else t == s.(pending := s.pending + [c])
  {
    TakenIffAwaited(s.attached, c);
    if Dispatchable(s.attached, c) {
      DispatchedReaches(effect, s, c);
      RedispatchReaches(effect, Dispatched(effect, s, c));
    } else {
      IdleRedispatch(effect, s);
    }
    hide Populated, Awaited, Receivers, Redispatch, AllReached;
  }
}


module LocalNodes {
  import opened Dispatch

  class LocalNode {
    const effect: Effect
    var attached: Attached
    var pendingCommands: seq<Command>
    var log: seq<Entry>

    function Value(): State
      reads this
    {
      State(attached, pendingCommands, log)
    }

    constructor (effect: Effect, attached: Attached)
      ensures Value() == Start(attached) && this.effect == effect
    {
      this.effect := effect;
      this.attached, pendingCommands, log := attached, [], [];
    }

    /** dispatchCommand */
    method DispatchCommand(c: Command) returns (ok: bool)
      modifies this`attached, this`log
      ensures ok == Dispatchable(old(attached), c)
      ensures Value() == if ok then Dispatched(effect, old(Value()), c) else old(Value())
    {
      ok := Dispatchable(attached, c);
      if ok {
        attached, log := effect(attached, |log|, c), log + [Entry(c, attached, Receivers(attached, c))];
      }
    }

    /** _redispatchCommands */
    method RedispatchCommands()
      modifies this
      ensures Value() == Redispatch(effect, old(Value()))
    {
      hide Dispatchable, Dispatched, Redispatch;
      var changes := true;
      Redispatching(effect, Value());
      while changes && pendingCommands != []
        invariant Redispatch(effect, Value()) == Redispatch(effect, old(Value()))
        invariant !changes ==> FirstReady(attached, pendingCommands) == |pendingCommands|
        decreases |pendingCommands|, changes
      {
        changes := false;
        ghost var before := Value();
        Redispatching(effect, before);
        var i := 0;
        while i < |pendingCommands| && !changes
          invariant 0 <= i <= |before.pending|
          invariant !changes ==> Value() == before && i <= FirstReady(before.attached, before.pending)
          invariant changes ==> i == FirstReady(before.attached, before.pending) < |before.pending|
          invariant changes ==>
            Value() == Dispatched(effect, before, before.pending[i]).(pending := Without(before.pending, i))
          decreases |pendingCommands| - i, !changes
        {
          FirstReadyIs(attached, pendingCommands, i);
          var ok := DispatchCommand(pendingCommands[i]);
          if ok {
            pendingCommands := Without(pendingCommands, i);
            changes := true;
          } else {
            i := i + 1;
          }
        }
      }
      Redispatching(effect, Value());
    }

    /** _dispatchCommand: a command that cannot be dispatched is kept. */
    method Receive(c: Command)
      modifies this
      ensures Value() == Handle(effect, old(Value()), c)
      ensures old(Populated(attached) && AllReached(log) && Idle(Value())) && KeepsPopulated(effect) ==>
        if Awaited(old(attached), c) then |log| > |old(log)| && log[..|old(log)|] == old(log) && log[|old(log)|].command == c
        else pendingCommands == old(pendingCommands) + [c] && log == old(log) && attached == old(attached)
    {
      hide *;
      ValueIs();
      if Populated(attached) && AllReached(log) && Idle(Value()) && KeepsPopulated(effect) {
        ArrivalTakenIff(effect, Value(), c);
      }
      HandleIs(effect, Value(), c);
      var ok := DispatchCommand(c);
      RedispatchCommands();
      if !ok {
        ValueIs();
        pendingCommands := pendingCommands + [c];
      }
      ValueIs();
    }

    lemma ValueIs()
      ensures Value() == State(attached, pendingCommands, log)
    {
    }
  }

  lemma HandleIs(effect: Effect, s: State, c: Command)
    ensures Handle(effect, s, c) ==
      if Dispatchable(s.attached, c) then Redispatch(effect, Dispatched(effect, s, c))
      else
        var r := Redispatch(effect, s);
        r.(pending := r.pending + [c])
  {
  }

  lemma Redispatching(effect: Effect, s: State)
    ensures var i := FirstReady(s.attached, s.pending);
      Redispatch(effect, s) == if i == |s.pending| then s
        else Redispatch(effect, Dispatched(effect, s, s.pending[i]).(pending := Without(s.pending, i)))
  {
  }

  lemma FirstReadyIs(attached: Attached, cs: seq<Command>, i: nat)
    requires i < |cs| && i <= FirstReady(attached, cs)
    ensures Dispatchable(attached, cs[i]) <==> i == FirstReady(attached, cs)
  {
  }
}
