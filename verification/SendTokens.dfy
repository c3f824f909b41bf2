/**
 The send token of a node (co/localNode.cpp, co/sendToken.cpp): clients ask for it, the node grants it to one of them
 at a time in the order their requests arrive. Timeouts are indefinite.
 */
module SendTokens {
  import opened Common

  type Request = nat

  /** The node: whether the token is here, and the requests waiting for it. */
  datatype Server = Server(sendToken: bool, queue: seq<Request>)

  /** A request arrives: it gets the token or waits. */
  function Acquire(s: Server, r: Request): (Server, Option<Request>) {
    if !s.sendToken then (s.(queue := s.queue + [r]), None) else (s.(sendToken := false), Some(r))
  }

  /** A release arrives: the longest waiting request gets the token. A token that is here already stays. */
  function Release(s: Server): (Server, Option<Request>) {
    if s.sendToken then (s, None)
    else if s.queue == [] then (s.(sendToken := true), None)
    else (s.(queue := s.queue[1..]), Some(s.queue[0]))
  }

  /**
   The node with its clients: requests, grants and releases in flight and the clients that hold the token.
   `arrived` and `granted` record what the node has seen and answered.
   */
  datatype State = State(
    server: Server,
    requests: multiset<Request>,
    grants: multiset<Request>,
    holders: multiset<Request>,
    releases: nat,
    arrived: seq<Request>,
    granted: seq<Request>)

  datatype Step =
    | Ask(r: Request)
    | CmdAcquire(r: Request)
    | CmdReply(r: Request)
    | GiveUp(r: Request)
    | CmdRelease

  const INIT: State := State(Server(true, []), multiset{}, multiset{}, multiset{}, 0, [], [])

  predicate Enabled(s: State, step: Step) {
    match step
    case Ask(r) => true
    case CmdAcquire(r) => r in s.requests
    case CmdReply(r) => r in s.grants
    case GiveUp(r) => r in s.holders
    case CmdRelease => s.releases > 0
  }

  function Answer(s: State, answer: (Server, Option<Request>)): State {
    if answer.1.None? then s.(server := answer.0)
    else s.(server := answer.0, grants := s.grants + multiset{answer.1.value}, granted := s.granted + [answer.1.value])
  }

  function Apply(s: State, step: Step): State
    requires Enabled(s, step)
  {
    match step
    case Ask(r) => s.(requests := s.requests + multiset{r})
    case CmdAcquire(r) =>
      Answer(s.(requests := s.requests - multiset{r}, arrived := s.arrived + [r]), Acquire(s.server, r))
    case CmdReply(r) => s.(grants := s.grants - multiset{r}, holders := s.holders + multiset{r})
    case GiveUp(r) => s.(holders := s.holders - multiset{r}, releases := s.releases + 1)
    case CmdRelease => Answer(s.(releases := s.releases - 1), Release(s.server))
  }

  function Tokens(s: State): nat {
    (if s.server.sendToken then 1 else 0) + |s.grants| + |s.holders| + s.releases
  }

  /** There is one token; requests only wait while it is away; grants follow the order of arrival. */
  predicate Inv(s: State) {
    && Tokens(s) == 1
    && (s.server.queue != [] ==> !s.server.sendToken)
    && s.arrived == s.granted + s.server.queue
  }

  lemma OneLess(m: multiset<Request>, r: Request)
    requires r in m
    ensures |m - multiset{r}| == |m| - 1
  {
    assert m == (m - multiset{r}) + multiset{r};
  }

  lemma StepKeeps(s: State, step: Step)
    requires Inv(s) && Enabled(s, step)
    ensures Inv(Apply(s, step))
    ensures step.CmdRelease? ==> !s.server.sendToken
  {
    match step
    case Ask(r) =>
    case CmdAcquire(r) =>
    case CmdReply(r) => OneLess(s.grants, r);
    case GiveUp(r) => OneLess(s.holders, r);
    case CmdRelease =>
      if s.server.queue != [] {
        assert s.server.queue == [s.server.queue[0]] + s.server.queue[1..];
      }
  }

  ghost predicate Reaches(s: State, steps: seq<Step>, t: State)
    decreases |steps|
  {
    if steps == [] then s == t else Enabled(s, steps[0]) && Reaches(Apply(s, steps[0]), steps[1..], t)
  }

  lemma {:induction false} RunInv(s: State, steps: seq<Step>, t: State)
    requires Inv(s) && Reaches(s, steps, t)
    ensures Inv(t)
    decreases |steps|
  {
    if steps != [] {
      StepKeeps(s, steps[0]);
      RunInv(Apply(s, steps[0]), steps[1..], t);
    }
  }

  /** In every run the token is in exactly one place, so at most one client holds it. */
  lemma TokenConserved(steps: seq<Step>, t: State)
    requires Reaches(INIT, steps, t)
    ensures (if t.server.sendToken then 1 else 0) + |t.grants| + |t.holders| + t.releases == 1
    ensures |t.holders| <= 1
  {
    RunInv(INIT, steps, t);
  }

  /** Grants go out in the order in which the requests arrived, none twice and none left out. */
  lemma GrantsFollowArrival(steps: seq<Step>, t: State)
    requires Reaches(INIT, steps, t)
    ensures t.granted <= t.arrived && t.arrived[|t.granted|..] == t.server.queue
  {
    RunInv(INIT, steps, t);
  }

  /** While requests wait, the token is on its way to or from a client that has it; a release never comes twice. */
  lemma WaitingMeansTaken(steps: seq<Step>, t: State)
    requires Reaches(INIT, steps, t)
    ensures t.server.queue != [] ==> |t.grants| + |t.holders| + t.releases == 1
    ensures t.releases > 0 ==> !t.server.sendToken
    ensures t.server.queue != [] ==> exists step :: Enabled(t, step) && (step.CmdReply? || step.GiveUp? || step.CmdRelease?)
  {
    RunInv(INIT, steps, t);
    if t.server.queue != [] {
      if r :| r in t.grants {
        assert Enabled(t, CmdReply(r));
      } else if r :| r in t.holders {
        assert Enabled(t, GiveUp(r));
      } else {
        assert t.grants == multiset{} && t.holders == multiset{};
        assert Enabled(t, CmdRelease);
      }
    }
  }

  // ---- the node ----

  /** The node as an object, with the system it is part of. */
  class LocalNode {
    var sendToken: bool
    var sendTokenQueue: seq<Request>
    ghost var system: State

    /** The node is the server of a system in which the token is unique and requests are served in order. */
    ghost predicate Valid()
      reads this
    {
      Inv(system) && system.server == Server(sendToken, sendTokenQueue)
    }

    constructor ()
      ensures Valid() && system == INIT
    {
      sendToken, sendTokenQueue, system := true, [], INIT;
    }

    /** What clients do: ask for the token, receive it, give it back. */
    ghost method Client(step: Step)
      requires Valid() && Enabled(system, step) && (step.Ask? || step.CmdReply? || step.GiveUp?)
      modifies this`system
      ensures Valid() && system == Apply(old(system), step)
    {
      StepKeeps(system, step);
      system := Apply(system, step);
    }

    /** _cmdAcquireSendToken: a request in flight arrives and is granted or queued behind all earlier ones. */
    method CmdAcquireSendToken(r: Request) returns (reply: Option<Request>)
      requires Valid() && r in system.requests
      modifies this
      ensures Valid() && system == Apply(old(system), CmdAcquire(r))
      ensures system.granted == old(system.granted) + if reply.Some? then [reply.value] else []
    {
      StepKeeps(system, CmdAcquire(r));
      system := Apply(system, CmdAcquire(r));
      if !sendToken {
        sendTokenQueue := sendTokenQueue + [r];
        return None;
      }
      sendToken := false;
      return Some(r);
    }

    /** _cmdReleaseSendToken: a release in flight arrives; the longest waiting request gets the token. */
    method CmdReleaseSendToken() returns (reply: Option<Request>)
      requires Valid() && system.releases > 0
      modifies this
      ensures Valid() && system == Apply(old(system), CmdRelease)
      ensures system.granted == old(system.granted) + if reply.Some? then [reply.value] else []
      ensures reply == if old(sendTokenQueue) == [] then None else Some(old(sendTokenQueue)[0])
    {
      StepKeeps(system, CmdRelease);
      system := Apply(system, CmdRelease);
      if sendTokenQueue == [] {
        sendToken := true;
        return None;
      }
      reply := Some(sendTokenQueue[0]);
      sendTokenQueue := sendTokenQueue[1..];
    }
  }
}
