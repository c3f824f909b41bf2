/**
 The version history a buffered master object keeps (co/fullMasterCM.cpp, co/deltaMasterCM.cpp): commits append a
 version, auto-obsoletion drops versions that left the window of retained incarnations.
 */
module MasterHistory {
  import opened Common

  /** InstanceData: one committed version, with the commit count it was made at. */
  datatype Entry<D> = Entry(version: nat, commitCount: nat, data: D)

  /** CO_COMMIT_NEXT asks for the next incarnation. */
  datatype Incarnation = Next | At(count: nat)

  datatype Master<D> = Master(entries: seq<Entry<D>>, version: nat, commitCount: nat, nVersions: nat)

  // ---- what each operation does ----

  function Obsolete<D>(entries: seq<Entry<D>>, commitCount: nat, nVersions: nat): seq<Entry<D>>
    decreases |entries|
  {
    if |entries| > 1 && commitCount > nVersions && entries[0].commitCount < commitCount - nVersions then
      Obsolete(entries[1..], commitCount, nVersions)
    else
      entries
  }

  /** Drops the entries from a later incarnation, but always keeps the oldest entry. */
  function DropLater<D>(entries: seq<Entry<D>>, count: nat): (kept: seq<Entry<D>>)
    ensures entries != [] ==> kept != []
    decreases |entries|
  {
    if |entries| > 1 && entries[|entries| - 1].commitCount > count then
      DropLater(entries[..|entries| - 1], count)
    else
      entries
  }

  function UpdateCommitCount<D>(m: Master<D>, incarnation: Incarnation): Master<D>
    requires m.entries != []
  {
    match incarnation
    case Next => m.(commitCount := m.commitCount + 1)
    case At(count) =>
      if count >= m.commitCount then m.(commitCount := count)
      else
        var kept := DropLater(m.entries, count);
        var last := kept[|kept| - 1];
        if last.commitCount > count then
          Master(kept[..|kept| - 1] + [last.(commitCount := 0)], last.version, count, m.nVersions)
        else
          m.(entries := kept, commitCount := count)
  }

  function AddVersion<D>(m: Master<D>, data: D): Master<D> {
    m.(entries := m.entries + [Entry(m.version + 1, m.commitCount, data)], version := m.version + 1)
  }

  function Prune<D>(m: Master<D>): Master<D> {
    m.(entries := Obsolete(m.entries, m.commitCount, m.nVersions))
  }

  function Init<D>(data: D): Master<D> {
    Master([Entry(1, 0, data)], 1, 1, 0)
  }

  function SetAutoObsolete<D>(m: Master<D>, count: nat): Master<D> {
    Prune(m.(nVersions := count))
  }

  /** A commit; `data` is the new version's data, None when the object is clean or serialised nothing. */
  function Commit<D>(m: Master<D>, incarnation: Incarnation, data: Option<D>): Master<D>
    requires m.entries != []
  {
    var m' := UpdateCommitCount(m, incarnation);
    Prune(if data.Some? then AddVersion(m', data.value) else m')
  }

  // ---- the invariant ----

  /** Stored versions are consecutive and end at the head version. */
  ghost predicate Consecutive<D>(entries: seq<Entry<D>>, version: nat) {
    && 0 < |entries| <= version
    && forall i :: 0 <= i < |entries| ==> entries[i].version == version - |entries| + 1 + i
  }

  ghost predicate CountsAscend<D>(entries: seq<Entry<D>>, commitCount: nat) {
    && (forall i :: 0 <= i < |entries| ==> entries[i].commitCount <= commitCount)
    && forall i, j :: 0 <= i < j < |entries| ==> entries[i].commitCount <= entries[j].commitCount
  }

  predicate InWindow<D>(e: Entry<D>, commitCount: nat, nVersions: nat) {
    e.commitCount + nVersions >= commitCount
  }

  /** All stored versions are retained incarnations, except that the head is kept whatever its incarnation. */
  ghost predicate OnlyWindow<D>(m: Master<D>) {
    |m.entries| == 1 || forall i :: 0 <= i < |m.entries| ==> InWindow(m.entries[i], m.commitCount, m.nVersions)
  }

  ghost predicate Inv<D>(m: Master<D>) {
    Consecutive(m.entries, m.version) && CountsAscend(m.entries, m.commitCount) && OnlyWindow(m)
  }

  /** Obsoletion drops a prefix of versions that have all left the window, and stops at the window or the head. */
  lemma {:induction false} ObsoleteIsSuffix<D>(entries: seq<Entry<D>>, commitCount: nat, nVersions: nat) returns (k: nat)
    requires entries != [] && CountsAscend(entries, commitCount)
    ensures k < |entries| && Obsolete(entries, commitCount, nVersions) == entries[k..]
    ensures forall i :: 0 <= i < k ==> !InWindow(entries[i], commitCount, nVersions)
    ensures k == |entries| - 1 || forall i :: k <= i < |entries| ==> InWindow(entries[i], commitCount, nVersions)
    decreases |entries|
  {
    if |entries| > 1 && commitCount > nVersions && entries[0].commitCount < commitCount - nVersions {
      var rest := ObsoleteIsSuffix(entries[1..], commitCount, nVersions);
      k := rest + 1;
      assert entries[1..][rest..] == entries[k..];
      assert forall i :: 1 <= i < |entries| ==> entries[i] == entries[1..][i - 1];
    } else {
      k := 0;
    }
  }

  lemma PruneInv<D>(m: Master<D>)
    requires Consecutive(m.entries, m.version) && CountsAscend(m.entries, m.commitCount)
    ensures Inv(Prune(m))
  {
    var k := ObsoleteIsSuffix(m.entries, m.commitCount, m.nVersions);
  }

  ghost predicate NonDecreasing<D>(m: Master<D>, incarnation: Incarnation) {
    incarnation.Next? || incarnation.count >= m.commitCount
  }

  lemma CommitInv<D>(m: Master<D>, incarnation: Incarnation, data: Option<D>)
    requires Inv(m) && NonDecreasing(m, incarnation)
    ensures Inv(Commit(m, incarnation, data))
  {
    var m' := UpdateCommitCount(m, incarnation);
    PruneInv(if data.Some? then AddVersion(m', data.value) else m');
  }

  // ---- whole runs ----

  datatype Step<D> =
    | Configure(count: nat)
    | DoCommit(incarnation: Incarnation, data: Option<D>)

  /** A master together with every version it ever committed, in order. */
  datatype Logged<D> = Logged(m: Master<D>, log: seq<Entry<D>>)

  ghost predicate Enabled<D>(s: Logged<D>, step: Step<D>) {
    s.m.entries != [] && (step.DoCommit? ==> NonDecreasing(s.m, step.incarnation))
  }

  ghost function Apply<D>(s: Logged<D>, step: Step<D>): Logged<D>
    requires s.m.entries != []
  {
    match step
    case Configure(count) => s.(m := SetAutoObsolete(s.m, count))
    case DoCommit(incarnation, data) =>
      var counted := UpdateCommitCount(s.m, incarnation);
      Logged(Commit(s.m, incarnation, data),
             if data.Some? then s.log + [Entry(counted.version + 1, counted.commitCount, data.value)] else s.log)
  }

  ghost predicate Run<D>(run: seq<Logged<D>>, steps: seq<Step<D>>) {
    && |run| == |steps| + 1
    && |run[0].log| == 1 && run[0] == Logged(Init(run[0].log[0].data), Init(run[0].log[0].data).entries)
    && forall i :: 0 <= i < |steps| ==> Enabled(run[i], steps[i]) && run[i + 1] == Apply(run[i], steps[i])
  }

  /** The log numbers its versions from one, and what is stored is its end. */
  ghost predicate EndOfLog<D>(entries: seq<Entry<D>>, log: seq<Entry<D>>) {
    && |entries| <= |log| && entries == log[|log| - |entries|..]
    && forall i :: 0 <= i < |log| ==> log[i].version == i + 1
  }

  /** The first `dropped` versions of the log have left the window. */
  ghost predicate LeftWindow<D>(log: seq<Entry<D>>, dropped: nat, commitCount: nat, window: nat)
    requires dropped <= |log|
  {
    forall i :: 0 <= i < dropped ==> !InWindow(log[i], commitCount, window)
  }

  ghost predicate Retained<D>(s: Logged<D>, window: nat) {
    && Inv(s.m) && |s.log| == s.m.version && EndOfLog(s.m.entries, s.log)
    && LeftWindow(s.log, |s.log| - |s.m.entries|, s.m.commitCount, window)
  }

  /** Dropping a prefix that left the window keeps the log relation. */
  lemma PruneRetained<D>(m: Master<D>, log: seq<Entry<D>>, window: nat)
    requires Consecutive(m.entries, m.version) && CountsAscend(m.entries, m.commitCount) && window <= m.nVersions
    requires |log| == m.version && EndOfLog(m.entries, log)
    requires LeftWindow(log, |log| - |m.entries|, m.commitCount, window)
    ensures Retained(Logged(Prune(m), log), window)
  {
    PruneInv(m);
    var k := ObsoleteIsSuffix(m.entries, m.commitCount, m.nVersions);
    hide Obsolete, Consecutive, CountsAscend, OnlyWindow;
    var dropped := |log| - |m.entries|;
    assert m.entries[k..] == log[dropped + k..];
    forall i | 0 <= i < dropped + k ensures !InWindow(log[i], m.commitCount, window) {
      if i >= dropped {
        assert log[i] == m.entries[i - dropped];
      }
    }
  }

  lemma StepRetained<D>(s: Logged<D>, step: Step<D>, window: nat)
    requires Retained(s, window) && Enabled(s, step) && window <= Apply(s, step).m.nVersions
    ensures Retained(Apply(s, step), window)
  {
    hide Obsolete, Consecutive, CountsAscend, OnlyWindow, EndOfLog, LeftWindow;
    match step
    case Configure(count) =>
      PruneRetained(s.m.(nVersions := count), s.log, window);
    case DoCommit(incarnation, data) =>
      var counted := UpdateCommitCount(s.m, incarnation);
      CountRetained(s, incarnation, window);
      if data.Some? {
        AddRetained(counted, s.log, data.value, window);
      } else {
        PruneRetained(counted, s.log, window);
      }
  }

  /** A later incarnation only moves the window on. */
  lemma CountRetained<D>(s: Logged<D>, incarnation: Incarnation, window: nat)
    requires Retained(s, window) && NonDecreasing(s.m, incarnation)
    ensures var m := UpdateCommitCount(s.m, incarnation);
      && m == s.m.(commitCount := m.commitCount) && CountsAscend(m.entries, m.commitCount)
      && LeftWindow(s.log, |s.log| - |s.m.entries|, m.commitCount, window)
  {
  }

  lemma AddRetained<D>(m: Master<D>, log: seq<Entry<D>>, data: D, window: nat)
    requires Consecutive(m.entries, m.version) && CountsAscend(m.entries, m.commitCount) && window <= m.nVersions
    requires |log| == m.version && EndOfLog(m.entries, log)
    requires LeftWindow(log, |log| - |m.entries|, m.commitCount, window)
    ensures Retained(Logged(Prune(AddVersion(m, data)), log + [Entry(m.version + 1, m.commitCount, data)]), window)
  {
    var longer := log + [Entry(m.version + 1, m.commitCount, data)];
    var added := AddVersion(m, data);
    assert added.entries == longer[|longer| - |added.entries|..];
    PruneRetained(added, longer, window);
  }

  /**
   In every run: stored versions are consecutive and end at the head, commit counts ascend, the head is kept, only
   retained incarnations are stored beside it, and every version ever committed that lies in the smallest window
   configured during the run is still stored.
   */
  lemma {:induction false} RunRetained<D>(run: seq<Logged<D>>, steps: seq<Step<D>>, i: nat, window: nat)
    requires Run(run, steps) && i < |run|
    requires forall j :: 0 < j <= i ==> window <= run[j].m.nVersions
    ensures Retained(run[i], window)
  {
    if i > 0 {
      RunRetained(run, steps, i - 1, window);
      assert run[i - 1 + 1] == Apply(run[i - 1], steps[i - 1]) && window <= run[i].m.nVersions;
      StepRetained(run[i - 1], steps[i - 1], window);
    }
  }

  /** With one auto-obsolete count throughout, a version is stored if and only if it is the head or in the window. */
  lemma StoredIffHeadOrInWindow<D>(run: seq<Logged<D>>, steps: seq<Step<D>>, i: nat, v: nat)
    requires Run(run, steps) && 0 < i < |run| && forall j :: 0 < j <= i ==> run[j].m.nVersions == run[i].m.nVersions
    requires 1 <= v <= run[i].m.version
    ensures v <= |run[i].log| && run[i].log[v - 1].version == v
    ensures (exists e :: e in run[i].m.entries && e.version == v)
       <==> (v == run[i].m.version || InWindow(run[i].log[v - 1], run[i].m.commitCount, run[i].m.nVersions))
  {
    var s := run[i];
    RunRetained(run, steps, i, s.m.nVersions);
    var dropped := |s.log| - |s.m.entries|;
    if v - 1 >= dropped {
      assert s.m.entries[v - 1 - dropped] == s.log[v - 1];
      assert s.m.entries[v - 1 - dropped] in s.m.entries;
    } else {
      forall e | e in s.m.entries ensures e.version > v {
        var k :| 0 <= k < |s.m.entries| && s.m.entries[k] == e;
      }
    }
  }

  // ---- which incarnation a version belongs to ----

  /** The incarnation after some steps: the last one asked for, plus one for each commit since that asked for the next. */
  function IncarnationAfter<D>(steps: seq<Step<D>>): nat {
    if steps == [] then 1
    else
      var before := IncarnationAfter(steps[..|steps| - 1]);
      match steps[|steps| - 1]
      case Configure(count) => before
      case DoCommit(Next, data) => before + 1
      case DoCommit(At(count), data) => count
  }

  /** The auto-obsolete count after some steps. */
  function WindowAfter<D>(steps: seq<Step<D>>): nat {
    if steps == [] then 0
    else
      match steps[|steps| - 1]
      case Configure(count) => count
      case _ => WindowAfter(steps[..|steps| - 1])
  }

  /** The versions made by some steps, each with its incarnation. */
  function VersionsMade<D>(first: D, steps: seq<Step<D>>): seq<Entry<D>> {
    if steps == [] then [Entry(1, 0, first)]
    else
      var before := VersionsMade(first, steps[..|steps| - 1]);
      match steps[|steps| - 1]
      case DoCommit(incarnation, Some(data)) => before + [Entry(|before| + 1, IncarnationAfter(steps), data)]
      case _ => before
  }

  /** In every run the log, the incarnation and the window are what the steps say. */
  lemma {:induction false} RunFollowsSteps<D>(run: seq<Logged<D>>, steps: seq<Step<D>>, i: nat)
    requires Run(run, steps) && i < |run|
    ensures run[i].m.commitCount == IncarnationAfter(steps[..i]) && run[i].m.nVersions == WindowAfter(steps[..i])
    ensures run[i].log == VersionsMade(run[0].log[0].data, steps[..i]) && run[i].m.version == |run[i].log|
  {
    if i > 0 {
      RunFollowsSteps(run, steps, i - 1);
      assert steps[..i][..i - 1] == steps[..i - 1] && steps[..i][i - 1] == steps[i - 1];
      StepIs(run[i - 1], steps[i - 1]);
    }
  }

  /** A step that does not decrease the incarnation changes these three and nothing else of what is logged. */
  lemma StepIs<D>(s: Logged<D>, step: Step<D>)
    requires Enabled(s, step)
    ensures var t := Apply(s, step);
      match step
      case Configure(count) =>
        t.m.commitCount == s.m.commitCount && t.m.nVersions == count && t.m.version == s.m.version && t.log == s.log
      case DoCommit(incarnation, data) =>
        && t.m.commitCount == (if incarnation.Next? then s.m.commitCount + 1 else incarnation.count)
        && t.m.nVersions == s.m.nVersions && t.m.version == s.m.version + (if data.Some? then 1 else 0)
        && t.log == if data.None? then s.log else s.log + [Entry(s.m.version + 1, t.m.commitCount, data.value)]
  {
    hide Obsolete;
  }

  /**
   In every run with one window, what is stored follows from the steps alone: a version is stored if and only if it is
   the last one made, or its incarnation is at most the window behind the last one.
   */
  lemma StoredFollowsSteps<D>(run: seq<Logged<D>>, steps: seq<Step<D>>, i: nat, v: nat)
    requires Run(run, steps) && 0 < i < |run| && forall j :: 0 < j <= i ==> WindowAfter(steps[..j]) == WindowAfter(steps[..i])
    requires 1 <= v <= |VersionsMade(run[0].log[0].data, steps[..i])|
    ensures var made := VersionsMade(run[0].log[0].data, steps[..i]);
      (exists e :: e in run[i].m.entries && e.version == v)
      <==> (v == |made| || made[v - 1].commitCount + WindowAfter(steps[..i]) >= IncarnationAfter(steps[..i]))
  {
    forall j | 0 < j <= i ensures run[j].m.nVersions == run[i].m.nVersions {
      RunFollowsSteps(run, steps, j);
      RunFollowsSteps(run, steps, i);
      assert WindowAfter(steps[..j]) == WindowAfter(steps[..i]);
    }
    RunFollowsSteps(run, steps, i);
    StoredIffHeadOrInWindow(run, steps, i, v);
  }

  /** The window is set once, and then every commit asks for the next incarnation and has data. */
  predicate PlainCommits<D>(steps: seq<Step<D>>, window: nat) {
    && steps != [] && steps[0] == Configure(window)
    && forall j :: 0 < j < |steps| ==> steps[j].DoCommit? && steps[j].incarnation.Next? && steps[j].data.Some?
  }

  lemma {:induction false} PlainVersions<D>(first: D, steps: seq<Step<D>>, window: nat)
    requires PlainCommits(steps, window)
    ensures IncarnationAfter(steps) == |steps| && WindowAfter(steps) == window
    ensures var made := VersionsMade(first, steps);
      && |made| == |steps| && made[0] == Entry(1, 0, first)
      && forall k :: 0 < k < |made| ==> made[k].version == k + 1 && made[k].commitCount == k + 1
    decreases |steps|
  {
    if |steps| == 1 {
      assert steps[..0] == [] && steps == [Configure(window)];
    } else {
      PlainVersions(first, steps[..|steps| - 1], window);
    }
  }

  /** Committing n times the plain way after setting a window: the last version and those at most the window older stay. */
  lemma PlainCommitsStored<D>(run: seq<Logged<D>>, steps: seq<Step<D>>, window: nat, v: nat)
    requires Run(run, steps) && PlainCommits(steps, window) && 1 <= v <= |steps|
    ensures run[|steps|].m.version == |steps|
    ensures v >= 2 ==> ((exists e :: e in run[|steps|].m.entries && e.version == v) <==> v + window >= |steps|)
    ensures v == 1 ==> ((exists e :: e in run[|steps|].m.entries && e.version == v) <==> |steps| == 1 || window >= |steps|)
  {
    var n := |steps|;
    forall j | 0 < j <= n ensures PlainCommits(steps[..j], window) && WindowAfter(steps[..j]) == window {
      PlainVersions(run[0].log[0].data, steps[..j], window);
    }
    assert steps[..n] == steps;
    PlainVersions(run[0].log[0].data, steps, window);
    RunFollowsSteps(run, steps, n);
    StoredFollowsSteps(run, steps, n, v);
  }

  // ---- decreasing incarnations ----

  lemma {:induction false} DropLaterIsPrefix<D>(entries: seq<Entry<D>>, count: nat) returns (k: nat)
    requires entries != []
    ensures 0 < k <= |entries| && DropLater(entries, count) == entries[..k]
    ensures k == 1 || entries[k - 1].commitCount <= count
    ensures forall i :: k <= i < |entries| ==> entries[i].commitCount > count
    decreases |entries|
  {
    k := |entries|;
    if |entries| > 1 && entries[|entries| - 1].commitCount > count {
      k := DropLaterIsPrefix(entries[..|entries| - 1], count);
      assert entries[..|entries| - 1][..k] == entries[..k];
    } else {
      assert entries[..k] == entries;
    }
  }

  /**
   A decreasing incarnation is documented as undefined. The history is consistent afterwards, and with it the whole
   invariant holds, if and only if nothing was dropped or nothing but the oldest entry, itself too new, was left.
   */
  lemma DecreasingIncarnationConsistentIff<D>(m: Master<D>, count: nat)
    requires Inv(m) && count < m.commitCount
    ensures var m' := UpdateCommitCount(m, At(count));
      var kept := m.entries[|m.entries| - 1].commitCount <= count || m.entries[0].commitCount > count;
      (Consecutive(m'.entries, m'.version) <==> kept) && (Inv(m') <==> kept)
  {
    var k := DropLaterIsPrefix(m.entries, count);
    var m' := UpdateCommitCount(m, At(count));
    if k < |m.entries| && m.entries[k - 1].commitCount <= count {
      assert m'.entries[k - 1].version != m'.version;
    }
  }

  /** What a decreasing incarnation leaves: the entries not newer than it, or the oldest one as if from incarnation zero. */
  lemma DecreasingIncarnationLeaves<D>(m: Master<D>, count: nat)
    requires Inv(m) && count < m.commitCount
    ensures var m', oldest := UpdateCommitCount(m, At(count)), m.entries[0];
      && m'.commitCount == count && m'.nVersions == m.nVersions
      && if oldest.commitCount > count then
           m'.entries == [Entry(oldest.version, 0, oldest.data)] && m'.version == oldest.version
         else
           && m'.version == m.version && m'.entries <= m.entries
           && forall i :: 0 <= i < |m.entries| ==> (i < |m'.entries| <==> m.entries[i].commitCount <= count)
  {
    hide DropLater, OnlyWindow;
    var k := DropLaterIsPrefix(m.entries, count);
    var kept := m.entries[..k];
    assert kept[k - 1] == m.entries[k - 1];
    if m.entries[0].commitCount > count {
      assert k == 1;
    } else {
      assert kept[k - 1].commitCount <= count;
      forall i | 0 <= i < |m.entries| ensures i < k <==> m.entries[i].commitCount <= count {
      }
    }
  }

  /**
   A run whose history a decreasing incarnation breaks: after a window of nine and a commit at incarnation five,
   incarnation three drops version 2 but leaves it the head.
   */
  lemma DecreasingIncarnationBreaks()
    ensures var steps := [Configure(9), DoCommit(At(5), Some(()))];
      var run := [Logged(Init(()), Init(()).entries), Apply(Logged(Init(()), Init(()).entries), steps[0]),
                  Apply(Apply(Logged(Init(()), Init(()).entries), steps[0]), steps[1])];
      && Run(run, steps)
      && run[2].m.entries != []
      && UpdateCommitCount(run[2].m, At(3)) == Master([Entry(1, 0, ())], 2, 3, 9)
      && !Consecutive(UpdateCommitCount(run[2].m, At(3)).entries, UpdateCommitCount(run[2].m, At(3)).version)
  {
    var start := Logged(Init(()), Init(()).entries);
    var configured := Apply(start, Configure(9));
    assert configured.m == Master([Entry(1, 0, ())], 1, 1, 9);
    var committed := Apply(configured, DoCommit(At(5), Some(())));
    var entries := [Entry(1, 0, ()), Entry(2, 5, ())];
    assert [Entry(1, 0, ())] + [Entry(2, 5, ())] == entries;
    assert committed.m == Master(entries, 2, 5, 9);
    assert DropLater(entries, 3) == DropLater(entries[..1], 3) == [Entry(1, 0, ())];
  }
}
