/** Start-up of the beacon nodes and the checkpoint quorum (src/providers/multi_beacon_node.py, src/providers/beacon_node.py). */
module BeaconNodes {
  import opened Basics
  import opened Types
  import Args

  // ---------- start-up ----------

  datatype InitOutcome = Ready | TimedOut | SpecMismatch | StillWaiting

  /** One finished run of a node's `_initialize_full`: the spec that the node reported, or `None` when the request failed. */
  datatype Report = Report(host: Host, spec: Option<string>)

  /** One look at the loop condition: the monotonic clock, and the reports that arrive before the next look. */
  datatype Check = Check(clock: real, reports: seq<Report>)

  /** What a node's report is held against: the client's own spec, unless the user waives the comparison. */
  datatype Vetting = Vetting(spec: string, ignoreMismatch: bool)
  {
    predicate Accepts(r: Report) {
      r.spec.Some? && (r.spec.value == spec || ignoreMismatch)
    }
  }

  function Joining(v: Vetting, hosts: set<Host>, reports: seq<Report>): set<Host> {
    set r | r in reports && r.host in hosts && v.Accepts(r) :: r.host
  }

  /** All reports up to and including those after the last of the looks. */
  function Reports(first: seq<Report>, checks: seq<Check>): seq<Report> {
    if checks == [] then first else Reports(first, checks[..|checks| - 1]) + checks[|checks| - 1].reports
  }

  lemma JoiningMore(v: Vetting, hosts: set<Host>, reports: seq<Report>, more: seq<Report>)
    ensures Joining(v, hosts, reports + more) == Joining(v, hosts, reports) + Joining(v, hosts, more)
  {
  }

  /** The nodes initialized at look number `n`, counting from zero. */
  ghost function UpAt(c: Args.Config, v: Vetting, base: set<Host>, first: seq<Report>, checks: seq<Check>, n: nat): set<Host>
    requires n <= |checks|
  {
    base + Joining(v, Elements(c.hosts), Reports(first, checks[..n]))
  }

  lemma {:induction false} ReportedIff(first: seq<Report>, checks: seq<Check>, r: Report)
    ensures r in Reports(first, checks) <==> r in first || exists i :: 0 <= i < |checks| && r in checks[i].reports
  {
    if checks != [] {
      var n := |checks| - 1;
      ReportedIff(first, checks[..n], r);
      assert forall i :: 0 <= i < n ==> checks[..n][i] == checks[i];
    }
  }

  /** One of the reports so far says that the host's spec could be fetched, and is the client's unless mismatches are ignored. */
  ghost predicate Joined(v: Vetting, first: seq<Report>, checks: seq<Check>, n: nat, h: Host)
    requires n <= |checks|
  {
    exists r: Report ::
      && (r in first || exists i :: 0 <= i < n && r in checks[i].reports)
      && r.host == h && r.spec.Some? && (v.ignoreMismatch || r.spec.value == v.spec)
  }

  /** A configured node is up at a look exactly when it was before, or has joined by one of the reports so far. */
  lemma UpIff(c: Args.Config, v: Vetting, base: set<Host>, first: seq<Report>, checks: seq<Check>, n: nat, h: Host)
    requires n <= |checks|
    ensures h in UpAt(c, v, base, first, checks, n) <==> h in base || (h in c.hosts && Joined(v, first, checks, n, h))
  {
    forall r ensures r in Reports(first, checks[..n]) <==> r in first || exists i :: 0 <= i < n && r in checks[i].reports {
      ReportedIff(first, checks[..n], r);
      assert forall i :: 0 <= i < n ==> checks[..n][i] == checks[i];
    }
  }

  lemma UpStep(c: Args.Config, v: Vetting, base: set<Host>, first: seq<Report>, checks: seq<Check>, n: nat)
    requires n < |checks|
    ensures UpAt(c, v, base, first, checks, n + 1)
         == UpAt(c, v, base, first, checks, n) + Joining(v, Elements(c.hosts), checks[n].reports)
  {
    assert checks[..n + 1][..n] == checks[..n];
    JoiningMore(v, Elements(c.hosts), Reports(first, checks[..n]), checks[n].reports);
  }

  /** The loop condition held, and the deadline had not passed, at each of the first `n` looks. */
  ghost predicate WaitedFor(
    c: Args.Config, v: Vetting, base: set<Host>, deadline: real, first: seq<Report>, checks: seq<Check>, n: nat)
    requires n <= |checks|
  {
    forall i :: 0 <= i < n ==> |UpAt(c, v, base, first, checks, i)| < c.threshold && checks[i].clock < deadline
  }

  /** The waiting loop stopped at look number `n`, and not before, with this outcome. */
  ghost predicate Stopped(
    c: Args.Config, v: Vetting, base: set<Host>, deadline: real, first: seq<Report>, checks: seq<Check>, n: nat,
    outcome: InitOutcome)
    requires n <= |checks|
  {
    && WaitedFor(c, v, base, deadline, first, checks, n)
    && match outcome {
         case Ready => |UpAt(c, v, base, first, checks, n)| >= c.threshold
         case TimedOut => |UpAt(c, v, base, first, checks, n)| < c.threshold && n < |checks| && checks[n].clock >= deadline
         case StillWaiting => |UpAt(c, v, base, first, checks, n)| < c.threshold && n == |checks|
         case SpecMismatch => false
       }
  }

  /** One of the reports of this node named exactly this spec. */
  ghost predicate Reported(reports: seq<Report>, host: Host, spec: string) {
    Report(host, Some(spec)) in reports
  }

  /** Each of the hosts reported the client's spec. */
  ghost predicate AllReported(reports: seq<Report>, hosts: set<Host>, spec: string) {
    forall h :: h in hosts ==> Reported(reports, h, spec)
  }

  /** However start-up goes: once it is ready, every initialized node has reported the client's own spec. */
  ghost predicate ReadyMeansSameSpec(c: Args.Config, v: Vetting) {
    forall deadline, first, checks, n: nat ::
      n <= |checks| && Stopped(c, v, {}, deadline, first, checks, n, Ready)
      ==> AllReported(Reports(first, checks[..n]), UpAt(c, v, {}, first, checks, n), v.spec)
  }

  /** That holds if and only if the comparison is not waived: nothing later looks at what the nodes reported. */
  lemma ReadyMeansSameSpecIff(c: Args.Config, v: Vetting)
    requires Args.Sound(c)
    ensures ReadyMeansSameSpec(c, v) <==> !v.ignoreMismatch
  {
    if v.ignoreMismatch {
      ForeignSpecsAreReady(c, v);
    }
  }

  function AllReport(hosts: seq<Host>, spec: string): (reports: seq<Report>)
    ensures forall r :: r in reports ==> r.spec == Some(spec)
  {
    seq(|hosts|, i requires 0 <= i < |hosts| => Report(hosts[i], Some(spec)))
  }

  lemma AllJoin(hosts: seq<Host>, v: Vetting, spec: string)
    requires v.ignoreMismatch
    ensures Joining(v, Elements(hosts), AllReport(hosts, spec)) == Elements(hosts)
  {
    var reports := AllReport(hosts, spec);
    forall h | h in hosts ensures h in Joining(v, Elements(hosts), reports) {
      var i :| 0 <= i < |hosts| && hosts[i] == h;
      assert reports[i] in reports && reports[i].host == h;
    }
  }

  /** With the comparison waived the client is ready with nodes that all report another spec. */
  lemma ForeignSpecsAreReady(c: Args.Config, v: Vetting)
    requires Args.Sound(c) && v.ignoreMismatch
    ensures !ReadyMeansSameSpec(c, v)
  {
    var other := v.spec + "*";
    var first, checks: seq<Check> := AllReport(c.hosts, other), [];
    AllJoin(c.hosts, v, other);
    DistinctIffSetAsLarge(c.hosts);
    assert checks[..0] == [] && Reports(first, checks[..0]) == first;
    assert UpAt(c, v, {}, first, checks, 0) == Elements(c.hosts);
    assert Stopped(c, v, {}, 0.0, first, checks, 0, Ready);
    assert c.hosts[0] in Elements(c.hosts);
    assert !Reported(first, c.hosts[0], v.spec) by {
      assert |other| != |v.spec|;
    }
    assert !AllReported(Reports(first, checks[..0]), UpAt(c, v, {}, first, checks, 0), v.spec);
  }

  class MultiBeaconNode {
    const config: Args.Config
    const vetting: Vetting
    var initialized: set<Host>

    constructor (config: Args.Config, vetting: Vetting)
      ensures this.config == config && this.vetting == vetting && initialized == {}
    {
      this.config := config;
      this.vetting := vetting;
      initialized := {};
    }

    /** A node's `_initialize_full` ended; unless it failed, its flag is set, and nothing in the client ever clears it. */
    method InitializeFull(report: Report) returns (ok: bool)
      modifies this
      ensures ok <==> report.spec.Some? && (report.spec == Some(vetting.spec) || vetting.ignoreMismatch)
      ensures initialized == old(initialized) + if ok && report.host in config.hosts then {report.host} else {}
      ensures initialized == old(initialized) + Joining(vetting, Elements(config.hosts), [report])
    {
      assert report in [report];
      ok := false;
      if report.spec.None? {
        return;
      }
      if vetting.spec != report.spec.value && !vetting.ignoreMismatch {
        return;
      }
      ok := true;
      if report.host in config.hosts {
        initialized := initialized + {report.host};
      }
    }

    method InitializeAll(reports: seq<Report>)
      modifies this
      ensures initialized == old(initialized) + Joining(vetting, Elements(config.hosts), reports)
    {
      for i := 0 to |reports|
        invariant initialized == old(initialized) + Joining(vetting, Elements(config.hosts), reports[..i])
      {
        var _ := InitializeFull(reports[i]);
        JoiningMore(vetting, Elements(config.hosts), reports[..i], [reports[i]]);
        assert reports[..i + 1] == reports[..i] + [reports[i]];
      }
      assert reports[..|reports|] == reports;
    }

    /** The waiting loop of `initialize`: enough nodes, or the deadline passes first. */
    method AwaitThreshold(deadline: real, checks: seq<Check>, ghost base: set<Host>, ghost first: seq<Report>)
      returns (outcome: InitOutcome, looks: nat)
      requires initialized == base + Joining(vetting, Elements(config.hosts), first)
      modifies this
      ensures looks <= |checks| && initialized == UpAt(config, vetting, base, first, checks, looks)
      ensures Stopped(config, vetting, base, deadline, first, checks, looks, outcome)
    {
      looks := 0;
      while |initialized| < config.threshold
        invariant looks <= |checks|
        invariant initialized == UpAt(config, vetting, base, first, checks, looks)
        invariant WaitedFor(config, vetting, base, deadline, first, checks, looks)
        decreases |checks| - looks
      {
        if looks == |checks| {
          return StillWaiting, looks;
        }
        if checks[looks].clock >= deadline {
          return TimedOut, looks;
        }
        InitializeAll(checks[looks].reports);
        UpStep(config, vetting, base, first, checks, looks);
        looks := looks + 1;
      }
      return Ready, looks;
    }

    /**
     `initialize`: `first` are the reports of the initial round, `checks` what the waiting loop observes. The comparison
     at the end is between the copies of the client's spec that the node objects hold, so it cannot fail.
     */
    method Initialize(skipInit: bool, deadline: real, first: seq<Report>, checks: seq<Check>)
      returns (outcome: InitOutcome, looks: nat)
      requires Args.Sound(config) && initialized <= Elements(config.hosts)
      modifies this
      ensures looks <= |checks|
      ensures old(initialized) <= initialized <= Elements(config.hosts)
      ensures skipInit ==> outcome == Ready && initialized == Elements(config.hosts)
      ensures !skipInit ==> initialized == UpAt(config, vetting, old(initialized), first, checks, looks)
      ensures !skipInit ==> Stopped(config, vetting, old(initialized), deadline, first, checks, looks, outcome)
      ensures outcome == Ready ==> config.threshold <= |initialized|
      ensures outcome != SpecMismatch
      ensures !skipInit && !vetting.ignoreMismatch ==>
                AllReported(Reports(first, checks[..looks]), initialized - old(initialized), vetting.spec)
    {
      if skipInit {
        DistinctIffSetAsLarge(config.hosts);
        initialized := Elements(config.hosts);
        return Ready, 0;
      }
      InitializeAll(first);
      outcome, looks := AwaitThreshold(deadline, checks, old(initialized), first);
      if outcome == Ready {
        var specs := set h | h in initialized :: vetting.spec;
        assert initialized != {} && specs == {vetting.spec};
        if |specs| != 1 {
          return SpecMismatch, looks;
        }
      }
    }
  }

  // ---------- wait_for_checkpoints ----------

  /** One finished request of the polling loop of the node at index `node`; `None` for a failed one. */
  datatype Poll = Poll(node: nat, answer: Option<AttestationData>)

  predicate Confirms(answer: Option<AttestationData>, source: Checkpoint, target: Checkpoint) {
    answer.Some? && answer.value.source == source && answer.value.target == target
  }

  /** The nodes that answered with both checkpoints at least once. */
  ghost function Confirmers(polls: seq<Poll>, nodes: seq<Host>, source: Checkpoint, target: Checkpoint): set<nat> {
    if polls == [] then {}
    else
      var before, last := Confirmers(polls[..|polls| - 1], nodes, source, target), polls[|polls| - 1];
      if last.node < |nodes| && Confirms(last.answer, source, target) then before + {last.node} else before
  }

  lemma {:induction false} ConfirmersConfirm(polls: seq<Poll>, nodes: seq<Host>, source: Checkpoint, target: Checkpoint)
    ensures forall i :: i in Confirmers(polls, nodes, source, target) <==>
              i < |nodes| && exists p :: p in polls && p.node == i && p.answer.Some?
                                         && p.answer.value.source == source && p.answer.value.target == target
  {
    if polls != [] {
      var init, last := polls[..|polls| - 1], polls[|polls| - 1];
      assert polls == init + [last];
      ConfirmersConfirm(init, nodes, source, target);
    }
  }

  ghost function HostsAt(nodes: seq<Host>, indices: set<nat>): set<Host> {
    set i | i in indices && i < |nodes| :: nodes[i]
  }

  lemma {:induction false} HostsAtSize(nodes: seq<Host>, indices: set<nat>)
    requires Distinct(nodes) && forall i :: i in indices ==> i < |nodes|
    ensures |HostsAt(nodes, indices)| == |indices|
    decreases |indices|
  {
    if indices == {} {
      assert HostsAt(nodes, indices) == {};
    } else {
      var i :| i in indices;
      HostsAtSize(nodes, indices - {i});
      assert HostsAt(nodes, indices) == HostsAt(nodes, indices - {i}) + {nodes[i]};
    }
  }

  ghost function Indices(n: nat): (r: set<nat>)
    ensures |r| == n
    ensures forall i :: i in r <==> 0 <= i < n
  {
    if n == 0 then {} else Indices(n - 1) + {n - 1}
  }

  lemma {:induction false} ConfirmersGrow(polls: seq<Poll>, n: nat, nodes: seq<Host>, source: Checkpoint, target: Checkpoint)
    requires n <= |polls|
    ensures Confirmers(polls[..n], nodes, source, target) <= Confirmers(polls, nodes, source, target)
    ensures |Confirmers(polls[..n], nodes, source, target)| <= |Confirmers(polls, nodes, source, target)|
  {
    if n < |polls| {
      var init := polls[..|polls| - 1];
      assert init[..n] == polls[..n];
      ConfirmersGrow(init, n, nodes, source, target);
      SubsetSize(Confirmers(polls[..n], nodes, source, target), Confirmers(polls, nodes, source, target));
    } else {
      assert polls[..n] == polls;
    }
  }

  ghost predicate NoQuorumUpTo(polls: seq<Poll>, used: nat, goal: int, nodes: seq<Host>, source: Checkpoint, target: Checkpoint)
    requires used <= |polls|
  {
    forall k :: 0 <= k <= used ==> |Confirmers(polls[..k], nodes, source, target)| < goal
  }

  /** The quorum is complete with poll number `used`, and was not before. */
  ghost predicate QuorumAt(polls: seq<Poll>, used: nat, goal: int, nodes: seq<Host>, source: Checkpoint, target: Checkpoint) {
    && used <= |polls|
    && |Confirmers(polls[..used], nodes, source, target)| == goal
    && (used > 0 ==> NoQuorumUpTo(polls, used - 1, goal, nodes, source, target))
  }

  /** The polling loop of a node ends with its first confirmation; later polls of it would not count again. */
  lemma PollStep(polls: seq<Poll>, used: nat, nodes: seq<Host>, source: Checkpoint, target: Checkpoint)
    requires used < |polls|
    ensures var before, after := Confirmers(polls[..used], nodes, source, target), Confirmers(polls[..used + 1], nodes, source, target);
            var poll := polls[used];
            if poll.node < |nodes| && poll.node !in before && Confirms(poll.answer, source, target)
            then after == before + {poll.node} && |after| == |before| + 1
            else after == before
  {
    assert polls[..used + 1][..used] == polls[..used];
  }

  /**
   One polling loop per node; each ends with its node's first confirmation. The call returns as soon as `threshold`
   loops have ended, or when every loop has ended without reaching it; `done` is false while it is still waiting.
   */
  method WaitForCheckpoints(
    nodes: seq<Host>, threshold: nat, polls: seq<Poll>, source: Checkpoint, target: Checkpoint)
    returns (done: bool, used: nat)
    requires threshold >= 1 && Distinct(nodes)
    ensures used <= |polls|
    ensures done ==> QuorumAt(polls, used, Min(threshold, |nodes|), nodes, source, target)
    ensures !done ==> used == |polls| && NoQuorumUpTo(polls, used, Min(threshold, |nodes|), nodes, source, target)
  {
    used := 0;
    var ended: set<nat> := {};
    var confirmations := 0;
    if |nodes| == 0 {
      return true, 0;
    }
    ghost var goal := Min(threshold, |nodes|);
    while used < |polls|
      invariant 0 <= used <= |polls|
      invariant ended == Confirmers(polls[..used], nodes, source, target)
      invariant confirmations == |ended| < goal
      invariant NoQuorumUpTo(polls, used, goal, nodes, source, target)
    {
      var poll := polls[used];
      PollStep(polls, used, nodes, source, target);
      used := used + 1;
      if poll.node < |nodes| && poll.node !in ended && Confirms(poll.answer, source, target) {
        ended := ended + {poll.node};
        confirmations := confirmations + 1;
        if confirmations >= threshold || confirmations == |nodes| {
          return true, used;
        }
      }
    }
    return false, used;
  }

  /**
   A normal return is a confirmation by a threshold of distinct hosts exactly because enough nodes were polled:
   with fewer nodes than the threshold the loop runs out and the call returns all the same.
   */
  lemma CheckpointQuorumIff(nodes: seq<Host>, threshold: nat)
    requires threshold >= 1 && Distinct(nodes)
    ensures (forall polls, used: nat, source, target ::
               QuorumAt(polls, used, Min(threshold, |nodes|), nodes, source, target)
               ==> |HostsAt(nodes, Confirmers(polls[..used], nodes, source, target))| >= threshold)
            <==> threshold <= |nodes|
  {
    if threshold <= |nodes| {
      forall polls, used: nat, source, target | QuorumAt(polls, used, Min(threshold, |nodes|), nodes, source, target)
        ensures |HostsAt(nodes, Confirmers(polls[..used], nodes, source, target))| >= threshold
      {
        ConfirmersConfirm(polls[..used], nodes, source, target);
        HostsAtSize(nodes, Confirmers(polls[..used], nodes, source, target));
      }
    } else {
      var cp := Checkpoint(0, "");
      var polls := EveryoneConfirms(|nodes|, cp);
      forall k | 0 <= k <= |nodes| ensures |Confirmers(polls[..k], nodes, cp, cp)| == k {
        EveryoneConfirmsUpTo(nodes, |nodes|, k, cp);
      }
      EveryoneConfirmsUpTo(nodes, |nodes|, |nodes|, cp);
      HostsAtSize(nodes, Confirmers(polls[..|polls|], nodes, cp, cp));
      assert QuorumAt(polls, |polls|, Min(threshold, |nodes|), nodes, cp, cp);
    }
  }

  /** Each node confirms in turn. */
  ghost function EveryoneConfirms(n: nat, cp: Checkpoint): (polls: seq<Poll>)
    ensures |polls| == n
  {
    if n == 0 then [] else EveryoneConfirms(n - 1, cp) + [Poll(n - 1, Some(AttestationData(0, 0, "", cp, cp)))]
  }

  lemma {:induction false} EveryoneConfirmsUpTo(nodes: seq<Host>, n: nat, k: nat, cp: Checkpoint)
    requires k <= n <= |nodes|
    ensures Confirmers(EveryoneConfirms(n, cp)[..k], nodes, cp, cp) == Indices(k)
  {
    var polls := EveryoneConfirms(n, cp);
    if k < n {
      assert polls[..k] == EveryoneConfirms(n - 1, cp)[..k];
      EveryoneConfirmsUpTo(nodes, n - 1, k, cp);
    } else if n > 0 {
      assert polls[..k] == polls;
      assert polls[..|polls| - 1] == EveryoneConfirms(n - 1, cp)[..n - 1];
      EveryoneConfirmsUpTo(nodes, n - 1, n - 1, cp);
    }
  }
}
