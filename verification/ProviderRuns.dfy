/**
 Every run of the attestation data provider: any number of its coroutines, the nodes' answers in any order,
 timeouts, cancellations, prunings and late node start-ups, interleaved arbitrarily
 (src/providers/attestation_data_provider.py, src/providers/multi_beacon_node.py).
 */
module ProviderRuns {
  import opened Basics
  import opened Types
  import opened Consensus
  import opened AttestationDataProvider

  /** A node's successful answer to some request of the provider. */
  datatype Given = Given(host: Host, data: AttestationData)

  datatype Call = Call(head: Option<Root>, task: Task)

  datatype Delivery = Delivery(id: nat, head: Option<Root>, data: AttestationData, how: How)

  /** The provider and its suspended calls, with the answers given and the data returned so far as history. */
  datatype State = State(
    caches: ConfirmationCaches,
    calls: map<nat, Call>,
    configured: set<Host>,
    ready: set<Host>,
    answers: set<Given>,
    returned: seq<Delivery>)

  datatype Event =
    | Begin(id: nat, head: Option<Root>)
    | Answered(id: nat, host: Host, data: AttestationData)
    | Timeout(id: nat)
    | Cancel(id: nat)
    | Prune
    | NodeReady(host: Host)

  function Initial(configured: set<Host>, ready: set<Host>): State {
    State(ConfirmationCaches(map[], map[]), map[], configured, ready, {}, [])
  }

  function Answer(threshold: nat, s: State, id: nat, host: Host, data: AttestationData): State
    requires id in s.calls
  {
    var call := s.calls[id];
    var heard := s.(answers := s.answers + {Given(host, data)});
    var (caches, progress) := Resumed(threshold, s.caches, s.ready, call.task, host, data);
    match progress
    case Suspended(task) => heard.(caches := caches, calls := s.calls[id := call.(task := task)])
    case Returned(result, how) =>
      heard.(caches := caches, calls := s.calls - {id},
             returned := s.returned + [Delivery(id, call.head, result, how)])
  }

  /** One step; an event that does not apply (an unknown call, a node that is not up) changes nothing. */
  function Step(threshold: nat, s: State, e: Event): State {
    match e
    case Begin(id, head) =>
      if id in s.calls then s else s.(calls := s.calls[id := Call(head, Started(head, s.ready))])
    case Answered(id, host, data) =>
      if id in s.calls && host in s.ready then Answer(threshold, s, id, host, data) else s
    case Timeout(id) =>
      if id in s.calls then s.(calls := s.calls[id := s.calls[id].(task := TimedOut(s.calls[id].task))]) else s
    case Cancel(id) => s.(calls := s.calls - {id})
    case Prune => s.(caches := Pruned(s.caches))
    case NodeReady(host) => if host in s.configured then s.(ready := s.ready + {host}) else s
  }

  function Run(threshold: nat, s: State, es: seq<Event>): State {
    if es == [] then s else Step(threshold, Run(threshold, s, es[..|es| - 1]), es[|es| - 1])
  }

  // ---------- who vouched for what ----------

  ghost function SourceVouchers(answers: set<Given>, cp: Checkpoint): set<Host> {
    set a | a in answers && a.data.source == cp :: a.host
  }

  ghost function TargetVouchers(answers: set<Given>, cp: Checkpoint): set<Host> {
    set a | a in answers && a.data.target == cp :: a.host
  }

  ghost function PairVouchers(answers: set<Given>, source: Checkpoint, target: Checkpoint): set<Host> {
    set a | a in answers && a.data.source == source && a.data.target == target :: a.host
  }

  ghost function DataVouchers(answers: set<Given>, data: AttestationData): set<Host> {
    set a | a in answers && a.data == data :: a.host
  }

  /** What has been checked about returned data, path by path. */
  ghost predicate Justified(threshold: nat, answers: set<Given>, d: Delivery) {
    && |SourceVouchers(answers, d.data.source)| >= threshold
    && |TargetVouchers(answers, d.data.target)| >= threshold
    && (exists h :: Given(h, d.data) in answers)
    && match d.how {
         case FromCache => d.head == Some(d.data.blockRoot)
         case FromCheckpoints =>
           && d.head == Some(d.data.blockRoot)
           && |PairVouchers(answers, d.data.source, d.data.target)| >= threshold
         case FromConsensus => |DataVouchers(answers, d.data)| >= threshold
       }
  }

  lemma VouchersGrow(before: set<Given>, after: set<Given>, source: Checkpoint, target: Checkpoint, data: AttestationData)
    requires before <= after
    ensures |SourceVouchers(before, source)| <= |SourceVouchers(after, source)|
    ensures |TargetVouchers(before, target)| <= |TargetVouchers(after, target)|
    ensures |PairVouchers(before, source, target)| <= |PairVouchers(after, source, target)|
    ensures |DataVouchers(before, data)| <= |DataVouchers(after, data)|
  {
    SubsetSize(SourceVouchers(before, source), SourceVouchers(after, source));
    SubsetSize(TargetVouchers(before, target), TargetVouchers(after, target));
    SubsetSize(PairVouchers(before, source, target), PairVouchers(after, source, target));
    SubsetSize(DataVouchers(before, data), DataVouchers(after, data));
  }

  lemma JustifiedForever(threshold: nat, before: set<Given>, after: set<Given>, d: Delivery)
    requires before <= after && Justified(threshold, before, d)
    ensures Justified(threshold, after, d)
  {
    VouchersGrow(before, after, d.data.source, d.data.target, d.data);
  }

  // ---------- the invariant ----------

  ghost predicate CachesVouched(threshold: nat, c: ConfirmationCaches, answers: set<Given>) {
    && (forall e :: e in c.source ==> c.source[e].epoch == e && |SourceVouchers(answers, c.source[e])| >= threshold)
    && (forall e :: e in c.target ==> c.target[e].epoch == e && |TargetVouchers(answers, c.target[e])| >= threshold)
  }

  ghost predicate CallVouched(threshold: nat, c: Call, answers: set<Given>) {
    match c.task
    case AwaitingHead(root, nodes) => c.head == Some(root)
    case Confirming(root, data, nodes, confirmed) =>
      && c.head == Some(root) && data.blockRoot == root
      && (exists h :: Given(h, data) in answers)
      && confirmed <= nodes && |nodes| >= threshold && (threshold >= 1 ==> |confirmed| < threshold)
      && confirmed <= PairVouchers(answers, data.source, data.target)
    case Polling(tally) =>
      && Exact(tally) && Unfinished(threshold, tally)
      && forall h :: h in tally.latest ==> Given(h, tally.latest[h]) in answers
  }

  ghost predicate Unfinished(threshold: nat, tally: Tally) {
    forall d :: |Backers(tally.latest, d)| < threshold
  }

  lemma NothingHeard(threshold: nat)
    requires threshold >= 1
    ensures Exact(EMPTY_TALLY) && Unfinished(threshold, EMPTY_TALLY)
  {
    assert forall d :: Backers(map[], d) == {};
  }

  /** An answer that ends no call leaves every value short of the threshold. */
  lemma StaysUnfinished(threshold: nat, tally: Tally, host: Host, data: AttestationData)
    requires Exact(tally) && Unfinished(threshold, tally)
    requires var after := Receive(tally, host, data); after == tally || Count(after.counter, data) < threshold
    ensures Unfinished(threshold, Receive(tally, host, data))
  {
    var after := Receive(tally, host, data);
    ReceiveStaysExact(tally, host, data);
    forall d ensures |Backers(after.latest, d)| < threshold {
      BackersAfterAnswer(tally.latest, host, data, d);
      assert Count(after.counter, d) == |Backers(after.latest, d)|;
    }
  }

  ghost predicate Inv(threshold: nat, s: State) {
    && 1 <= threshold <= |s.ready|
    && s.ready <= s.configured
    && (forall a :: a in s.answers ==> a.host in s.configured)
    && CachesVouched(threshold, s.caches, s.answers)
    && (forall id :: id in s.calls ==> CallVouched(threshold, s.calls[id], s.answers))
    && (forall i :: 0 <= i < |s.returned| ==> Justified(threshold, s.answers, s.returned[i]))
  }

  lemma HearingKeepsInv(threshold: nat, s: State, g: Given)
    requires Inv(threshold, s) && g.host in s.configured
    ensures Inv(threshold, s.(answers := s.answers + {g}))
  {
    var after := s.answers + {g};
    forall e | e in s.caches.source ensures |SourceVouchers(after, s.caches.source[e])| >= threshold {
      SubsetSize(SourceVouchers(s.answers, s.caches.source[e]), SourceVouchers(after, s.caches.source[e]));
    }
    forall e | e in s.caches.target ensures |TargetVouchers(after, s.caches.target[e])| >= threshold {
      SubsetSize(TargetVouchers(s.answers, s.caches.target[e]), TargetVouchers(after, s.caches.target[e]));
    }
    forall id | id in s.calls ensures CallVouched(threshold, s.calls[id], after) {
      assert CallVouched(threshold, s.calls[id], s.answers);
    }
    forall i | 0 <= i < |s.returned| ensures Justified(threshold, after, s.returned[i]) {
      JustifiedForever(threshold, s.answers, after, s.returned[i]);
    }
  }

  lemma PairIsSourceAndTarget(answers: set<Given>, source: Checkpoint, target: Checkpoint)
    ensures |PairVouchers(answers, source, target)| <= |SourceVouchers(answers, source)|
    ensures |PairVouchers(answers, source, target)| <= |TargetVouchers(answers, target)|
  {
    SubsetSize(PairVouchers(answers, source, target), SourceVouchers(answers, source));
    SubsetSize(PairVouchers(answers, source, target), TargetVouchers(answers, target));
  }

  lemma RememberVouched(threshold: nat, c: ConfirmationCaches, answers: set<Given>, source: Checkpoint, target: Checkpoint)
    requires CachesVouched(threshold, c, answers)
    requires |PairVouchers(answers, source, target)| >= threshold
    ensures CachesVouched(threshold, Remember(c, source, target), answers)
  {
    PairIsSourceAndTarget(answers, source, target);
  }

  /** Enough backers in the tally are enough hosts that gave exactly this data. */
  lemma BackersVouch(tally: Tally, answers: set<Given>, data: AttestationData)
    requires Exact(tally) && forall h :: h in tally.latest ==> Given(h, tally.latest[h]) in answers
    ensures Count(tally.counter, data) <= |DataVouchers(answers, data)|
    ensures |DataVouchers(answers, data)| <= |PairVouchers(answers, data.source, data.target)|
  {
    var backers := Backers(tally.latest, data);
    forall h | h in backers ensures h in DataVouchers(answers, data) {
      assert Given(h, data) in answers;
    }
    SubsetSize(backers, DataVouchers(answers, data));
    SubsetSize(DataVouchers(answers, data), PairVouchers(answers, data.source, data.target));
  }

  ghost predicate ProgressVouched(threshold: nat, id: nat, head: Option<Root>, p: Progress, answers: set<Given>) {
    match p
    case Suspended(task) => CallVouched(threshold, Call(head, task), answers)
    case Returned(data, how) => Justified(threshold, answers, Delivery(id, head, data, how))
  }

  /** The heart of the safety argument: one answer either leaves a vouched coroutine suspended or returns justified data. */
  lemma ResumedVouched(
    threshold: nat, c: ConfirmationCaches, ready: set<Host>, id: nat, call: Call, host: Host, data: AttestationData,
    answers: set<Given>)
    requires threshold <= |ready|
    requires CachesVouched(threshold, c, answers) && CallVouched(threshold, call, answers)
    requires Given(host, data) in answers
    ensures var (caches, progress) := Resumed(threshold, c, ready, call.task, host, data);
            CachesVouched(threshold, caches, answers) && ProgressVouched(threshold, id, call.head, progress, answers)
  {
    match call.task
    case AwaitingHead(root, nodes) =>
    case Confirming(root, wanted, nodes, confirmed) =>
      if host in nodes && host !in confirmed && data.source == wanted.source && data.target == wanted.target {
        var now := confirmed + {host};
        assert Given(host, data).host in PairVouchers(answers, wanted.source, wanted.target);
        SubsetSize(now, PairVouchers(answers, wanted.source, wanted.target));
        if |now| >= threshold || now == nodes {
          RememberVouched(threshold, c, answers, wanted.source, wanted.target);
          PairIsSourceAndTarget(answers, wanted.source, wanted.target);
        }
      }
    case Polling(tally) =>
      var after := Receive(tally, host, data);
      ReceiveStaysExact(tally, host, data);
      if after != tally && Count(after.counter, data) >= threshold {
        BackersVouch(after, answers, data);
        RememberVouched(threshold, c, answers, data.source, data.target);
        PairIsSourceAndTarget(answers, data.source, data.target);
      } else {
        StaysUnfinished(threshold, tally, host, data);
      }
  }

  /** The answer that ends a call: enough hosts now back its value, or confirm the checkpoints, or the caches do already. */
  ghost predicate Completes(threshold: nat, c: ConfirmationCaches, task: Task, host: Host, data: AttestationData) {
    match task
    case AwaitingHead(root, nodes) => host in nodes && data.blockRoot == root && Confirmed(c, data.source, data.target)
    case Confirming(root, wanted, nodes, confirmed) =>
      && host in nodes && host !in confirmed
      && data.source == wanted.source && data.target == wanted.target
      && |confirmed| + 1 >= threshold
    case Polling(tally) =>
      && !(host in tally.latest && tally.latest[host] == data)
      && |Backers(tally.latest[host := data], data)| >= threshold
  }

  /** A call returns exactly with the answer that completes it, and running out of nodes to ask never makes it return. */
  lemma ReturnsIff(
    threshold: nat, c: ConfirmationCaches, ready: set<Host>, call: Call, host: Host, data: AttestationData,
    answers: set<Given>)
    requires CallVouched(threshold, call, answers)
    ensures Resumed(threshold, c, ready, call.task, host, data).1.Returned? <==> Completes(threshold, c, call.task, host, data)
  {
    match call.task
    case AwaitingHead(root, nodes) =>
    case Confirming(root, wanted, nodes, confirmed) =>
    case Polling(tally) =>
      ReceiveStaysExact(tally, host, data);
  }

  lemma PruneKeepsVouched(threshold: nat, c: ConfirmationCaches, answers: set<Given>)
    requires CachesVouched(threshold, c, answers)
    ensures CachesVouched(threshold, Pruned(c), answers)
  {
    KeepNewestKeepsNewest(c.source, 3);
    KeepNewestKeepsNewest(c.target, 3);
  }

  lemma StepKeepsInv(threshold: nat, s: State, e: Event)
    requires Inv(threshold, s)
    ensures Inv(threshold, Step(threshold, s, e))
    ensures s.answers <= Step(threshold, s, e).answers && s.ready <= Step(threshold, s, e).ready
    ensures Step(threshold, s, e).configured == s.configured
    ensures s.returned <= Step(threshold, s, e).returned
  {
    match e
    case Begin(id, head) =>
      NothingHeard(threshold);
    case Answered(id, host, data) =>
      if id in s.calls && host in s.ready {
        var heard := s.(answers := s.answers + {Given(host, data)});
        HearingKeepsInv(threshold, s, Given(host, data));
        ResumedVouched(threshold, s.caches, s.ready, id, s.calls[id], host, data, heard.answers);
      }
    case Timeout(id) =>
      NothingHeard(threshold);
    case Cancel(id) =>
    case Prune =>
      PruneKeepsVouched(threshold, s.caches, s.answers);
    case NodeReady(host) =>
      SubsetSize(s.ready, s.ready + {host});
  }

  /** In every run, everything the provider returns has been vouched for by a threshold of distinct nodes. */
  lemma {:induction false} RunKeepsInv(threshold: nat, s: State, es: seq<Event>)
    requires Inv(threshold, s)
    ensures Inv(threshold, Run(threshold, s, es))
    ensures s.returned <= Run(threshold, s, es).returned && s.ready <= Run(threshold, s, es).ready
  {
    if es != [] {
      RunKeepsInv(threshold, s, es[..|es| - 1]);
      StepKeepsInv(threshold, Run(threshold, s, es[..|es| - 1]), es[|es| - 1]);
    }
  }

  lemma InitialInv(threshold: nat, configured: set<Host>, ready: set<Host>)
    requires 1 <= threshold <= |ready| && ready <= configured
    ensures Inv(threshold, Initial(configured, ready))
  {
  }

  /** Calls keep their head event until they end, and a step ends at most one call with at most one result. */
  lemma StepReturnsAtMostOnce(threshold: nat, s: State, e: Event)
    requires !e.Begin?
    ensures var after := Step(threshold, s, e);
            && after.calls.Keys <= s.calls.Keys
            && (forall id :: id in after.calls ==> after.calls[id].head == s.calls[id].head)
            && s.answers <= after.answers
            && (after.returned == s.returned
                || (|after.returned| == |s.returned| + 1
                    && var d := after.returned[|s.returned|];
                       d.id in s.calls && d.id !in after.calls && d.head == s.calls[d.id].head))
  {
  }

  lemma RunStep(threshold: nat, s: State, es: seq<Event>, e: Event)
    ensures Run(threshold, s, es + [e]) == Step(threshold, Run(threshold, s, es), e)
  {
  }

  lemma {:induction false} RunAppend(threshold: nat, s: State, first: seq<Event>, second: seq<Event>)
    ensures Run(threshold, s, first + second) == Run(threshold, Run(threshold, s, first), second)
  {
    if second == [] {
      assert first + second == first;
    } else {
      var init, last := second[..|second| - 1], second[|second| - 1];
      assert first + second == (first + init) + [last] && second == init + [last];
      RunAppend(threshold, s, first, init);
      RunStep(threshold, s, first + init, last);
    }
  }

  // ---------- a call ends once a threshold agrees ----------

  function AnswersFrom(id: nat, hosts: seq<Host>, data: AttestationData): seq<Event> {
    seq(|hosts|, i requires 0 <= i < |hosts| => Answered(id, hosts[i], data))
  }

  ghost function GivenBy(hosts: seq<Host>, data: AttestationData): set<Given> {
    set h | h in hosts :: Given(h, data)
  }

  /** The tally after the first `k` of the agreeing hosts. */
  ghost predicate Agreeing(t: Tally, hosts: seq<Host>, k: nat, data: AttestationData)
    requires k <= |hosts|
  {
    && t.latest.Keys == Elements(hosts[..k])
    && (forall h :: h in t.latest ==> t.latest[h] == data)
    && Count(t.counter, data) == k
  }

  lemma AgreeingStep(t: Tally, hosts: seq<Host>, k: nat, data: AttestationData)
    requires k < |hosts| && Distinct(hosts) && Agreeing(t, hosts, k, data)
    ensures hosts[k] !in t.latest && Agreeing(Receive(t, hosts[k], data), hosts, k + 1, data)
  {
  }

  /** `s` after the given hosts answered the polling call, as long as it goes on. */
  ghost function PollingOn(s: State, id: nat, tally: Tally, hosts: seq<Host>, data: AttestationData): State
    requires id in s.calls
  {
    s.(calls := s.calls[id := Call(s.calls[id].head, Polling(tally))], answers := s.answers + GivenBy(hosts, data))
  }

  lemma PollingStepsOn(threshold: nat, s: State, id: nat, tally: Tally, hosts: seq<Host>, k: nat, data: AttestationData)
    requires id in s.calls && k < |hosts| && k + 1 < threshold && hosts[k] in s.ready
    requires Distinct(hosts) && Agreeing(tally, hosts, k, data)
    ensures Agreeing(Receive(tally, hosts[k], data), hosts, k + 1, data)
    ensures Step(threshold, PollingOn(s, id, tally, hosts[..k], data), Answered(id, hosts[k], data))
         == PollingOn(s, id, Receive(tally, hosts[k], data), hosts[..k + 1], data)
  {
    AgreeingStep(tally, hosts, k, data);
    assert hosts[..k + 1] == hosts[..k] + [hosts[k]];
    assert GivenBy(hosts[..k + 1], data) == GivenBy(hosts[..k], data) + {Given(hosts[k], data)};
  }

  lemma PollingStepReturns(threshold: nat, s: State, id: nat, tally: Tally, hosts: seq<Host>, data: AttestationData)
    requires id in s.calls && |hosts| == threshold >= 1 && hosts[threshold - 1] in s.ready
    requires Distinct(hosts) && Agreeing(tally, hosts, threshold - 1, data)
    ensures Step(threshold, PollingOn(s, id, tally, hosts[..threshold - 1], data), Answered(id, hosts[threshold - 1], data))
         == s.(calls := s.calls - {id},
               caches := Remember(s.caches, data.source, data.target),
               answers := s.answers + GivenBy(hosts, data),
               returned := s.returned + [Delivery(id, s.calls[id].head, data, FromConsensus)])
  {
    var n := threshold - 1;
    AgreeingStep(tally, hosts, n, data);
    assert hosts[..n] + [hosts[n]] == hosts;
    assert PollingOn(s, id, tally, hosts[..n], data).calls - {id} == s.calls - {id};
    assert GivenBy(hosts, data) == GivenBy(hosts[..n], data) + {Given(hosts[n], data)};
  }

  /** While fewer than a threshold of hosts have agreed, the call keeps polling and nothing else changes. */
  lemma {:induction false} AgreementBuildsUp(
    threshold: nat, s: State, id: nat, hosts: seq<Host>, k: nat, data: AttestationData) returns (tally: Tally)
    requires id in s.calls && s.calls[id].task == Polling(EMPTY_TALLY)
    requires Distinct(hosts) && Elements(hosts) <= s.ready && k <= |hosts| && k < threshold
    ensures Agreeing(tally, hosts, k, data)
    ensures Run(threshold, s, AnswersFrom(id, hosts, data)[..k]) == PollingOn(s, id, tally, hosts[..k], data)
  {
    if k == 0 {
      assert GivenBy([], data) == {};
      assert s.calls[id := Call(s.calls[id].head, Polling(EMPTY_TALLY))] == s.calls;
      tally := EMPTY_TALLY;
    } else {
      var before := AgreementBuildsUp(threshold, s, id, hosts, k - 1, data);
      var es := AnswersFrom(id, hosts, data);
      assert es[..k][..k - 1] == es[..k - 1];
      assert hosts[k - 1] in Elements(hosts);
      PollingStepsOn(threshold, s, id, before, hosts, k - 1, data);
      tally := Receive(before, hosts[k - 1], data);
    }
  }

  /** A polling call returns as soon as a threshold of hosts has given the same answer, and caches its checkpoints. */
  lemma AgreementReturns(threshold: nat, s: State, id: nat, hosts: seq<Host>, data: AttestationData)
    requires id in s.calls && s.calls[id].task == Polling(EMPTY_TALLY)
    requires Distinct(hosts) && Elements(hosts) <= s.ready && |hosts| == threshold >= 1
    ensures Run(threshold, s, AnswersFrom(id, hosts, data))
         == s.(calls := s.calls - {id},
               caches := Remember(s.caches, data.source, data.target),
               answers := s.answers + GivenBy(hosts, data),
               returned := s.returned + [Delivery(id, s.calls[id].head, data, FromConsensus)])
  {
    var n, es := |hosts| - 1, AnswersFrom(id, hosts, data);
    var tally := AgreementBuildsUp(threshold, s, id, hosts, n, data);
    assert hosts[n] in Elements(hosts) && hosts[..n] + [hosts[n]] == hosts;
    PollingStepReturns(threshold, s, id, tally, hosts, data);
    assert Run(threshold, s, es) == Step(threshold, Run(threshold, s, es[..n]), es[n]);
  }

  /** The polling call `id` of `s` is still polling, and has heard `latest`. */
  ghost predicate StillPolling(s: State, after: State, id: nat, latest: map<Host, AttestationData>)
    requires id in s.calls
  {
    && id in after.calls && after.calls[id].head == s.calls[id].head
    && after.calls[id].task.Polling? && after.calls[id].task.tally.latest == latest
  }

  /** The call `id` of `s` has since returned some node's answer to it, on the consensus path. */
  ghost predicate ReturnedSince(s: State, es: seq<Event>, after: State, id: nat)
    requires id in s.calls
  {
    exists i, h ::
      && |s.returned| <= i < |after.returned| && Answered(id, h, after.returned[i].data) in es
      && after.returned[i] == Delivery(id, s.calls[id].head, after.returned[i].data, FromConsensus)
  }

  lemma PollingStepOnOrReturn(threshold: nat, s: State, e: Event, id: nat)
    requires Inv(threshold, s) && id in s.calls && s.calls[id].task.Polling? && e != Cancel(id)
    ensures var after, latest := Step(threshold, s, e), s.calls[id].task.tally.latest;
            if e.Answered? && e.id == id && e.host in s.ready then
              || StillPolling(s, after, id, latest[e.host := e.data])
              || after.returned == s.returned + [Delivery(id, s.calls[id].head, e.data, FromConsensus)]
            else StillPolling(s, after, id, latest)
  {
    if e.Answered? && e.id == id {
      ReceiveStaysExact(s.calls[id].task.tally, e.host, e.data);
    }
  }

  /** The call is still polling and has heard every answer of the hosts, or it has returned. */
  ghost predicate PollingOrReturned(
    s: State, es: seq<Event>, after: State, id: nat, hosts: set<Host>, data: AttestationData)
    requires id in s.calls
  {
    || ReturnedSince(s, es, after, id)
    || (&& id in after.calls && after.calls[id].task.Polling?
        && StillPolling(s, after, id, after.calls[id].task.tally.latest)
        && forall h :: h in hosts && Answered(id, h, data) in es ==>
             h in Backers(after.calls[id].task.tally.latest, data))
  }

  lemma ReturnedStays(s: State, es: seq<Event>, e: Event, before: State, after: State, id: nat)
    requires id in s.calls && ReturnedSince(s, es, before, id) && before.returned <= after.returned
    ensures ReturnedSince(s, es + [e], after, id)
  {
    var i, h :| |s.returned| <= i < |before.returned| && Answered(id, h, before.returned[i].data) in es
                && before.returned[i] == Delivery(id, s.calls[id].head, before.returned[i].data, FromConsensus);
    assert after.returned[i] == before.returned[i];
    assert Answered(id, h, after.returned[i].data) in es + [e];
  }

  lemma PollingOrReturnedStep(
    threshold: nat, s: State, es: seq<Event>, e: Event, before: State, id: nat, hosts: set<Host>, data: AttestationData)
    requires id in s.calls && Inv(threshold, before) && s.returned <= before.returned
    requires PollingOrReturned(s, es, before, id, hosts, data)
    requires hosts <= before.ready && e != Cancel(id)
    requires forall h, d :: h in hosts && e == Answered(id, h, d) ==> d == data
    ensures PollingOrReturned(s, es + [e], Step(threshold, before, e), id, hosts, data)
  {
    var after := Step(threshold, before, e);
    StepKeepsInv(threshold, before, e);
    if ReturnedSince(s, es, before, id) {
      ReturnedStays(s, es, e, before, after, id);
    } else {
      PollingStepOnOrReturn(threshold, before, e, id);
      if e.Answered? && after.returned == before.returned + [Delivery(id, s.calls[id].head, e.data, FromConsensus)] {
        assert Answered(id, e.host, after.returned[|before.returned|].data) in es + [e];
        assert ReturnedSince(s, es + [e], after, id);
      }
    }
  }

  lemma {:induction false} StillPollingOrReturned(
    threshold: nat, s: State, es: seq<Event>, id: nat, hosts: set<Host>, data: AttestationData)
    requires Inv(threshold, s) && id in s.calls && s.calls[id].task.Polling? && hosts <= s.ready
    requires Cancel(id) !in es
    requires forall h, d :: h in hosts && Answered(id, h, d) in es ==> d == data
    ensures PollingOrReturned(s, es, Run(threshold, s, es), id, hosts, data)
  {
    if es != [] {
      var init, last := es[..|es| - 1], es[|es| - 1];
      assert es == init + [last];
      StillPollingOrReturned(threshold, s, init, id, hosts, data);
      RunKeepsInv(threshold, s, init);
      PollingOrReturnedStep(threshold, s, init, last, Run(threshold, s, init), id, hosts, data);
    }
  }

  /** Each of the hosts answers the call, never with anything but `data`, and the call is not cancelled. */
  ghost predicate Agree(es: seq<Event>, id: nat, hosts: set<Host>, data: AttestationData) {
    && Cancel(id) !in es
    && (forall h :: h in hosts ==> Answered(id, h, data) in es)
    && (forall h, d :: h in hosts && Answered(id, h, d) in es ==> d == data)
  }

  /**
   Whatever a polling call has heard, and whatever else happens in between, it has returned by the time a threshold of
   hosts has answered it with one value. What it returns is an answer to it: if no other value was answered, that value.
   */
  lemma AgreementEndsTheCall(
    threshold: nat, s: State, es: seq<Event>, id: nat, hosts: set<Host>, data: AttestationData)
    requires Inv(threshold, s) && id in s.calls && s.calls[id].task.Polling?
    requires hosts <= s.ready && |hosts| >= threshold && Agree(es, id, hosts, data)
    ensures ReturnedSince(s, es, Run(threshold, s, es), id)
  {
    StillPollingOrReturned(threshold, s, es, id, hosts, data);
    var after := Run(threshold, s, es);
    if !ReturnedSince(s, es, after, id) {
      RunKeepsInv(threshold, s, es);
      assert CallVouched(threshold, after.calls[id], after.answers);
      SubsetSize(hosts, Backers(after.calls[id].task.tally.latest, data));
      assert false;
    }
  }

  /** Both timeouts lead there: a head event that cannot be followed up costs the call nothing but its block root. */
  lemma TimeoutFallsBackToConsensus(
    threshold: nat, s: State, es: seq<Event>, id: nat, hosts: set<Host>, data: AttestationData)
    requires Inv(threshold, s) && id in s.calls
    requires hosts <= s.ready && |hosts| >= threshold && Agree(es, id, hosts, data)
    ensures ReturnedSince(s, es, Run(threshold, Step(threshold, s, Timeout(id)), es), id)
  {
    StepKeepsInv(threshold, s, Timeout(id));
    AgreementEndsTheCall(threshold, Step(threshold, s, Timeout(id)), es, id, hosts, data);
  }

  /** A call begun without a head event returns by consensus, under any interleaving, once a threshold of hosts agrees. */
  lemma HeadlessCallReturns(
    threshold: nat, s: State, es: seq<Event>, id: nat, hosts: set<Host>, data: AttestationData)
    requires Inv(threshold, s) && id !in s.calls
    requires hosts <= s.ready && |hosts| >= threshold && Agree(es, id, hosts, data)
    ensures var begun := Step(threshold, s, Begin(id, None));
            id in begun.calls && begun.calls[id].head == None && ReturnedSince(begun, es, Run(threshold, begun, es), id)
  {
    StepKeepsInv(threshold, s, Begin(id, None));
    AgreementEndsTheCall(threshold, Step(threshold, s, Begin(id, None)), es, id, hosts, data);
  }

  // ---------- the head event's path ----------

  /** The call is neither cancelled nor timed out by the events. */
  predicate Undisturbed(es: seq<Event>, id: nat) {
    Cancel(id) !in es && Timeout(id) !in es
  }

  /** The call has since returned `d`, from the cache or after a checkpoint confirmation. */
  ghost predicate HeadReturned(from: nat, after: State, id: nat, d: AttestationData) {
    exists i ::
      && from <= i < |after.returned| && after.returned[i].how != FromConsensus
      && after.returned[i] == Delivery(id, Some(d.blockRoot), d, after.returned[i].how)
  }

  ghost predicate AwaitsHead(s: State, id: nat, root: Root, nodes: set<Host>) {
    id in s.calls && s.calls[id] == Call(Some(root), AwaitingHead(root, nodes))
  }

  /** Until a node that was asked answers with the expected block root, the call waits for just that. */
  lemma {:induction false} KeepsAwaitingHead(
    threshold: nat, s: State, es: seq<Event>, id: nat, root: Root, nodes: set<Host>)
    requires AwaitsHead(s, id, root, nodes) && Undisturbed(es, id)
    requires forall h, a :: Answered(id, h, a) in es && h in nodes ==> a.blockRoot != root
    ensures AwaitsHead(Run(threshold, s, es), id, root, nodes) && s.ready <= Run(threshold, s, es).ready
    ensures s.returned <= Run(threshold, s, es).returned
  {
    if es != [] {
      var init, last := es[..|es| - 1], es[|es| - 1];
      assert es == init + [last];
      KeepsAwaitingHead(threshold, s, init, id, root, nodes);
      assert last in es;
      AwaitsOn(threshold, Run(threshold, s, init), last, id, root, nodes);
    }
  }

  lemma AwaitsOn(threshold: nat, s: State, e: Event, id: nat, root: Root, nodes: set<Host>)
    requires AwaitsHead(s, id, root, nodes) && e != Cancel(id) && e != Timeout(id)
    requires e.Answered? && e.id == id && e.host in nodes ==> e.data.blockRoot != root
    ensures AwaitsHead(Step(threshold, s, e), id, root, nodes) && s.ready <= Step(threshold, s, e).ready
    ensures s.returned <= Step(threshold, s, e).returned
  {
  }

  predicate Reports(e: Event, id: nat, host: Host, d: AttestationData) {
    e.Answered? && e.id == id && e.host == host && e.data.source == d.source && e.data.target == d.target
  }

  /** The call confirms the checkpoints of `d`, has heard every host that reported them, or has returned `d`. */
  ghost predicate ConfirmingOrReturned(
    from: nat, es: seq<Event>, after: State, id: nat, d: AttestationData, hosts: set<Host>) {
    || HeadReturned(from, after, id, d)
    || (&& id in after.calls && after.calls[id].head == Some(d.blockRoot)
        && after.calls[id].task.Confirming? && after.calls[id].task.data == d && hosts <= after.calls[id].task.nodes
        && forall h, e :: h in hosts && e in es && Reports(e, id, h, d) ==> h in after.calls[id].task.confirmed)
  }

  /** The first answer with the expected block root is returned at once, or its checkpoints start being confirmed. */
  lemma HeadFound(
    threshold: nat, s: State, id: nat, root: Root, nodes: set<Host>, host: Host, d: AttestationData, hosts: set<Host>)
    requires AwaitsHead(s, id, root, nodes) && host in nodes && host in s.ready && d.blockRoot == root && hosts <= s.ready
    ensures ConfirmingOrReturned(|s.returned|, [], Step(threshold, s, Answered(id, host, d)), id, d, hosts)
  {
    var after := Step(threshold, s, Answered(id, host, d));
    if |after.returned| > |s.returned| {
      assert after.returned[|s.returned|] == Delivery(id, Some(d.blockRoot), d, FromCache);
    }
  }

  lemma ConfirmingStep(
    threshold: nat, from: nat, es: seq<Event>, e: Event, s: State, id: nat, d: AttestationData, hosts: set<Host>)
    requires Inv(threshold, s) && from <= |s.returned| && ConfirmingOrReturned(from, es, s, id, d, hosts)
    requires e != Cancel(id) && e != Timeout(id) && hosts <= s.ready
    ensures ConfirmingOrReturned(from, es + [e], Step(threshold, s, e), id, d, hosts)
  {
    var after := Step(threshold, s, e);
    StepKeepsInv(threshold, s, e);
    if HeadReturned(from, s, id, d) {
      var i :| from <= i < |s.returned| && s.returned[i].how != FromConsensus
               && s.returned[i] == Delivery(id, Some(d.blockRoot), d, s.returned[i].how);
      assert after.returned[i] == s.returned[i];
    } else if e.Answered? && e.id == id && e.host in s.ready {
      ConfirmingAnswer(threshold, from, es, e, s, id, d, hosts);
    } else {
      CallUntouched(threshold, s, e, id);
      assert forall h :: h in hosts ==> !Reports(e, id, h, d);
    }
  }

  lemma CallUntouched(threshold: nat, s: State, e: Event, id: nat)
    requires id in s.calls && e != Cancel(id) && e != Timeout(id) && !(e.Answered? && e.id == id && e.host in s.ready)
    ensures id in Step(threshold, s, e).calls && Step(threshold, s, e).calls[id] == s.calls[id]
  {
  }

  lemma ConfirmingAnswer(
    threshold: nat, from: nat, es: seq<Event>, e: Event, s: State, id: nat, d: AttestationData, hosts: set<Host>)
    requires from <= |s.returned| && ConfirmingOrReturned(from, es, s, id, d, hosts) && !HeadReturned(from, s, id, d)
    requires e.Answered? && e.id == id && e.host in s.ready
    ensures ConfirmingOrReturned(from, es + [e], Step(threshold, s, e), id, d, hosts)
  {
    var after := Step(threshold, s, e);
    if |after.returned| > |s.returned| {
      assert after.returned[|s.returned|] == Delivery(id, Some(d.blockRoot), d, FromCheckpoints);
    } else {
      forall h, e' | h in hosts && e' in es + [e] && Reports(e', id, h, d) ensures h in after.calls[id].task.confirmed {
        if e' in es {
          assert h in s.calls[id].task.confirmed;
        }
      }
    }
  }

  lemma {:induction false} ConfirmingRun(
    threshold: nat, s: State, es: seq<Event>, from: nat, id: nat, d: AttestationData, hosts: set<Host>)
    requires Inv(threshold, s) && from <= |s.returned| && ConfirmingOrReturned(from, [], s, id, d, hosts)
    requires Undisturbed(es, id) && hosts <= s.ready
    ensures ConfirmingOrReturned(from, es, Run(threshold, s, es), id, d, hosts)
  {
    if es != [] {
      var init, last := es[..|es| - 1], es[|es| - 1];
      assert es == init + [last] && last in es;
      ConfirmingRun(threshold, s, init, from, id, d, hosts);
      RunKeepsInv(threshold, s, init);
      ConfirmingStep(threshold, from, init, last, Run(threshold, s, init), id, d, hosts);
    }
  }

  /** Each of the hosts reports the two checkpoints of `d` to the call. */
  ghost predicate ConfirmedBy(es: seq<Event>, id: nat, hosts: set<Host>, d: AttestationData) {
    forall h :: h in hosts ==> exists e :: e in es && Reports(e, id, h, d)
  }

  /**
   A head event is followed up. A call begun for its block root waits for the first answer `d` with that root by one of the
   nodes it asked; then, by the time a threshold of ready nodes has reported the checkpoints of `d` to it, it has returned
   `d`, from the cache or after their confirmation. Only a cancellation or a timeout of the call can come in between.
   */
  lemma HeadEventIsFollowedUp(
    threshold: nat, s: State, id: nat, root: Root, first: seq<Event>, host: Host, d: AttestationData,
    second: seq<Event>, hosts: set<Host>)
    requires Inv(threshold, s) && id !in s.calls
    requires Undisturbed(first, id) && Undisturbed(second, id)
    requires forall h, a :: Answered(id, h, a) in first && h in s.ready ==> a.blockRoot != root
    requires host in s.ready && d.blockRoot == root
    requires hosts <= s.ready && |hosts| >= threshold && ConfirmedBy(second, id, hosts, d)
    ensures HeadReturned(|s.returned|, Run(threshold, s, [Begin(id, Some(root))] + first + [Answered(id, host, d)] + second), id, d)
  {
    var begin, found := Begin(id, Some(root)), Answered(id, host, d);
    var begun := Step(threshold, s, begin);
    StepKeepsInv(threshold, s, begin);
    KeepsAwaitingHead(threshold, begun, first, id, root, s.ready);
    RunKeepsInv(threshold, begun, first);
    var waiting := Run(threshold, begun, first);
    HeadFound(threshold, waiting, id, root, s.ready, host, d, hosts);
    StepKeepsInv(threshold, waiting, found);
    var answered := Step(threshold, waiting, found);
    ReturnedEarlier(|s.returned|, |waiting.returned|, answered, id, d, hosts);
    ConfirmingRun(threshold, answered, second, |s.returned|, id, d, hosts);
    RunKeepsInv(threshold, answered, second);
    QuorumReturned(threshold, second, Run(threshold, answered, second), |s.returned|, id, d, hosts);
    RunStep(threshold, s, [], begin);
    assert [] + [begin] == [begin];
    RunAppend(threshold, s, [begin], first);
    RunStep(threshold, s, [begin] + first, found);
    RunAppend(threshold, s, [begin] + first + [found], second);
  }

  lemma ReturnedEarlier(from: nat, later: nat, after: State, id: nat, d: AttestationData, hosts: set<Host>)
    requires from <= later && ConfirmingOrReturned(later, [], after, id, d, hosts)
    ensures ConfirmingOrReturned(from, [], after, id, d, hosts)
  {
    if i :| later <= i < |after.returned| && after.returned[i].how != FromConsensus
            && after.returned[i] == Delivery(id, Some(d.blockRoot), d, after.returned[i].how) {
      assert HeadReturned(from, after, id, d);
    }
  }

  lemma QuorumReturned(
    threshold: nat, es: seq<Event>, after: State, from: nat, id: nat, d: AttestationData, hosts: set<Host>)
    requires Inv(threshold, after) && ConfirmingOrReturned(from, es, after, id, d, hosts)
    requires |hosts| >= threshold && ConfirmedBy(es, id, hosts, d)
    ensures HeadReturned(from, after, id, d)
  {
    if !HeadReturned(from, after, id, d) {
      var confirmed := after.calls[id].task.confirmed;
      assert CallVouched(threshold, after.calls[id], after.answers);
      forall h | h in hosts ensures h in confirmed {
        var e :| e in es && Reports(e, id, h, d);
      }
      SubsetSize(hosts, confirmed);
      assert false;
    }
  }

  /** Where returned data leaves the caches: a hit needed both checkpoints there; any other return has put them there. */
  lemma ReturnCachesCheckpoints(threshold: nat, s: State, e: Event, d: Delivery)
    requires Step(threshold, s, e).returned == s.returned + [d]
    ensures var after, source, target := Step(threshold, s, e).caches, d.data.source, d.data.target;
            && source.epoch in after.source && after.source[source.epoch] == source
            && target.epoch in after.target && after.target[target.epoch] == target
            && (d.how == FromCache ==> after == s.caches)
            && (forall epoch :: epoch != source.epoch ==>
                  (epoch in after.source <==> epoch in s.caches.source)
                  && (epoch in after.source ==> after.source[epoch] == s.caches.source[epoch]))
            && (forall epoch :: epoch != target.epoch ==>
                  (epoch in after.target <==> epoch in s.caches.target)
                  && (epoch in after.target ==> after.target[epoch] == s.caches.target[epoch]))
  {
    assert Step(threshold, s, e).returned[|s.returned|] == d;
  }

  /** Data is served from the caches exactly when they hold both of its checkpoints at their epochs. */
  lemma CacheHitIff(
    threshold: nat, c: ConfirmationCaches, ready: set<Host>, root: Root, nodes: set<Host>, host: Host, d: AttestationData)
    requires host in nodes && d.blockRoot == root
    ensures Resumed(threshold, c, ready, AwaitingHead(root, nodes), host, d).1 == Returned(d, FromCache) <==>
              && d.source.epoch in c.source && c.source[d.source.epoch] == d.source
              && d.target.epoch in c.target && c.target[d.target.epoch] == d.target
  {
  }

  // ---------- what stays and what ends ----------

  /** A pruning leaves the newest three entries of each cache, and every call as it is. */
  lemma PruneKeepsNewest(threshold: nat, s: State)
    ensures var after := Step(threshold, s, Prune);
            && after == s.(caches := after.caches)
            && PrefersNewest(s.caches.source, after.caches.source) && PrefersNewest(s.caches.target, after.caches.target)
            && |after.caches.source.Keys| == Min(3, |s.caches.source.Keys|)
            && |after.caches.target.Keys| == Min(3, |s.caches.target.Keys|)
  {
    KeepNewestKeepsNewest(s.caches.source, 3);
    KeepNewestKeepsNewest(s.caches.target, 3);
    KeepNewestSize(s.caches.source, 3);
    KeepNewestSize(s.caches.target, 3);
  }

  /** A call that is not there, or was cancelled, returns nothing until it is begun anew. */
  lemma {:induction false} EndedCallsStaySilent(threshold: nat, s: State, es: seq<Event>, id: nat)
    requires forall head :: Begin(id, head) !in es
    ensures var cancelled := Step(threshold, s, Cancel(id));
            var end := Run(threshold, cancelled, es);
            && id !in end.calls && s.returned <= end.returned
            && forall i :: |s.returned| <= i < |end.returned| ==> end.returned[i].id != id
  {
    if es != [] {
      var init, last := es[..|es| - 1], es[|es| - 1];
      assert es == init + [last] && last in es;
      EndedCallsStaySilent(threshold, s, init, id);
    }
  }

  /** The nodes that are up are those that were, and the configured ones that came up since. */
  lemma {:induction false} ReadyIff(threshold: nat, s: State, es: seq<Event>, host: Host)
    ensures host in Run(threshold, s, es).ready <==> host in s.ready || (host in s.configured && NodeReady(host) in es)
    ensures Run(threshold, s, es).configured == s.configured
  {
    if es != [] {
      var init, last := es[..|es| - 1], es[|es| - 1];
      assert es == init + [last];
      ReadyIff(threshold, s, init, host);
    }
  }

  // ---------- what a cache hit does not say ----------

  lemma HostsAgree(threshold: nat, s: State, id: nat, hosts: seq<Host>, data: AttestationData) returns (es: seq<Event>)
    requires id !in s.calls && Distinct(hosts) && Elements(hosts) <= s.ready && |hosts| == threshold >= 1
    ensures var after := Run(threshold, s, es);
            && after.caches == Remember(s.caches, data.source, data.target)
            && after.calls == s.calls && after.ready == s.ready
            && after.answers == s.answers + GivenBy(hosts, data)
  {
    var begin, rest := [Begin(id, None)], AnswersFrom(id, hosts, data);
    es := begin + rest;
    RunStep(threshold, s, [], Begin(id, None));
    assert [] + begin == begin;
    RunAppend(threshold, s, begin, rest);
    var begun := Run(threshold, s, begin);
    AgreementReturns(threshold, begun, id, hosts, data);
    assert begun.calls - {id} == s.calls;
  }

  /** Data with cached checkpoints and the expected block root is returned on its first answer. */
  lemma HeadHitsCache(threshold: nat, s: State, id: nat, host: Host, data: AttestationData) returns (es: seq<Event>)
    requires id !in s.calls && host in s.ready && Confirmed(s.caches, data.source, data.target)
    ensures var after := Run(threshold, s, es);
            && after.returned == s.returned + [Delivery(id, Some(data.blockRoot), data, FromCache)]
            && after.answers == s.answers + {Given(host, data)}
  {
    var begin := Begin(id, Some(data.blockRoot));
    es := [begin, Answered(id, host, data)];
    RunStep(threshold, s, [], begin);
    RunStep(threshold, s, [begin], Answered(id, host, data));
    assert [begin] == [] + [begin];
    assert [begin, Answered(id, host, data)] == [begin] + [Answered(id, host, data)];
  }

  /** Returned data that one single host reported, whose two checkpoints no other host ever reported together. */
  ghost predicate MixedPair(end: State, d: Delivery) {
    && d in end.returned && d.how == FromCache
    && |PairVouchers(end.answers, d.data.source, d.data.target)| == 1
    && |DataVouchers(end.answers, d.data)| == 1
  }

  /**
   A cache hit confirms source and target one by one. Whatever the threshold above one and the slot the single host
   claims, both checkpoints can have been confirmed by different calls without any other host seeing them together.
   */
  lemma CacheHitMayPairAcrossRuns(threshold: nat, configured: set<Host>, ready: set<Host>, root: Root, slot: nat)
    requires 2 <= threshold <= |ready| && ready <= configured
    ensures exists es, d :: MixedPair(Run(threshold, Initial(configured, ready), es), d) && d.data.slot == slot
  {
    var cp0, cp1, cp2, cp3 := Checkpoint(0, root), Checkpoint(1, root), Checkpoint(2, root), Checkpoint(3, root);
    var d1 := AttestationData(0, 0, root, cp0, cp1);
    var d2 := AttestationData(0, 0, root, cp2, cp3);
    var mixed := AttestationData(slot, 0, root, cp0, cp3);
    var hosts := TakeSome(ready, threshold);
    var s0 := Initial(configured, ready);
    var es1 := HostsAgreeTwice(threshold, s0, 0, hosts, d1, d2);
    var s1 := Run(threshold, s0, es1);
    var es2 := HeadHitsCache(threshold, s1, 1, hosts[0], mixed);
    var end := Run(threshold, s1, es2);
    var d := Delivery(1, Some(root), mixed, FromCache);
    RunAppend(threshold, s0, es1, es2);
    assert end.returned[|s1.returned|] == d;
    OnlyOnePair(end.answers, hosts, d1, d2, hosts[0], mixed);
    assert MixedPair(Run(threshold, s0, es1 + es2), d) && d.data.slot == slot;
  }

  lemma HostsAgreeTwice(threshold: nat, s: State, id: nat, hosts: seq<Host>, d1: AttestationData, d2: AttestationData)
    returns (es: seq<Event>)
    requires id !in s.calls && Distinct(hosts) && Elements(hosts) <= s.ready && |hosts| == threshold >= 1
    ensures var after := Run(threshold, s, es);
            && after.caches == Remember(Remember(s.caches, d1.source, d1.target), d2.source, d2.target)
            && after.calls == s.calls && after.ready == s.ready
            && after.answers == s.answers + GivenBy(hosts, d1) + GivenBy(hosts, d2)
  {
    var es1 := HostsAgree(threshold, s, id, hosts, d1);
    var es2 := HostsAgree(threshold, Run(threshold, s, es1), id, hosts, d2);
    es := es1 + es2;
    RunAppend(threshold, s, es1, es2);
  }

  lemma OnlyOnePair(
    answers: set<Given>, hosts: seq<Host>, d1: AttestationData, d2: AttestationData, a: Host, mixed: AttestationData)
    requires answers == {} + GivenBy(hosts, d1) + GivenBy(hosts, d2) + {Given(a, mixed)}
    requires d1.target != mixed.target && d2.source != mixed.source
    ensures PairVouchers(answers, mixed.source, mixed.target) == {a}
    ensures DataVouchers(answers, mixed) == {a}
  {
    assert Given(a, mixed).host in PairVouchers(answers, mixed.source, mixed.target);
    assert Given(a, mixed).host in DataVouchers(answers, mixed);
  }

  /** A threshold of hosts reported the two checkpoints together. */
  ghost predicate PairVouched(threshold: nat, s: State, d: Delivery) {
    |PairVouchers(s.answers, d.data.source, d.data.target)| >= threshold
  }

  /** Off the cache hits the pair was confirmed as a pair, in every run. */
  lemma OnlyCacheHitsMixPairs(threshold: nat, configured: set<Host>, ready: set<Host>, es: seq<Event>, d: Delivery)
    requires 1 <= threshold <= |ready| && ready <= configured
    requires d in Run(threshold, Initial(configured, ready), es).returned && !d.how.FromCache?
    ensures PairVouched(threshold, Run(threshold, Initial(configured, ready), es), d)
  {
    InitialInv(threshold, configured, ready);
    RunKeepsInv(threshold, Initial(configured, ready), es);
    var end := Run(threshold, Initial(configured, ready), es);
    var i :| 0 <= i < |end.returned| && end.returned[i] == d;
    assert Justified(threshold, end.answers, end.returned[i]);
    SubsetSize(DataVouchers(end.answers, d.data), PairVouchers(end.answers, d.data.source, d.data.target));
  }

  /** Everything ever returned had its pair of checkpoints confirmed as a pair. */
  ghost predicate PairsVouched(threshold: nat, configured: set<Host>, ready: set<Host>) {
    forall es, d ::
      d in Run(threshold, Initial(configured, ready), es).returned
      ==> PairVouched(threshold, Run(threshold, Initial(configured, ready), es), d)
  }

  /** The client confirms pairs if and only if its threshold is one, when any answer confirms itself. */
  lemma PairsVouchedIff(threshold: nat, configured: set<Host>, ready: set<Host>)
    requires 1 <= threshold <= |ready| && ready <= configured
    ensures PairsVouched(threshold, configured, ready) <==> threshold == 1
  {
    if threshold == 1 {
      forall es, d | d in Run(threshold, Initial(configured, ready), es).returned
        ensures PairVouched(threshold, Run(threshold, Initial(configured, ready), es), d)
      {
        InitialInv(threshold, configured, ready);
        RunKeepsInv(threshold, Initial(configured, ready), es);
        var end := Run(threshold, Initial(configured, ready), es);
        var i :| 0 <= i < |end.returned| && end.returned[i] == d;
        assert Justified(threshold, end.answers, end.returned[i]);
        var h :| Given(h, d.data) in end.answers;
        assert Given(h, d.data).host in PairVouchers(end.answers, d.data.source, d.data.target);
        SubsetSize({h}, PairVouchers(end.answers, d.data.source, d.data.target));
      }
    } else {
      CacheHitMayPairAcrossRuns(threshold, configured, ready, "", 0);
      var es, d :| MixedPair(Run(threshold, Initial(configured, ready), es), d) && d.data.slot == 0;
      assert !PairVouched(threshold, Run(threshold, Initial(configured, ready), es), d);
    }
  }
}
