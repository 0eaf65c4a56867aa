/**
 Every run of the attestation duty: deadline jobs and head events, slow consensus and slow signing, expiring slots,
 slashing alerts and duty refreshes, interleaved at every suspension point with the provider's own steps
 (src/services/attestation.py, src/services/validator_duty_service.py, src/services/validator_status_tracker.py).
 */
module AttestationRuns {
  import opened Basics
  import opened Types
  import opened DutyLedger
  import opened ValidatorStatusTracker
  import opened AttestationService
  import DutyRefresh
  import P = ProviderRuns

  datatype Params = Params(slotsPerEpoch: nat, threshold: nat, detectionOff: bool)

  /** An `_attest` in flight: producing data until `signing`, then signing and publishing it. */
  datatype Work = Work(head: Option<Root>, duties: set<ProvenDuty>, signing: bool)

  /** Attestation data handed to the signer, with the slot in which it was checked. */
  datatype Request = Request(slot: nat, head: Option<Root>, delivery: P.Delivery, checkedAt: nat, duties: set<ProvenDuty>)

  datatype State = State(
    ledger: Ledger,
    book: DutyRefresh.Book,
    provider: P.State,
    work: map<nat, Work>,
    requests: seq<Request>,
    consumed: seq<set<ProvenDuty>>,
    statuses: Statuses)

  datatype Event =
    | NewSlot(to: nat)
    | AttestNow(id: nat, slot: nat, head: Option<Root>)
    | Provider(e: P.Event)
    | Expire(id: nat)
    | Publish(id: nat)
    | Status(seen: ValidatorStatusTracker.Event)
    | Refreshing(r: DutyRefresh.Event)

  function Epoch(c: Params, s: State): nat
    requires c.slotsPerEpoch > 0
  {
    s.ledger.now / c.slotsPerEpoch
  }

  /** What start-up hands over: the configured hosts, those initialized by then, and the duties loaded from the cache. */
  datatype Boot = Boot(now: nat, configured: set<Host>, ready: set<Host>, duties: Duties, roots: map<nat, Root>)

  ghost predicate Booted(c: Params, b: Boot) {
    c.slotsPerEpoch > 0 && 1 <= c.threshold <= |b.ready| && b.ready <= b.configured
  }

  function Initial(b: Boot): State {
    State(Fresh(b.now), DutyRefresh.Book(b.duties, b.roots, false, map[]), P.Initial(b.configured, b.ready),
          map[], [], [], UNKNOWN)
  }

  // ---------- attesting ----------

  function Attesting(c: Params, s: State, id: nat, slot: nat, head: Option<Root>): State
    requires c.slotsPerEpoch > 0
  {
    var called := P.Step(c.threshold, s.provider, P.Begin(id, head));
    match Decide(s.ledger, s.book.duties, slot, c.slotsPerEpoch, s.statuses.slashed, c.detectionOff)
    case Attest =>
      var due := Due(s.book.duties, slot, c.slotsPerEpoch);
      s.(ledger := Begin(s.ledger, id, slot),
         book := s.book.(duties := WithoutDue(s.book.duties, slot, c.slotsPerEpoch)),
         consumed := s.consumed + [due],
         work := s.work[id := Work(head, due, false)],
         provider := called)
    case Prefetch => s.(provider := called)
    case _ => s
  }

  function Finished(s: State, id: nat): State {
    s.(ledger := End(s.ledger, id), work := s.work - {id})
  }

  predicate InFuture(data: AttestationData, epoch: nat) {
    data.source.epoch > epoch || data.target.epoch > epoch
  }

  /** The provider returned to call `d.id`: check the checkpoints' epochs and sign, or fail; a prefetch just ends. */
  function OnReturn(c: Params, s: State, d: P.Delivery): State
    requires c.slotsPerEpoch > 0
  {
    if d.id !in s.work || d.id !in s.ledger.running then s
    else if InFuture(d.data, Epoch(c, s)) then Finished(s, d.id)
    else
      var w := s.work[d.id];
      s.(requests := s.requests + [Request(s.ledger.running[d.id], w.head, d, s.ledger.now, w.duties)],
         work := s.work[d.id := w.(signing := true)])
  }

  function ProviderStep(c: Params, s: State, e: P.Event): State
    requires c.slotsPerEpoch > 0
  {
    var p := P.Step(c.threshold, s.provider, e);
    var moved := s.(provider := p);
    if |p.returned| > |s.provider.returned| then OnReturn(c, moved, p.returned[|p.returned| - 1]) else moved
  }

  // ---------- the machine ----------

  function Step(c: Params, s: State, e: Event): State
    requires c.slotsPerEpoch > 0
  {
    match e
    case NewSlot(to) => s.(ledger := Tick(s.ledger, to))
    case AttestNow(id, slot, head) =>
      if id in s.work || id in s.ledger.running || id in s.provider.calls then s else Attesting(c, s, id, slot, head)
    case Provider(pe) =>
      if pe.Begin? || pe.Cancel? then s else ProviderStep(c, s, pe)
    case Expire(id) =>
      var cancelled := s.(provider := P.Step(c.threshold, s.provider, P.Cancel(id)));
      if id in s.work && !s.work[id].signing then Finished(cancelled, id)
      else if id in s.work then s
      else cancelled
    case Publish(id) => if id in s.work && s.work[id].signing then Finished(s, id) else s
    case Status(seen) => s.(statuses := Observe(s.statuses, seen))
    case Refreshing(r) =>
      var view := DutyRefresh.View(s.ledger.now, Epoch(c, s), s.statuses.Ours(), |s.consumed|);
      s.(book := DutyRefresh.Step(view, s.book, r))
  }

  function Run(c: Params, s: State, es: seq<Event>): State
    requires c.slotsPerEpoch > 0
  {
    if es == [] then s else Step(c, Run(c, s, es[..|es| - 1]), es[|es| - 1])
  }

  // ---------- what is sent to the signer ----------

  ghost predicate RequestOk(c: Params, l: Ledger, returned: seq<P.Delivery>, r: Request)
    requires c.slotsPerEpoch > 0
  {
    && r.delivery in returned
    && r.delivery.head == r.head
    && !InFuture(r.delivery.data, r.checkedAt / c.slotsPerEpoch)
    && r.slot <= r.checkedAt <= l.now
    && Start(r.slot, r.slot) in l.starts
    && (forall d :: d in r.duties ==> d.duty.slot == r.slot)
  }

  ghost predicate WorkOk(l: Ledger, w: Work, id: nat, calls: map<nat, P.Call>, requests: seq<Request>) {
    && id in l.running
    && Start(l.running[id], l.running[id]) in l.starts
    && (forall d :: d in w.duties ==> d.duty.slot == l.running[id])
    && (id in calls ==> !w.signing && calls[id].head == w.head)
    && (!w.signing ==> forall i :: 0 <= i < |requests| ==> requests[i].slot != l.running[id])
  }

  ghost predicate OnePerSlot(rs: seq<Request>) {
    forall i, j :: 0 <= i < j < |rs| ==> rs[i].slot != rs[j].slot
  }

  ghost predicate RequestsOk(c: Params, s: State) {
    && c.slotsPerEpoch > 0
    && OnePerSlot(s.requests)
    && (forall i :: 0 <= i < |s.requests| ==> RequestOk(c, s.ledger, s.provider.returned, s.requests[i]))
  }

  ghost predicate AllWorkOk(s: State) {
    && s.ledger.running.Keys <= s.work.Keys
    && forall id :: id in s.work ==> WorkOk(s.ledger, s.work[id], id, s.provider.calls, s.requests)
  }

  ghost predicate InvSigning(c: Params, s: State) {
    Inv(s.ledger) && RequestsOk(c, s) && AllWorkOk(s)
  }

  lemma RequestsStayOk(c: Params, s: State, after: State)
    requires RequestsOk(c, s)
    requires after.requests == s.requests
    requires s.provider.returned <= after.provider.returned
    requires s.ledger.starts <= after.ledger.starts && s.ledger.now <= after.ledger.now
    ensures RequestsOk(c, after)
  {
  }

  lemma FinishedKeepsSigning(c: Params, s: State, id: nat)
    requires InvSigning(c, s)
    ensures InvSigning(c, Finished(s, id))
  {
    GuardedStepsKeepInv(s.ledger, id, 0, 0);
    RequestsStayOk(c, s, Finished(s, id));
    assert AllWorkOk(Finished(s, id)) by {
      forall other | other in Finished(s, id).work
        ensures WorkOk(Finished(s, id).ledger, s.work[other], other, s.provider.calls, s.requests)
      {
        assert WorkOk(s.ledger, s.work[other], other, s.provider.calls, s.requests);
      }
    }
  }

  lemma CallingKeepsSigning(c: Params, s: State, id: nat, head: Option<Root>)
    requires InvSigning(c, s)
    requires id !in s.work && id !in s.provider.calls
    ensures InvSigning(c, s.(provider := P.Step(c.threshold, s.provider, P.Begin(id, head))))
  {
  }

  lemma StartKeepsSigning(c: Params, s: State, after: State, id: nat, slot: nat, w: Work)
    requires InvSigning(c, s) && MayStart(s.ledger, slot)
    requires id !in s.work && id in s.provider.calls && s.provider.calls[id].head == w.head && !w.signing
    requires forall d :: d in w.duties ==> d.duty.slot == slot
    requires after.ledger == Begin(s.ledger, id, slot) && after.work == s.work[id := w]
    requires after.requests == s.requests && after.provider == s.provider
    ensures InvSigning(c, after)
  {
    GuardedStepsKeepInv(s.ledger, id, slot, 0);
    RequestsStayOk(c, s, after);
    NewWorkOk(c, s, id, slot, w);
    forall other | other in s.work ensures WorkOk(after.ledger, s.work[other], other, s.provider.calls, s.requests) {
      OldWorkStaysOk(s.ledger, s.work[other], other, id, slot, s.provider.calls, s.requests);
    }
  }

  lemma OldWorkStaysOk(
    l: Ledger, w: Work, other: nat, id: nat, slot: nat, calls: map<nat, P.Call>, requests: seq<Request>)
    requires WorkOk(l, w, other, calls, requests) && other != id
    ensures WorkOk(Begin(l, id, slot), w, other, calls, requests)
  {
  }

  lemma NewWorkOk(c: Params, s: State, id: nat, slot: nat, w: Work)
    requires Inv(s.ledger) && RequestsOk(c, s) && MayStart(s.ledger, slot)
    requires id in s.provider.calls && s.provider.calls[id].head == w.head && !w.signing
    requires forall d :: d in w.duties ==> d.duty.slot == slot
    ensures WorkOk(Begin(s.ledger, id, slot), w, id, s.provider.calls, s.requests)
  {
  }

  lemma AttestingKeepsSigning(c: Params, s: State, id: nat, slot: nat, head: Option<Root>)
    requires InvSigning(c, s)
    requires id !in s.work && id !in s.provider.calls
    ensures InvSigning(c, Attesting(c, s, id, slot, head))
  {
    CallingKeepsSigning(c, s, id, head);
    AttestIsAllowed(s.ledger, s.book.duties, slot, c.slotsPerEpoch, s.statuses.slashed, c.detectionOff);
    var called := s.(provider := P.Step(c.threshold, s.provider, P.Begin(id, head)));
    if Decide(s.ledger, s.book.duties, slot, c.slotsPerEpoch, s.statuses.slashed, c.detectionOff) == Attest {
      var w := Work(head, Due(s.book.duties, slot, c.slotsPerEpoch), false);
      StartKeepsSigning(c, called, Attesting(c, s, id, slot, head), id, slot, w);
    }
  }

  lemma MovedKeepsSigning(c: Params, s: State, e: P.Event)
    requires InvSigning(c, s) && !e.Begin?
    ensures InvSigning(c, s.(provider := P.Step(c.threshold, s.provider, e)))
  {
    P.StepReturnsAtMostOnce(c.threshold, s.provider, e);
    var moved := s.(provider := P.Step(c.threshold, s.provider, e));
    RequestsStayOk(c, s, moved);
    forall id | id in s.work ensures WorkOk(s.ledger, s.work[id], id, moved.provider.calls, s.requests) {
      assert WorkOk(s.ledger, s.work[id], id, s.provider.calls, s.requests);
    }
  }

  lemma ProviderStepKeepsSigning(c: Params, s: State, e: P.Event)
    requires InvSigning(c, s) && !e.Begin?
    ensures InvSigning(c, ProviderStep(c, s, e))
  {
    var p := P.Step(c.threshold, s.provider, e);
    P.StepReturnsAtMostOnce(c.threshold, s.provider, e);
    var moved := s.(provider := p);
    MovedKeepsSigning(c, s, e);
    if |p.returned| > |s.provider.returned| {
      var d := p.returned[|p.returned| - 1];
      if d.id in s.work {
        assert WorkOk(s.ledger, s.work[d.id], d.id, s.provider.calls, s.requests);
        ReturnKeepsSigning(c, moved, d);
      }
    }
  }

  lemma ReturnKeepsSigning(c: Params, s: State, d: P.Delivery)
    requires InvSigning(c, s)
    requires d.id in s.work && !s.work[d.id].signing && d.id !in s.provider.calls && d.head == s.work[d.id].head
    requires d in s.provider.returned
    ensures InvSigning(c, OnReturn(c, s, d))
  {
    if InFuture(d.data, Epoch(c, s)) {
      FinishedKeepsSigning(c, s, d.id);
    } else {
      SigningKeepsSigning(c, s, d);
    }
  }

  lemma SigningKeepsSigning(c: Params, s: State, d: P.Delivery)
    requires InvSigning(c, s)
    requires d.id in s.work && !s.work[d.id].signing && d.id !in s.provider.calls && d.head == s.work[d.id].head
    requires d in s.provider.returned && !InFuture(d.data, Epoch(c, s))
    ensures InvSigning(c, OnReturn(c, s, d))
  {
    var after := OnReturn(c, s, d);
    assert WorkOk(s.ledger, s.work[d.id], d.id, s.provider.calls, s.requests);
    assert RequestOk(c, s.ledger, s.provider.returned, after.requests[|s.requests|]);
    assert RequestsOk(c, after);
    forall id | id in after.work ensures WorkOk(s.ledger, after.work[id], id, s.provider.calls, after.requests) {
      assert WorkOk(s.ledger, s.work[id], id, s.provider.calls, s.requests);
    }
  }

  lemma StepKeepsSigning(c: Params, s: State, e: Event)
    requires InvSigning(c, s)
    ensures InvSigning(c, Step(c, s, e))
  {
    match e
    case NewSlot(to) =>
      TickKeepsSigning(c, s, to);
    case AttestNow(id, slot, head) =>
      if id !in s.work && id !in s.ledger.running && id !in s.provider.calls {
        AttestingKeepsSigning(c, s, id, slot, head);
      }
    case Provider(pe) =>
      if !pe.Begin? && !pe.Cancel? {
        ProviderStepKeepsSigning(c, s, pe);
      }
    case Expire(id) =>
      MovedKeepsSigning(c, s, P.Cancel(id));
      FinishedKeepsSigning(c, s.(provider := P.Step(c.threshold, s.provider, P.Cancel(id))), id);
    case Publish(id) =>
      FinishedKeepsSigning(c, s, id);
    case Status(seen) =>
    case Refreshing(r) =>
  }

  lemma TickKeepsSigning(c: Params, s: State, to: nat)
    requires InvSigning(c, s)
    ensures InvSigning(c, s.(ledger := Tick(s.ledger, to)))
  {
  }

  // ---------- every reachable state ----------

  /** Each attestation took exactly duties of its own slot. */
  ghost predicate ConsumedOk(s: State) {
    && |s.consumed| == |s.ledger.starts|
    && forall i :: 0 <= i < |s.consumed| ==>
         s.consumed[i] != {} && forall p :: p in s.consumed[i] ==> p.duty.slot == s.ledger.starts[i].slot
  }

  ghost predicate BookOk(s: State) {
    && ConsumedOk(s)
    && DutyRefresh.OneAtATime(s.book)
    && DutyRefresh.NothingLost(s.book, s.consumed)
  }

  ghost predicate RunInv(c: Params, s: State) {
    && InvSigning(c, s)
    && P.Inv(c.threshold, s.provider)
    && BookOk(s)
  }

  lemma StepKeepsProvider(c: Params, s: State, e: Event)
    requires c.slotsPerEpoch > 0 && P.Inv(c.threshold, s.provider)
    ensures P.Inv(c.threshold, Step(c, s, e).provider)
  {
    match e
    case AttestNow(id, slot, head) => P.StepKeepsInv(c.threshold, s.provider, P.Begin(id, head));
    case Provider(pe) => P.StepKeepsInv(c.threshold, s.provider, pe);
    case Expire(id) => P.StepKeepsInv(c.threshold, s.provider, P.Cancel(id));
    case _ =>
  }

  lemma AttestingKeepsBook(c: Params, s: State, id: nat, slot: nat, head: Option<Root>)
    requires c.slotsPerEpoch > 0 && BookOk(s)
    ensures BookOk(Attesting(c, s, id, slot, head))
  {
    var after := Attesting(c, s, id, slot, head);
    if Decide(s.ledger, s.book.duties, slot, c.slotsPerEpoch, s.statuses.slashed, c.detectionOff) == Attest {
      DutyRefresh.TakingKeepsNothingLost(s.book, s.consumed, slot, c.slotsPerEpoch);
      assert after.ledger.starts[|s.consumed|].slot == slot;
    }
  }

  /** Only attesting and refreshing touch the book, the starts or what was consumed. */
  lemma OtherStepsKeepBook(c: Params, s: State, e: Event)
    requires c.slotsPerEpoch > 0 && !e.AttestNow? && !e.Refreshing?
    ensures var after := Step(c, s, e);
            after.book == s.book && after.consumed == s.consumed && after.ledger.starts == s.ledger.starts
  {
  }

  lemma StepKeepsBook(c: Params, s: State, e: Event)
    requires c.slotsPerEpoch > 0 && BookOk(s)
    ensures BookOk(Step(c, s, e))
  {
    match e
    case AttestNow(id, slot, head) =>
      AttestingKeepsBook(c, s, id, slot, head);
    case Refreshing(r) =>
      var view := DutyRefresh.View(s.ledger.now, Epoch(c, s), s.statuses.Ours(), |s.consumed|);
      DutyRefresh.StepKeepsOneAtATime(view, s.book, r);
      DutyRefresh.StepKeepsNothingLost(view, s.book, s.consumed, r);
    case _ =>
      OtherStepsKeepBook(c, s, e);
  }

  lemma StepKeepsRunInv(c: Params, s: State, e: Event)
    requires RunInv(c, s)
    ensures RunInv(c, Step(c, s, e))
  {
    StepKeepsSigning(c, s, e);
    StepKeepsProvider(c, s, e);
    StepKeepsBook(c, s, e);
  }

  lemma {:induction false} RunKeepsRunInv(c: Params, s: State, es: seq<Event>)
    requires RunInv(c, s)
    ensures RunInv(c, Run(c, s, es))
  {
    if es != [] {
      RunKeepsRunInv(c, s, es[..|es| - 1]);
      StepKeepsRunInv(c, Run(c, s, es[..|es| - 1]), es[|es| - 1]);
    }
  }

  lemma {:induction false} RunKeepsConfigured(c: Params, s: State, es: seq<Event>)
    requires RunInv(c, s)
    ensures Run(c, s, es).provider.configured == s.provider.configured
  {
    if es != [] {
      RunKeepsConfigured(c, s, es[..|es| - 1]);
      RunKeepsRunInv(c, s, es[..|es| - 1]);
      StepKeepsConfigured(c, Run(c, s, es[..|es| - 1]), es[|es| - 1]);
    }
  }

  lemma StepKeepsConfigured(c: Params, s: State, e: Event)
    requires c.slotsPerEpoch > 0 && P.Inv(c.threshold, s.provider)
    ensures Step(c, s, e).provider.configured == s.provider.configured
  {
    match e
    case AttestNow(id, slot, head) => P.StepKeepsInv(c.threshold, s.provider, P.Begin(id, head));
    case Provider(pe) => P.StepKeepsInv(c.threshold, s.provider, pe);
    case Expire(id) => P.StepKeepsInv(c.threshold, s.provider, P.Cancel(id));
    case _ =>
  }

  lemma EveryRun(c: Params, b: Boot, es: seq<Event>)
    requires Booted(c, b)
    ensures RunInv(c, Run(c, Initial(b), es)) && Run(c, Initial(b), es).provider.configured == b.configured
  {
    P.InitialInv(c.threshold, b.configured, b.ready);
    RunKeepsRunInv(c, Initial(b), es);
    RunKeepsConfigured(c, Initial(b), es);
  }

  // ---------- the theorems ----------

  /** All that is known about attestation data handed to the signer. */
  ghost predicate SafeRequest(c: Params, s: State, r: Request)
    requires c.slotsPerEpoch > 0
  {
    var data, answers := r.delivery.data, s.provider.answers;
    && |P.SourceVouchers(answers, data.source)| >= c.threshold
    && |P.TargetVouchers(answers, data.target)| >= c.threshold
    && data.source.epoch <= r.checkedAt / c.slotsPerEpoch && data.target.epoch <= r.checkedAt / c.slotsPerEpoch
    && r.slot <= r.checkedAt <= s.ledger.now
    && (!r.delivery.how.FromConsensus? ==> r.head == Some(data.blockRoot))
    && (r.delivery.how.FromCheckpoints? ==> |P.PairVouchers(answers, data.source, data.target)| >= c.threshold)
    && (r.delivery.how.FromConsensus? ==> |P.DataVouchers(answers, data)| >= c.threshold)
  }

  /**
   The main theorem. Whatever the interleaving: nothing reaches the signer unless a threshold of distinct nodes vouched
   for its source and a threshold vouched for its target, and never twice for one slot.
   */
  lemma SignerSafety(c: Params, b: Boot, es: seq<Event>)
    requires Booted(c, b)
    ensures var end := Run(c, Initial(b), es);
            && (forall i :: 0 <= i < |end.requests| ==> SafeRequest(c, end, end.requests[i]))
            && (forall i, j :: 0 <= i < j < |end.requests| ==> end.requests[i].slot != end.requests[j].slot)
  {
    EveryRun(c, b, es);
    var end := Run(c, Initial(b), es);
    forall i | 0 <= i < |end.requests| ensures SafeRequest(c, end, end.requests[i]) {
      var r := end.requests[i];
      assert RequestOk(c, end.ledger, end.provider.returned, r);
      var j :| 0 <= j < |end.provider.returned| && end.provider.returned[j] == r.delivery;
      assert P.Justified(c.threshold, end.provider.answers, r.delivery);
    }
  }

  /**
   Fewer buggy nodes than the threshold cannot bring a checkpoint of their own to the signer: for the source and for
   the target of everything signed there is a sound node that reported it.
   */
  lemma BuggyMinorityCannotSign(c: Params, b: Boot, es: seq<Event>, buggy: set<Host>, i: nat) returns (s: Host, t: Host)
    requires Booted(c, b) && |buggy| < c.threshold
    requires i < |Run(c, Initial(b), es).requests|
    ensures var end := Run(c, Initial(b), es);
            var data := end.requests[i].delivery.data;
            && s in P.SourceVouchers(end.provider.answers, data.source) - buggy
            && t in P.TargetVouchers(end.provider.answers, data.target) - buggy
  {
    SignerSafety(c, b, es);
    var end := Run(c, Initial(b), es);
    var data := end.requests[i].delivery.data;
    assert SafeRequest(c, end, end.requests[i]);
    s := Outsider(P.SourceVouchers(end.provider.answers, data.source), buggy);
    t := Outsider(P.TargetVouchers(end.provider.answers, data.target), buggy);
  }

  lemma Outsider(big: set<Host>, small: set<Host>) returns (h: Host)
    requires |small| < |big|
    ensures h in big - small
  {
    if forall x :: x in big ==> x in small {
      SubsetSize(big, small);
    }
    h :| h in big && h !in small;
  }

  /** Behind any two signed targets of one run stands, with a majority threshold, a host that reported both. */
  lemma SignedTargetsShareAHost(c: Params, b: Boot, es: seq<Event>, i: nat, j: nat) returns (h: Host)
    requires Booted(c, b) && 2 * c.threshold > |b.configured|
    requires i < |Run(c, Initial(b), es).requests| && j < |Run(c, Initial(b), es).requests|
    ensures var end := Run(c, Initial(b), es);
            && h in P.TargetVouchers(end.provider.answers, end.requests[i].delivery.data.target)
            && h in P.TargetVouchers(end.provider.answers, end.requests[j].delivery.data.target)
  {
    EveryRun(c, b, es);
    SignerSafety(c, b, es);
    var end := Run(c, Initial(b), es);
    assert SafeRequest(c, end, end.requests[i]) && SafeRequest(c, end, end.requests[j]);
    h := QuorumsMeet(P.TargetVouchers(end.provider.answers, end.requests[i].delivery.data.target),
                     P.TargetVouchers(end.provider.answers, end.requests[j].delivery.data.target), b.configured);
  }

  /** Call `d.id` got its data: it is handed to the signer with the duties taken for the slot, and the call goes on to sign. */
  ghost predicate SignedWith(s: State, after: State, d: P.Delivery)
    requires d.id in s.work && d.id in s.ledger.running
  {
    && |after.requests| == |s.requests| + 1
    && after.requests[|s.requests|].delivery == d
    && after.requests[|s.requests|].slot == s.ledger.running[d.id]
    && after.requests[|s.requests|].duties == s.work[d.id].duties
    && d.id in after.work && after.work[d.id].signing
  }

  /** Call `d.id` failed: nothing is signed, and the slot counts as completed. */
  ghost predicate GivenUp(s: State, after: State, d: P.Delivery)
    requires d.id in s.ledger.running
  {
    after.requests == s.requests && d.id !in after.work && after.ledger.completed == s.ledger.running[d.id]
  }

  /** The event ends a provider call that an attestation is waiting for, with `d`. */
  ghost predicate Delivers(c: Params, s: State, e: P.Event, d: P.Delivery) {
    && !e.Begin? && !e.Cancel?
    && P.Step(c.threshold, s.provider, e).returned == s.provider.returned + [d]
    && d.id in s.work
  }

  ghost predicate Requested(s: State, slot: nat) {
    exists i :: 0 <= i < |s.requests| && s.requests[i].slot == slot
  }

  /**
   In every reachable state, data delivered to an attestation gives its slot its one signing request if and only if
   neither checkpoint is ahead of the current epoch; otherwise nothing was or is signed for the slot, and the call ends.
   */
  lemma SignedIffNotAhead(c: Params, b: Boot, es: seq<Event>, e: P.Event, d: P.Delivery)
    requires Booted(c, b) && Delivers(c, Run(c, Initial(b), es), e, d)
    ensures var s, after := Run(c, Initial(b), es), Run(c, Initial(b), es + [Provider(e)]);
            var epoch := s.ledger.now / c.slotsPerEpoch;
            var ahead := d.data.source.epoch > epoch || d.data.target.epoch > epoch;
            && d.id in s.ledger.running
            && !Requested(s, s.ledger.running[d.id])
            && (Requested(after, s.ledger.running[d.id]) <==> !ahead)
            && (SignedWith(s, after, d) <==> !ahead) && (GivenUp(s, after, d) <==> ahead)
  {
    var s, after := Run(c, Initial(b), es), Run(c, Initial(b), es + [Provider(e)]);
    EveryRun(c, b, es);
    assert (es + [Provider(e)])[..|es|] == es;
    P.StepReturnsAtMostOnce(c.threshold, s.provider, e);
    assert WorkOk(s.ledger, s.work[d.id], d.id, s.provider.calls, s.requests);
    assert after == OnReturn(c, s.(provider := P.Step(c.threshold, s.provider, e)), d);
    if SignedWith(s, after, d) {
      assert after.requests[|s.requests|].slot == s.ledger.running[d.id];
    }
  }

  lemma RunStep(c: Params, s: State, es: seq<Event>, e: Event)
    requires c.slotsPerEpoch > 0
    ensures Run(c, s, es + [e]) == Step(c, Run(c, s, es), e)
  {
    var all := es + [e];
    assert all[..|all| - 1] == es && all[|all| - 1] == e;
  }

  /** All stored duties of the slot. */
  ghost function DutiesOf(s: State, slot: nat, slotsPerEpoch: nat): set<ProvenDuty>
    requires slotsPerEpoch > 0
  {
    set p | p in At(s.book.duties, slot / slotsPerEpoch) && p.duty.slot == slot
  }

  /** An attestation of the slot has started: it holds all duties that were stored for it, none is left, and it waits for data. */
  ghost predicate StartedWithAll(c: Params, s: State, after: State, id: nat, slot: nat, head: Option<Root>)
    requires c.slotsPerEpoch > 0
  {
    && after.work == s.work[id := Work(head, DutiesOf(s, slot, c.slotsPerEpoch), false)]
    && after.consumed == s.consumed + [DutiesOf(s, slot, c.slotsPerEpoch)]
    && TakenExactly(s.book.duties, after.book.duties, slot, c.slotsPerEpoch)
    && after.ledger.started == slot && after.ledger.running == s.ledger.running[id := slot]
    && after.ledger.starts == s.ledger.starts + [Start(slot, s.ledger.now)]
    && id in after.provider.calls && after.provider.calls[id].head == head
  }

  /**
   In every reachable state, a deadline job or head event starts an attestation of all duties stored for its slot if and only
   if the guards allow it and there is one. Otherwise nothing is taken; only data may be fetched ahead for later duties.
   */
  lemma AttestationStartsIff(c: Params, b: Boot, es: seq<Event>, id: nat, slot: nat, head: Option<Root>)
    requires Booted(c, b)
    requires var s := Run(c, Initial(b), es); id !in s.work && id !in s.ledger.running && id !in s.provider.calls
    ensures var s, after := Run(c, Initial(b), es), Run(c, Initial(b), es + [AttestNow(id, slot, head)]);
            var allowed := !(s.statuses.slashed && !c.detectionOff) && slot > s.ledger.started && slot == s.ledger.now;
            var due := exists p :: p in At(s.book.duties, slot / c.slotsPerEpoch) && p.duty.slot == slot;
            && (StartedWithAll(c, s, after, id, slot, head) <==> allowed && due)
            && (!(allowed && due) ==>
                  && after.work == s.work && after.consumed == s.consumed && after.ledger == s.ledger && after.book == s.book
                  && (id in after.provider.calls <==> allowed && exists p :: p in At(s.book.duties, slot / c.slotsPerEpoch)))
  {
    var s := Run(c, Initial(b), es);
    RunStep(c, Initial(b), es, AttestNow(id, slot, head));
    AttestIsAllowed(s.ledger, s.book.duties, slot, c.slotsPerEpoch, s.statuses.slashed, c.detectionOff);
    VerdictIff(s.ledger, s.book.duties, slot, c.slotsPerEpoch, s.statuses.slashed, c.detectionOff);
    TakenIff(s.book.duties, slot, c.slotsPerEpoch);
    assert Due(s.book.duties, slot, c.slotsPerEpoch) == DutiesOf(s, slot, c.slotsPerEpoch);
  }

  /** An attestation that waits for data ends when its slot's time is up, and its call with it; one that signs ends on its own. */
  lemma AttestationEndsIff(c: Params, b: Boot, es: seq<Event>, id: nat)
    requires Booted(c, b) && id in Run(c, Initial(b), es).work
    ensures var s := Run(c, Initial(b), es);
            var expired, published := Step(c, s, Expire(id)), Step(c, s, Publish(id));
            && id in s.ledger.running
            && (id in expired.work <==> s.work[id].signing) && (id in published.work <==> !s.work[id].signing)
            && (id !in expired.work ==> id !in expired.provider.calls && expired.ledger.completed == s.ledger.running[id])
            && (id !in published.work ==> published.ledger.completed == s.ledger.running[id])
            && expired.requests == published.requests == s.requests
  {
    EveryRun(c, b, es);
    var s := Run(c, Initial(b), es);
    assert WorkOk(s.ledger, s.work[id], id, s.provider.calls, s.requests);
  }

  /** A refresh splits what it fetched at the current slot, and keeps track of the attestations that start from then on. */
  lemma RefreshSplitsNow(c: Params, s: State, id: nat, root: Root, data: seq<AttesterDuty>)
    requires c.slotsPerEpoch > 0 && id in s.book.refreshes && s.book.refreshes[id].Fetching?
    requires var r := s.book.refreshes[id]; r.epoch in s.book.roots ==> s.book.roots[r.epoch] != root
    ensures var r, after := s.book.refreshes[id], Step(c, s, Refreshing(DutyRefresh.Fetched(id, root, data))).book;
            id in after.refreshes && after.refreshes[id]
            == DutyRefresh.Proving(r.base, r.epoch, r.startEpoch, root, data, s.ledger.now, true, |s.consumed|)
  {
  }

  /** A refresh begins with the current epoch, if there is a validator to refresh duties for and no other refresh runs. */
  lemma RefreshBeginsNow(c: Params, s: State, id: nat)
    requires c.slotsPerEpoch > 0 && DutyRefresh.OneAtATime(s.book) && id !in s.book.refreshes
    ensures var after, epoch := Step(c, s, Refreshing(DutyRefresh.Event.Start(id))).book, s.ledger.now / c.slotsPerEpoch;
            id in after.refreshes <==>
              s.book.refreshes == map[] && exists v :: v in s.statuses.active || v in s.statuses.pending
    ensures var after, epoch := Step(c, s, Refreshing(DutyRefresh.Event.Start(id))).book, s.ledger.now / c.slotsPerEpoch;
            id in after.refreshes ==> after.refreshes[id] == DutyRefresh.Fetching(epoch, epoch, epoch)
  {
    assert s.book.refreshes == map[] <==> s.book.refreshes.Keys == {};
    assert s.statuses.Ours() != {} <==> exists v :: v in s.statuses.Ours();
  }

  /** `_attest` starts at most once per slot, in that slot, in increasing order, and only with duties of that slot. */
  lemma AttestationsStartOncePerSlot(c: Params, b: Boot, es: seq<Event>)
    requires Booted(c, b)
    ensures var end := Run(c, Initial(b), es);
            && StartsIncrease(end.ledger.starts)
            && (forall i :: 0 <= i < |end.ledger.starts| ==> end.ledger.starts[i].slot == end.ledger.starts[i].at)
            && ConsumedOk(end)
            && end.ledger.completed <= end.ledger.started <= end.ledger.now
            && (forall id :: id in end.ledger.running && end.ledger.running[id] == end.ledger.now ==> HasOngoingDuty(end.ledger))
  {
    EveryRun(c, b, es);
    var end := Run(c, Initial(b), es);
    forall id | id in end.ledger.running && end.ledger.running[id] == end.ledger.now ensures HasOngoingDuty(end.ledger) {
      RunningNowIsOngoing(end.ledger, id);
    }
  }

  lemma ProviderStepMoves(c: Params, s: State, e: P.Event)
    requires c.slotsPerEpoch > 0
    ensures Moves(s.ledger, ProviderStep(c, s, e).ledger)
  {
    var p := P.Step(c.threshold, s.provider, e);
    if |p.returned| > |s.provider.returned| {
      MovesOf(s.ledger, p.returned[|p.returned| - 1].id, 0, 0);
    }
  }

  lemma StepMoves(c: Params, s: State, e: Event)
    requires c.slotsPerEpoch > 0
    ensures Moves(s.ledger, Step(c, s, e).ledger)
  {
    match e
    case NewSlot(to) => MovesOf(s.ledger, 0, 0, to);
    case AttestNow(id, slot, head) =>
      AttestIsAllowed(s.ledger, s.book.duties, slot, c.slotsPerEpoch, s.statuses.slashed, c.detectionOff);
      MovesOf(s.ledger, id, slot, 0);
    case Provider(pe) => ProviderStepMoves(c, s, pe);
    case Expire(id) => MovesOf(s.ledger, id, 0, 0);
    case Publish(id) => MovesOf(s.ledger, id, 0, 0);
    case Status(seen) =>
    case Refreshing(r) =>
  }

  ghost function Ledgers(c: Params, s: State, es: seq<Event>): (ls: seq<Ledger>)
    requires c.slotsPerEpoch > 0
    ensures |ls| == |es| + 1 && forall k :: 0 <= k <= |es| ==> ls[k] == Run(c, s, es[..k]).ledger
  {
    seq(|es| + 1, k requires 0 <= k <= |es| => Run(c, s, es[..k]).ledger)
  }

  lemma LedgersMove(c: Params, b: Boot, es: seq<Event>, k: nat)
    requires Booted(c, b) && k < |es|
    ensures var ls := Ledgers(c, Initial(b), es); Inv(ls[k]) && Moves(ls[k], ls[k + 1])
  {
    EveryRun(c, b, es[..k]);
    assert es[..k + 1][..k] == es[..k];
    StepMoves(c, Run(c, Initial(b), es[..k]), es[k]);
  }

  /** Over every run the service reports an ongoing attestation exactly when one is running, unless an older one ends late. */
  lemma OngoingIsRightIff(c: Params, b: Boot, es: seq<Event>)
    requires Booted(c, b)
    ensures var ls := Ledgers(c, Initial(b), es); AlwaysTruthful(ls) <==> NeverLate(ls)
  {
    var ls := Ledgers(c, Initial(b), es);
    forall k | 0 <= k < |ls| - 1 ensures Inv(ls[k]) && Moves(ls[k], ls[k + 1]) {
      LedgersMove(c, b, es, k);
    }
    AlwaysTruthfulIff(ls);
  }

  /** The slashing latch is never reset, and while it counts no attestation starts. */
  lemma {:induction false} SlashingStopsAttesting(c: Params, s: State, es: seq<Event>)
    requires c.slotsPerEpoch > 0 && s.statuses.slashed && !c.detectionOff
    ensures Run(c, s, es).statuses.slashed && Run(c, s, es).ledger.starts == s.ledger.starts
  {
    if es != [] {
      SlashingStopsAttesting(c, s, es[..|es| - 1]);
      SlashedStep(c, Run(c, s, es[..|es| - 1]), es[|es| - 1]);
    }
  }

  lemma SlashedStep(c: Params, s: State, e: Event)
    requires c.slotsPerEpoch > 0 && s.statuses.slashed && !c.detectionOff
    ensures Step(c, s, e).statuses.slashed && Step(c, s, e).ledger.starts == s.ledger.starts
  {
  }

  /** Attestation `id` of `s` was waiting for its data. */
  ghost predicate Waiting(s: State, id: nat) {
    id in s.work && !s.work[id].signing && id in s.ledger.running
  }

  /** Every attestation in flight in `after` was already in flight in `s`, for the same slot and no further than now. */
  ghost predicate OnlyInFlight(s: State, after: State) {
    forall id :: id in after.work ==>
      && id in s.work && after.work[id].duties == s.work[id].duties
      && id in s.ledger.running && id in after.ledger.running && after.ledger.running[id] == s.ledger.running[id]
      && (s.work[id].signing ==> after.work[id].signing)
  }

  ghost predicate RequestFor(s: State, r: Request) {
    exists id :: Waiting(s, id) && r.slot == s.ledger.running[id] && r.duties == s.work[id].duties
  }

  /** From `s` to `after` only attestations that were waiting in `s` have been handed to the signer. */
  ghost predicate OnlyInFlightSigned(s: State, after: State) {
    && OnlyInFlight(s, after)
    && s.requests <= after.requests
    && forall i :: |s.requests| <= i < |after.requests| ==> RequestFor(s, after.requests[i])
  }

  lemma InFlightComposes(s: State, between: State, after: State)
    requires OnlyInFlightSigned(s, between) && OnlyInFlightSigned(between, after)
    ensures OnlyInFlightSigned(s, after)
  {
    forall i | |s.requests| <= i < |after.requests| ensures RequestFor(s, after.requests[i]) {
      if i < |between.requests| {
        assert after.requests[i] == between.requests[i];
      } else {
        var r := after.requests[i];
        var id :| Waiting(between, id) && r.slot == between.ledger.running[id] && r.duties == between.work[id].duties;
        assert Waiting(s, id);
      }
    }
  }

  lemma NothingMoved(s: State)
    requires AllWorkOk(s)
    ensures OnlyInFlightSigned(s, s)
  {
    forall id | id in s.work ensures id in s.ledger.running {
      assert WorkOk(s.ledger, s.work[id], id, s.provider.calls, s.requests);
    }
  }

  lemma SlashedReturn(c: Params, s: State, d: P.Delivery)
    requires c.slotsPerEpoch > 0 && OnlyInFlightSigned(s, s) && (d.id in s.work ==> !s.work[d.id].signing)
    ensures OnlyInFlightSigned(s, OnReturn(c, s, d))
  {
    if d.id in s.work {
      assert Waiting(s, d.id);
    }
  }

  lemma ProviderMovesNothing(s: State, p: P.State)
    requires AllWorkOk(s)
    ensures OnlyInFlightSigned(s, s.(provider := p)) && OnlyInFlightSigned(s.(provider := p), s.(provider := p))
  {
    NothingMoved(s);
  }

  lemma NothingReturned(c: Params, s: State, e: P.Event)
    requires c.slotsPerEpoch > 0 && AllWorkOk(s) && P.Step(c.threshold, s.provider, e).returned == s.provider.returned
    ensures OnlyInFlightSigned(s, ProviderStep(c, s, e))
  {
    ProviderMovesNothing(s, P.Step(c.threshold, s.provider, e));
  }

  lemma ReturnedInFlight(c: Params, s: State, p: P.State, d: P.Delivery)
    requires c.slotsPerEpoch > 0 && AllWorkOk(s) && (d.id in s.work ==> d.id in s.provider.calls)
    ensures OnlyInFlightSigned(s, OnReturn(c, s.(provider := p), d))
  {
    var moved := s.(provider := p);
    ProviderMovesNothing(s, p);
    assert d.id in s.work ==> WorkOk(s.ledger, s.work[d.id], d.id, s.provider.calls, s.requests);
    SlashedReturn(c, moved, d);
    InFlightComposes(s, moved, OnReturn(c, moved, d));
  }

  lemma SlashedProviderStep(c: Params, s: State, e: P.Event)
    requires c.slotsPerEpoch > 0 && AllWorkOk(s) && !e.Begin?
    ensures OnlyInFlightSigned(s, ProviderStep(c, s, e))
  {
    var p := P.Step(c.threshold, s.provider, e);
    P.StepReturnsAtMostOnce(c.threshold, s.provider, e);
    if p.returned == s.provider.returned {
      NothingReturned(c, s, e);
    } else {
      ReturnedInFlight(c, s, p, p.returned[|s.provider.returned|]);
    }
  }

  lemma SlashedStepContinues(c: Params, s: State, e: Event)
    requires c.slotsPerEpoch > 0 && AllWorkOk(s) && s.statuses.slashed && !c.detectionOff
    ensures OnlyInFlightSigned(s, Step(c, s, e))
  {
    NothingMoved(s);
    match e
    case Provider(pe) =>
      if !pe.Begin? {
        SlashedProviderStep(c, s, pe);
      }
    case _ =>
  }

  /**
   Once the latch counts, only attestations that were waiting for their data at that moment can still be handed to the
   signer, each for its own slot.
   */
  lemma {:induction false} SlashedSignsOnlyInFlight(c: Params, s: State, es: seq<Event>)
    requires RunInv(c, s) && s.statuses.slashed && !c.detectionOff
    ensures OnlyInFlightSigned(s, Run(c, s, es))
  {
    if es == [] {
      NothingMoved(s);
    } else {
      var init, last := es[..|es| - 1], es[|es| - 1];
      SlashedSignsOnlyInFlight(c, s, init);
      SlashingStopsAttesting(c, s, init);
      RunKeepsRunInv(c, s, init);
      SlashedStepContinues(c, Run(c, s, init), last);
      InFlightComposes(s, Run(c, s, init), Run(c, s, es));
    }
  }

  /** With none waiting nothing more is ever signed. */
  lemma SlashedSignsNothingMore(c: Params, s: State, es: seq<Event>)
    requires RunInv(c, s) && s.statuses.slashed && !c.detectionOff && forall id :: !Waiting(s, id)
    ensures Run(c, s, es).requests == s.requests
  {
    SlashedSignsOnlyInFlight(c, s, es);
    var end := Run(c, s, es);
    assert |s.requests| < |end.requests| ==> RequestFor(s, end.requests[|s.requests|]);
    assert end.requests[..|s.requests|] == s.requests;
  }

  /** A refresh that is about to write the dependent root of its epoch. */
  ghost predicate AboutToWriteRoot(b: DutyRefresh.Book, id: nat, proofs: map<string, string>) {
    && id in b.refreshes && b.refreshes[id].Proving? && !b.refreshes[id].soon
    && AllProven(DutyRefresh.Batch(b.refreshes[id]), proofs)
  }

  /** Refreshes exclude one another, and a dependent root is written only over a complete set of duties. */
  lemma RefreshesAreSafe(c: Params, b: Boot, es: seq<Event>, id: nat, proofs: map<string, string>)
    requires Booted(c, b)
    ensures |Run(c, Initial(b), es).book.refreshes.Keys| <= 1
    ensures var end := Run(c, Initial(b), es);
            AboutToWriteRoot(end.book, id, proofs) ==>
              var r := end.book.refreshes[id];
              forall d :: d in r.fetched && d.slot >= r.splitAt ==>
                DutyRefresh.Covered(
                  DutyRefresh.WithRoot(end.book, r, proofs).duties, end.consumed, r.epoch, r.since, d)
  {
    EveryRun(c, b, es);
    var end := Run(c, Initial(b), es);
    if end.book.refreshes.Keys != {} {
      var other :| other in end.book.refreshes;
      SubsetSize(end.book.refreshes.Keys, {other});
    }
    if AboutToWriteRoot(end.book, id, proofs) {
      var r := end.book.refreshes[id];
      forall d | d in r.fetched && d.slot >= r.splitAt
        ensures DutyRefresh.Covered(
                  DutyRefresh.WithRoot(end.book, r, proofs).duties, end.consumed, r.epoch, r.since, d)
      {
        DutyRefresh.RootWriteIsComplete(end.book, end.consumed, id, proofs, d);
      }
    }
  }
}
