/**
 The slots that signed attestation data carries. The client checks the checkpoints of data against the clock, but not
 the slot inside it against the slot of the duty (src/services/attestation.py, src/providers/attestation_data_provider.py).
 */
module AttestationSlots {
  import opened Basics
  import opened Types
  import opened Consensus
  import opened AttestationDataProvider
  import opened DutyLedger
  import opened AttestationService
  import opened AttestationRuns
  import P = ProviderRuns

  /** A node answers the provider call of an attestation. */
  predicate AnswersAttestation(s: State, e: Event) {
    e.Provider? && e.e.Answered? && e.e.id in s.work && e.e.id in s.ledger.running
  }

  /** Such an answer carries a slot that it may carry for the attestation's slot. */
  ghost predicate AllowedNext(s: State, e: Event, allowed: (nat, nat) -> bool) {
    AnswersAttestation(s, e) ==> allowed(s.ledger.running[e.e.id], e.e.data.slot)
  }

  /** Event number `k` of the run is no such answer, or an allowed one. */
  ghost predicate AllowedAt(c: Params, s: State, es: seq<Event>, k: nat, allowed: (nat, nat) -> bool)
    requires c.slotsPerEpoch > 0 && k < |es|
  {
    AllowedNext(Run(c, s, es[..k]), es[k], allowed)
  }

  /** Every answer to an attestation's call carries an allowed slot. */
  ghost predicate DataAllowed(c: Params, s: State, es: seq<Event>, allowed: (nat, nat) -> bool)
    requires c.slotsPerEpoch > 0
  {
    forall k :: 0 <= k < |es| ==> AllowedAt(c, s, es, k, allowed)
  }

  lemma AllowedLeft(c: Params, s: State, first: seq<Event>, second: seq<Event>, k: nat, allowed: (nat, nat) -> bool)
    requires c.slotsPerEpoch > 0 && k < |first|
    ensures AllowedAt(c, s, first + second, k, allowed) <==> AllowedAt(c, s, first, k, allowed)
  {
    assert (first + second)[..k] == first[..k];
  }

  lemma AllowedRight(c: Params, s: State, first: seq<Event>, second: seq<Event>, k: nat, allowed: (nat, nat) -> bool)
    requires c.slotsPerEpoch > 0 && k < |second|
    ensures AllowedAt(c, s, first + second, |first| + k, allowed) <==> AllowedAt(c, Run(c, s, first), second, k, allowed)
  {
    var es, n := first + second, |first| + k;
    RunBefore(c, s, first, second, k);
    assert es[n] == second[k];
  }

  lemma RunBefore(c: Params, s: State, first: seq<Event>, second: seq<Event>, k: nat)
    requires c.slotsPerEpoch > 0 && k <= |second|
    ensures Run(c, s, (first + second)[..|first| + k]) == Run(c, Run(c, s, first), second[..k])
  {
    RunAppend(c, s, first, second[..k]);
    assert (first + second)[..|first| + k] == first + second[..k];
  }

  // ---------- from the answers to the signer ----------

  ghost predicate HeldAllowed(call: P.Call, slot: nat, allowed: (nat, nat) -> bool) {
    call.task.Confirming? ==> allowed(slot, call.task.data.slot)
  }

  ghost predicate SignedAllowed(rs: seq<Request>, allowed: (nat, nat) -> bool) {
    forall r :: r in rs ==> allowed(r.slot, r.delivery.data.slot)
  }

  lemma SignedOneAllowed(rs: seq<Request>, i: nat, allowed: (nat, nat) -> bool)
    requires i < |rs| && SignedAllowed(rs, allowed)
    ensures allowed(rs[i].slot, rs[i].delivery.data.slot)
  {
    assert rs[i] in rs;
  }

  ghost predicate CallsAllowed(
    work: map<nat, Work>, running: map<nat, nat>, calls: map<nat, P.Call>, allowed: (nat, nat) -> bool) {
    forall id :: id in work && id in running && id in calls ==> HeldAllowed(calls[id], running[id], allowed)
  }

  /** Allowed data has been signed, and is held while its checkpoints are being confirmed. */
  ghost predicate HoldsAllowed(s: State, allowed: (nat, nat) -> bool) {
    SignedAllowed(s.requests, allowed) && CallsAllowed(s.work, s.ledger.running, s.provider.calls, allowed)
  }

  /** Data that a call holds or returns was just answered to it, or held by it before. */
  lemma HeldWasAnswered(threshold: nat, s: P.State, e: P.Event)
    requires !e.Begin?
    ensures var after := P.Step(threshold, s, e);
            && after.calls.Keys <= s.calls.Keys
            && (forall id :: id in after.calls && after.calls[id].task.Confirming? ==>
                  || (s.calls[id].task.Confirming? && after.calls[id].task.data == s.calls[id].task.data)
                  || (e.Answered? && e.id == id && after.calls[id].task.data == e.data))
            && (after.returned == s.returned
                || (&& |after.returned| == |s.returned| + 1
                    && e.Answered? && e.id in s.calls && after.returned[|s.returned|].id == e.id
                    && (|| after.returned[|s.returned|].data == e.data
                        || (s.calls[e.id].task.Confirming? && after.returned[|s.returned|].data == s.calls[e.id].task.data))))
  {
  }

  lemma ProviderStepHoldsAllowed(c: Params, s: State, e: P.Event, allowed: (nat, nat) -> bool)
    requires c.slotsPerEpoch > 0 && HoldsAllowed(s, allowed) && !e.Begin?
    requires AllowedNext(s, Provider(e), allowed)
    ensures HoldsAllowed(ProviderStep(c, s, e), allowed)
  {
    var p := P.Step(c.threshold, s.provider, e);
    HeldWasAnswered(c.threshold, s.provider, e);
    forall id | id in s.work && id in s.ledger.running && id in p.calls
      ensures HeldAllowed(p.calls[id], s.ledger.running[id], allowed)
    {
      assert HeldAllowed(s.provider.calls[id], s.ledger.running[id], allowed);
    }
    if |p.returned| > |s.provider.returned| {
      var d := p.returned[|s.provider.returned|];
      if d.id in s.work && d.id in s.ledger.running {
        assert HeldAllowed(s.provider.calls[d.id], s.ledger.running[d.id], allowed);
      }
      ReturnHoldsAllowed(c, s.(provider := p), d, allowed);
    }
  }

  lemma ReturnHoldsAllowed(c: Params, s: State, d: P.Delivery, allowed: (nat, nat) -> bool)
    requires c.slotsPerEpoch > 0 && HoldsAllowed(s, allowed)
    requires d.id in s.work && d.id in s.ledger.running ==> allowed(s.ledger.running[d.id], d.data.slot)
    ensures HoldsAllowed(OnReturn(c, s, d), allowed)
  {
  }

  lemma FinishedHoldsAllowed(s: State, id: nat, allowed: (nat, nat) -> bool)
    requires HoldsAllowed(s, allowed)
    ensures HoldsAllowed(Finished(s, id), allowed)
  {
  }

  lemma AttestingHoldsAllowed(
    c: Params, s: State, id: nat, slot: nat, head: Option<Root>, allowed: (nat, nat) -> bool)
    requires c.slotsPerEpoch > 0 && HoldsAllowed(s, allowed) && id !in s.provider.calls
    ensures HoldsAllowed(Attesting(c, s, id, slot, head), allowed)
  {
    var after := Attesting(c, s, id, slot, head);
    forall other | other in after.work && other in after.ledger.running && other in after.provider.calls
      ensures HeldAllowed(after.provider.calls[other], after.ledger.running[other], allowed)
    {
      if other != id {
        assert HeldAllowed(s.provider.calls[other], s.ledger.running[other], allowed);
      }
    }
  }

  lemma ExpireHoldsAllowed(c: Params, s: State, id: nat, allowed: (nat, nat) -> bool)
    requires c.slotsPerEpoch > 0 && HoldsAllowed(s, allowed)
    ensures HoldsAllowed(Step(c, s, Expire(id)), allowed)
  {
    var cancelled := s.(provider := P.Step(c.threshold, s.provider, P.Cancel(id)));
    assert HoldsAllowed(cancelled, allowed);
    FinishedHoldsAllowed(cancelled, id, allowed);
  }

  lemma StepHoldsAllowed(c: Params, s: State, e: Event, allowed: (nat, nat) -> bool)
    requires c.slotsPerEpoch > 0 && HoldsAllowed(s, allowed)
    requires AllowedNext(s, e, allowed)
    ensures HoldsAllowed(Step(c, s, e), allowed)
  {
    match e
    case NewSlot(to) =>
    case AttestNow(id, slot, head) =>
      if id !in s.work && id !in s.ledger.running && id !in s.provider.calls {
        AttestingHoldsAllowed(c, s, id, slot, head, allowed);
      }
    case Provider(pe) =>
      if !pe.Begin? && !pe.Cancel? {
        ProviderStepHoldsAllowed(c, s, pe, allowed);
      }
    case Expire(id) =>
      ExpireHoldsAllowed(c, s, id, allowed);
    case Publish(id) =>
      FinishedHoldsAllowed(s, id, allowed);
    case Status(seen) =>
    case Refreshing(r) =>
  }

  lemma {:induction false} RunHoldsAllowed(c: Params, b: Boot, es: seq<Event>, allowed: (nat, nat) -> bool)
    requires Booted(c, b) && DataAllowed(c, Initial(b), es, allowed)
    ensures HoldsAllowed(Run(c, Initial(b), es), allowed)
  {
    if es != [] {
      DataAllowedInit(c, Initial(b), es, allowed);
      RunHoldsAllowed(c, b, es[..|es| - 1], allowed);
      StepHoldsAllowed(c, Run(c, Initial(b), es[..|es| - 1]), es[|es| - 1], allowed);
    }
  }

  // ---------- a whole attestation by consensus ----------

  lemma {:induction false} RunAppend(c: Params, s: State, first: seq<Event>, second: seq<Event>)
    requires c.slotsPerEpoch > 0
    ensures Run(c, s, first + second) == Run(c, Run(c, s, first), second)
  {
    if second == [] {
      assert first + second == first;
    } else {
      var init, last := second[..|second| - 1], second[|second| - 1];
      assert first + second == (first + init) + [last] && second == init + [last];
      RunAppend(c, s, first, init);
      RunStep(c, s, first + init, last);
      RunStep(c, Run(c, s, first), init, last);
    }
  }

  /** Allowed runs compose. */
  lemma DataAllowedAppend(
    c: Params, s: State, first: seq<Event>, second: seq<Event>, allowed: (nat, nat) -> bool)
    requires c.slotsPerEpoch > 0
    requires DataAllowed(c, s, first, allowed) && DataAllowed(c, Run(c, s, first), second, allowed)
    ensures DataAllowed(c, s, first + second, allowed)
    ensures Run(c, s, first + second) == Run(c, Run(c, s, first), second)
  {
    RunAppend(c, s, first, second);
    forall k | 0 <= k < |first + second| ensures AllowedAt(c, s, first + second, k, allowed) {
      if k < |first| {
        AllowedLeft(c, s, first, second, k, allowed);
      } else {
        AllowedRight(c, s, first, second, k - |first|, allowed);
      }
    }
  }

  lemma DataAllowedInit(c: Params, s: State, es: seq<Event>, allowed: (nat, nat) -> bool)
    requires c.slotsPerEpoch > 0 && es != [] && DataAllowed(c, s, es, allowed)
    ensures DataAllowed(c, s, es[..|es| - 1], allowed)
    ensures AllowedNext(Run(c, s, es[..|es| - 1]), es[|es| - 1], allowed)
  {
    var init, last := es[..|es| - 1], es[|es| - 1];
    assert es == init + [last];
    forall k | 0 <= k < |init| ensures AllowedAt(c, s, init, k, allowed) {
      assert AllowedAt(c, s, es, k, allowed);
      AllowedLeft(c, s, init, [last], k, allowed);
    }
    assert AllowedAt(c, s, es, |es| - 1, allowed);
  }

  lemma DataAllowedOne(c: Params, s: State, e: Event, allowed: (nat, nat) -> bool)
    requires c.slotsPerEpoch > 0
    requires AllowedNext(s, e, allowed)
    ensures DataAllowed(c, s, [e], allowed) && Run(c, s, [e]) == Step(c, s, e)
  {
    assert [e][..0] == [];
  }

  function AnswersFrom(id: nat, hosts: seq<Host>, data: AttestationData): seq<Event> {
    seq(|hosts|, i requires 0 <= i < |hosts| => Provider(P.Answered(id, hosts[i], data)))
  }

  /** The state once the given hosts have answered the polling call, as long as it goes on. */
  ghost function Polled(s: State, id: nat, tally: Tally, hosts: seq<Host>, data: AttestationData): State
    requires id in s.provider.calls
  {
    s.(provider := P.PollingOn(s.provider, id, tally, hosts, data))
  }

  lemma OneAnswerLifts(c: Params, s: State, id: nat, tally: Tally, hosts: seq<Host>, k: nat, data: AttestationData)
    requires c.slotsPerEpoch > 0 && id in s.provider.calls
    requires k < |hosts| && k + 1 < c.threshold && hosts[k] in s.provider.ready
    requires Distinct(hosts) && P.Agreeing(tally, hosts, k, data)
    ensures P.Agreeing(Receive(tally, hosts[k], data), hosts, k + 1, data)
    ensures Step(c, Polled(s, id, tally, hosts[..k], data), Provider(P.Answered(id, hosts[k], data)))
         == Polled(s, id, Receive(tally, hosts[k], data), hosts[..k + 1], data)
  {
    P.PollingStepsOn(c.threshold, s.provider, id, tally, hosts, k, data);
  }

  lemma NextAnswerLifts(
    c: Params, s: State, es: seq<Event>, id: nat, tally: Tally, hosts: seq<Host>, k: nat, data: AttestationData,
    allowed: (nat, nat) -> bool)
    requires c.slotsPerEpoch > 0 && id in s.provider.calls
    requires k < |hosts| && k + 1 < c.threshold && hosts[k] in s.provider.ready
    requires Distinct(hosts) && P.Agreeing(tally, hosts, k, data)
    requires id in s.work && id in s.ledger.running && allowed(s.ledger.running[id], data.slot)
    requires Run(c, s, es) == Polled(s, id, tally, hosts[..k], data) && DataAllowed(c, s, es, allowed)
    ensures var next, all := Receive(tally, hosts[k], data), es + [Provider(P.Answered(id, hosts[k], data))];
            && P.Agreeing(next, hosts, k + 1, data)
            && Run(c, s, all) == Polled(s, id, next, hosts[..k + 1], data)
            && DataAllowed(c, s, all, allowed)
  {
    var e := Provider(P.Answered(id, hosts[k], data));
    OneAnswerLifts(c, s, id, tally, hosts, k, data);
    assert AllowedNext(Run(c, s, es), e, allowed);
    DataAllowedOne(c, Run(c, s, es), e, allowed);
    DataAllowedAppend(c, s, es, [e], allowed);
  }

  /** As long as no call returns, the answers of the agreeing hosts move only the provider. */
  lemma {:induction false} AnswersLift(
    c: Params, s: State, id: nat, hosts: seq<Host>, k: nat, data: AttestationData, allowed: (nat, nat) -> bool)
    returns (tally: Tally)
    requires c.slotsPerEpoch > 0 && k <= |hosts| && k < c.threshold
    requires id in s.provider.calls && s.provider.calls[id].task == Polling(EMPTY_TALLY)
    requires Distinct(hosts) && Elements(hosts) <= s.provider.ready
    requires id in s.work && id in s.ledger.running && allowed(s.ledger.running[id], data.slot)
    ensures P.Agreeing(tally, hosts, k, data)
    ensures Run(c, s, AnswersFrom(id, hosts, data)[..k]) == Polled(s, id, tally, hosts[..k], data)
    ensures DataAllowed(c, s, AnswersFrom(id, hosts, data)[..k], allowed)
  {
    var es := AnswersFrom(id, hosts, data);
    if k == 0 {
      tally := EMPTY_TALLY;
      assert P.GivenBy([], data) == {};
      assert s.provider.calls[id := P.Call(s.provider.calls[id].head, Polling(EMPTY_TALLY))] == s.provider.calls;
    } else {
      var before := AnswersLift(c, s, id, hosts, k - 1, data, allowed);
      assert hosts[k - 1] in Elements(hosts);
      tally := Receive(before, hosts[k - 1], data);
      NextAnswerLifts(c, s, es[..k - 1], id, before, hosts, k - 1, data, allowed);
      assert es[..k] == es[..k - 1] + [es[k - 1]];
    }
  }

  /** The attestation's call returned `d`: the data has gone to the signer, and nothing but the provider moved besides. */
  ghost predicate SignedBy(s: State, after: State, id: nat, data: AttestationData)
    requires id in s.work && id in s.ledger.running && id in s.provider.calls
  {
    && after.requests == s.requests
         + [Request(s.ledger.running[id], s.work[id].head,
                    P.Delivery(id, s.provider.calls[id].head, data, FromConsensus), s.ledger.now, s.work[id].duties)]
    && after.work == s.work[id := s.work[id].(signing := true)]
    && after.provider.calls == s.provider.calls - {id} && after.provider.ready == s.provider.ready
    && after.ledger == s.ledger && after.statuses == s.statuses && after.book == s.book
  }

  lemma LastAnswerIsSigned(c: Params, s: State, id: nat, tally: Tally, hosts: seq<Host>, data: AttestationData)
    requires c.slotsPerEpoch > 0 && |hosts| == c.threshold >= 1 && hosts[c.threshold - 1] in s.provider.ready
    requires id in s.provider.calls && id in s.work && id in s.ledger.running
    requires Distinct(hosts) && P.Agreeing(tally, hosts, c.threshold - 1, data)
    requires !InFuture(data, Epoch(c, s))
    ensures var polled := Polled(s, id, tally, hosts[..c.threshold - 1], data);
            SignedBy(s, ProviderStep(c, polled, P.Answered(id, hosts[c.threshold - 1], data)), id, data)
  {
    P.PollingStepReturns(c.threshold, s.provider, id, tally, hosts, data);
  }

  /** The agreeing hosts' answers to a waiting attestation end in the signing of what they answered. */
  lemma AnswersAreSigned(
    c: Params, s: State, id: nat, hosts: seq<Host>, data: AttestationData, allowed: (nat, nat) -> bool)
    returns (es: seq<Event>)
    requires c.slotsPerEpoch > 0 && |hosts| == c.threshold >= 1
    requires id in s.provider.calls && s.provider.calls[id].task == Polling(EMPTY_TALLY)
    requires Distinct(hosts) && Elements(hosts) <= s.provider.ready
    requires id in s.work && id in s.ledger.running && allowed(s.ledger.running[id], data.slot)
    requires !InFuture(data, Epoch(c, s))
    ensures DataAllowed(c, s, es, allowed) && SignedBy(s, Run(c, s, es), id, data)
  {
    var n, answers := |hosts| - 1, AnswersFrom(id, hosts, data);
    var tally := AnswersLift(c, s, id, hosts, n, data, allowed);
    assert hosts[n] in Elements(hosts);
    LastAnswerIsSigned(c, s, id, tally, hosts, data);
    var last := Provider(P.Answered(id, hosts[n], data));
    DataAllowedOne(c, Run(c, s, answers[..n]), last, allowed);
    es := answers[..n] + [last];
    DataAllowedAppend(c, s, answers[..n], [last], allowed);
  }

  /** A whole attestation without a head event, from its start to its end. */
  lemma AttestationRun(
    c: Params, s: State, id: nat, slot: nat, hosts: seq<Host>, data: AttestationData, allowed: (nat, nat) -> bool)
    returns (es: seq<Event>, r: Request)
    requires c.slotsPerEpoch > 0 && |hosts| == c.threshold >= 1 && Quiet(s)
    requires Decide(s.ledger, s.book.duties, slot, c.slotsPerEpoch, s.statuses.slashed, c.detectionOff) == Attest
    requires Distinct(hosts) && Elements(hosts) <= s.provider.ready
    requires allowed(slot, data.slot) && !InFuture(data, Epoch(c, s))
    ensures DataAllowed(c, s, es, allowed)
    ensures r.slot == slot && r.delivery.data == data
    ensures AttestedQuietly(c, s, Run(c, s, es), slot, r)
  {
    var start := AttestNow(id, slot, None);
    DataAllowedOne(c, s, start, allowed);
    var s1 := Run(c, s, [start]);
    var answers := AnswersAreSigned(c, s1, id, hosts, data, allowed);
    DataAllowedAppend(c, s, [start], answers, allowed);
    var s2 := Run(c, s1, answers);
    r := s2.requests[|s.requests|];
    DataAllowedOne(c, s2, Publish(id), allowed);
    es := [start] + answers + [Publish(id)];
    DataAllowedAppend(c, s, [start] + answers, [Publish(id)], allowed);
    PublishedQuietly(c, s, s1, s2, id, slot, data);
  }

  ghost predicate Quiet(s: State) {
    && s.work == map[] && s.ledger.running == map[] && s.provider.calls == map[] && !s.statuses.slashed
  }

  ghost predicate AttestedQuietly(c: Params, s: State, after: State, slot: nat, r: Request)
    requires c.slotsPerEpoch > 0
  {
    && Quiet(after) && after.requests == s.requests + [r] && after.provider.ready == s.provider.ready
    && after.ledger.now == s.ledger.now && after.ledger.started == slot
    && after.book.duties == WithoutDue(s.book.duties, slot, c.slotsPerEpoch)
  }

  lemma PublishedQuietly(
    c: Params, s: State, started: State, signed: State, id: nat, slot: nat, data: AttestationData)
    requires c.slotsPerEpoch > 0 && Quiet(s)
    requires Decide(s.ledger, s.book.duties, slot, c.slotsPerEpoch, s.statuses.slashed, c.detectionOff) == Attest
    requires started == Attesting(c, s, id, slot, None)
    requires id in started.work && id in started.ledger.running && id in started.provider.calls
    requires SignedBy(started, signed, id, data)
    ensures AttestedQuietly(c, s, Step(c, signed, Publish(id)), slot, signed.requests[|s.requests|])
  {
  }

  // ---------- when the slots in signed data are unique ----------

  ghost predicate DataSlotsDistinct(s: State) {
    forall i, j :: 0 <= i < j < |s.requests| ==> s.requests[i].delivery.data.slot != s.requests[j].delivery.data.slot
  }

  /** No slot may be carried by the data for two different duty slots. */
  ghost predicate TellsApart(allowed: (nat, nat) -> bool) {
    forall s, t, carried :: allowed(s, carried) && allowed(t, carried) ==> s == t
  }

  ghost predicate OneDatumPerSlot(c: Params, configured: set<Host>, ready: set<Host>, allowed: (nat, nat) -> bool) {
    forall b, es :: Booted(c, b) && b.configured == configured && b.ready == ready && DataAllowed(c, Initial(b), es, allowed)
      ==> DataSlotsDistinct(Run(c, Initial(b), es))
  }

  /** Wait for the slot of a stored duty, and attest. */
  lemma AttestAt(
    c: Params, s: State, slot: nat, p: ProvenDuty, hosts: seq<Host>, data: AttestationData, allowed: (nat, nat) -> bool)
    returns (es: seq<Event>, r: Request)
    requires c.slotsPerEpoch > 0 && |hosts| == c.threshold >= 1 && Quiet(s)
    requires Distinct(hosts) && Elements(hosts) <= s.provider.ready
    requires s.ledger.started < slot && s.ledger.now <= slot
    requires p in At(s.book.duties, slot / c.slotsPerEpoch) && p.duty.slot == slot
    requires allowed(slot, data.slot) && data.source.epoch == data.target.epoch == 0
    ensures DataAllowed(c, s, es, allowed)
    ensures r.slot == slot && r.delivery.data == data
    ensures AttestedQuietly(c, Step(c, s, NewSlot(slot)), Run(c, s, es), slot, r)
  {
    DataAllowedOne(c, s, NewSlot(slot), allowed);
    var s1 := Run(c, s, [NewSlot(slot)]);
    AttestIsAllowed(s1.ledger, s1.book.duties, slot, c.slotsPerEpoch, false, c.detectionOff);
    var rest;
    rest, r := AttestationRun(c, s1, 0, slot, hosts, data, allowed);
    es := [NewSlot(slot)] + rest;
    DataAllowedAppend(c, s, [NewSlot(slot)], rest, allowed);
  }

  lemma DistinctWhenApart(s: State, allowed: (nat, nat) -> bool)
    requires OnePerSlot(s.requests) && SignedAllowed(s.requests, allowed) && TellsApart(allowed)
    ensures DataSlotsDistinct(s)
  {
    var rs := s.requests;
    forall i, j | 0 <= i < j < |rs| ensures rs[i].delivery.data.slot != rs[j].delivery.data.slot {
      SignedOneAllowed(rs, i, allowed);
      SignedOneAllowed(rs, j, allowed);
      assert rs[i].slot != rs[j].slot;
    }
  }

  lemma TwoDataOneSlot(
    c: Params, configured: set<Host>, ready: set<Host>, slot: nat, later: nat, carried: nat, allowed: (nat, nat) -> bool)
    requires c.slotsPerEpoch > 0 && 1 <= c.threshold <= |ready| && ready <= configured
    requires slot < later && allowed(slot, carried) && allowed(later, carried)
    ensures !OneDatumPerSlot(c, configured, ready, allowed)
  {
    var d1 := ProvenDuty(AttesterDuty("", 0, 0, 0, slot), "");
    var d2 := ProvenDuty(AttesterDuty("", 0, 0, 0, later), "");
    var duties: Duties := map[slot / c.slotsPerEpoch := {d1, d2}][later / c.slotsPerEpoch := {d1, d2}];
    var b := Boot(slot, configured, ready, duties, map[]);
    var data := AttestationData(carried, 0, "", Checkpoint(0, ""), Checkpoint(0, ""));
    var hosts := TakeSome(ready, c.threshold);
    var s0 := Initial(b);
    var es1, r1 := AttestAt(c, s0, slot, d1, hosts, data, allowed);
    var s1 := Run(c, s0, es1);
    NothingDueNothingTaken(duties, slot, c.slotsPerEpoch, later / c.slotsPerEpoch);
    var es2, r2 := AttestAt(c, s1, later, d2, hosts, data, allowed);
    DataAllowedAppend(c, s0, es1, es2, allowed);
    var end := Run(c, s0, es1 + es2);
    assert end.requests == [r1, r2];
    assert end.requests[0].delivery.data.slot == end.requests[1].delivery.data.slot;
  }

  /**
   The client signs at most one datum per data slot, over every run, if and only if the slots that nodes answer for
   different duty slots cannot be the same: it compares them with nothing itself.
   */
  lemma OneDatumPerSlotIff(c: Params, configured: set<Host>, ready: set<Host>, allowed: (nat, nat) -> bool)
    requires c.slotsPerEpoch > 0 && 1 <= c.threshold <= |ready| && ready <= configured
    ensures OneDatumPerSlot(c, configured, ready, allowed) <==> TellsApart(allowed)
  {
    if TellsApart(allowed) {
      forall b, es | Booted(c, b) && b.configured == configured && b.ready == ready && DataAllowed(c, Initial(b), es, allowed)
        ensures DataSlotsDistinct(Run(c, Initial(b), es))
      {
        RunHoldsAllowed(c, b, es, allowed);
        EveryRun(c, b, es);
        DistinctWhenApart(Run(c, Initial(b), es), allowed);
      }
    } else {
      var s: nat, t: nat, carried: nat :| allowed(s, carried) && allowed(t, carried) && s != t;
      TwoDataOneSlot(c, configured, ready, if s < t then s else t, if s < t then t else s, carried, allowed);
    }
  }

  /** So it does when every answer carries the duty's own slot, and does not when a node may answer with any slot. */
  lemma DataSlotsAreTheNodesWord(c: Params, configured: set<Host>, ready: set<Host>)
    requires c.slotsPerEpoch > 0 && 1 <= c.threshold <= |ready| && ready <= configured
    ensures OneDatumPerSlot(c, configured, ready, (slot: nat, carried: nat) => carried == slot)
    ensures !OneDatumPerSlot(c, configured, ready, (slot: nat, carried: nat) => true)
  {
    OneDatumPerSlotIff(c, configured, ready, (slot: nat, carried: nat) => carried == slot);
    var any := (slot: nat, carried: nat) => true;
    assert any(0, 0) && any(1, 0);
    OneDatumPerSlotIff(c, configured, ready, any);
  }
}
