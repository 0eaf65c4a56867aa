/**
 Every run of the block proposal duty, with slashing alerts, duty refreshes that bring the current slot's duty back,
 and a shutdown that waits for proposals (src/services/block_proposal.py, src/shutdown.py,
 src/services/validator_status_tracker.py).
 */
module BlockRuns {
  import opened Basics
  import opened Types
  import opened DutyLedger
  import opened ValidatorStatusTracker
  import opened BlockProposal
  import Clock = BeaconClock
  import BestBlock

  datatype Params = Params(slotsPerEpoch: nat, detectionOff: bool)

  datatype Stage = Revealing | Producing | Signing | Publishing

  datatype Work = Work(duty: ProposerDuty, stage: Stage)

  datatype Header = Header(slot: nat, proposerIndex: nat, parentRoot: Root, stateRoot: Root, bodyRoot: Root)

  /** A block header handed to the signer at slot `at`. */
  datatype Request = Request(slot: nat, duty: ProposerDuty, header: Header, at: nat)

  /** Where `shut_down` is: not begun, looking for upcoming duties, waiting, past its first loop, or failed. */
  datatype Shutdown = NotRequested | Checking | AwaitingSlot(duty: int) | AwaitingDuty(slot: nat) | PastProposals | Crashed

  datatype State = State(
    ledger: Ledger,
    duties: Duties,
    work: map<nat, Work>,
    requests: seq<Request>,
    statuses: Statuses,
    shutdown: Shutdown)

  datatype Event =
    | NewSlot(to: nat)
    | ProposeNow(id: nat, slot: nat)
    | Revealed(id: nat)
    | Produced(id: nat, header: Header)
    | Signed(id: nat)
    | Ended(id: nat)
    | Status(seen: ValidatorStatusTracker.Event)
    | Refreshed(epoch: nat, fetched: seq<ProposerDuty>, ours: set<nat>)
    | PruneDuties
    | ShutdownRequested
    | ShutdownResumed

  function Initial(now: nat, duties: Duties): State {
    State(Fresh(now), duties, map[], [], UNKNOWN, NotRequested)
  }

  function Proposing(c: Params, s: State, id: nat, slot: nat): State
    requires c.slotsPerEpoch > 0
  {
    match Decide(s.ledger, s.duties, slot, c.slotsPerEpoch, s.statuses.slashed, c.detectionOff)
    case Propose(duty) =>
      s.(ledger := Begin(s.ledger, id, slot),
         duties := WithoutDuty(s.duties, slot, c.slotsPerEpoch, duty),
         work := s.work[id := Work(duty, Revealing)])
    case _ => s
  }

  function Moved(s: State, id: nat, from: Stage, to: Stage): State {
    if id in s.work && s.work[id].stage == from then s.(work := s.work[id := s.work[id].(stage := to)]) else s
  }

  function OnProduced(s: State, id: nat, header: Header): State {
    if id in s.work && s.work[id].stage == Producing && id in s.ledger.running then
      Moved(s, id, Producing, Signing)
        .(requests := s.requests + [Request(s.ledger.running[id], s.work[id].duty, header, s.ledger.now)])
    else s
  }

  // ---------- shut_down ----------

  /** An upcoming duty always has a slot, so the loop's own check for a missing one never succeeds. */
  function CheckDuties(s: State): Shutdown {
    if !HasUpcomingDuty(s.ledger, s.duties) then PastProposals
    else AwaitingSlot(NextDutySlot(s.ledger, s.duties).value)
  }

  /** `wait_for_duty_completion`, entered at the current slot. */
  function BeginWaiting(c: Params, s: State): Shutdown
    requires c.slotsPerEpoch > 0
  {
    if s.ledger.completed == s.ledger.now then Checking
    else
      match DutyForSlot(s.duties, s.ledger.now, c.slotsPerEpoch)
      case Unexpected => Crashed
      case NoDuty => if NothingToWaitFor(s.ledger, s.ledger.now, false) then Checking else AwaitingDuty(s.ledger.now)
      case Found(_) => AwaitingDuty(s.ledger.now)
  }

  function ShutdownNext(c: Params, s: State): Shutdown
    requires c.slotsPerEpoch > 0
  {
    match s.shutdown
    case Checking => CheckDuties(s)
    case AwaitingSlot(slot) => if s.ledger.now < slot then s.shutdown else BeginWaiting(c, s)
    case AwaitingDuty(slot) => if s.ledger.completed < slot then s.shutdown else Checking
    case _ => s.shutdown
  }

  // ---------- the machine ----------

  function Step(c: Params, s: State, e: Event): State
    requires c.slotsPerEpoch > 0
  {
    match e
    case NewSlot(to) => s.(ledger := Tick(s.ledger, to))
    case ProposeNow(id, slot) => if id in s.work || id in s.ledger.running then s else Proposing(c, s, id, slot)
    case Revealed(id) => Moved(s, id, Revealing, Producing)
    case Produced(id, header) => OnProduced(s, id, header)
    case Signed(id) => Moved(s, id, Signing, Publishing)
    case Ended(id) => s.(ledger := End(s.ledger, id), work := s.work - {id})
    case Status(seen) => s.(statuses := Observe(s.statuses, seen))
    case Refreshed(epoch, fetched, ours) => s.(duties := Replaced(s.duties, epoch, fetched, s.ledger.now, ours))
    case PruneDuties => s.(duties := Drop(s.duties, s.ledger.now / c.slotsPerEpoch))
    case ShutdownRequested => if s.shutdown.NotRequested? then s.(shutdown := Checking) else s
    case ShutdownResumed => s.(shutdown := ShutdownNext(c, s))
  }

  function Run(c: Params, s: State, es: seq<Event>): State
    requires c.slotsPerEpoch > 0
  {
    if es == [] then s else Step(c, Run(c, s, es[..|es| - 1]), es[|es| - 1])
  }

  // ---------- the invariant ----------

  ghost predicate RequestOk(l: Ledger, r: Request) {
    r.duty.slot == r.slot <= r.at <= l.now && Start(r.slot, r.slot) in l.starts
  }

  ghost predicate WorkOk(l: Ledger, w: Work, id: nat, requests: seq<Request>) {
    && id in l.running
    && w.duty.slot == l.running[id]
    && Start(l.running[id], l.running[id]) in l.starts
    && (w.stage.Revealing? || w.stage.Producing? ==>
          forall i :: 0 <= i < |requests| ==> requests[i].slot != l.running[id])
  }

  ghost predicate RunInv(s: State) {
    && Inv(s.ledger)
    && (forall i, j :: 0 <= i < j < |s.requests| ==> s.requests[i].slot != s.requests[j].slot)
    && (forall i :: 0 <= i < |s.requests| ==> RequestOk(s.ledger, s.requests[i]))
    && (forall id :: id in s.work ==> WorkOk(s.ledger, s.work[id], id, s.requests))
  }

  lemma OldWorkStaysOk(l: Ledger, w: Work, other: nat, id: nat, slot: nat, requests: seq<Request>)
    requires WorkOk(l, w, other, requests) && other != id
    ensures WorkOk(Begin(l, id, slot), w, other, requests)
  {
  }

  lemma NewWorkOk(s: State, id: nat, slot: nat, duty: ProposerDuty)
    requires RunInv(s) && MayStart(s.ledger, slot) && duty.slot == slot
    ensures WorkOk(Begin(s.ledger, id, slot), Work(duty, Revealing), id, s.requests)
    ensures forall i :: 0 <= i < |s.requests| ==> RequestOk(Begin(s.ledger, id, slot), s.requests[i])
  {
  }

  lemma StartKeepsInv(s: State, after: State, id: nat, slot: nat, duty: ProposerDuty)
    requires RunInv(s) && MayStart(s.ledger, slot) && duty.slot == slot && id !in s.work && id !in s.ledger.running
    requires after.ledger == Begin(s.ledger, id, slot) && after.work == s.work[id := Work(duty, Revealing)]
    requires after.requests == s.requests
    ensures RunInv(after)
  {
    GuardedStepsKeepInv(s.ledger, id, slot, 0);
    NewWorkOk(s, id, slot, duty);
    forall other | other in s.work ensures WorkOk(after.ledger, s.work[other], other, s.requests) {
      OldWorkStaysOk(s.ledger, s.work[other], other, id, slot, s.requests);
    }
  }

  lemma ProposingKeepsInv(c: Params, s: State, id: nat, slot: nat)
    requires c.slotsPerEpoch > 0 && RunInv(s) && id !in s.work && id !in s.ledger.running
    ensures RunInv(Proposing(c, s, id, slot))
  {
    var verdict := Decide(s.ledger, s.duties, slot, c.slotsPerEpoch, s.statuses.slashed, c.detectionOff);
    if verdict.Propose? {
      ProposeIsAllowed(s.ledger, s.duties, slot, c.slotsPerEpoch, s.statuses.slashed, c.detectionOff, verdict.duty);
      StartKeepsInv(s, Proposing(c, s, id, slot), id, slot, verdict.duty);
    }
  }

  lemma LedgerMoveKeepsInv(s: State, after: State)
    requires RunInv(s) && Inv(after.ledger)
    requires after.requests == s.requests && after.work.Keys <= s.work.Keys
    requires forall id :: id in after.work ==>
               after.work[id] == s.work[id] && id in after.ledger.running && after.ledger.running[id] == s.ledger.running[id]
    requires after.ledger.starts == s.ledger.starts && s.ledger.now <= after.ledger.now
    ensures RunInv(after)
  {
  }

  lemma MovedKeepsInv(s: State, id: nat, from: Stage, to: Stage)
    requires RunInv(s)
    requires to.Revealing? || to.Producing? ==> from.Revealing? || from.Producing?
    ensures RunInv(Moved(s, id, from, to))
  {
  }

  lemma ProducedKeepsInv(s: State, id: nat, header: Header)
    requires RunInv(s)
    ensures RunInv(OnProduced(s, id, header))
  {
    var after := OnProduced(s, id, header);
    if after != s {
      assert WorkOk(s.ledger, s.work[id], id, s.requests);
      assert RequestOk(s.ledger, after.requests[|s.requests|]);
      forall other | other in s.work ensures WorkOk(s.ledger, after.work[other], other, after.requests) {
        assert WorkOk(s.ledger, s.work[other], other, s.requests);
      }
    }
  }

  lemma TickKeepsInv(s: State, to: nat)
    requires RunInv(s)
    ensures RunInv(s.(ledger := Tick(s.ledger, to)))
  {
  }

  lemma EndKeepsInv(s: State, id: nat)
    requires RunInv(s)
    ensures RunInv(s.(ledger := End(s.ledger, id), work := s.work - {id}))
  {
    GuardedStepsKeepInv(s.ledger, id, 0, 0);
    LedgerMoveKeepsInv(s, s.(ledger := End(s.ledger, id), work := s.work - {id}));
  }

  lemma StepKeepsInv(c: Params, s: State, e: Event)
    requires c.slotsPerEpoch > 0 && RunInv(s)
    ensures RunInv(Step(c, s, e))
  {
    match e
    case NewSlot(to) => TickKeepsInv(s, to);
    case ProposeNow(id, slot) =>
      if id !in s.work && id !in s.ledger.running {
        ProposingKeepsInv(c, s, id, slot);
      }
    case Revealed(id) => MovedKeepsInv(s, id, Revealing, Producing);
    case Produced(id, header) => ProducedKeepsInv(s, id, header);
    case Signed(id) => MovedKeepsInv(s, id, Signing, Publishing);
    case Ended(id) => EndKeepsInv(s, id);
    case _ =>
  }

  lemma {:induction false} RunKeepsInv(c: Params, s: State, es: seq<Event>)
    requires c.slotsPerEpoch > 0 && RunInv(s)
    ensures RunInv(Run(c, s, es))
  {
    if es != [] {
      RunKeepsInv(c, s, es[..|es| - 1]);
      StepKeepsInv(c, Run(c, s, es[..|es| - 1]), es[|es| - 1]);
    }
  }

  // ---------- what holds over every run ----------

  /** At most one block per slot goes to the signer, and only for a slot whose proposal began in that very slot. */
  lemma OneBlockPerSlot(c: Params, now: nat, duties: Duties, es: seq<Event>)
    requires c.slotsPerEpoch > 0
    ensures var end := Run(c, Initial(now, duties), es);
            && (forall i, j :: 0 <= i < j < |end.requests| ==> end.requests[i].slot != end.requests[j].slot)
            && (forall i :: 0 <= i < |end.requests| ==>
                  && end.requests[i].duty.slot == end.requests[i].slot <= end.requests[i].at
                  && Start(end.requests[i].slot, end.requests[i].slot) in end.ledger.starts)
            && StartsIncrease(end.ledger.starts)
            && end.ledger.completed <= end.ledger.started <= end.ledger.now
  {
    RunKeepsInv(c, Initial(now, duties), es);
    var end := Run(c, Initial(now, duties), es);
    forall i | 0 <= i < |end.requests| ensures RequestOk(end.ledger, end.requests[i]) {}
  }

  // ---------- the slots that signed headers carry ----------

  /** A beacon node produces a block for a proposal: it carries a slot that it may carry for that duty's slot. */
  ghost predicate AllowedNext(s: State, e: Event, allowed: (nat, nat) -> bool) {
    e.Produced? && e.id in s.work ==> allowed(s.work[e.id].duty.slot, e.header.slot)
  }

  /** Every produced block carries an allowed slot. */
  ghost predicate HeadersAllowed(c: Params, s: State, es: seq<Event>, allowed: (nat, nat) -> bool)
    requires c.slotsPerEpoch > 0
  {
    if es == [] then true
    else
      && HeadersAllowed(c, s, es[..|es| - 1], allowed)
      && AllowedNext(Run(c, s, es[..|es| - 1]), es[|es| - 1], allowed)
  }

  ghost predicate SignedAllowed(rs: seq<Request>, allowed: (nat, nat) -> bool) {
    forall r :: r in rs ==> allowed(r.duty.slot, r.header.slot)
  }

  lemma {:induction false} AllowedIsSigned(c: Params, s: State, es: seq<Event>, allowed: (nat, nat) -> bool)
    requires c.slotsPerEpoch > 0 && HeadersAllowed(c, s, es, allowed) && SignedAllowed(s.requests, allowed)
    ensures SignedAllowed(Run(c, s, es).requests, allowed)
  {
    if es != [] {
      var init, last := es[..|es| - 1], es[|es| - 1];
      AllowedIsSigned(c, s, init, allowed);
      OnlyProducedIsSigned(c, Run(c, s, init), last);
    }
  }

  lemma OnlyProducedIsSigned(c: Params, s: State, e: Event)
    requires c.slotsPerEpoch > 0
    ensures var after := Step(c, s, e);
            || after.requests == s.requests
            || (&& e.Produced? && e.id in s.work && e.id in s.ledger.running
                && after.requests == s.requests + [Request(s.ledger.running[e.id], s.work[e.id].duty, e.header, s.ledger.now)]
                && s.work[e.id].stage.Producing?)
  {
  }

  lemma {:induction false} RunAppend(c: Params, s: State, first: seq<Event>, second: seq<Event>)
    requires c.slotsPerEpoch > 0
    ensures Run(c, s, first + second) == Run(c, Run(c, s, first), second)
  {
    if second == [] {
      assert first + second == first;
    } else {
      var init, last := second[..|second| - 1], second[|second| - 1];
      assert first + second == (first + init) + [last] && second == init + [last];
      RunAppend(c, s, first, init);
      RunStep(c, s, first + init, last);
      RunStep(c, Run(c, s, first), init, last);
    }
  }

  lemma HeadersAllowedStep(c: Params, s: State, es: seq<Event>, e: Event, allowed: (nat, nat) -> bool)
    requires c.slotsPerEpoch > 0
    ensures HeadersAllowed(c, s, es + [e], allowed) <==>
              HeadersAllowed(c, s, es, allowed) && AllowedNext(Run(c, s, es), e, allowed)
  {
    var all := es + [e];
    assert all[..|all| - 1] == es && all[|all| - 1] == e;
  }

  lemma {:induction false} HeadersAllowedAppend(
    c: Params, s: State, first: seq<Event>, second: seq<Event>, allowed: (nat, nat) -> bool)
    requires c.slotsPerEpoch > 0
    requires HeadersAllowed(c, s, first, allowed) && HeadersAllowed(c, Run(c, s, first), second, allowed)
    ensures HeadersAllowed(c, s, first + second, allowed)
    ensures Run(c, s, first + second) == Run(c, Run(c, s, first), second)
  {
    RunAppend(c, s, first, second);
    if second == [] {
      assert first + second == first;
    } else {
      var init, last := second[..|second| - 1], second[|second| - 1];
      assert first + second == (first + init) + [last] && second == init + [last];
      HeadersAllowedStep(c, Run(c, s, first), init, last, allowed);
      HeadersAllowedAppend(c, s, first, init, allowed);
      HeadersAllowedStep(c, s, first + init, last, allowed);
    }
  }

  ghost predicate HeaderSlotsDistinct(s: State) {
    forall i, j :: 0 <= i < j < |s.requests| ==> s.requests[i].header.slot != s.requests[j].header.slot
  }

  ghost predicate OneHeaderPerSlot(c: Params, allowed: (nat, nat) -> bool)
    requires c.slotsPerEpoch > 0
  {
    forall now, duties, es ::
      HeadersAllowed(c, Initial(now, duties), es, allowed) ==> HeaderSlotsDistinct(Run(c, Initial(now, duties), es))
  }

  /** No slot may be carried by the blocks of two different duty slots. */
  ghost predicate TellsApart(allowed: (nat, nat) -> bool) {
    forall s, t, carried :: allowed(s, carried) && allowed(t, carried) ==> s == t
  }

  lemma DistinctWhenApart(s: State, allowed: (nat, nat) -> bool)
    requires forall i, j :: 0 <= i < j < |s.requests| ==> s.requests[i].slot != s.requests[j].slot
    requires forall i :: 0 <= i < |s.requests| ==> s.requests[i].duty.slot == s.requests[i].slot
    requires SignedAllowed(s.requests, allowed) && TellsApart(allowed)
    ensures HeaderSlotsDistinct(s)
  {
    var rs := s.requests;
    forall i, j | 0 <= i < j < |rs| ensures rs[i].header.slot != rs[j].header.slot {
      assert rs[i] in rs && rs[j] in rs;
      assert allowed(rs[i].duty.slot, rs[i].header.slot) && allowed(rs[j].duty.slot, rs[j].header.slot);
    }
  }

  /** A whole proposal, from the start of its slot to its end. */
  lemma ProposalRun(c: Params, s: State, id: nat, d: ProposerDuty, header: Header, allowed: (nat, nat) -> bool)
    returns (es: seq<Event>)
    requires c.slotsPerEpoch > 0 && id !in s.work && id !in s.ledger.running
    requires Decide(s.ledger, s.duties, d.slot, c.slotsPerEpoch, s.statuses.slashed, c.detectionOff) == Propose(d)
    requires allowed(d.slot, header.slot)
    ensures HeadersAllowed(c, s, es, allowed)
    ensures var after := Run(c, s, es);
            && after.requests == s.requests + [Request(d.slot, d, header, s.ledger.now)]
            && after.duties == WithoutDuty(s.duties, d.slot, c.slotsPerEpoch, d)
            && after.ledger.now == s.ledger.now && after.ledger.started == d.slot
            && after.work == s.work && after.ledger.running == s.ledger.running && after.statuses == s.statuses
  {
    es := [ProposeNow(id, d.slot), Revealed(id), Produced(id, header), Ended(id)];
    var s1 := Step(c, s, ProposeNow(id, d.slot));
    var s2 := Step(c, s1, Revealed(id));
    var s3 := Step(c, s2, Produced(id, header));
    var s4 := Step(c, s3, Ended(id));
    assert es[..0] == [] && es[..1][..0] == [] && es[..2][..1] == es[..1] && es[..3][..2] == es[..2];
    assert es[..4] == es && es[..3] == es[..|es| - 1];
    assert Run(c, s, es[..1]) == s1 && HeadersAllowed(c, s, es[..1], allowed);
    assert Run(c, s, es[..2]) == s2 && HeadersAllowed(c, s, es[..2], allowed);
    assert Run(c, s, es[..3]) == s3 && HeadersAllowed(c, s, es[..3], allowed);
    assert Run(c, s, es) == s4;
    assert s4.work == s.work && s4.ledger.running == s.ledger.running;
  }

  /** Two proposals whose blocks carry the same slot. */
  lemma TwoHeadersOneSlot(c: Params, slot: nat, later: nat, carried: nat, allowed: (nat, nat) -> bool)
    requires c.slotsPerEpoch > 0 && slot < later && allowed(slot, carried) && allowed(later, carried)
    ensures !OneHeaderPerSlot(c, allowed)
  {
    var d1, d2 := ProposerDuty("", 0, slot), ProposerDuty("", 0, later);
    var duties: Duties := map[slot / c.slotsPerEpoch := {d1, d2}][later / c.slotsPerEpoch := {d1, d2}];
    var header := Header(carried, 0, "", "", "");
    var s0 := Initial(slot, duties);
    ProposeIsAllowed(s0.ledger, s0.duties, slot, c.slotsPerEpoch, false, c.detectionOff, d1);
    var es1 := ProposalRun(c, s0, 0, d1, header, allowed);
    var s1 := Run(c, s0, es1);
    var s2 := Step(c, s1, NewSlot(later));
    assert [NewSlot(later)][..0] == [];
    HeadersAllowedAppend(c, s0, es1, [NewSlot(later)], allowed);
    ProposeIsAllowed(s2.ledger, s2.duties, later, c.slotsPerEpoch, false, c.detectionOff, d2);
    var es2 := ProposalRun(c, s2, 0, d2, header, allowed);
    var es := es1 + [NewSlot(later)] + es2;
    HeadersAllowedAppend(c, s0, es1 + [NewSlot(later)], es2, allowed);
    var end := Run(c, s0, es);
    assert end.requests == [Request(slot, d1, header, slot), Request(later, d2, header, later)];
    assert end.requests[0].header.slot == end.requests[1].header.slot;
  }

  /**
   The client signs at most one header per header slot, over every run, if and only if the slots that beacon nodes put
   into the blocks for different duty slots cannot be the same: it compares them with nothing itself.
   */
  lemma OneHeaderPerSlotIff(c: Params, allowed: (nat, nat) -> bool)
    requires c.slotsPerEpoch > 0
    ensures OneHeaderPerSlot(c, allowed) <==> TellsApart(allowed)
  {
    if TellsApart(allowed) {
      forall now, duties, es | HeadersAllowed(c, Initial(now, duties), es, allowed)
        ensures HeaderSlotsDistinct(Run(c, Initial(now, duties), es))
      {
        AllowedIsSigned(c, Initial(now, duties), es, allowed);
        OneBlockPerSlot(c, now, duties, es);
        DistinctWhenApart(Run(c, Initial(now, duties), es), allowed);
      }
    } else {
      var s: nat, t: nat, carried: nat :| allowed(s, carried) && allowed(t, carried) && s != t;
      TwoHeadersOneSlot(c, if s < t then s else t, if s < t then t else s, carried, allowed);
    }
  }

  /** So it does when every block carries its own duty's slot, and does not when a node may answer with any slot. */
  lemma HeaderSlotsAreTheNodesWord(c: Params)
    requires c.slotsPerEpoch > 0
    ensures OneHeaderPerSlot(c, (slot: nat, carried: nat) => carried == slot)
    ensures !OneHeaderPerSlot(c, (slot: nat, carried: nat) => true)
  {
    OneHeaderPerSlotIff(c, (slot: nat, carried: nat) => carried == slot);
    var any := (slot: nat, carried: nat) => true;
    assert any(0, 0) && any(1, 0);
    OneHeaderPerSlotIff(c, any);
  }

  // ---------- whose blocks are proposed ----------

  /** A duty from the start, or one of a validator that was ours at the refresh that brought it. */
  ghost predicate OfOurs(initial: Duties, es: seq<Event>, d: ProposerDuty) {
    || (exists e :: e in initial && d in initial[e])
    || (exists ev :: ev in es && ev.Refreshed? && d in ev.fetched && d.validatorIndex in ev.ours)
  }

  ghost predicate AllOfOurs(s: State, initial: Duties, es: seq<Event>) {
    && (forall e, d :: e in s.duties && d in s.duties[e] ==> OfOurs(initial, es, d))
    && (forall id :: id in s.work ==> OfOurs(initial, es, s.work[id].duty))
    && (forall r :: r in s.requests ==> OfOurs(initial, es, r.duty))
  }

  lemma OfOursGrows(initial: Duties, es: seq<Event>, e: Event, d: ProposerDuty)
    requires OfOurs(initial, es, d)
    ensures OfOurs(initial, es + [e], d)
  {
    if ev :| ev in es && ev.Refreshed? && d in ev.fetched && d.validatorIndex in ev.ours {
      assert ev in es + [e];
    }
  }

  lemma AllOfOursGrows(s: State, initial: Duties, es: seq<Event>, e: Event)
    requires AllOfOurs(s, initial, es)
    ensures AllOfOurs(s, initial, es + [e])
  {
    forall d | OfOurs(initial, es, d) ensures OfOurs(initial, es + [e], d) {
      OfOursGrows(initial, es, e, d);
    }
  }

  lemma StepKeepsOurs(c: Params, s: State, e: Event, initial: Duties, es: seq<Event>)
    requires c.slotsPerEpoch > 0 && AllOfOurs(s, initial, es) && e in es
    ensures AllOfOurs(Step(c, s, e), initial, es)
  {
    match e
    case ProposeNow(id, slot) =>
      if id !in s.work && id !in s.ledger.running {
        ProposingKeepsOurs(c, s, id, slot, initial, es);
      }
    case Refreshed(epoch, fetched, ours) =>
      RefreshKeepsOurs(s, e, initial, es);
    case Produced(id, header) =>
      OnlyProducedIsSigned(c, s, e);
    case _ =>
  }

  lemma ProposingKeepsOurs(c: Params, s: State, id: nat, slot: nat, initial: Duties, es: seq<Event>)
    requires c.slotsPerEpoch > 0 && AllOfOurs(s, initial, es)
    ensures AllOfOurs(Proposing(c, s, id, slot), initial, es)
  {
    var verdict := Decide(s.ledger, s.duties, slot, c.slotsPerEpoch, s.statuses.slashed, c.detectionOff);
    if verdict.Propose? {
      ProposeIsAllowed(s.ledger, s.duties, slot, c.slotsPerEpoch, s.statuses.slashed, c.detectionOff, verdict.duty);
    }
  }

  lemma RefreshKeepsOurs(s: State, e: Event, initial: Duties, es: seq<Event>)
    requires e.Refreshed? && e in es && AllOfOurs(s, initial, es)
    ensures AllOfOurs(s.(duties := Replaced(s.duties, e.epoch, e.fetched, s.ledger.now, e.ours)), initial, es)
  {
    var after := Replaced(s.duties, e.epoch, e.fetched, s.ledger.now, e.ours);
    forall k, d | k in after && d in after[k] ensures OfOurs(initial, es, d) {
      if k == e.epoch {
        assert e in es && d in e.fetched && d.validatorIndex in e.ours;
      }
    }
  }

  /** Over every run, a block goes to the signer only for a duty from the start, or of a validator that was ours at a refresh. */
  lemma {:induction false} OnlyOursAreSigned(c: Params, now: nat, duties: Duties, es: seq<Event>)
    requires c.slotsPerEpoch > 0
    ensures AllOfOurs(Run(c, Initial(now, duties), es), duties, es)
  {
    if es != [] {
      var init, last := es[..|es| - 1], es[|es| - 1];
      assert es == init + [last];
      OnlyOursAreSigned(c, now, duties, init);
      AllOfOursGrows(Run(c, Initial(now, duties), init), duties, init, last);
      StepKeepsOurs(c, Run(c, Initial(now, duties), init), last, duties, es);
    }
  }

  /**
   The duty that a refresh brings for one of our validators in the current slot is proposed, if that slot has not been
   started and slashing detection does not object, if and only if it is the only one of ours for the slot.
   */
  lemma FetchedDutyIsProposed(
    c: Params, now: nat, duties: Duties, es: seq<Event>, fetched: seq<ProposerDuty>, ours: set<nat>, d: ProposerDuty, id: nat)
    requires c.slotsPerEpoch > 0
    requires var s := Run(c, Initial(now, duties), es);
             && id !in s.work && id !in s.ledger.running && s.ledger.started < s.ledger.now
             && !(s.statuses.slashed && !c.detectionOff)
             && d in fetched && d.slot == s.ledger.now && d.validatorIndex in ours
    ensures var s := Run(c, Initial(now, duties), es);
            var refreshed := Step(c, s, Refreshed(d.slot / c.slotsPerEpoch, fetched, ours));
            var after := Step(c, refreshed, ProposeNow(id, d.slot));
            (id in after.work && after.work[id] == Work(d, Revealing) && after.ledger.started == d.slot)
            <==> forall e :: e in fetched && e.slot == d.slot && e.validatorIndex in ours ==> e == d
  {
    var s := Run(c, Initial(now, duties), es);
    var refreshed := Step(c, s, Refreshed(d.slot / c.slotsPerEpoch, fetched, ours));
    forall e ensures e in At(refreshed.duties, d.slot / c.slotsPerEpoch) <==>
                       e in fetched && e.slot >= s.ledger.now && e.validatorIndex in ours {}
    ProposeIsAllowed(refreshed.ledger, refreshed.duties, d.slot, c.slotsPerEpoch, s.statuses.slashed, c.detectionOff, d);
  }

  /** The proposal of `d` has begun: the mark is set, the duty is gone from its epoch, and every other duty is where it was. */
  ghost predicate StartedWith(c: Params, s: State, after: State, id: nat, d: ProposerDuty)
    requires c.slotsPerEpoch > 0
  {
    && after.work == s.work[id := Work(d, Revealing)]
    && after.ledger.started == d.slot && after.ledger.running == s.ledger.running[id := d.slot]
    && after.ledger.starts == s.ledger.starts + [Start(d.slot, s.ledger.now)]
    && forall e, k :: k in At(after.duties, e) <==> k in At(s.duties, e) && !(k == d && e == d.slot / c.slotsPerEpoch)
  }

  /**
   In every reachable state, the proposal of a duty starts in its slot if and only if the guards allow it and it is the slot's
   only stored one. Without any start nothing changes.
   */
  lemma ProposalStartsIff(c: Params, now: nat, duties: Duties, es: seq<Event>, id: nat, d: ProposerDuty)
    requires c.slotsPerEpoch > 0
    requires var s := Run(c, Initial(now, duties), es); id !in s.work && id !in s.ledger.running
    ensures var s := Run(c, Initial(now, duties), es);
            var after := Run(c, Initial(now, duties), es + [ProposeNow(id, d.slot)]);
            && (StartedWith(c, s, after, id, d) <==>
                  && !(s.statuses.slashed && !c.detectionOff) && d.slot > s.ledger.started && d.slot == s.ledger.now
                  && d in At(s.duties, d.slot / c.slotsPerEpoch)
                  && forall k :: k in At(s.duties, d.slot / c.slotsPerEpoch) && k.slot == d.slot ==> k == d)
            && (id !in after.work ==> after == s)
  {
    var s := Run(c, Initial(now, duties), es);
    RunStep(c, Initial(now, duties), es, ProposeNow(id, d.slot));
    ProposeIsAllowed(s.ledger, s.duties, d.slot, c.slotsPerEpoch, s.statuses.slashed, c.detectionOff, d);
  }

  /** Pruning forgets exactly the epochs before the current one. */
  lemma PruneForgetsPast(c: Params, s: State)
    requires c.slotsPerEpoch > 0
    ensures var after, epoch := Step(c, s, PruneDuties), s.ledger.now / c.slotsPerEpoch;
            && after == s.(duties := after.duties)
            && (forall e :: e in after.duties <==> e in s.duties && e >= epoch)
            && (forall e :: e in after.duties ==> after.duties[e] == s.duties[e])
  {
  }

  /** A proposal moves on with each answer it waits for, and ends whatever stage it is in. */
  lemma ProposalMoves(c: Params, s: State, id: nat, header: Header)
    requires c.slotsPerEpoch > 0 && id in s.work && id in s.ledger.running
    ensures s.work[id].stage.Revealing? ==> Step(c, s, Revealed(id)).work == s.work[id := s.work[id].(stage := Producing)]
    ensures s.work[id].stage.Producing? ==> Step(c, s, Produced(id, header)).work == s.work[id := s.work[id].(stage := Signing)]
    ensures s.work[id].stage.Signing? ==> Step(c, s, Signed(id)).work == s.work[id := s.work[id].(stage := Publishing)]
    ensures var ended := Step(c, s, Ended(id));
            id !in ended.work && id !in ended.ledger.running && ended.ledger.completed == s.ledger.running[id]
  {
  }

  /** The proposal begins in its slot, but a slow beacon node can delay signing into a later one. */
  lemma SigningMayBeLate(d: ProposerDuty, header: Header)
    requires d.slot == 0
    ensures exists es ::
              var end := Run(Params(1, false), Initial(0, map[0 := {d}]), es);
              |end.requests| == 1 && end.requests[0] == Request(0, d, header, 1)
  {
    var c := Params(1, false);
    var s0 := Initial(0, map[0 := {d}]);
    ProposeIsAllowed(s0.ledger, s0.duties, 0, 1, false, false, d);
    var s1 := Step(c, s0, ProposeNow(7, 0));
    assert s1.work == map[7 := Work(d, Revealing)] && s1.ledger == Begin(s0.ledger, 7, 0);
    var es := [ProposeNow(7, 0)] + [Revealed(7)] + [NewSlot(1)] + [Produced(7, header)];
    RunStep(c, s0, [], ProposeNow(7, 0));
    assert [] + [ProposeNow(7, 0)] == [ProposeNow(7, 0)];
    RunStep(c, s0, [ProposeNow(7, 0)], Revealed(7));
    RunStep(c, s0, [ProposeNow(7, 0)] + [Revealed(7)], NewSlot(1));
    RunStep(c, s0, [ProposeNow(7, 0)] + [Revealed(7)] + [NewSlot(1)], Produced(7, header));
    assert Run(c, s0, es).requests == [Request(0, d, header, 1)];
  }

  /** No slot after `now` begins during the events. */
  ghost predicate WithinSlot(es: seq<Event>, now: nat) {
    forall to: nat :: NewSlot(to) in es ==> to <= now
  }

  /** Until it ends, a proposal keeps its duty and its slot, and the clock leaves the slot only by a later one. */
  lemma {:induction false} WhileProposing(c: Params, s: State, es: seq<Event>, id: nat)
    requires c.slotsPerEpoch > 0 && id in s.work && id in s.ledger.running
    requires Ended(id) !in es
    ensures var after := Run(c, s, es);
            && id in after.work && after.work[id].duty == s.work[id].duty
            && id in after.ledger.running && after.ledger.running[id] == s.ledger.running[id]
            && s.ledger.now <= after.ledger.now
            && (after.ledger.now == s.ledger.now <==> WithinSlot(es, s.ledger.now))
  {
    if es != [] {
      var init, last := es[..|es| - 1], es[|es| - 1];
      assert es == init + [last];
      WhileProposing(c, s, init, id);
      assert WithinSlot(es, s.ledger.now) <==>
             WithinSlot(init, s.ledger.now) && (last.NewSlot? ==> last.to <= s.ledger.now);
      StepKeepsProposal(c, Run(c, s, init), last, id);
    }
  }

  lemma StepKeepsProposal(c: Params, s: State, e: Event, id: nat)
    requires c.slotsPerEpoch > 0 && id in s.work && id in s.ledger.running && e != Ended(id)
    ensures var after := Step(c, s, e);
            && id in after.work && after.work[id].duty == s.work[id].duty
            && id in after.ledger.running && after.ledger.running[id] == s.ledger.running[id]
            && after.ledger.now == if e.NewSlot? && e.to > s.ledger.now then e.to else s.ledger.now
  {
  }

  /**
   A block whose proposal has begun is handed to the signer in its own slot if and only if no later slot begins before
   the beacon nodes have produced it; nothing in the client checks that.
   */
  lemma SignedInOwnSlotIff(c: Params, s: State, es: seq<Event>, id: nat, header: Header)
    requires c.slotsPerEpoch > 0 && RunInv(s)
    requires id in s.work && s.ledger.running[id] == s.ledger.now
    requires Ended(id) !in es
    requires id in Run(c, s, es).work && Run(c, s, es).work[id].stage.Producing?
    ensures var before, after := Run(c, s, es).requests, Step(c, Run(c, s, es), Produced(id, header)).requests;
            && |after| == |before| + 1
            && after == before + [Request(s.ledger.now, s.work[id].duty, header, after[|before|].at)]
            && (after[|before|].at == s.ledger.now <==> WithinSlot(es, s.ledger.now))
  {
    assert WorkOk(s.ledger, s.work[id], id, s.requests);
    WhileProposing(c, s, es, id);
  }

  /**
   By the clock: with the current slot read off it when the block arrives, the block goes to the signer in its own slot
   if and only if the time into the slot at which it was asked for and the time it took are together less than a slot.
   A block of the timed phase, which lasts a sixth of a slot, is on time unless the phase began in the last sixth.
   */
  lemma SignedOnTimeIff(
    c: Params, s: State, es: seq<Event>, id: nat, header: Header, chain: Clock.Chain, asked: real, took: real)
    requires c.slotsPerEpoch > 0 && chain.secondsPerSlot > 0 && RunInv(s)
    requires id in s.work && s.ledger.running[id] == s.ledger.now
    requires Ended(id) !in es
    requires id in Run(c, s, es).work && Run(c, s, es).work[id].stage.Producing?
    requires took >= 0.0 && asked >= Clock.TimestampForSlot(chain, s.ledger.now) as real
    requires Run(c, s, es).ledger.now == Clock.CurrentSlot(chain, asked + took)
    ensures var before, after := Run(c, s, es).requests, Step(c, Run(c, s, es), Produced(id, header)).requests;
            var into := asked - Clock.TimestampForSlot(chain, s.ledger.now) as real;
            var phase := chain.secondsPerSlot as real / 6.0;
            && |after| == |before| + 1
            && after[|before|].slot == s.ledger.now
            && (after[|before|].at == s.ledger.now <==> into + took < chain.secondsPerSlot as real)
            && (took < phase && into <= 5.0 * phase ==> after[|before|].at == s.ledger.now)
  {
    SignedInOwnSlotIff(c, s, es, id, header);
    WhileProposing(c, s, es, id);
    Clock.StartOfLaterSlot(chain, 0, s.ledger.now);
    Clock.CurrentSlotIff(chain, asked + took, s.ledger.now);
    NextStart(chain, s.ledger.now);
  }

  /**
   The step in which the block is asked for, and the timed phase of the choice among the nodes' blocks: asked for at the
   clock's `asked`, the block comes with the last turn of the phase. If every turn was in time, and the phase did not
   begin in the slot's last sixth, the block goes to the signer in its own slot.
   */
  lemma TimedBlockIsOnTime(
    c: Params, s: State, before: seq<Event>, after: seq<Event>, id: nat, header: Header,
    chain: Clock.Chain, asked: real, turns: seq<BestBlock.Turn>, used: nat)
    requires c.slotsPerEpoch > 0 && chain.secondsPerSlot > 0 && RunInv(s)
    requires id in s.work && s.ledger.running[id] == s.ledger.now
    requires Ended(id) !in before + [Revealed(id)] && Ended(id) !in before + [Revealed(id)] + after
    requires asked >= chain.genesisTime as real
    requires Run(c, s, before + [Revealed(id)]).ledger.now == Clock.CurrentSlot(chain, asked)
    requires 0 < used <= |turns| && turns[used - 1].clock >= 0.0
    requires BestBlock.InTime(chain.secondsPerSlot as real / 6.0, turns, used)
    requires asked <= Clock.TimestampForSlot(chain, s.ledger.now) as real + chain.secondsPerSlot as real * 5.0 / 6.0
    requires var end := Run(c, s, before + [Revealed(id)] + after);
             && id in end.work && end.work[id].stage.Producing?
             && end.ledger.now == Clock.CurrentSlot(chain, asked + turns[used - 1].clock)
    ensures var end := Run(c, s, before + [Revealed(id)] + after);
            var signed := Step(c, end, Produced(id, header)).requests;
            && |signed| == |end.requests| + 1
            && signed[|end.requests|].slot == signed[|end.requests|].at == s.ledger.now
  {
    AskedInSlot(c, s, before + [Revealed(id)], id, chain, asked);
    SignedOnTimeIff(c, s, before + [Revealed(id)] + after, id, header, chain, asked, turns[used - 1].clock);
  }

  lemma AskedInSlot(c: Params, s: State, es: seq<Event>, id: nat, chain: Clock.Chain, asked: real)
    requires c.slotsPerEpoch > 0 && chain.secondsPerSlot > 0 && RunInv(s) && id in s.work && Ended(id) !in es
    requires asked >= chain.genesisTime as real && Run(c, s, es).ledger.now == Clock.CurrentSlot(chain, asked)
    ensures asked >= Clock.TimestampForSlot(chain, s.ledger.now) as real
  {
    assert WorkOk(s.ledger, s.work[id], id, s.requests);
    WhileProposing(c, s, es, id);
    Clock.CurrentSlotIff(chain, asked, Clock.CurrentSlot(chain, asked));
    Clock.StartOfLaterSlot(chain, s.ledger.now, Clock.CurrentSlot(chain, asked));
  }

  lemma NextStart(chain: Clock.Chain, slot: nat)
    ensures Clock.TimestampForSlot(chain, slot + 1) == Clock.TimestampForSlot(chain, slot) + chain.secondsPerSlot
  {
    assert (slot + 1) * chain.secondsPerSlot == slot * chain.secondsPerSlot + chain.secondsPerSlot;
  }

  lemma RunStep(c: Params, s: State, es: seq<Event>, e: Event)
    requires c.slotsPerEpoch > 0
    ensures Run(c, s, es + [e]) == Step(c, Run(c, s, es), e)
  {
  }

  lemma StepMoves(c: Params, s: State, e: Event)
    requires c.slotsPerEpoch > 0
    ensures Moves(s.ledger, Step(c, s, e).ledger)
  {
    match e
    case NewSlot(to) => MovesOf(s.ledger, 0, 0, to);
    case ProposeNow(id, slot) => MovesOf(s.ledger, id, slot, 0);
    case Ended(id) => MovesOf(s.ledger, id, 0, 0);
    case _ =>
  }

  ghost function Ledgers(c: Params, s: State, es: seq<Event>): (ls: seq<Ledger>)
    requires c.slotsPerEpoch > 0
    ensures |ls| == |es| + 1 && forall k :: 0 <= k <= |es| ==> ls[k] == Run(c, s, es[..k]).ledger
  {
    seq(|es| + 1, k requires 0 <= k <= |es| => Run(c, s, es[..k]).ledger)
  }

  lemma LedgersMove(c: Params, now: nat, duties: Duties, es: seq<Event>, k: nat)
    requires c.slotsPerEpoch > 0 && k < |es|
    ensures var ls := Ledgers(c, Initial(now, duties), es); Inv(ls[k]) && Moves(ls[k], ls[k + 1])
  {
    RunKeepsInv(c, Initial(now, duties), es[..k]);
    assert es[..k + 1][..k] == es[..k];
    StepMoves(c, Run(c, Initial(now, duties), es[..k]), es[k]);
  }

  /** Over every run the service reports an ongoing proposal exactly when one is running, unless an older one ends late. */
  lemma OngoingIsRightIff(c: Params, now: nat, duties: Duties, es: seq<Event>)
    requires c.slotsPerEpoch > 0
    ensures var ls := Ledgers(c, Initial(now, duties), es); AlwaysTruthful(ls) <==> NeverLate(ls)
  {
    var ls := Ledgers(c, Initial(now, duties), es);
    forall k | 0 <= k < |ls| - 1 ensures Inv(ls[k]) && Moves(ls[k], ls[k + 1]) {
      LedgersMove(c, now, duties, es, k);
    }
    AlwaysTruthfulIff(ls);
  }

  /** The slashing latch is never reset, and while it counts no proposal starts. */
  lemma {:induction false} SlashingStopsProposing(c: Params, s: State, es: seq<Event>)
    requires c.slotsPerEpoch > 0 && s.statuses.slashed && !c.detectionOff
    ensures Run(c, s, es).statuses.slashed && Run(c, s, es).ledger.starts == s.ledger.starts
  {
    if es != [] {
      SlashingStopsProposing(c, s, es[..|es| - 1]);
    }
  }

  /** Proposal `id` of `s` was waiting for its block. */
  ghost predicate Waiting(s: State, id: nat) {
    id in s.work && (s.work[id].stage.Revealing? || s.work[id].stage.Producing?)
  }

  ghost predicate RequestFor(s: State, r: Request) {
    exists id :: Waiting(s, id) && r.duty == s.work[id].duty
  }

  /** From `s` to `after` nothing begins, and only blocks of proposals that were waiting in `s` have gone to the signer. */
  ghost predicate OnlyInFlightSigned(s: State, after: State) {
    && (forall id :: id in after.work ==>
          && id in s.work && after.work[id].duty == s.work[id].duty && (Waiting(after, id) ==> Waiting(s, id)))
    && s.requests <= after.requests
    && forall i :: |s.requests| <= i < |after.requests| ==> RequestFor(s, after.requests[i])
  }

  lemma InFlightComposes(s: State, between: State, after: State)
    requires OnlyInFlightSigned(s, between) && OnlyInFlightSigned(between, after)
    ensures OnlyInFlightSigned(s, after)
  {
    forall i | |s.requests| <= i < |after.requests| ensures RequestFor(s, after.requests[i]) {
      if i < |between.requests| {
        assert after.requests[i] == between.requests[i];
      } else {
        assert RequestFor(between, after.requests[i]);
        var id :| Waiting(between, id) && after.requests[i].duty == between.work[id].duty;
        assert Waiting(s, id);
      }
    }
  }

  lemma SlashedStepContinues(c: Params, s: State, e: Event)
    requires c.slotsPerEpoch > 0 && s.statuses.slashed && !c.detectionOff
    ensures OnlyInFlightSigned(s, Step(c, s, e))
  {
    OnlyProducedIsSigned(c, s, e);
    if e.Produced? && e.id in s.work && s.work[e.id].stage.Producing? {
      assert Waiting(s, e.id);
    }
  }

  /** Once the latch counts, only proposals that were waiting for their block at that moment can still be signed. */
  lemma {:induction false} SlashedSignsOnlyInFlight(c: Params, s: State, es: seq<Event>)
    requires c.slotsPerEpoch > 0 && s.statuses.slashed && !c.detectionOff
    ensures OnlyInFlightSigned(s, Run(c, s, es))
  {
    if es != [] {
      var init, last := es[..|es| - 1], es[|es| - 1];
      SlashedSignsOnlyInFlight(c, s, init);
      SlashingStopsProposing(c, s, init);
      SlashedStepContinues(c, Run(c, s, init), last);
      InFlightComposes(s, Run(c, s, init), Run(c, s, es));
    }
  }

  /** With none waiting nothing more is ever signed. */
  lemma SlashedSignsNothingMore(c: Params, s: State, es: seq<Event>)
    requires c.slotsPerEpoch > 0 && s.statuses.slashed && !c.detectionOff && forall id :: !Waiting(s, id)
    ensures Run(c, s, es).requests == s.requests
  {
    SlashedSignsOnlyInFlight(c, s, es);
    var end := Run(c, s, es);
    assert |s.requests| < |end.requests| ==> RequestFor(s, end.requests[|s.requests|]);
    assert end.requests[..|s.requests|] == s.requests;
  }

  /**
   In every run, shutdown gets past the proposals exactly when it looks and finds none: then no proposal of the current
   slot is running, and none is stored for the next three slots.
   */
  lemma ShutdownWaitsForProposals(c: Params, now: nat, duties: Duties, es: seq<Event>)
    requires c.slotsPerEpoch > 0
    ensures var end := Run(c, Initial(now, duties), es);
            !end.shutdown.PastProposals? && Step(c, end, ShutdownResumed).shutdown.PastProposals? ==>
              && (forall id :: id in end.ledger.running ==> end.ledger.running[id] != end.ledger.now)
              && (forall id :: id in end.work ==> end.work[id].duty.slot != end.ledger.now)
              && (forall slot :: end.ledger.now < slot <= end.ledger.now + 3 ==> !StoredAt(end.duties, slot))
    ensures var end := Run(c, Initial(now, duties), es);
            end.shutdown.Checking? ==>
              (Step(c, end, ShutdownResumed).shutdown.PastProposals? <==>
                 && !HasOngoingDuty(end.ledger)
                 && forall slot :: end.ledger.now < slot <= end.ledger.now + 3 ==> !StoredAt(end.duties, slot))
  {
    RunKeepsInv(c, Initial(now, duties), es);
    var end := Run(c, Initial(now, duties), es);
    HasUpcomingDutyIff(end.ledger, end.duties);
    if !HasOngoingDuty(end.ledger) {
      forall id | id in end.ledger.running ensures end.ledger.running[id] != end.ledger.now {
        if end.ledger.running[id] == end.ledger.now {
          RunningNowIsOngoing(end.ledger, id);
        }
      }
      forall id | id in end.work ensures end.work[id].duty.slot != end.ledger.now {
        assert WorkOk(end.ledger, end.work[id], id, end.requests);
      }
    }
  }

  /** The current slot's duty is waited for unless nothing of it is left; two stored proposals for the slot are an error. */
  lemma BeginWaitingIff(c: Params, s: State)
    requires c.slotsPerEpoch > 0 && Inv(s.ledger)
    ensures var next, here := BeginWaiting(c, s), set d | d in At(s.duties, s.ledger.now / c.slotsPerEpoch) && d.slot == s.ledger.now;
            && (next == Checking <==> s.ledger.completed == s.ledger.now || (here == {} && !HasOngoingDuty(s.ledger)))
            && (next == Crashed <==> s.ledger.completed != s.ledger.now && |here| > 1)
            && (next.Checking? || next.Crashed? || next == AwaitingDuty(s.ledger.now))
  {
    assert SlotDuties(s.duties, s.ledger.now, c.slotsPerEpoch)
           == set d | d in At(s.duties, s.ledger.now / c.slotsPerEpoch) && d.slot == s.ledger.now;
  }

  /** What shutdown waits for is the current slot while a proposal is ongoing, and else the earliest stored duty's. */
  lemma AwaitedIsNext(s: State)
    requires Inv(s.ledger) && CheckDuties(s).AwaitingSlot?
    ensures if HasOngoingDuty(s.ledger) then CheckDuties(s).duty == s.ledger.now
            else EarliestAfter(s.duties, s.ledger.now, CheckDuties(s).duty)
  {
    if HasOngoingDuty(s.ledger) {
      OngoingIsNext(s.ledger, s.duties);
    } else {
      NextDutySlotMeaning(s.ledger, s.duties);
    }
  }

  /** In every run, shutdown waits until the awaited slot, then looks at that slot's duty, and until its completion. */
  lemma ShutdownStepIff(c: Params, now: nat, duties: Duties, es: seq<Event>)
    requires c.slotsPerEpoch > 0
    ensures var s := Run(c, Initial(now, duties), es);
            var next := Step(c, s, ShutdownResumed).shutdown;
            && Inv(s.ledger)
            && Step(c, s, ShutdownRequested) == s.(shutdown := if s.shutdown == NotRequested then Checking else s.shutdown)
            && (s.shutdown == NotRequested ==> next == NotRequested)
            && (s.shutdown.AwaitingSlot? ==> next == if s.ledger.now < s.shutdown.duty then s.shutdown else BeginWaiting(c, s))
            && (s.shutdown.AwaitingDuty? ==> next == if s.ledger.completed >= s.shutdown.slot then Checking else s.shutdown)
  {
    RunKeepsInv(c, Initial(now, duties), es);
  }

  /** Waiting for one slot's duty ends only when it has completed or was never begun, or a later one has completed. */
  lemma WaitingEndsWithTheDuty(c: Params, now: nat, duties: Duties, es: seq<Event>)
    requires c.slotsPerEpoch > 0
    ensures var end := Run(c, Initial(now, duties), es);
            var next := Step(c, end, ShutdownResumed).shutdown;
            && (end.shutdown.AwaitingSlot? && next.Checking? ==>
                  forall id :: id in end.ledger.running ==> end.ledger.running[id] != end.ledger.now)
            && (end.shutdown.AwaitingDuty? && next.Checking? ==>
                  forall id :: id in end.ledger.running && end.ledger.running[id] == end.shutdown.slot ==>
                    end.ledger.completed > end.shutdown.slot)
  {
    RunKeepsInv(c, Initial(now, duties), es);
    var end := Run(c, Initial(now, duties), es);
    if end.shutdown.AwaitingSlot? && Step(c, end, ShutdownResumed).shutdown.Checking? {
      forall id | id in end.ledger.running ensures end.ledger.running[id] != end.ledger.now {
        NothingRunningWhenNotWaiting(end.ledger, false, id);
      }
    }
  }
}
