/** The block proposal service's fields, its guards and the search for upcoming duties (src/services/block_proposal.py). */
module BlockProposal {
  import opened Basics
  import opened Types
  import opened DutyLedger

  datatype ProposerDuty = ProposerDuty(pubkey: string, validatorIndex: nat, slot: nat)

  type Duties = map<nat, set<ProposerDuty>>

  function SlotDuties(duties: Duties, slot: nat, slotsPerEpoch: nat): set<ProposerDuty>
    requires slotsPerEpoch > 0
  {
    set d | d in At(duties, slot / slotsPerEpoch) && d.slot == slot
  }

  datatype Lookup = NoDuty | Unexpected | Found(duty: ProposerDuty)

  /** Two duties for one slot are an error, not a choice. */
  function DutyForSlot(duties: Duties, slot: nat, slotsPerEpoch: nat): (r: Lookup)
    requires slotsPerEpoch > 0
    ensures r.Found? ==> r.duty in At(duties, slot / slotsPerEpoch) && r.duty.slot == slot
  {
    var found := SlotDuties(duties, slot, slotsPerEpoch);
    if |found| == 0 then NoDuty
    else if |found| != 1 then Unexpected
    else
      OnlyElement(found);
      var d :| d in found;
      Found(d)
  }

  lemma OnlyElement<T>(s: set<T>)
    requires |s| == 1
    ensures s != {}
    ensures forall x, y :: x in s && y in s ==> x == y
  {
    forall x, y | x in s && y in s ensures x == y {
      if x != y {
        SubsetSize({x, y}, s);
      }
    }
    var x :| x in s;
  }

  /** A duty is found exactly when one single stored duty of the slot's epoch has that slot. */
  lemma DutyForSlotIff(duties: Duties, slot: nat, slotsPerEpoch: nat, d: ProposerDuty)
    requires slotsPerEpoch > 0
    ensures DutyForSlot(duties, slot, slotsPerEpoch) == Found(d) <==>
              && d in At(duties, slot / slotsPerEpoch) && d.slot == slot
              && forall e :: e in At(duties, slot / slotsPerEpoch) && e.slot == slot ==> e == d
  {
    var found := SlotDuties(duties, slot, slotsPerEpoch);
    assert forall e :: e in found <==> e in At(duties, slot / slotsPerEpoch) && e.slot == slot;
    if d in found && forall e :: e in found ==> e == d {
      assert found == {d};
    }
    if |found| == 1 {
      OnlyElement(found);
    }
  }

  // ---------- next_duty_slot ----------

  /** `min(..., default=None)` */
  function Earliest(slots: set<nat>): (r: Option<nat>)
    ensures r.None? <==> slots == {}
    ensures r.Some? ==> r.value in slots && forall x :: x in slots ==> r.value <= x
  {
    if slots == {} then None else Some(Smallest(slots))
  }

  predicate Upcoming(l: Ledger, d: ProposerDuty) {
    d.slot > l.started && d.slot > l.now
  }

  function EarliestIn(l: Ledger, duties: set<ProposerDuty>): Option<nat> {
    Earliest(set d | d in duties && Upcoming(l, d) :: d.slot)
  }

  function NextDutySlot(l: Ledger, duties: Duties): Option<int> {
    if HasOngoingDuty(l) then Some(l.started)
    else Earliest(EarliestPerEpoch(l, duties))
  }

  function EarliestPerEpoch(l: Ledger, duties: Duties): set<nat> {
    set e | e in duties && EarliestIn(l, duties[e]).Some? :: EarliestIn(l, duties[e]).value
  }

  predicate HasUpcomingDuty(l: Ledger, duties: Duties) {
    var next := NextDutySlot(l, duties);
    next.Some? && next.value <= l.now + 3
  }

  ghost predicate StoredAt(duties: Duties, slot: int) {
    exists e, d :: e in duties && d in duties[e] && d.slot == slot
  }

  lemma EarliestInMeaning(l: Ledger, duties: set<ProposerDuty>)
    ensures var r := EarliestIn(l, duties);
            && (forall d :: d in duties && Upcoming(l, d) ==> r.Some? && r.value <= d.slot)
            && (r.Some? ==> exists d :: d in duties && Upcoming(l, d) && d.slot == r.value)
  {
    var slots := set d | d in duties && Upcoming(l, d) :: d.slot;
    forall d | d in duties && Upcoming(l, d) ensures d.slot in slots {}
  }

  lemma EarliestPerEpochAreStored(l: Ledger, duties: Duties)
    requires l.started <= l.now
    ensures forall x :: x in EarliestPerEpoch(l, duties) ==> StoredAt(duties, x) && x > l.now
  {
  }

  lemma NoEarlierDuty(l: Ledger, duties: Duties, other: int)
    requires l.started <= l.now && StoredAt(duties, other) && other > l.now
    ensures var next := Earliest(EarliestPerEpoch(l, duties));
            next.Some? && next.value <= other
  {
    var e, d :| e in duties && d in duties[e] && d.slot == other;
    EarliestInMeaning(l, duties[e]);
    assert EarliestIn(l, duties[e]).value in EarliestPerEpoch(l, duties);
  }

  /** `slot` is the earliest stored duty slot after `now`. */
  ghost predicate EarliestAfter(duties: Duties, now: nat, slot: int) {
    && StoredAt(duties, slot) && slot > now
    && forall other :: StoredAt(duties, other) && other > now ==> slot <= other
  }

  /** A duty of the current slot that has not finished is still the next one. */
  lemma OngoingIsNext(l: Ledger, duties: Duties)
    requires Inv(l) && HasOngoingDuty(l)
    ensures NextDutySlot(l, duties) == Some(l.now)
  {
  }

  /** The nested minimum is the earliest stored duty after the current slot. */
  lemma NextDutySlotMeaning(l: Ledger, duties: Duties)
    requires Inv(l) && !HasOngoingDuty(l)
    ensures var next := NextDutySlot(l, duties);
            if next.Some? then EarliestAfter(duties, l.now, next.value)
            else forall other :: StoredAt(duties, other) ==> other <= l.now
  {
    forall other | StoredAt(duties, other) && other > l.now
      ensures var next := Earliest(EarliestPerEpoch(l, duties)); next.Some? && next.value <= other
    {
      NoEarlierDuty(l, duties, other);
    }
    var next := NextDutySlot(l, duties);
    if next.Some? {
      EarliestPerEpochAreStored(l, duties);
    }
  }

  /** An upcoming duty is an unfinished one of this slot or a stored one of the next three. */
  lemma HasUpcomingDutyIff(l: Ledger, duties: Duties)
    requires Inv(l)
    ensures HasUpcomingDuty(l, duties) <==>
              HasOngoingDuty(l) || exists slot :: l.now < slot <= l.now + 3 && StoredAt(duties, slot)
  {
    if !HasOngoingDuty(l) {
      NextDutySlotMeaning(l, duties);
    }
  }

  // ---------- the service ----------

  datatype Verdict = SlashingDetected | AlreadyStarted | WrongSlot | TooManyDuties | NothingToDo | Propose(duty: ProposerDuty)

  function Decide(l: Ledger, duties: Duties, slot: nat, slotsPerEpoch: nat, slashed: bool, detectionOff: bool): Verdict
    requires slotsPerEpoch > 0
  {
    if slashed && !detectionOff then SlashingDetected
    else if slot <= l.started then AlreadyStarted
    else if slot != l.now then WrongSlot
    else
      match DutyForSlot(duties, slot, slotsPerEpoch)
      case NoDuty => NothingToDo
      case Unexpected => TooManyDuties
      case Found(d) => Propose(d)
  }

  lemma ProposeIsAllowed(
    l: Ledger, duties: Duties, slot: nat, slotsPerEpoch: nat, slashed: bool, detectionOff: bool, d: ProposerDuty)
    requires slotsPerEpoch > 0
    ensures Decide(l, duties, slot, slotsPerEpoch, slashed, detectionOff) == Propose(d) <==>
              && MayStart(l, slot) && !(slashed && !detectionOff)
              && d in At(duties, slot / slotsPerEpoch) && d.slot == slot
              && forall e :: e in At(duties, slot / slotsPerEpoch) && e.slot == slot ==> e == d
  {
    DutyForSlotIff(duties, slot, slotsPerEpoch, d);
  }

  /** Every other verdict has its own reason; two duties for the slot are an error. */
  lemma VerdictIff(l: Ledger, duties: Duties, slot: nat, slotsPerEpoch: nat, slashed: bool, detectionOff: bool)
    requires slotsPerEpoch > 0
    ensures var v := Decide(l, duties, slot, slotsPerEpoch, slashed, detectionOff);
            var stopped := slashed && !detectionOff;
            && (v == SlashingDetected <==> stopped)
            && (v == AlreadyStarted <==> !stopped && slot <= l.started)
            && (v == WrongSlot <==> !stopped && slot > l.started && slot != l.now)
            && (v == NothingToDo <==> !stopped && MayStart(l, slot) && forall d :: d in At(duties, slot / slotsPerEpoch) ==> d.slot != slot)
            && (v == TooManyDuties <==>
                  && !stopped && MayStart(l, slot)
                  && exists d, e :: d in At(duties, slot / slotsPerEpoch) && e in At(duties, slot / slotsPerEpoch)
                                    && d.slot == slot && e.slot == slot && d != e)
  {
    LookupIff(duties, slot, slotsPerEpoch);
  }

  /** No duty is found exactly when none of the slot is stored, and more than one is an error. */
  lemma LookupIff(duties: Duties, slot: nat, slotsPerEpoch: nat)
    requires slotsPerEpoch > 0
    ensures DutyForSlot(duties, slot, slotsPerEpoch) == NoDuty <==>
              forall d :: d in At(duties, slot / slotsPerEpoch) ==> d.slot != slot
    ensures DutyForSlot(duties, slot, slotsPerEpoch) == Unexpected <==>
              exists d, e :: d in At(duties, slot / slotsPerEpoch) && e in At(duties, slot / slotsPerEpoch)
                             && d.slot == slot && e.slot == slot && d != e
  {
    var found := SlotDuties(duties, slot, slotsPerEpoch);
    assert forall d :: d in found <==> d in At(duties, slot / slotsPerEpoch) && d.slot == slot;
    if |found| == 1 {
      OnlyElement(found);
    } else if |found| > 1 {
      var d :| d in found;
      assert |found - {d}| > 0;
      var e :| e in found - {d};
      assert d in found && e in found;
    }
  }

  function WithoutDuty(duties: Duties, slot: nat, slotsPerEpoch: nat, d: ProposerDuty): Duties
    requires slotsPerEpoch > 0
  {
    var epoch := slot / slotsPerEpoch;
    duties[epoch := At(duties, epoch) - {d}]
  }

  /** The fetched duties of our validators that are not over; the current slot's duty is among them again. */
  function Replaced(duties: Duties, epoch: nat, fetched: seq<ProposerDuty>, now: nat, ours: set<nat>): Duties {
    duties[epoch := set d | d in fetched && d.slot >= now && d.validatorIndex in ours]
  }

  class BlockProposalService {
    const slotsPerEpoch: nat
    var proposerDuties: Duties
    var proposerDutiesDependentRoots: map<nat, Root>
    var lastSlotDutyStartedFor: int
    var lastSlotDutyCompletedFor: int
    ghost var ledger: Ledger

    ghost predicate Valid()
      reads this
    {
      && slotsPerEpoch > 0
      && Inv(ledger)
      && ledger.started == lastSlotDutyStartedFor
      && ledger.completed == lastSlotDutyCompletedFor
    }

    constructor (slotsPerEpoch: nat, now: nat)
      requires slotsPerEpoch > 0
      ensures Valid() && ledger == Fresh(now) && proposerDuties == map[] && proposerDutiesDependentRoots == map[]
      ensures this.slotsPerEpoch == slotsPerEpoch
    {
      this.slotsPerEpoch := slotsPerEpoch;
      proposerDuties, proposerDutiesDependentRoots := map[], map[];
      lastSlotDutyStartedFor, lastSlotDutyCompletedFor := -1, -1;
      ledger := Fresh(now);
    }

    /** Everything up to the first suspension of `_propose_block`: the guards, removing the duty, the start mark. */
    method ProposeBlock(slot: nat, now: nat, slashed: bool, detectionOff: bool, ghost id: nat) returns (verdict: Verdict)
      requires Valid() && now == ledger.now && id !in ledger.running
      modifies this
      ensures Valid()
      ensures verdict == Decide(old(ledger), old(proposerDuties), slot, slotsPerEpoch, slashed, detectionOff)
      ensures ledger == if verdict.Propose? then Begin(old(ledger), id, slot) else old(ledger)
      ensures proposerDuties == if verdict.Propose? then WithoutDuty(old(proposerDuties), slot, slotsPerEpoch, verdict.duty)
                                else old(proposerDuties)
      ensures proposerDutiesDependentRoots == old(proposerDutiesDependentRoots)
      ensures forall e, d :: d in At(proposerDuties, e) <==>
                d in At(old(proposerDuties), e) && !(verdict == Propose(d) && e == slot / slotsPerEpoch)
    {
      if slashed && !detectionOff {
        return SlashingDetected;
      }
      if slot <= lastSlotDutyStartedFor {
        return AlreadyStarted;
      }
      if slot != now {
        return WrongSlot;
      }
      var lookup := DutyForSlot(proposerDuties, slot, slotsPerEpoch);
      match lookup {
        case NoDuty => return NothingToDo;
        case Unexpected => return TooManyDuties;
        case Found(duty) =>
          var epoch := slot / slotsPerEpoch;
          proposerDuties := proposerDuties[epoch := At(proposerDuties, epoch) - {duty}];
          lastSlotDutyStartedFor := slot;
          ledger := Begin(ledger, id, slot);
          return Propose(duty);
      }
    }

    method ProposeFinished(slot: nat, ghost id: nat)
      requires Valid() && id in ledger.running && ledger.running[id] == slot
      modifies this`lastSlotDutyCompletedFor, this`ledger
      ensures Valid() && ledger == End(old(ledger), id)
    {
      lastSlotDutyCompletedFor := slot;
      ledger := End(ledger, id);
    }

    /** One epoch of `_update_duties`, after its response arrived. */
    method ReplaceDuties(epoch: nat, root: Root, fetched: seq<ProposerDuty>, now: nat, ours: set<nat>)
      modifies this`proposerDuties, this`proposerDutiesDependentRoots
      ensures proposerDuties == Replaced(old(proposerDuties), epoch, fetched, now, ours)
      ensures forall d :: d in At(proposerDuties, epoch) <==> d in fetched && d.slot >= now && d.validatorIndex in ours
      ensures forall e :: e != epoch ==> At(proposerDuties, e) == At(old(proposerDuties), e)
      ensures proposerDutiesDependentRoots == old(proposerDutiesDependentRoots)[epoch := root]
    {
      proposerDutiesDependentRoots := proposerDutiesDependentRoots[epoch := root];
      var kept: set<ProposerDuty> := {};
      for i := 0 to |fetched|
        invariant kept == set d | d in fetched[..i] && d.slot >= now && d.validatorIndex in ours
      {
        assert fetched[..i + 1] == fetched[..i] + [fetched[i]];
        if fetched[i].slot >= now && fetched[i].validatorIndex in ours {
          kept := kept + {fetched[i]};
        }
      }
      assert fetched[..|fetched|] == fetched;
      proposerDuties := proposerDuties[epoch := kept];
    }
  }
}
