/** The attestation service's fields and the stretches of its coroutines between two suspensions (src/services/attestation.py). */
module AttestationService {
  import opened Basics
  import opened Types
  import opened DutyLedger

  datatype AttesterDuty = AttesterDuty(
    pubkey: string,
    validatorIndex: nat,
    committeeIndex: nat,
    committeeLength: nat,
    slot: nat)

  datatype ProvenDuty = ProvenDuty(duty: AttesterDuty, selectionProof: string)

  /** Duties by epoch. */
  type Duties = map<nat, set<ProvenDuty>>

  function Due(duties: Duties, slot: nat, slotsPerEpoch: nat): set<ProvenDuty>
    requires slotsPerEpoch > 0
  {
    set d | d in At(duties, slot / slotsPerEpoch) && d.duty.slot == slot
  }

  function WithoutDue(duties: Duties, slot: nat, slotsPerEpoch: nat): Duties
    requires slotsPerEpoch > 0
  {
    var epoch := slot / slotsPerEpoch;
    duties[epoch := At(duties, epoch) - Due(duties, slot, slotsPerEpoch)]
  }

  // ---------- attest_if_not_yet_attested ----------

  datatype Verdict = SlashingDetected | AlreadyStarted | WrongSlot | Attest | Prefetch | NothingToDo
  {
    /** The guards let the call pass, so it takes the duties of its slot. */
    predicate TakesDuties() {
      Attest? || Prefetch? || NothingToDo?
    }
  }

  function Decide(l: Ledger, duties: Duties, slot: nat, slotsPerEpoch: nat, slashed: bool, detectionOff: bool): Verdict
    requires slotsPerEpoch > 0
  {
    if slashed && !detectionOff then SlashingDetected
    else if slot <= l.started then AlreadyStarted
    else if slot != l.now then WrongSlot
    else if Due(duties, slot, slotsPerEpoch) != {} then Attest
    else if At(duties, slot / slotsPerEpoch) != {} then Prefetch
    else NothingToDo
  }

  /** Only the verdict `Attest` touches the ledger, and only through an allowed start. */
  lemma AttestIsAllowed(l: Ledger, duties: Duties, slot: nat, slotsPerEpoch: nat, slashed: bool, detectionOff: bool)
    requires slotsPerEpoch > 0
    ensures Decide(l, duties, slot, slotsPerEpoch, slashed, detectionOff) == Attest <==>
              && MayStart(l, slot)
              && !(slashed && !detectionOff)
              && exists d :: d in At(duties, slot / slotsPerEpoch) && d.duty.slot == slot
  {
    assert forall d :: d in Due(duties, slot, slotsPerEpoch) <==> d in At(duties, slot / slotsPerEpoch) && d.duty.slot == slot;
  }

  /** Every other verdict has its own reason; without a duty due, a later duty of the epoch makes the call fetch ahead. */
  lemma VerdictIff(l: Ledger, duties: Duties, slot: nat, slotsPerEpoch: nat, slashed: bool, detectionOff: bool)
    requires slotsPerEpoch > 0
    ensures var v := Decide(l, duties, slot, slotsPerEpoch, slashed, detectionOff);
            var stopped := slashed && !detectionOff;
            var due := exists d :: d in At(duties, slot / slotsPerEpoch) && d.duty.slot == slot;
            var other := exists d :: d in At(duties, slot / slotsPerEpoch);
            && (v == SlashingDetected <==> stopped)
            && (v == AlreadyStarted <==> !stopped && slot <= l.started)
            && (v == WrongSlot <==> !stopped && slot > l.started && slot != l.now)
            && (v == Prefetch <==> !stopped && MayStart(l, slot) && !due && other)
            && (v == NothingToDo <==> !stopped && MayStart(l, slot) && !other)
  {
    AttestIsAllowed(l, duties, slot, slotsPerEpoch, slashed, detectionOff);
    assert forall d :: d in Due(duties, slot, slotsPerEpoch) ==> d in At(duties, slot / slotsPerEpoch);
  }

  /** From `before` to `after` all duties of the slot are gone, and every other one is where it was. */
  ghost predicate TakenExactly(before: Duties, after: Duties, slot: nat, slotsPerEpoch: nat)
    requires slotsPerEpoch > 0
  {
    forall e, d :: d in At(after, e) <==> d in At(before, e) && !(e == slot / slotsPerEpoch && d.duty.slot == slot)
  }

  /** Taking the duties of a slot takes all of them and nothing else. */
  lemma TakenIff(duties: Duties, slot: nat, slotsPerEpoch: nat)
    requires slotsPerEpoch > 0
    ensures forall d :: d in Due(duties, slot, slotsPerEpoch) <==> d in At(duties, slot / slotsPerEpoch) && d.duty.slot == slot
    ensures TakenExactly(duties, WithoutDue(duties, slot, slotsPerEpoch), slot, slotsPerEpoch)
  {
    var after := WithoutDue(duties, slot, slotsPerEpoch);
    forall e: nat ensures At(after, e) == set d | d in At(duties, e) && !(e == slot / slotsPerEpoch && d.duty.slot == slot) {
      NothingDueNothingTaken(duties, slot, slotsPerEpoch, e);
    }
  }

  /** Without a duty due, taking the duties of the slot takes nothing. */
  lemma NothingDueNothingTaken(duties: Duties, slot: nat, slotsPerEpoch: nat, epoch: nat)
    requires slotsPerEpoch > 0
    ensures At(WithoutDue(duties, slot, slotsPerEpoch), epoch)
         == if epoch == slot / slotsPerEpoch then At(duties, epoch) - Due(duties, slot, slotsPerEpoch) else At(duties, epoch)
    ensures Due(duties, slot, slotsPerEpoch) == {} ==>
              At(WithoutDue(duties, slot, slotsPerEpoch), epoch) == At(duties, epoch)
  {
  }

  // ---------- _update_duties ----------

  /** The fetched duties with a slot in `from..to`; the order is kept. */
  function InSlots(fetched: seq<AttesterDuty>, from: nat, to: Option<nat>): seq<AttesterDuty> {
    if fetched == [] then []
    else
      var init, last := InSlots(fetched[..|fetched| - 1], from, to), fetched[|fetched| - 1];
      if from <= last.slot && (to.Some? ==> last.slot <= to.value) then init + [last] else init
  }

  function DueSoon(fetched: seq<AttesterDuty>, now: nat): seq<AttesterDuty> {
    InSlots(fetched, now, Some(now + 1))
  }

  function DueLater(fetched: seq<AttesterDuty>, now: nat): seq<AttesterDuty> {
    InSlots(fetched, now + 2, None)
  }

  lemma {:induction false} InSlotsElements(fetched: seq<AttesterDuty>, from: nat, to: Option<nat>)
    ensures forall d :: d in InSlots(fetched, from, to) <==>
              d in fetched && from <= d.slot && (to.Some? ==> d.slot <= to.value)
  {
    if fetched != [] {
      var init, last := fetched[..|fetched| - 1], fetched[|fetched| - 1];
      assert fetched == init + [last];
      InSlotsElements(init, from, to);
    }
  }

  /** The two batches hold every duty that has not expired, each one time as often as it was fetched. */
  lemma {:induction false} BatchesPartition(fetched: seq<AttesterDuty>, now: nat)
    ensures multiset(DueSoon(fetched, now)) + multiset(DueLater(fetched, now)) == multiset(InSlots(fetched, now, None))
  {
    if fetched != [] {
      var init, last := fetched[..|fetched| - 1], fetched[|fetched| - 1];
      BatchesPartition(init, now);
    }
  }

  /** A batch can be stored only when every one of its keys got a selection proof. */
  predicate AllProven(batch: seq<AttesterDuty>, proofs: map<string, string>) {
    forall d :: d in batch ==> d.pubkey in proofs
  }

  function Proven(batch: seq<AttesterDuty>, proofs: map<string, string>): set<ProvenDuty>
    requires AllProven(batch, proofs)
  {
    set d | d in batch :: ProvenDuty(d, proofs[d.pubkey])
  }

  function Store(duties: Duties, epoch: nat, batch: seq<AttesterDuty>, proofs: map<string, string>): Duties
    requires AllProven(batch, proofs)
  {
    duties[epoch := At(duties, epoch) + Proven(batch, proofs)]
  }

  /** From `before` to `after` each duty of the batch has come to its epoch, with its own key's proof, and nothing else changed. */
  ghost predicate StoredExactly(before: Duties, after: Duties, epoch: nat, batch: seq<AttesterDuty>, proofs: map<string, string>) {
    forall e, p :: p in At(after, e) <==>
      || p in At(before, e)
      || (e == epoch && p.duty in batch && p.duty.pubkey in proofs && p.selectionProof == proofs[p.duty.pubkey])
  }

  lemma StoredIff(duties: Duties, epoch: nat, batch: seq<AttesterDuty>, proofs: map<string, string>)
    requires AllProven(batch, proofs)
    ensures StoredExactly(duties, Store(duties, epoch, batch, proofs), epoch, batch, proofs)
  {
    var after := Store(duties, epoch, batch, proofs);
    assert At(after, epoch) == At(duties, epoch) + Proven(batch, proofs);
    assert forall e: nat :: e != epoch ==> At(after, e) == At(duties, e);
    forall p: ProvenDuty ensures p in Proven(batch, proofs) <==>
                                 p.duty in batch && p.duty.pubkey in proofs && p.selectionProof == proofs[p.duty.pubkey]
    {
      if p.duty in batch && p.selectionProof == proofs[p.duty.pubkey] {
        assert p == ProvenDuty(p.duty, proofs[p.duty.pubkey]);
      }
    }
  }

  // ---------- the service ----------

  class AttestationService {
    const slotsPerEpoch: nat
    var attesterDuties: Duties
    var attesterDutiesDependentRoots: map<nat, Root>
    var lastSlotDutyStartedFor: int
    var lastSlotDutyCompletedFor: int
    ghost var ledger: Ledger

    ghost predicate Valid()
      reads this
    {
      && slotsPerEpoch > 0
      && Inv(ledger)
      && ledger.started == lastSlotDutyStartedFor
      && ledger.completed == lastSlotDutyCompletedFor
    }

    constructor (slotsPerEpoch: nat, now: nat)
      requires slotsPerEpoch > 0
      ensures Valid() && ledger == Fresh(now) && attesterDuties == map[] && attesterDutiesDependentRoots == map[]
      ensures this.slotsPerEpoch == slotsPerEpoch
    {
      this.slotsPerEpoch := slotsPerEpoch;
      attesterDuties, attesterDutiesDependentRoots := map[], map[];
      lastSlotDutyStartedFor, lastSlotDutyCompletedFor := -1, -1;
      ledger := Fresh(now);
    }

    method GetDutiesForSlot(slot: nat) returns (due: set<ProvenDuty>)
      requires slotsPerEpoch > 0
      modifies this`attesterDuties
      ensures due == Due(old(attesterDuties), slot, slotsPerEpoch)
      ensures attesterDuties == WithoutDue(old(attesterDuties), slot, slotsPerEpoch)
      ensures forall d :: d in due <==> d in At(old(attesterDuties), slot / slotsPerEpoch) && d.duty.slot == slot
      ensures TakenExactly(old(attesterDuties), attesterDuties, slot, slotsPerEpoch)
    {
      var epoch := slot / slotsPerEpoch;
      due := set d | d in At(attesterDuties, epoch) && d.duty.slot == slot;
      attesterDuties := attesterDuties[epoch := At(attesterDuties, epoch)];
      var left := due;
      while left != {}
        invariant left <= due
        invariant epoch in attesterDuties && attesterDuties[epoch] == At(old(attesterDuties), epoch) - (due - left)
        invariant attesterDuties == old(attesterDuties)[epoch := attesterDuties[epoch]]
      {
        var d :| d in left;
        attesterDuties := attesterDuties[epoch := attesterDuties[epoch] - {d}];
        left := left - {d};
      }
      assert due - left == due;
      TakenIff(old(attesterDuties), slot, slotsPerEpoch);
    }

    /** Everything up to the first suspension: the guards, taking the duties, and the start mark of `_attest`. */
    method AttestIfNotYetAttested(slot: nat, now: nat, slashed: bool, detectionOff: bool, ghost id: nat)
      returns (verdict: Verdict, due: set<ProvenDuty>)
      requires Valid() && now == ledger.now && id !in ledger.running
      modifies this
      ensures Valid()
      ensures verdict == Decide(old(ledger), old(attesterDuties), slot, slotsPerEpoch, slashed, detectionOff)
      ensures ledger == if verdict == Attest then Begin(old(ledger), id, slot) else old(ledger)
      ensures verdict == Attest ==> due == Due(old(attesterDuties), slot, slotsPerEpoch) && due != {}
      ensures attesterDuties == if verdict.TakesDuties() then WithoutDue(old(attesterDuties), slot, slotsPerEpoch) else old(attesterDuties)
      ensures attesterDutiesDependentRoots == old(attesterDutiesDependentRoots)
    {
      due := {};
      if slashed && !detectionOff {
        return SlashingDetected, due;
      }
      if slot <= lastSlotDutyStartedFor {
        return AlreadyStarted, due;
      }
      if slot != now {
        return WrongSlot, due;
      }
      due := GetDutiesForSlot(slot);
      if due != {} {
        AttestStarted(slot, id);
        return Attest, due;
      }
      NothingDueNothingTaken(old(attesterDuties), slot, slotsPerEpoch, slot / slotsPerEpoch);
      verdict := if At(attesterDuties, slot / slotsPerEpoch) != {} then Prefetch else NothingToDo;
    }

    /** `_attest` marks the slot as started before it first suspends. */
    method AttestStarted(slot: nat, ghost id: nat)
      requires Valid() && MayStart(ledger, slot) && id !in ledger.running
      modifies this`lastSlotDutyStartedFor, this`ledger
      ensures Valid() && ledger == Begin(old(ledger), id, slot)
    {
      GuardedStepsKeepInv(ledger, id, slot, ledger.now);
      lastSlotDutyStartedFor := slot;
      ledger := Begin(ledger, id, slot);
    }

    /** The `finally` clause around `_attest`. */
    method AttestFinished(slot: nat, ghost id: nat)
      requires Valid() && id in ledger.running && ledger.running[id] == slot
      modifies this`lastSlotDutyCompletedFor, this`ledger
      ensures Valid() && ledger == End(old(ledger), id)
    {
      lastSlotDutyCompletedFor := slot;
      ledger := End(ledger, id);
    }

    /** A fetched epoch is new: forget what is stored for it, and split the duties that have not expired. */
    method SplitFetched(epoch: nat, fetched: seq<AttesterDuty>, now: nat)
      returns (soon: seq<AttesterDuty>, later: seq<AttesterDuty>)
      modifies this`attesterDuties
      ensures attesterDuties == old(attesterDuties)[epoch := {}]
      ensures soon == DueSoon(fetched, now) && later == DueLater(fetched, now)
      ensures forall d :: d in soon <==> d in fetched && now <= d.slot <= now + 1
      ensures forall d :: d in later <==> d in fetched && d.slot > now + 1
    {
      attesterDuties := attesterDuties[epoch := {}];
      soon, later := [], [];
      for i := 0 to |fetched|
        invariant soon == DueSoon(fetched[..i], now) && later == DueLater(fetched[..i], now)
      {
        var duty := fetched[i];
        assert fetched[..i + 1][..i] == fetched[..i];
        if duty.slot < now {
        } else if duty.slot <= now + 1 {
          soon := soon + [duty];
        } else {
          later := later + [duty];
        }
      }
      assert fetched[..|fetched|] == fetched;
      InSlotsElements(fetched, now, Some(now + 1));
      InSlotsElements(fetched, now + 2, None);
    }

    /** One missing proof fails the whole batch before anything is stored. */
    method AddDutiesWithProofs(epoch: nat, batch: seq<AttesterDuty>, proofs: map<string, string>) returns (stored: bool)
      modifies this`attesterDuties
      ensures stored <==> forall d :: d in batch ==> d.pubkey in proofs
      ensures stored ==> StoredExactly(old(attesterDuties), attesterDuties, epoch, batch, proofs)
      ensures attesterDuties == if stored then Store(old(attesterDuties), epoch, batch, proofs) else old(attesterDuties)
    {
      var withProofs: set<ProvenDuty> := {};
      for i := 0 to |batch|
        invariant AllProven(batch[..i], proofs) && withProofs == Proven(batch[..i], proofs)
      {
        if batch[i].pubkey !in proofs {
          return false;
        }
        assert batch[..i + 1] == batch[..i] + [batch[i]];
        withProofs := withProofs + {ProvenDuty(batch[i], proofs[batch[i].pubkey])};
        assert withProofs == Proven(batch[..i + 1], proofs);
      }
      assert batch[..|batch|] == batch;
      StoredIff(attesterDuties, epoch, batch, proofs);
      attesterDuties := attesterDuties[epoch := At(attesterDuties, epoch) + withProofs];
      return true;
    }

    method PruneDuties(currentEpoch: nat)
      modifies this`attesterDuties, this`attesterDutiesDependentRoots
      ensures forall e :: e in attesterDuties <==> e in old(attesterDuties) && e >= currentEpoch
      ensures forall e :: e in attesterDuties ==> attesterDuties[e] == old(attesterDuties)[e]
      ensures forall e :: e in attesterDutiesDependentRoots <==> e in old(attesterDutiesDependentRoots) && e >= currentEpoch
      ensures forall e :: e in attesterDutiesDependentRoots ==>
                attesterDutiesDependentRoots[e] == old(attesterDutiesDependentRoots)[e]
      ensures attesterDuties == Drop(old(attesterDuties), currentEpoch)
      ensures attesterDutiesDependentRoots == Drop(old(attesterDutiesDependentRoots), currentEpoch)
    {
      attesterDuties := DropLoop(attesterDuties, currentEpoch);
      attesterDutiesDependentRoots := DropLoop(attesterDutiesDependentRoots, currentEpoch);
    }

    static method DropLoop<V>(m: map<nat, V>, currentEpoch: nat) returns (kept: map<nat, V>)
      ensures kept == Drop(m, currentEpoch)
    {
      kept := m;
      var left := m.Keys;
      while left != {}
        invariant left <= m.Keys
        invariant forall e :: e in kept <==> e in m && (e in left || e >= currentEpoch)
        invariant forall e :: e in kept ==> kept[e] == m[e]
      {
        var e :| e in left;
        if e < currentEpoch {
          kept := kept - {e};
        }
        left := left - {e};
      }
    }
  }
}
