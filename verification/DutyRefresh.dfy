/**
 Refreshing attester duties: the lock, the retry loop, and the suspension points of `_update_duties`
 (src/services/validator_duty_service.py, src/services/attestation.py).
 */
module DutyRefresh {
  import opened Basics
  import opened Types
  import opened DutyLedger
  import opened AttestationService

  /** Where a running `update_duties` is suspended; `since` is the number of attestations started before the split. */
  datatype Refresh =
    | Fetching(base: nat, epoch: nat, startEpoch: nat)
    | Proving(base: nat, epoch: nat, startEpoch: nat, root: Root, fetched: seq<AttesterDuty>,
              splitAt: nat, soon: bool, since: nat)
    | BackingOff(startEpoch: nat)

  /** Everything a refresh reads and writes. */
  datatype Book = Book(duties: Duties, roots: map<nat, Root>, locked: bool, refreshes: map<nat, Refresh>)

  datatype Event =
    | Start(id: nat)
    | Fetched(id: nat, root: Root, data: seq<AttesterDuty>)
    | ProofsSigned(id: nat, proofs: map<string, string>)
    | Failed(id: nat)
    | Retry(id: nat)

  /** What a step sees of the rest of the client. */
  datatype View = View(now: nat, epoch: nat, validators: set<nat>, attested: nat)

  function Released(b: Book, id: nat): Book {
    b.(refreshes := b.refreshes - {id}, locked := false)
  }

  function Suspend(b: Book, id: nat, r: Refresh): Book {
    b.(refreshes := b.refreshes[id := r])
  }

  /** The head of the retry loop: leave it when the epoch is over, otherwise begin `_update_duties` anew. */
  function Attempt(v: View, b: Book, id: nat, startEpoch: nat): Book {
    if v.epoch != startEpoch || v.validators == {} then Released(b, id)
    else Suspend(b, id, Fetching(v.epoch, v.epoch, startEpoch))
  }

  /** One epoch is done: go on with the following one, or prune and finish. */
  function NextEpoch(v: View, b: Book, id: nat, base: nat, epoch: nat, startEpoch: nat): Book {
    if epoch == base then Suspend(b, id, Fetching(base, base + 1, startEpoch))
    else Released(b.(duties := Drop(b.duties, v.epoch), roots := Drop(b.roots, v.epoch)), id)
  }

  function OnFetched(v: View, b: Book, id: nat, root: Root, data: seq<AttesterDuty>): Book
    requires id in b.refreshes && b.refreshes[id].Fetching?
  {
    var r := b.refreshes[id];
    if r.epoch in b.roots && b.roots[r.epoch] == root then NextEpoch(v, b, id, r.base, r.epoch, r.startEpoch)
    else
      Suspend(b.(duties := b.duties[r.epoch := {}]), id,
              Proving(r.base, r.epoch, r.startEpoch, root, data, v.now, true, v.attested))
  }

  function Batch(r: Refresh): seq<AttesterDuty>
    requires r.Proving?
  {
    if r.soon then DueSoon(r.fetched, r.splitAt) else DueLater(r.fetched, r.splitAt)
  }

  function WithBatch(b: Book, r: Refresh, proofs: map<string, string>): Book
    requires r.Proving? && AllProven(Batch(r), proofs)
  {
    b.(duties := Store(b.duties, r.epoch, Batch(r), proofs))
  }

  /** The second batch is in: the dependent root is written. */
  function WithRoot(b: Book, r: Refresh, proofs: map<string, string>): Book
    requires r.Proving? && AllProven(Batch(r), proofs)
  {
    WithBatch(b, r, proofs).(roots := b.roots[r.epoch := r.root])
  }

  function OnProofs(v: View, b: Book, id: nat, proofs: map<string, string>): Book
    requires id in b.refreshes && b.refreshes[id].Proving?
  {
    var r := b.refreshes[id];
    if !AllProven(Batch(r), proofs) then Suspend(b, id, BackingOff(r.startEpoch))
    else if r.soon then Suspend(WithBatch(b, r, proofs), id, r.(soon := false))
    else NextEpoch(v, WithRoot(b, r, proofs), id, r.base, r.epoch, r.startEpoch)
  }

  function Step(v: View, b: Book, e: Event): Book {
    match e
    case Start(id) =>
      if b.locked || id in b.refreshes then b
      else Attempt(v, Suspend(b, id, BackingOff(v.epoch)).(locked := true), id, v.epoch)
    case Fetched(id, root, data) =>
      if id in b.refreshes && b.refreshes[id].Fetching? then OnFetched(v, b, id, root, data) else b
    case ProofsSigned(id, proofs) =>
      if id in b.refreshes && b.refreshes[id].Proving? then OnProofs(v, b, id, proofs) else b
    case Failed(id) =>
      if id in b.refreshes then Suspend(b, id, BackingOff(b.refreshes[id].startEpoch)) else b
    case Retry(id) =>
      if id in b.refreshes && b.refreshes[id].BackingOff? then Attempt(v, b, id, b.refreshes[id].startEpoch) else b
  }

  // ---------- mutual exclusion ----------

  ghost predicate OneAtATime(b: Book) {
    && (b.locked <==> b.refreshes.Keys != {})
    && forall id, other :: id in b.refreshes && other in b.refreshes ==> id == other
  }

  lemma StepKeepsOneAtATime(v: View, b: Book, e: Event)
    requires OneAtATime(b)
    ensures OneAtATime(Step(v, b, e))
  {
  }

  // ---------- coverage ----------

  /** The duty is stored for its epoch, or an attestation started since the split took it along. */
  ghost predicate Covered(duties: Duties, consumed: seq<set<ProvenDuty>>, epoch: nat, since: nat, d: AttesterDuty) {
    || (exists p :: p in At(duties, epoch) && p.duty == d)
    || (exists i, p :: since <= i < |consumed| && p in consumed[i] && p.duty == d)
  }

  ghost predicate AllCovered(
    duties: Duties, consumed: seq<set<ProvenDuty>>, epoch: nat, since: nat, batch: seq<AttesterDuty>) {
    forall d :: d in batch ==> Covered(duties, consumed, epoch, since, d)
  }

  /** While the later batch is being proven, the soon batch is not lost. */
  ghost predicate NothingLost(b: Book, consumed: seq<set<ProvenDuty>>) {
    forall id :: id in b.refreshes && b.refreshes[id].Proving? ==>
      var r := b.refreshes[id];
      && r.since <= |consumed|
      && (!r.soon ==> AllCovered(b.duties, consumed, r.epoch, r.since, DueSoon(r.fetched, r.splitAt)))
  }

  lemma StoringCovers(b: Book, r: Refresh, proofs: map<string, string>, consumed: seq<set<ProvenDuty>>)
    requires r.Proving? && AllProven(Batch(r), proofs)
    ensures AllCovered(WithBatch(b, r, proofs).duties, consumed, r.epoch, r.since, Batch(r))
    ensures forall batch :: AllCovered(b.duties, consumed, r.epoch, r.since, batch)
                            ==> AllCovered(WithBatch(b, r, proofs).duties, consumed, r.epoch, r.since, batch)
  {
    var after := WithBatch(b, r, proofs).duties;
    assert At(after, r.epoch) == At(b.duties, r.epoch) + Proven(Batch(r), proofs);
    forall d | d in Batch(r) ensures Covered(after, consumed, r.epoch, r.since, d) {
      assert ProvenDuty(d, proofs[d.pubkey]) in At(after, r.epoch);
    }
  }

  lemma StepKeepsNothingLost(v: View, b: Book, consumed: seq<set<ProvenDuty>>, e: Event)
    requires OneAtATime(b) && NothingLost(b, consumed) && v.attested == |consumed|
    ensures NothingLost(Step(v, b, e), consumed)
  {
    if e.ProofsSigned? && e.id in b.refreshes && b.refreshes[e.id].Proving? {
      ProofsKeepNothingLost(v, b, consumed, e.id, e.proofs);
    } else {
      assert forall id :: id in Step(v, b, e).refreshes && id != e.id ==> id in b.refreshes;
    }
  }

  lemma ProofsKeepNothingLost(v: View, b: Book, consumed: seq<set<ProvenDuty>>, id: nat, proofs: map<string, string>)
    requires OneAtATime(b) && NothingLost(b, consumed) && id in b.refreshes && b.refreshes[id].Proving?
    ensures NothingLost(OnProofs(v, b, id, proofs), consumed)
  {
    var r, after := b.refreshes[id], OnProofs(v, b, id, proofs);
    if AllProven(Batch(r), proofs) {
      StoringCovers(b, r, proofs, consumed);
    }
    assert forall other :: other in after.refreshes ==> other == id;
  }

  /** Taking the duties of a slot moves them from the book to the attestation that takes them. */
  lemma TakingKeepsCovered(
    duties: Duties, consumed: seq<set<ProvenDuty>>, slot: nat, slotsPerEpoch: nat, epoch: nat, since: nat, d: AttesterDuty)
    requires slotsPerEpoch > 0 && since <= |consumed| && Covered(duties, consumed, epoch, since, d)
    ensures Covered(WithoutDue(duties, slot, slotsPerEpoch), consumed + [Due(duties, slot, slotsPerEpoch)], epoch, since, d)
  {
    var after := WithoutDue(duties, slot, slotsPerEpoch);
    var taken := consumed + [Due(duties, slot, slotsPerEpoch)];
    if p :| p in At(duties, epoch) && p.duty == d {
      if p !in At(after, epoch) {
        assert p in taken[|consumed|];
      }
    } else {
      var i, p :| since <= i < |consumed| && p in consumed[i] && p.duty == d;
      assert p in taken[i];
    }
  }

  lemma TakingKeepsNothingLost(b: Book, consumed: seq<set<ProvenDuty>>, slot: nat, slotsPerEpoch: nat)
    requires slotsPerEpoch > 0 && NothingLost(b, consumed)
    ensures NothingLost(b.(duties := WithoutDue(b.duties, slot, slotsPerEpoch)),
                        consumed + [Due(b.duties, slot, slotsPerEpoch)])
  {
    forall id, d | id in b.refreshes && b.refreshes[id].Proving? && !b.refreshes[id].soon
                   && d in DueSoon(b.refreshes[id].fetched, b.refreshes[id].splitAt)
      ensures Covered(WithoutDue(b.duties, slot, slotsPerEpoch), consumed + [Due(b.duties, slot, slotsPerEpoch)],
                      b.refreshes[id].epoch, b.refreshes[id].since, d)
    {
      var r := b.refreshes[id];
      TakingKeepsCovered(b.duties, consumed, slot, slotsPerEpoch, r.epoch, r.since, d);
    }
  }

  /** A step writes a dependent root only by storing the later batch of the epoch with all its proofs. */
  lemma RootsAreWrittenOnlyThen(v: View, b: Book, e: Event, epoch: nat)
    requires epoch in Step(v, b, e).roots
    ensures (epoch in b.roots && b.roots[epoch] == Step(v, b, e).roots[epoch])
            || (&& e.ProofsSigned? && e.id in b.refreshes && b.refreshes[e.id].Proving?
                && var r := b.refreshes[e.id];
                   !r.soon && AllProven(Batch(r), e.proofs) && epoch == r.epoch && Step(v, b, e).roots[epoch] == r.root)
  {
  }

  /** Duties whose dependent root is already known stay as they are, whatever the response lists. */
  lemma KnownRootKeepsDuties(v: View, b: Book, id: nat, root: Root, data: seq<AttesterDuty>, epoch: nat)
    requires id in b.refreshes && b.refreshes[id].Fetching?
    requires epoch >= v.epoch
    ensures At(Step(v, b, Fetched(id, root, data)).duties, epoch) ==
            if epoch != b.refreshes[id].epoch || (epoch in b.roots && b.roots[epoch] == root) then At(b.duties, epoch) else {}
  {
  }

  /**
   The state in which a dependent root is written: every fetched duty whose slot had not passed at the split is stored
   for the epoch, or was taken since by the attestation of its own slot.
   */
  lemma RootWriteIsComplete(b: Book, consumed: seq<set<ProvenDuty>>, id: nat, proofs: map<string, string>, d: AttesterDuty)
    requires NothingLost(b, consumed)
    requires id in b.refreshes && b.refreshes[id].Proving? && !b.refreshes[id].soon
    requires AllProven(Batch(b.refreshes[id]), proofs)
    requires d in b.refreshes[id].fetched && d.slot >= b.refreshes[id].splitAt
    ensures var r := b.refreshes[id];
            Covered(WithRoot(b, r, proofs).duties, consumed, r.epoch, r.since, d)
  {
    var r := b.refreshes[id];
    StoringCovers(b, r, proofs, consumed);
    InSlotsElements(r.fetched, r.splitAt, Some(r.splitAt + 1));
    InSlotsElements(r.fetched, r.splitAt + 2, None);
  }

  // ---------- a refresh from its start to its end ----------

  /** The answers to one epoch's requests: the duties, and the proofs for the two batches. */
  datatype Answers = Answers(root: Root, data: seq<AttesterDuty>, soonProofs: map<string, string>, laterProofs: map<string, string>)

  /** What the steps of one epoch see: when the duties arrive, and when either batch has been signed. */
  datatype Views = Views(fetched: View, soon: View, later: View)

  /** A step of a refresh, and what it sees. */
  datatype Moment = Moment(view: View, event: Event)

  function Run(b: Book, moments: seq<Moment>): Book {
    if moments == [] then b
    else
      var last := moments[|moments| - 1];
      Step(last.view, Run(b, moments[..|moments| - 1]), last.event)
  }

  function EpochMoments(id: nat, v: Views, a: Answers): seq<Moment> {
    [Moment(v.fetched, Fetched(id, a.root, a.data)), Moment(v.soon, ProofsSigned(id, a.soonProofs)),
     Moment(v.later, ProofsSigned(id, a.laterProofs))]
  }

  function EpochRun(b: Book, id: nat, v: Views, a: Answers): Book {
    Run(b, EpochMoments(id, v, a))
  }

  /** Each duty due soon has a proof in the first answer, and each later one in the second. */
  predicate Answered(v: Views, a: Answers) {
    && (forall d :: d in a.data && v.fetched.now <= d.slot <= v.fetched.now + 1 ==> d.pubkey in a.soonProofs)
    && (forall d :: d in a.data && v.fetched.now + 1 < d.slot ==> d.pubkey in a.laterProofs)
  }

  /** The unexpired duties with their own proofs. */
  ghost predicate IsProven(v: Views, a: Answers, p: ProvenDuty) {
    && p.duty in a.data && v.fetched.now <= p.duty.slot
    && (if p.duty.slot <= v.fetched.now + 1
        then p.duty.pubkey in a.soonProofs && p.selectionProof == a.soonProofs[p.duty.pubkey]
        else p.duty.pubkey in a.laterProofs && p.selectionProof == a.laterProofs[p.duty.pubkey])
  }

  /** The duty table with the epoch replaced by its unexpired duties. */
  ghost predicate EpochStored(before: Duties, after: Duties, epoch: nat, v: Views, a: Answers) {
    && (forall p :: p in At(after, epoch) <==> IsProven(v, a, p))
    && (forall e :: e != epoch ==> At(after, e) == At(before, e))
  }

  /** Three answers under a new root replace the epoch's duties by exactly the unexpired ones, each with its own proof. */
  lemma EpochRunStores(b: Book, id: nat, v: Views, a: Answers)
    requires id in b.refreshes && b.refreshes[id].Fetching? && Answered(v, a)
    requires var r := b.refreshes[id]; r.epoch in b.roots ==> b.roots[r.epoch] != a.root
    ensures var r := b.refreshes[id];
            exists duties ::
              && EpochStored(b.duties, duties, r.epoch, v, a)
              && EpochRun(b, id, v, a)
                 == NextEpoch(v.later, b.(duties := duties, roots := b.roots[r.epoch := a.root]), id, r.base, r.epoch, r.startEpoch)
  {
    var r := b.refreshes[id];
    var soon := DueSoon(a.data, v.fetched.now);
    var later := DueLater(a.data, v.fetched.now);
    InSlotsElements(a.data, v.fetched.now, Some(v.fetched.now + 1));
    InSlotsElements(a.data, v.fetched.now + 2, None);
    assert AllProven(soon, a.soonProofs) && AllProven(later, a.laterProofs);
    var cleared := b.duties[r.epoch := {}];
    var duties := Store(Store(cleared, r.epoch, soon, a.soonProofs), r.epoch, later, a.laterProofs);
    StoredTwice(b.duties, r.epoch, v, a);
    SuspendedTwice(b, id, v, a);
    assert EpochStored(b.duties, duties, r.epoch, v, a);
  }

  lemma StoredTwice(before: Duties, epoch: nat, v: Views, a: Answers)
    requires AllProven(DueSoon(a.data, v.fetched.now), a.soonProofs) && AllProven(DueLater(a.data, v.fetched.now), a.laterProofs)
    ensures EpochStored(before,
                        Store(Store(before[epoch := {}], epoch, DueSoon(a.data, v.fetched.now), a.soonProofs),
                              epoch, DueLater(a.data, v.fetched.now), a.laterProofs),
                        epoch, v, a)
  {
    InSlotsElements(a.data, v.fetched.now, Some(v.fetched.now + 1));
    InSlotsElements(a.data, v.fetched.now + 2, None);
  }

  lemma EpochRunSteps(b: Book, id: nat, v: Views, a: Answers)
    ensures EpochRun(b, id, v, a)
         == Step(v.later, Step(v.soon, Step(v.fetched, b, Fetched(id, a.root, a.data)), ProofsSigned(id, a.soonProofs)),
                 ProofsSigned(id, a.laterProofs))
  {
    var ms := EpochMoments(id, v, a);
    assert ms[..2][..1] == ms[..1] && ms[..1][..0] == [];
    assert Run(b, ms[..0]) == b;
    assert Run(b, ms[..1]) == Step(v.fetched, b, Fetched(id, a.root, a.data));
    assert Run(b, ms[..2]) == Step(v.soon, Run(b, ms[..1]), ProofsSigned(id, a.soonProofs));
  }

  lemma SuspendedTwice(b: Book, id: nat, v: Views, a: Answers)
    requires id in b.refreshes && b.refreshes[id].Fetching?
    requires AllProven(DueSoon(a.data, v.fetched.now), a.soonProofs) && AllProven(DueLater(a.data, v.fetched.now), a.laterProofs)
    requires var r := b.refreshes[id]; r.epoch in b.roots ==> b.roots[r.epoch] != a.root
    ensures var r := b.refreshes[id];
            var duties := Store(Store(b.duties[r.epoch := {}], r.epoch, DueSoon(a.data, v.fetched.now), a.soonProofs),
                                r.epoch, DueLater(a.data, v.fetched.now), a.laterProofs);
            EpochRun(b, id, v, a)
            == NextEpoch(v.later, b.(duties := duties, roots := b.roots[r.epoch := a.root]), id, r.base, r.epoch, r.startEpoch)
  {
    var r := b.refreshes[id];
    var b1 := Step(v.fetched, b, Fetched(id, a.root, a.data));
    var b2 := Step(v.soon, b1, ProofsSigned(id, a.soonProofs));
    EpochRunSteps(b, id, v, a);
    var r1 := Proving(r.base, r.epoch, r.startEpoch, a.root, a.data, v.fetched.now, true, v.fetched.attested);
    assert b1 == b.(duties := b.duties[r.epoch := {}], refreshes := b.refreshes[id := r1]);
    assert b2.refreshes == b.refreshes[id := r1.(soon := false)];
    var b3 := WithRoot(b2, r1.(soon := false), a.laterProofs);
    NextOverwrites(v.later, b3.(refreshes := b.refreshes), id, r1.(soon := false), r.base, r.epoch, r.startEpoch);
    assert b3 == b3.(refreshes := b.refreshes[id := r1.(soon := false)]);
  }

  /** Going on to the next epoch, or ending, does not depend on where the refresh was suspended before. */
  lemma NextOverwrites(v: View, b: Book, id: nat, r: Refresh, base: nat, epoch: nat, startEpoch: nat)
    requires id in b.refreshes
    ensures NextEpoch(v, Suspend(b, id, r), id, base, epoch, startEpoch) == NextEpoch(v, b, id, base, epoch, startEpoch)
  {
    var next := Fetching(base, base + 1, startEpoch);
    assert b.refreshes[id := r][id := next] == b.refreshes[id := next];
    assert b.refreshes[id := r] - {id} == b.refreshes - {id};
  }

  /** From the table that the refresh found to the one it leaves: both epochs are replaced, and what is over by then is dropped. */
  ghost predicate BothStored(before: Duties, after: Duties, epoch: nat, v1: Views, a1: Answers, v2: Views, a2: Answers) {
    forall e: nat, p :: p in At(after, e) <==>
      e >= v2.later.epoch &&
      if e == epoch then IsProven(v1, a1, p) else if e == epoch + 1 then IsProven(v2, a2, p) else p in At(before, e)
  }

  /**
   A refresh that nothing fails replaces the duties of the current and of the following epoch, writes both roots, forgets
   the epochs that are over by then, and gives the lock back.
   */
  lemma SuccessfulRefresh(b: Book, id: nat, start: View, v1: Views, a1: Answers, v2: Views, a2: Answers)
    requires OneAtATime(b) && !b.locked && start.validators != {}
    requires Answered(v1, a1) && Answered(v2, a2)
    requires start.epoch in b.roots ==> b.roots[start.epoch] != a1.root
    requires start.epoch + 1 in b.roots ==> b.roots[start.epoch + 1] != a2.root
    ensures Refreshed(b, EpochRun(EpochRun(Step(start, b, Event.Start(id)), id, v1, a1), id, v2, a2), start.epoch, v1, a1, v2, a2)
  {
    Begins(b, id, start);
    var begun := Step(start, b, Event.Start(id));
    var d1 := FirstEpochDone(begun, id, start.epoch, v1, a1);
    EndsRefreshed(b, EpochRun(begun, id, v1, a1), id, start.epoch, d1, v1, a1, v2, a2);
  }

  lemma EndsRefreshed(
    b: Book, middle: Book, id: nat, e: nat, d1: Duties, v1: Views, a1: Answers, v2: Views, a2: Answers)
    requires EpochStored(b.duties, d1, e, v1, a1) && Answered(v2, a2) && (e + 1 in b.roots ==> b.roots[e + 1] != a2.root)
    requires middle == Book(d1, b.roots[e := a1.root], true, map[id := Fetching(e, e + 1, e)])
    ensures Refreshed(b, EpochRun(middle, id, v2, a2), e, v1, a1, v2, a2)
  {
    var d2 := SecondEpochDone(middle, id, e, v2, a2);
    StoredAndDropped(b.duties, d1, d2, e, v1, a1, v2, a2);
    RootedAndDropped(b.roots, e, v2.later.epoch, a1.root, a2.root);
  }

  ghost predicate Refreshed(b: Book, end: Book, epoch: nat, v1: Views, a1: Answers, v2: Views, a2: Answers) {
    && !end.locked && end.refreshes == map[]
    && BothStored(b.duties, end.duties, epoch, v1, a1, v2, a2)
    && BothRooted(b.roots, end.roots, epoch, v2.later.epoch, a1.root, a2.root)
  }

  /** Both roots are written, and those of the epochs that are over dropped. */
  ghost predicate BothRooted(before: map<nat, Root>, after: map<nat, Root>, epoch: nat, current: nat, root1: Root, root2: Root) {
    && (forall e :: e in after <==> e >= current && (e in before || e == epoch || e == epoch + 1))
    && (forall e :: e in after ==> after[e] == if e == epoch then root1 else if e == epoch + 1 then root2 else before[e])
  }

  lemma RootedAndDropped(before: map<nat, Root>, epoch: nat, current: nat, root1: Root, root2: Root)
    ensures BothRooted(before, Drop(before[epoch := root1][epoch + 1 := root2], current), epoch, current, root1, root2)
  {
  }

  lemma Begins(b: Book, id: nat, start: View)
    requires OneAtATime(b) && !b.locked && start.validators != {}
    ensures Step(start, b, Event.Start(id))
         == b.(locked := true, refreshes := map[id := Fetching(start.epoch, start.epoch, start.epoch)])
  {
    assert b.refreshes.Keys == {};
    assert b.refreshes == map[];
  }

  lemma FirstEpochDone(b: Book, id: nat, e: nat, v: Views, a: Answers) returns (duties: Duties)
    requires b.refreshes == map[id := Fetching(e, e, e)] && Answered(v, a) && (e in b.roots ==> b.roots[e] != a.root)
    ensures EpochStored(b.duties, duties, e, v, a)
    ensures EpochRun(b, id, v, a)
         == b.(duties := duties, roots := b.roots[e := a.root], refreshes := map[id := Fetching(e, e + 1, e)])
  {
    EpochRunStores(b, id, v, a);
    duties :| EpochStored(b.duties, duties, e, v, a)
              && EpochRun(b, id, v, a)
                 == NextEpoch(v.later, b.(duties := duties, roots := b.roots[e := a.root]), id, e, e, e);
    assert b.refreshes[id := Fetching(e, e + 1, e)] == map[id := Fetching(e, e + 1, e)];
  }

  lemma SecondEpochDone(b: Book, id: nat, e: nat, v: Views, a: Answers) returns (duties: Duties)
    requires b.refreshes == map[id := Fetching(e, e + 1, e)] && Answered(v, a) && (e + 1 in b.roots ==> b.roots[e + 1] != a.root)
    ensures EpochStored(b.duties, duties, e + 1, v, a)
    ensures EpochRun(b, id, v, a)
         == Book(Drop(duties, v.later.epoch), Drop(b.roots[e + 1 := a.root], v.later.epoch), false, map[])
  {
    EpochRunStores(b, id, v, a);
    duties :| EpochStored(b.duties, duties, e + 1, v, a)
              && EpochRun(b, id, v, a)
                 == NextEpoch(v.later, b.(duties := duties, roots := b.roots[e + 1 := a.root]), id, e, e + 1, e);
    assert b.refreshes - {id} == map[];
  }

  lemma StoredAndDropped(before: Duties, d1: Duties, d2: Duties, e: nat, v1: Views, a1: Answers, v2: Views, a2: Answers)
    requires EpochStored(before, d1, e, v1, a1) && EpochStored(d1, d2, e + 1, v2, a2)
    ensures BothStored(before, Drop(d2, v2.later.epoch), e, v1, a1, v2, a2)
  {
    forall k: nat ensures At(Drop(d2, v2.later.epoch), k) == if k >= v2.later.epoch then At(d2, k) else {} {}
  }

  /** A known root is skipped: the refresh goes on, or ends, without asking for a proof. */
  lemma KnownRootGoesOn(v: View, b: Book, id: nat, root: Root, data: seq<AttesterDuty>)
    requires id in b.refreshes && b.refreshes[id].Fetching?
    requires var r := b.refreshes[id]; r.epoch in b.roots && b.roots[r.epoch] == root
    ensures var r, after := b.refreshes[id], Step(v, b, Fetched(id, root, data));
            && (r.epoch == r.base ==>
                  after == b.(refreshes := b.refreshes[id := Fetching(r.base, r.base + 1, r.startEpoch)]))
            && (r.epoch != r.base ==> id !in after.refreshes && !after.locked)
  {
  }

  /** One missing proof fails the whole batch, and with it the attempt: nothing is stored, and the refresh backs off. */
  lemma MissingProofFails(v: View, b: Book, id: nat, proofs: map<string, string>)
    requires id in b.refreshes && b.refreshes[id].Proving?
    ensures var r, after := b.refreshes[id], Step(v, b, ProofsSigned(id, proofs));
            var missing := exists d :: d in r.fetched && d.pubkey !in proofs && d.slot >= r.splitAt
                                       && (r.soon <==> d.slot <= r.splitAt + 1);
            && (missing ==> after == b.(refreshes := b.refreshes[id := BackingOff(r.startEpoch)]))
            && (!missing ==> id in after.refreshes ==> !after.refreshes[id].BackingOff?)
  {
    var r := b.refreshes[id];
    InSlotsElements(r.fetched, r.splitAt, Some(r.splitAt + 1));
    InSlotsElements(r.fetched, r.splitAt + 2, None);
  }

  /** After a failure the refresh starts over, with what is then the current epoch; or gives up, once its epoch is over. */
  lemma RetryIff(failing: View, v: View, b: Book, id: nat)
    requires id in b.refreshes && !b.refreshes[id].BackingOff?
    ensures var after := Step(v, Step(failing, b, Failed(id)), Retry(id));
            && after.duties == b.duties && after.roots == b.roots
            && if v.epoch == b.refreshes[id].startEpoch && v.validators != {}
               then id in after.refreshes && after.refreshes[id] == Fetching(v.epoch, v.epoch, v.epoch) && after.locked == b.locked
               else id !in after.refreshes && !after.locked
  {
  }
}
