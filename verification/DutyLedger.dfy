/**
 The started/completed marks that every validator duty service keeps (src/services/validator_duty_service.py),
 with the tasks that are running and the starts so far.
 */
module DutyLedger {

  /** Reading a missing epoch of a duty table finds no duties. */
  function At<T>(duties: map<nat, set<T>>, epoch: nat): set<T> {
    if epoch in duties then duties[epoch] else {}
  }

  /** Forgetting the epochs that are over. */
  function Drop<V>(m: map<nat, V>, currentEpoch: nat): map<nat, V> {
    map e | e in m && e >= currentEpoch :: m[e]
  }

  // ---------- the marks ----------

  datatype Start = Start(slot: nat, at: nat)

  datatype Ledger = Ledger(
    now: nat,
    started: int,
    completed: int,
    running: map<nat, nat>,
    starts: seq<Start>)

  function Fresh(now: nat): Ledger {
    Ledger(now, -1, -1, map[], [])
  }

  /** The current slot never moves backwards. */
  function Tick(l: Ledger, to: nat): Ledger {
    if to < l.now then l else l.(now := to)
  }

  /** The two guards in front of attesting and proposing. */
  predicate MayStart(l: Ledger, slot: nat) {
    slot > l.started && slot == l.now
  }

  /** The sync committee service lets the slot it is already working on through. */
  predicate SyncMayStart(l: Ledger, slot: nat) {
    slot >= l.started && slot == l.now
  }

  function Begin(l: Ledger, id: nat, slot: nat): Ledger {
    l.(started := slot, running := l.running[id := slot], starts := l.starts + [Start(slot, l.now)])
  }

  /** The `finally` clause of the duty's coroutine. */
  function End(l: Ledger, id: nat): Ledger {
    if id in l.running then l.(completed := l.running[id], running := l.running - {id}) else l
  }

  predicate HasOngoingDuty(l: Ledger) {
    l.completed < l.started && l.started == l.now
  }

  /** `wait_for_duty_completion` entered at slot `slot` may return now. */
  predicate NothingToWaitFor(l: Ledger, slot: nat, hasDuty: bool) {
    l.completed == slot || (!hasDuty && l.started != slot)
  }

  // ---------- the invariant ----------

  ghost predicate StartsIncrease(starts: seq<Start>) {
    forall i, j :: 0 <= i < j < |starts| ==> starts[i].slot < starts[j].slot
  }

  ghost predicate Inv(l: Ledger) {
    && -1 <= l.completed <= l.started <= l.now
    && StartsIncrease(l.starts)
    && (forall i :: 0 <= i < |l.starts| ==> l.starts[i].slot == l.starts[i].at <= l.started)
    && (forall id :: id in l.running ==> l.completed != l.running[id] <= l.started)
    && (forall id, other :: id in l.running && other in l.running && id != other ==> l.running[id] != l.running[other])
  }

  /** Each guarded start is of the current slot, after every earlier one; no other step touches the starts. */
  lemma GuardedStepsKeepInv(l: Ledger, id: nat, slot: nat, to: nat)
    requires Inv(l)
    ensures Inv(Tick(l, to)) && Tick(l, to).starts == l.starts
    ensures Inv(End(l, id)) && End(l, id).starts == l.starts
    ensures MayStart(l, slot) && id !in l.running ==> Inv(Begin(l, id, slot))
  {
  }

  /** A running task of the current slot always shows as an ongoing duty. */
  lemma RunningNowIsOngoing(l: Ledger, id: nat)
    requires Inv(l) && id in l.running && l.running[id] == l.now
    ensures HasOngoingDuty(l)
  {
  }

  /** When the task of the current slot ends, nothing is ongoing. */
  lemma EndedNowIsDone(l: Ledger, id: nat)
    requires Inv(l) && id in l.running && l.running[id] == l.now
    ensures !HasOngoingDuty(End(l, id)) && End(l, id).completed == l.now
  {
  }

  /** Waiting returns at once only when no task of the slot is running. */
  lemma NothingRunningWhenNotWaiting(l: Ledger, hasDuty: bool, id: nat)
    requires Inv(l) && NothingToWaitFor(l, l.now, hasDuty) && id in l.running
    ensures l.running[id] != l.now
  {
  }

  // ---------- when has_ongoing_duty tells the truth ----------

  ghost predicate RunningNow(l: Ledger) {
    exists id :: id in l.running && l.running[id] == l.now
  }

  /** An ongoing duty is reported if and only if a task of the current slot is running. */
  ghost predicate Truthful(l: Ledger) {
    HasOngoingDuty(l) <==> RunningNow(l)
  }

  /** The task of an older slot ends after the current slot's own task has. */
  predicate EndsLate(l: Ledger, id: nat) {
    id in l.running && l.running[id] < l.now && l.completed == l.started == l.now
  }

  /** A new slot and a guarded start always leave the mark right; ending a task does, unless it ends late. */
  lemma TruthfulIff(l: Ledger, id: nat, slot: nat, to: nat)
    requires Inv(l) && Truthful(l)
    ensures Truthful(Tick(l, to))
    ensures MayStart(l, slot) && id !in l.running ==> Truthful(Begin(l, id, slot))
    ensures Truthful(End(l, id)) <==> !EndsLate(l, id)
  {
    if MayStart(l, slot) && id !in l.running {
      assert id in Begin(l, id, slot).running && Begin(l, id, slot).running[id] == l.now;
    }
    if id in l.running {
      var after := End(l, id);
      if l.running[id] == l.now {
        assert HasOngoingDuty(l);
      } else if RunningNow(l) {
        var other :| other in l.running && l.running[other] == l.now;
        assert other in after.running && after.running[other] == after.now;
      }
    }
  }

  /** What one step of a duty machine does to its ledger. */
  ghost predicate Moves(l: Ledger, after: Ledger) {
    || after == l
    || (exists to :: after == Tick(l, to))
    || (exists id, slot :: MayStart(l, slot) && id !in l.running && after == Begin(l, id, slot))
    || (exists id :: id in l.running && after == End(l, id))
  }

  lemma MovesOf(l: Ledger, id: nat, slot: nat, to: nat)
    ensures Moves(l, l) && Moves(l, Tick(l, to)) && Moves(l, End(l, id))
    ensures MayStart(l, slot) && id !in l.running ==> Moves(l, Begin(l, id, slot))
  {
  }

  ghost predicate MovesLate(l: Ledger, after: Ledger) {
    exists id :: EndsLate(l, id) && after == End(l, id)
  }

  lemma TruthfulAfterIff(l: Ledger, after: Ledger)
    requires Inv(l) && Truthful(l) && Moves(l, after)
    ensures Truthful(after) <==> !MovesLate(l, after)
  {
    if MovesLate(l, after) {
      var id :| EndsLate(l, id) && after == End(l, id);
      TruthfulIff(l, id, 0, 0);
    } else if to :| after == Tick(l, to) {
      TruthfulIff(l, 0, 0, to);
    } else if id, slot :| MayStart(l, slot) && id !in l.running && after == Begin(l, id, slot) {
      TruthfulIff(l, id, slot, 0);
    } else if id :| id in l.running && after == End(l, id) {
      TruthfulIff(l, id, 0, 0);
    }
  }

  /** The ledgers of a run, one after each step. */
  ghost predicate IsRun(ls: seq<Ledger>) {
    forall k :: 0 <= k < |ls| - 1 ==> Inv(ls[k]) && Moves(ls[k], ls[k + 1])
  }

  ghost predicate AlwaysTruthful(ls: seq<Ledger>) {
    forall k :: 0 <= k < |ls| ==> Truthful(ls[k])
  }

  ghost predicate LateAt(ls: seq<Ledger>, k: nat)
    requires k + 1 < |ls|
  {
    MovesLate(ls[k], ls[k + 1])
  }

  ghost predicate NeverLate(ls: seq<Ledger>) {
    forall k :: 0 <= k < |ls| - 1 ==> !LateAt(ls, k)
  }

  lemma {:induction false} StaysTruthful(ls: seq<Ledger>, k: nat)
    requires k < |ls| && IsRun(ls) && Truthful(ls[0]) && NeverLate(ls)
    ensures Truthful(ls[k])
  {
    if k > 0 {
      StaysTruthful(ls, k - 1);
      assert !LateAt(ls, k - 1) && Moves(ls[k - 1], ls[k - 1 + 1]);
      TruthfulAfterIff(ls[k - 1], ls[k]);
    }
  }

  /** Over a whole run the mark is right at every moment if and only if no task ever ends late. */
  lemma AlwaysTruthfulIff(ls: seq<Ledger>)
    requires ls != [] && IsRun(ls) && Truthful(ls[0])
    ensures AlwaysTruthful(ls) <==> NeverLate(ls)
  {
    if AlwaysTruthful(ls) {
      forall k | 0 <= k < |ls| - 1 ensures !LateAt(ls, k) {
        TruthfulAfterIff(ls[k], ls[k + 1]);
      }
    }
    if NeverLate(ls) {
      forall k | 0 <= k < |ls| ensures Truthful(ls[k]) {
        StaysTruthful(ls, k);
      }
    }
  }

  /** Waiting for the current slot's duty returns at once exactly when nothing is ongoing and no stored duty is still to come. */
  lemma NothingToWaitForIff(l: Ledger, hasDuty: bool)
    requires Inv(l)
    ensures NothingToWaitFor(l, l.now, hasDuty) <==> !HasOngoingDuty(l) && (hasDuty ==> l.completed == l.now)
  {
  }

  /** A slow older task hides nothing, but it can make a finished slot look unfinished. */
  lemma OngoingMayBeStale(slot: nat, id: nat, other: nat)
    requires id != other
    ensures var l := End(End(Begin(Tick(Begin(Fresh(slot), id, slot), slot + 1), other, slot + 1), other), id);
            Inv(l) && HasOngoingDuty(l) && l.running == map[]
  {
    var l := Begin(Tick(Begin(Fresh(slot), id, slot), slot + 1), other, slot + 1);
    assert End(End(l, other), id).running == map[];
  }

  // ---------- the sync committee service ----------

  /** What is left of the invariant when one slot may have several tasks. */
  ghost predicate SyncInv(l: Ledger) {
    && -1 <= l.completed <= l.started <= l.now
    && forall id :: id in l.running ==> l.running[id] <= l.started
  }

  ghost predicate AnotherRunningNow(l: Ledger, id: nat) {
    exists other :: other in l.running && other != id && l.running[other] == l.now
  }

  /** Another task starts although one of the slot has ended, one of several ends, or an older one ends late. */
  ghost predicate SyncBreaks(l: Ledger, after: Ledger) {
    || MovesLate(l, after)
    || (exists id, slot :: SyncMayStart(l, slot) && id !in l.running && l.completed == slot && after == Begin(l, id, slot))
    || (exists id :: id in l.running && l.running[id] == l.now && AnotherRunningNow(l, id) && after == End(l, id))
  }

  /**
   With several tasks in one slot the mark is right after a start if and only if none of them has ended yet, after the
   end of one of them if and only if it was the last, and after the end of an older task if and only if that is not late.
   */
  lemma SyncTruthfulIff(l: Ledger, id: nat, slot: nat, to: nat)
    requires SyncInv(l) && Truthful(l)
    ensures SyncInv(Tick(l, to)) && SyncInv(End(l, id)) && (SyncMayStart(l, slot) ==> SyncInv(Begin(l, id, slot)))
    ensures Truthful(Tick(l, to))
    ensures SyncMayStart(l, slot) ==> (Truthful(Begin(l, id, slot)) <==> l.completed < slot)
    ensures id in l.running && l.running[id] == l.now ==> (Truthful(End(l, id)) <==> !AnotherRunningNow(l, id))
    ensures id in l.running && l.running[id] < l.now ==> (Truthful(End(l, id)) <==> !EndsLate(l, id))
  {
    if SyncMayStart(l, slot) {
      var begun := Begin(l, id, slot);
      assert id in begun.running && begun.running[id] == begun.now;
    }
    if id in l.running {
      var ended := End(l, id);
      forall other | other in l.running && other != id ensures other in ended.running && ended.running[other] == l.running[other] {}
    }
  }

  /** What one step of the sync committee service does to its ledger. */
  ghost predicate SyncMoves(l: Ledger, after: Ledger) {
    || after == l
    || (exists to :: after == Tick(l, to))
    || (exists id, slot :: SyncMayStart(l, slot) && id !in l.running && after == Begin(l, id, slot))
    || (exists id :: id in l.running && after == End(l, id))
  }

  lemma SyncTruthfulAfterIff(l: Ledger, after: Ledger)
    requires SyncInv(l) && Truthful(l) && SyncMoves(l, after)
    ensures SyncInv(after) && (Truthful(after) <==> !SyncBreaks(l, after))
  {
    SyncBreaksBreak(l, after);
    if to :| after == Tick(l, to) {
      SyncTruthfulIff(l, 0, 0, to);
    } else if id, slot :| SyncMayStart(l, slot) && id !in l.running && after == Begin(l, id, slot) {
      SyncTruthfulIff(l, id, slot, 0);
    } else if id :| id in l.running && after == End(l, id) {
      SyncTruthfulIff(l, id, 0, 0);
    }
  }

  lemma SyncBreaksBreak(l: Ledger, after: Ledger)
    requires SyncInv(l) && Truthful(l)
    ensures SyncBreaks(l, after) ==> !Truthful(after)
  {
    if id :| EndsLate(l, id) && after == End(l, id) {
      SyncTruthfulIff(l, id, 0, 0);
    } else if id, slot :| SyncMayStart(l, slot) && id !in l.running && l.completed == slot && after == Begin(l, id, slot) {
      SyncTruthfulIff(l, id, slot, 0);
    } else if id :| id in l.running && l.running[id] == l.now && AnotherRunningNow(l, id) && after == End(l, id) {
      SyncTruthfulIff(l, id, 0, 0);
    }
  }

  ghost predicate IsSyncRun(ls: seq<Ledger>) {
    forall k :: 0 <= k < |ls| - 1 ==> SyncMoves(ls[k], ls[k + 1])
  }

  ghost predicate BreaksAt(ls: seq<Ledger>, k: nat)
    requires k + 1 < |ls|
  {
    SyncBreaks(ls[k], ls[k + 1])
  }

  ghost predicate NeverBreaks(ls: seq<Ledger>) {
    forall k :: 0 <= k < |ls| - 1 ==> !BreaksAt(ls, k)
  }

  lemma {:induction false} SyncRunUpTo(ls: seq<Ledger>, k: nat)
    requires k < |ls| && IsSyncRun(ls) && SyncInv(ls[0]) && Truthful(ls[0]) && (AlwaysTruthful(ls) || NeverBreaks(ls))
    ensures SyncInv(ls[k]) && Truthful(ls[k])
    ensures k > 0 ==> !BreaksAt(ls, k - 1)
  {
    if k > 0 {
      SyncRunUpTo(ls, k - 1);
      assert SyncMoves(ls[k - 1], ls[k - 1 + 1]);
      assert NeverBreaks(ls) ==> !BreaksAt(ls, k - 1);
      SyncTruthfulAfterIff(ls[k - 1], ls[k]);
    }
  }

  /** Over a whole run of the sync committee service the mark is right at every moment if and only if no step breaks it. */
  lemma SyncAlwaysTruthfulIff(ls: seq<Ledger>)
    requires ls != [] && IsSyncRun(ls) && SyncInv(ls[0]) && Truthful(ls[0])
    ensures AlwaysTruthful(ls) <==> NeverBreaks(ls)
  {
    if AlwaysTruthful(ls) || NeverBreaks(ls) {
      forall k | 0 <= k < |ls| ensures Truthful(ls[k]) && (k > 0 ==> !BreaksAt(ls, k - 1)) {
        SyncRunUpTo(ls, k);
      }
      forall k | 0 <= k < |ls| - 1 ensures !BreaksAt(ls, k) {
        SyncRunUpTo(ls, k + 1);
      }
    }
  }

  /** Two tasks of one slot: while the second is running the first one's end clears the mark. */
  lemma SyncMayLookIdle(slot: nat, id: nat, other: nat)
    requires id != other
    ensures var l := Begin(Fresh(slot), id, slot);
            SyncMayStart(l, slot) && (var after := End(Begin(l, other, slot), id);
                                      !HasOngoingDuty(after) && RunningNow(after))
  {
    var after := End(Begin(Begin(Fresh(slot), id, slot), other, slot), id);
    assert other in after.running && after.running[other] == after.now;
  }
}
