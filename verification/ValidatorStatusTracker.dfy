/** Which validators are ours, and the latch that a slashing of one of them sets (src/services/validator_status_tracker.py). */
module ValidatorStatusTracker {

  /** The validators by index, as far as the duty services ask for them, and the latch. */
  datatype Statuses = Statuses(active: set<nat>, pending: set<nat>, slashed: bool)
  {
    function Ours(): set<nat> {
      active + pending
    }
  }

  const UNKNOWN := Statuses({}, {}, false)

  /** A slashing event, or one of the responses that a status update waits for. */
  datatype Event =
    | AttesterSlashing(first: set<nat>, second: set<nat>)
    | ProposerSlashing(proposer: nat)
    | SlashedFetched(found: set<nat>)
    | ActiveFetched(found: set<nat>)
    | PendingFetched(found: set<nat>)

  function Observe(s: Statuses, e: Event): Statuses {
    match e
    case AttesterSlashing(first, second) => s.(slashed := s.slashed || first * second * s.Ours() != {})
    case ProposerSlashing(proposer) => s.(slashed := s.slashed || proposer in s.Ours())
    case SlashedFetched(found) => s.(slashed := s.slashed || found != {})
    case ActiveFetched(found) => s.(active := found)
    case PendingFetched(found) => s.(pending := found)
  }

  function After(s: Statuses, es: seq<Event>): Statuses {
    if es == [] then s else Observe(After(s, es[..|es| - 1]), es[|es| - 1])
  }

  /** A validator that is ours at this moment is named by both attestations, or by the header, or found slashed on chain. */
  ghost predicate Alarming(s: Statuses, e: Event) {
    match e
    case AttesterSlashing(first, second) => exists v :: v in first && v in second && (v in s.active || v in s.pending)
    case ProposerSlashing(proposer) => proposer in s.active || proposer in s.pending
    case SlashedFetched(found) => exists v :: v in found
    case _ => false
  }

  lemma ObservedIff(s: Statuses, e: Event)
    ensures Observe(s, e).slashed <==> s.slashed || Alarming(s, e)
  {
    if e.AttesterSlashing? {
      var hit := e.first * e.second * s.Ours();
      assert forall v :: v in hit <==> v in e.first && v in e.second && (v in s.active || v in s.pending);
    }
  }

  ghost predicate AlarmAt(s: Statuses, es: seq<Event>, k: nat)
    requires k < |es|
  {
    Alarming(After(s, es[..k]), es[k])
  }

  /** One of the events was alarming when it happened. */
  ghost predicate SomeAlarm(s: Statuses, es: seq<Event>) {
    exists k :: 0 <= k < |es| && AlarmAt(s, es, k)
  }

  lemma AlarmStep(s: Statuses, init: seq<Event>, last: Event)
    ensures SomeAlarm(s, init + [last]) <==> SomeAlarm(s, init) || Alarming(After(s, init), last)
  {
    var es, n := init + [last], |init|;
    forall k | 0 <= k < n ensures AlarmAt(s, es, k) == AlarmAt(s, init, k) {
      assert init[..k] == es[..k];
    }
    assert es[..n] == init;
    assert AlarmAt(s, es, n) == Alarming(After(s, init), last);
  }

  /** The latch is set if and only if an alarming event has been seen; nothing resets it. */
  lemma {:induction false} LatchedIff(s: Statuses, es: seq<Event>)
    ensures After(s, es).slashed <==> s.slashed || SomeAlarm(s, es)
  {
    if es != [] {
      var init, last := es[..|es| - 1], es[|es| - 1];
      LatchedIff(s, init);
      ObservedIff(After(s, init), last);
      AlarmStep(s, init, last);
      assert es == init + [last];
    }
  }

  /** The validators that are ours are those of the latest response for either status. */
  lemma {:induction false} OursAreLatest(s: Statuses, es: seq<Event>, found: set<nat>, later: seq<Event>)
    requires forall e :: e in later ==> !e.ActiveFetched?
    ensures After(s, es + [ActiveFetched(found)] + later).active == found
    ensures (forall e :: e in later ==> !e.PendingFetched?) ==>
              After(s, es + [ActiveFetched(found)] + later).pending == After(s, es).pending
  {
    var all := es + [ActiveFetched(found)] + later;
    if later == [] {
      assert all[..|all| - 1] == es && all[|all| - 1] == ActiveFetched(found);
    } else {
      var init, last := later[..|later| - 1], later[|later| - 1];
      assert later == init + [last];
      OursAreLatest(s, es, found, init);
      assert all[..|all| - 1] == es + [ActiveFetched(found)] + init && all[|all| - 1] == last;
      assert last in later;
    }
  }

  class ValidatorStatusTrackerService {
    var activeValidators: set<nat>
    var pendingValidators: set<nat>
    var slashingDetected: bool

    function Current(): Statuses
      reads this
    {
      Statuses(activeValidators, pendingValidators, slashingDetected)
    }

    constructor ()
      ensures Current() == UNKNOWN
    {
      activeValidators, pendingValidators, slashingDetected := {}, {}, false;
    }

    /** `handle_slashing_event`, and the stretches of `_update_validator_statuses` after each of its responses. */
    method Handle(e: Event)
      modifies this
      ensures Current() == Observe(old(Current()), e)
      ensures slashingDetected <==> old(slashingDetected) || Alarming(old(Current()), e)
      ensures activeValidators == if e.ActiveFetched? then e.found else old(activeValidators)
      ensures pendingValidators == if e.PendingFetched? then e.found else old(pendingValidators)
    {
      ObservedIff(Current(), e);
      match e {
        case AttesterSlashing(first, second) =>
          var ourSlashedIndices := first * second * (activeValidators + pendingValidators);
          if |ourSlashedIndices| > 0 {
            slashingDetected := true;
          }
        case ProposerSlashing(proposer) =>
          if proposer in activeValidators + pendingValidators {
            slashingDetected := true;
          }
        case SlashedFetched(found) =>
          if |found| > 0 {
            slashingDetected := true;
          }
        case ActiveFetched(found) => activeValidators := found;
        case PendingFetched(found) => pendingValidators := found;
      }
    }
  }
}
