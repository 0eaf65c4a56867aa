/** Deduplicating beacon node events over a bounded window of recent keys (src/services/event_consumer.py). */
module EventWindow {
  import opened Basics

  type Key = string

  /** Head and reorg events carry a slot; all kinds share one window of keys. */
  datatype Kind = Head | Reorg | AttesterSlashing | ProposerSlashing | Unsupported

  datatype Event = Event(kind: Kind, slot: Option<nat>, key: Key)

  datatype Outcome = Outdated | Repeated | Fired | NotImplemented

  /** The last `n` elements, or all of them. */
  function Last(s: seq<Key>, n: nat): seq<Key> {
    if |s| <= n then s else s[|s| - n..]
  }

  /** The window is a suffix, as long as it may be. */
  lemma WindowIsSuffix(s: seq<Key>, n: nat)
    ensures |Last(s, n)| == Min(n, |s|) && Last(s, n) == s[|s| - Min(n, |s|)..]
  {
  }

  /** Appending to a full bounded deque drops the oldest element. */
  function Append(s: seq<Key>, key: Key, maxlen: nat): seq<Key> {
    if maxlen == 0 then s
    else if |s| == maxlen then s[1..] + [key]
    else s + [key]
  }

  /** Appending to the window of the last elements gives the window after appending. */
  lemma WindowMoves(s: seq<Key>, key: Key, maxlen: nat)
    ensures Append(Last(s, maxlen), key, maxlen) == Last(s + [key], maxlen)
  {
  }

  /** The accepted keys: a key is refused exactly when it is among the last `maxlen` accepted ones. */
  function Accepted(keys: seq<Key>, maxlen: nat): seq<Key> {
    if keys == [] then []
    else
      var before, key := Accepted(keys[..|keys| - 1], maxlen), keys[|keys| - 1];
      if key in Last(before, maxlen) then before else before + [key]
  }

  /** The next key is accepted exactly when it is none of the last `maxlen` accepted ones. */
  lemma AcceptedIff(keys: seq<Key>, key: Key, maxlen: nat)
    ensures var before, after := Accepted(keys, maxlen), Accepted(keys + [key], maxlen);
            var recent := exists i :: 0 <= i < |before| && |before| - maxlen <= i && before[i] == key;
            && (recent ==> after == before)
            && (!recent ==> after == before + [key])
  {
    var before, last := Accepted(keys, maxlen), Last(Accepted(keys, maxlen), maxlen);
    assert (keys + [key])[..|keys|] == keys;
    forall i | 0 <= i < |before| && |before| - maxlen <= i ensures before[i] in last {
      assert before[i] == last[i - (|before| - |last|)];
    }
    if key in last {
      var j :| 0 <= j < |last| && last[j] == key;
      assert before[|before| - |last| + j] == key;
    }
  }

  /** Two acceptances of one key have at least `maxlen` other acceptances between them. */
  ghost predicate FarApart(accepted: seq<Key>, maxlen: nat) {
    forall i, j :: 0 <= i < j < |accepted| && accepted[i] == accepted[j] ==> j - i > maxlen
  }

  lemma FarApartStep(accepted: seq<Key>, key: Key, maxlen: nat)
    requires FarApart(accepted, maxlen) && key !in Last(accepted, maxlen)
    ensures FarApart(accepted + [key], maxlen)
  {
    var last := Last(accepted, maxlen);
    forall i | |accepted| - |last| <= i < |accepted| ensures accepted[i] in last {
      assert accepted[i] == last[i - (|accepted| - |last|)];
    }
  }

  lemma {:induction false} AcceptancesAreFarApart(keys: seq<Key>, maxlen: nat)
    ensures FarApart(Accepted(keys, maxlen), maxlen)
  {
    if keys != [] {
      AcceptancesAreFarApart(keys[..|keys| - 1], maxlen);
      var before, key := Accepted(keys[..|keys| - 1], maxlen), keys[|keys| - 1];
      if key !in Last(before, maxlen) {
        FarApartStep(before, key, maxlen);
      }
    }
  }

  /** The window never holds a key twice. */
  lemma WindowIsDistinct(accepted: seq<Key>, maxlen: nat)
    requires FarApart(accepted, maxlen)
    ensures Distinct(Last(accepted, maxlen))
  {
    var last, from := Last(accepted, maxlen), |accepted| - |Last(accepted, maxlen)|;
    forall i, j | 0 <= i < j < |last| ensures last[i] != last[j] {
      assert last[i] == accepted[from + i] && last[j] == accepted[from + j];
    }
  }

  /** Nothing is lost for good: every key that arrived has been accepted. */
  lemma {:induction false} EveryKeyIsAccepted(keys: seq<Key>, maxlen: nat)
    ensures forall k :: k in keys <==> k in Accepted(keys, maxlen)
  {
    if keys != [] {
      var init, key := keys[..|keys| - 1], keys[|keys| - 1];
      assert keys == init + [key];
      EveryKeyIsAccepted(init, maxlen);
    }
  }

  class EventConsumer {
    const maxlen: nat
    var recentEventKeys: seq<Key>
    /** The keys that were looked up so far. */
    ghost var keys: seq<Key>

    ghost predicate Valid()
      reads this
    {
      recentEventKeys == Last(Accepted(keys, maxlen), maxlen)
    }

    constructor (beaconNodes: nat)
      ensures Valid() && keys == [] && maxlen == 10 * beaconNodes
    {
      maxlen := 10 * beaconNodes;
      recentEventKeys := [];
      keys := [];
    }

    method HasSeenEvent(key: Key) returns (seen: bool)
      requires Valid()
      modifies this
      ensures Valid() && keys == old(keys) + [key]
      ensures seen <==> exists i :: 0 <= i < |Accepted(old(keys), maxlen)| && |Accepted(old(keys), maxlen)| - maxlen <= i
                                    && Accepted(old(keys), maxlen)[i] == key
      ensures |recentEventKeys| == Min(maxlen, |Accepted(keys, maxlen)|)
    {
      seen := key in recentEventKeys;
      AcceptedIff(keys, key, maxlen);
      WindowMoves(Accepted(keys, maxlen), key, maxlen);
      if !seen {
        recentEventKeys := Append(recentEventKeys, key, maxlen);
      }
      assert (keys + [key])[..|keys|] == keys;
      keys := keys + [key];
    }

    /** The handlers of the event's kind are started exactly when the outcome is `Fired`. */
    method HandleEvent(e: Event, currentSlot: nat) returns (outcome: Outcome)
      requires Valid()
      modifies this
      ensures Valid()
      ensures outcome == Outdated <==> e.slot.Some? && e.slot.value < currentSlot
      ensures outcome == NotImplemented <==> e.kind.Unsupported? && outcome != Outdated
      ensures outcome == Fired ==> Accepted(keys, maxlen) == Accepted(old(keys), maxlen) + [e.key]
      ensures outcome == Repeated ==> e.key in Last(Accepted(old(keys), maxlen), maxlen)
      ensures outcome != Fired ==> Accepted(keys, maxlen) == Accepted(old(keys), maxlen)
    {
      if e.slot.Some? && e.slot.value < currentSlot {
        return Outdated;
      }
      if e.kind.Unsupported? {
        return NotImplemented;
      }
      assert (keys + [e.key])[..|keys|] == keys;
      var seen := HasSeenEvent(e.key);
      outcome := if seen then Repeated else Fired;
    }
  }
}
