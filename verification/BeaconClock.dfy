/** Slots, epochs and forks by the wall clock, and the ticker that drives the services (src/providers/beacon_chain.py). */
module BeaconClock {
  import opened Basics

  datatype Chain = Chain(
    genesisTime: int,
    slotsPerEpoch: nat,
    secondsPerSlot: nat,
    epochsPerSyncPeriod: nat,
    electraForkEpoch: nat,
    fuluForkEpoch: nat)

  ghost predicate Configured(c: Chain) {
    c.slotsPerEpoch > 0 && c.secondsPerSlot > 0 && c.epochsPerSyncPeriod > 0
  }

  datatype ForkVersion = Electra | Fulu

  function TimestampForSlot(c: Chain, slot: int): int {
    c.genesisTime + slot * c.secondsPerSlot
  }

  function CurrentSlot(c: Chain, now: real): nat
    requires c.secondsPerSlot > 0
  {
    Max(0, now.Floor - c.genesisTime) / c.secondsPerSlot
  }

  lemma DivisionBounds(x: nat, d: nat)
    requires d > 0
    ensures x / d * d <= x < x / d * d + d
  {
  }

  lemma {:induction false} ProductNotNegative(n: nat, d: nat)
    ensures n * d >= 0
  {
    if n > 0 {
      ProductNotNegative(n - 1, d);
      assert n * d == (n - 1) * d + d;
    }
  }

  lemma ProductOrder(a: int, b: int, d: nat)
    requires a < b
    ensures a * d + d <= b * d
  {
    ProductNotNegative(b - a - 1, d);
    assert (b - a - 1) * d == b * d - a * d - d;
  }

  lemma DivisionUnique(x: nat, d: nat, q: int)
    requires d > 0 && q * d <= x < q * d + d
    ensures x / d == q
  {
    DivisionBounds(x, d);
    var p := x / d;
    if p < q {
      ProductOrder(p, q, d);
    } else if p > q {
      ProductOrder(q, p, d);
    }
  }

  /** The current slot is the one whose time span holds the present; until genesis it is slot zero. */
  lemma CurrentSlotIff(c: Chain, now: real, slot: int)
    requires c.secondsPerSlot > 0
    ensures now >= c.genesisTime as real ==>
              (CurrentSlot(c, now) == slot <==>
                 TimestampForSlot(c, slot) as real <= now < TimestampForSlot(c, slot + 1) as real)
    ensures TimestampForSlot(c, 0) == c.genesisTime
    ensures TimestampForSlot(c, slot + 1) - TimestampForSlot(c, slot) == c.secondsPerSlot
    ensures now < c.genesisTime as real ==> CurrentSlot(c, now) == 0
  {
    var elapsed := now.Floor - c.genesisTime;
    assert (slot + 1) * c.secondsPerSlot == slot * c.secondsPerSlot + c.secondsPerSlot;
    if elapsed < 0 {
      DivisionUnique(0, c.secondsPerSlot, 0);
      return;
    }
    DivisionBounds(elapsed, c.secondsPerSlot);
    if TimestampForSlot(c, slot) as real <= now < TimestampForSlot(c, slot + 1) as real {
      assert slot * c.secondsPerSlot <= elapsed < slot * c.secondsPerSlot + c.secondsPerSlot;
      DivisionUnique(elapsed, c.secondsPerSlot, slot);
    }
  }

  lemma LaterTimeLaterSlot(c: Chain, a: real, b: real)
    requires c.secondsPerSlot > 0 && a <= b
    ensures CurrentSlot(c, a) <= CurrentSlot(c, b)
  {
    QuotientMonotone(Max(0, a.Floor - c.genesisTime), Max(0, b.Floor - c.genesisTime), c.secondsPerSlot);
  }

  lemma QuotientMonotone(x: nat, y: nat, d: nat)
    requires d > 0 && x <= y
    ensures x / d <= y / d
  {
    DivisionBounds(x, d);
    DivisionBounds(y, d);
    if y / d < x / d {
      ProductOrder(y / d, x / d, d);
    }
  }

  // ---------- the ticker ----------

  /** The two looks at the clock in one run of the ticker: for the handlers' slot, and for the slot to wait for. */
  datatype Tick = Tick(at: real, waitsFrom: real)

  /** Time does not run backwards, and a tick ends no earlier than the start of the slot it waits for. */
  ghost predicate Paced(c: Chain, ticks: seq<Tick>)
    requires c.secondsPerSlot > 0
  {
    && (forall k :: 0 <= k < |ticks| ==> ticks[k].at <= ticks[k].waitsFrom)
    && (forall k :: 0 <= k < |ticks| - 1 ==>
          ticks[k + 1].at >= TimestampForSlot(c, CurrentSlot(c, ticks[k].waitsFrom) + 1) as real)
  }

  lemma NextTickIsLater(c: Chain, ticks: seq<Tick>, k: nat)
    requires c.secondsPerSlot > 0 && Paced(c, ticks) && k + 1 < |ticks|
    ensures CurrentSlot(c, ticks[k].at) < CurrentSlot(c, ticks[k + 1].at)
  {
    var from, next := ticks[k].waitsFrom, ticks[k + 1].at;
    LaterTimeLaterSlot(c, ticks[k].at, from);
    CurrentSlotIff(c, from, CurrentSlot(c, from));
    LaterTimeLaterSlot(c, from, next);
    CurrentSlotIff(c, next, CurrentSlot(c, from));
  }

  /** The handlers see strictly increasing slots. */
  lemma {:induction false} TicksIncrease(c: Chain, ticks: seq<Tick>, i: nat, j: nat)
    requires c.secondsPerSlot > 0 && Paced(c, ticks) && i < j < |ticks|
    ensures CurrentSlot(c, ticks[i].at) < CurrentSlot(c, ticks[j].at)
    decreases j
  {
    NextTickIsLater(c, ticks, j - 1);
    if i < j - 1 {
      TicksIncrease(c, ticks, i, j - 1);
    }
  }

  lemma StartOfLaterSlot(c: Chain, slot: int, later: int)
    requires slot <= later
    ensures TimestampForSlot(c, slot) <= TimestampForSlot(c, later)
  {
  }

  /** No slot is skipped between two ticks exactly when the later tick comes before the slot after next begins. */
  lemma NoSlotSkippedIff(c: Chain, ticks: seq<Tick>, k: nat)
    requires c.secondsPerSlot > 0 && Paced(c, ticks) && k + 1 < |ticks|
    ensures CurrentSlot(c, ticks[k + 1].at) == CurrentSlot(c, ticks[k].at) + 1 <==>
              ticks[k + 1].at < TimestampForSlot(c, CurrentSlot(c, ticks[k].at) + 2) as real
  {
    var slot, next := CurrentSlot(c, ticks[k].at), ticks[k + 1].at;
    NextTickIsLater(c, ticks, k);
    CurrentSlotIff(c, next, slot + 1);
    StartOfLaterSlot(c, slot + 1, CurrentSlot(c, next));
    CurrentSlotIff(c, next, CurrentSlot(c, next));
  }

  // ---------- forks ----------

  function GetFork(c: Chain, slot: nat): Option<ForkVersion>
    requires c.slotsPerEpoch > 0
  {
    var epoch := slot / c.slotsPerEpoch;
    if epoch >= c.fuluForkEpoch then Some(Fulu)
    else if epoch >= c.electraForkEpoch then Some(Electra)
    else None
  }

  /** One run of the ticker's synchronous part: the version moves only at the first slot of the fork epoch. */
  function VersionAfterTick(c: Chain, v: ForkVersion, slot: nat): ForkVersion
    requires c.slotsPerEpoch > 0
  {
    if slot % c.slotsPerEpoch == 0 && slot / c.slotsPerEpoch == c.fuluForkEpoch then Fulu else v
  }

  function VersionAfter(c: Chain, v: ForkVersion, slots: seq<nat>): ForkVersion
    requires c.slotsPerEpoch > 0
  {
    if slots == [] then v
    else VersionAfterTick(c, VersionAfter(c, v, slots[..|slots| - 1]), slots[|slots| - 1])
  }

  function FuluStart(c: Chain): nat {
    c.fuluForkEpoch * c.slotsPerEpoch
  }

  lemma FuluStartIff(c: Chain, slot: nat)
    requires c.slotsPerEpoch > 0
    ensures slot / c.slotsPerEpoch >= c.fuluForkEpoch <==> slot >= FuluStart(c)
    ensures (slot % c.slotsPerEpoch == 0 && slot / c.slotsPerEpoch == c.fuluForkEpoch) <==> slot == FuluStart(c)
  {
    var d, q, f := c.slotsPerEpoch, slot / c.slotsPerEpoch, c.fuluForkEpoch;
    assert slot == q * d + slot % d;
    if q > f {
      ProductOrder(f, q, d);
    } else if q < f {
      ProductOrder(q, f, d);
    }
    if slot == f * d {
      DivisionUnique(slot, d, f);
    }
  }

  /** Each fork holds from the first slot of its epoch on, the later one first; before both there is none. */
  lemma GetForkIff(c: Chain, slot: nat)
    requires c.slotsPerEpoch > 0
    ensures GetFork(c, slot) == Some(Fulu) <==> slot >= c.fuluForkEpoch * c.slotsPerEpoch
    ensures GetFork(c, slot) == None <==>
              slot < c.fuluForkEpoch * c.slotsPerEpoch && slot < c.electraForkEpoch * c.slotsPerEpoch
  {
    FuluStartIff(c, slot);
    FuluStartIff(c.(fuluForkEpoch := c.electraForkEpoch), slot);
  }

  lemma {:induction false} VersionMeaning(c: Chain, v: ForkVersion, slots: seq<nat>)
    requires c.slotsPerEpoch > 0
    ensures VersionAfter(c, v, slots) == Fulu <==> v == Fulu || FuluStart(c) in slots
  {
    if slots != [] {
      var init, last := slots[..|slots| - 1], slots[|slots| - 1];
      assert slots == init + [last];
      VersionMeaning(c, v, init);
      FuluStartIff(c, last);
    }
  }

  /**
   The version kept by the ticker is the fork of the current slot exactly as long as the client was started in it, the
   fork is still ahead, or the ticker did not skip the first slot of the fork.
   */
  lemma ForkVersionAgreesIff(c: Chain, start: nat, slots: seq<nat>)
    requires c.slotsPerEpoch > 0 && c.electraForkEpoch <= c.fuluForkEpoch
    requires GetFork(c, start).Some? && slots != []
    requires forall i :: 0 <= i < |slots| ==> start <= slots[i] <= slots[|slots| - 1]
    ensures var current := slots[|slots| - 1];
            Some(VersionAfter(c, GetFork(c, start).value, slots)) == GetFork(c, current) <==>
              current < FuluStart(c) || start >= FuluStart(c) || FuluStart(c) in slots
  {
    var current := slots[|slots| - 1];
    VersionMeaning(c, GetFork(c, start).value, slots);
    FuluStartIff(c, start);
    FuluStartIff(c, current);
    QuotientMonotone(start, current, c.slotsPerEpoch);
  }

  class BeaconChain {
    const chain: Chain
    var currentForkVersion: ForkVersion

    constructor (chain: Chain, now: real)
      requires Configured(chain) && GetFork(chain, CurrentSlot(chain, now)).Some?
      ensures this.chain == chain && Some(currentForkVersion) == GetFork(chain, CurrentSlot(chain, now))
    {
      this.chain := chain;
      currentForkVersion :=
        if CurrentSlot(chain, now) / chain.slotsPerEpoch >= chain.fuluForkEpoch then Fulu else Electra;
    }

    /** The synchronous part of one tick: what the handlers are given, and the version afterwards. */
    method OnNewSlot(now: real) returns (slot: nat, isNewEpoch: bool)
      requires Configured(chain)
      modifies this
      ensures slot == CurrentSlot(chain, now)
      ensures isNewEpoch <==> exists epoch :: slot == epoch * chain.slotsPerEpoch
      ensures currentForkVersion == VersionAfterTick(chain, old(currentForkVersion), slot)
    {
      slot := CurrentSlot(chain, now);
      var epoch, slotInEpoch := slot / chain.slotsPerEpoch, slot % chain.slotsPerEpoch;
      isNewEpoch := slotInEpoch == 0;
      MultipleIff(slot, chain.slotsPerEpoch);
      if isNewEpoch && epoch == chain.fuluForkEpoch {
        currentForkVersion := Fulu;
      }
    }
  }

  lemma MultipleIff(x: nat, d: nat)
    requires d > 0
    ensures x % d == 0 <==> exists q :: x == q * d
  {
    assert x == x / d * d + x % d;
    if q :| x == q * d {
      DivisionUnique(x, d, q);
    }
  }

  // ---------- sync committee periods ----------

  function EpochsForSyncPeriod(c: Chain, period: nat): (int, int) {
    (period * c.epochsPerSyncPeriod, period * c.epochsPerSyncPeriod + c.epochsPerSyncPeriod)
  }

  function SyncPeriodForEpoch(c: Chain, epoch: nat): nat
    requires c.epochsPerSyncPeriod > 0
  {
    epoch / c.epochsPerSyncPeriod
  }

  /** A period's epochs are exactly the epochs of that period. */
  lemma SyncPeriodIff(c: Chain, epoch: nat, period: nat)
    requires c.epochsPerSyncPeriod > 0
    ensures SyncPeriodForEpoch(c, epoch) == period <==>
              EpochsForSyncPeriod(c, period).0 <= epoch < EpochsForSyncPeriod(c, period).1
    ensures EpochsForSyncPeriod(c, 0).0 == 0
    ensures EpochsForSyncPeriod(c, period).1 == EpochsForSyncPeriod(c, period + 1).0
            == EpochsForSyncPeriod(c, period).0 + c.epochsPerSyncPeriod
  {
    assert (period + 1) * c.epochsPerSyncPeriod == period * c.epochsPerSyncPeriod + c.epochsPerSyncPeriod;
    DivisionBounds(epoch, c.epochsPerSyncPeriod);
    if EpochsForSyncPeriod(c, period).0 <= epoch < EpochsForSyncPeriod(c, period).1 {
      DivisionUnique(epoch, c.epochsPerSyncPeriod, period);
    }
  }
}
