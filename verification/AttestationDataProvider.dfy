/** The checkpoint confirmation caches and the steps of the provider's coroutines (src/providers/attestation_data_provider.py). */
module AttestationDataProvider {
  import opened Basics
  import opened Types
  import opened Consensus

  // ---------- the two caches ----------

  type Cache = map<nat, Checkpoint>

  datatype ConfirmationCaches = ConfirmationCaches(source: Cache, target: Cache)

  predicate Confirmed(c: ConfirmationCaches, source: Checkpoint, target: Checkpoint) {
    && source.epoch in c.source && c.source[source.epoch] == source
    && target.epoch in c.target && c.target[target.epoch] == target
  }

  function Remember(c: ConfirmationCaches, source: Checkpoint, target: Checkpoint): ConfirmationCaches {
    ConfirmationCaches(c.source[source.epoch := source], c.target[target.epoch := target])
  }

  /** The entries with the `n` highest epochs. */
  function KeepNewest(c: Cache, n: nat): (kept: Cache)
    ensures kept.Keys <= c.Keys
  {
    if n == 0 || c.Keys == {} then map[]
    else
      var top := Largest(c.Keys);
      KeepNewest(c - {top}, n - 1)[top := c[top]]
  }

  /** No older epoch is preferred over a newer one. */
  ghost predicate PrefersNewest(c: Cache, kept: Cache) {
    && kept.Keys <= c.Keys
    && (forall e :: e in kept ==> kept[e] == c[e])
    && (forall e, f :: e in kept && f in c && f !in kept ==> f < e)
  }

  lemma {:induction false} KeepNewestKeepsNewest(c: Cache, n: nat)
    ensures PrefersNewest(c, KeepNewest(c, n))
  {
    if n > 0 && c.Keys != {} {
      var top := Largest(c.Keys);
      KeepNewestKeepsNewest(c - {top}, n - 1);
      PreferTop(c, top, KeepNewest(c - {top}, n - 1));
    }
  }

  lemma {:induction false} KeepNewestSize(c: Cache, n: nat)
    ensures |KeepNewest(c, n).Keys| == Min(n, |c.Keys|)
  {
    if n > 0 && c.Keys != {} {
      var top := Largest(c.Keys);
      KeepNewestSize(c - {top}, n - 1);
      assert (c - {top}).Keys == c.Keys - {top};
      assert KeepNewest(c, n).Keys == KeepNewest(c - {top}, n - 1).Keys + {top};
    }
  }

  lemma PreferTop(c: Cache, top: nat, kept: Cache)
    requires top in c && (forall e :: e in c ==> e <= top) && PrefersNewest(c - {top}, kept)
    ensures PrefersNewest(c, kept[top := c[top]])
  {
  }

  function Pruned(c: ConfirmationCaches): ConfirmationCaches {
    ConfirmationCaches(KeepNewest(c.source, 3), KeepNewest(c.target, 3))
  }

  // ---------- the coroutines ----------

  /**
   Where one call of `produce_attestation_data` is suspended: waiting for data with the head event's block root,
   waiting for a checkpoint quorum, or polling without an expected block root.
   */
  datatype Task =
    | AwaitingHead(root: Root, nodes: set<Host>)
    | Confirming(root: Root, data: AttestationData, nodes: set<Host>, confirmed: set<Host>)
    | Polling(tally: Tally)

  datatype How = FromCache | FromCheckpoints | FromConsensus

  datatype Progress = Suspended(task: Task) | Returned(data: AttestationData, how: How)

  function Started(head: Option<Root>, ready: set<Host>): Task {
    match head
    case None => Polling(EMPTY_TALLY)
    case Some(root) => AwaitingHead(root, ready)
  }

  /** One of the two timeouts fired: fall back to polling. Polling itself has no timeout of its own. */
  function TimedOut(task: Task): Task {
    if task.Polling? then task else Polling(EMPTY_TALLY)
  }

  /** A node's answer reaches the suspended coroutine. */
  function Resumed(threshold: nat, c: ConfirmationCaches, ready: set<Host>, task: Task, host: Host, data: AttestationData)
    : (ConfirmationCaches, Progress)
  {
    match task
    case AwaitingHead(root, nodes) =>
      if host !in nodes || data.blockRoot != root then (c, Suspended(task))
      else if Confirmed(c, data.source, data.target) then (c, Returned(data, FromCache))
      else (c, Suspended(Confirming(root, data, ready, {})))
    case Confirming(root, wanted, nodes, confirmed) =>
      if host !in nodes || host in confirmed || data.source != wanted.source || data.target != wanted.target
      then (c, Suspended(task))
      else
        var now := confirmed + {host};
        if |now| >= threshold || now == nodes
        then (Remember(c, wanted.source, wanted.target), Returned(wanted, FromCheckpoints))
        else (c, Suspended(Confirming(root, wanted, nodes, now)))
    case Polling(tally) =>
      var after := Receive(tally, host, data);
      if after != tally && Count(after.counter, data) >= threshold
      then (Remember(c, data.source, data.target), Returned(data, FromConsensus))
      else (c, Suspended(Polling(after)))
  }

  class AttestationDataProvider {
    const threshold: nat
    var sourceCache: Cache
    var targetCache: Cache

    constructor (threshold: nat)
      ensures this.threshold == threshold && Caches() == ConfirmationCaches(map[], map[])
    {
      this.threshold := threshold;
      sourceCache, targetCache := map[], map[];
    }

    function Caches(): ConfirmationCaches
      reads this
    {
      ConfirmationCaches(sourceCache, targetCache)
    }

    method CacheCheckpoints(source: Checkpoint, target: Checkpoint)
      modifies this
      ensures Caches() == Remember(old(Caches()), source, target)
      ensures forall e :: e in sourceCache <==> e in old(sourceCache) || e == source.epoch
      ensures forall e :: e in targetCache <==> e in old(targetCache) || e == target.epoch
      ensures forall e :: e in sourceCache ==> sourceCache[e] == if e == source.epoch then source else old(sourceCache)[e]
      ensures forall e :: e in targetCache ==> targetCache[e] == if e == target.epoch then target else old(targetCache)[e]
    {
      sourceCache := sourceCache[source.epoch := source];
      targetCache := targetCache[target.epoch := target];
    }

    /** The stretch of `produce_attestation_data` between one answer and the next suspension. */
    method Resume(ready: set<Host>, task: Task, host: Host, data: AttestationData) returns (progress: Progress)
      modifies this
      ensures (Caches(), progress) == Resumed(threshold, old(Caches()), ready, task, host, data)
    {
      progress := Suspended(task);
      match task {
        case AwaitingHead(root, nodes) =>
          if host in nodes && data.blockRoot == root {
            if Confirmed(Caches(), data.source, data.target) {
              progress := Returned(data, FromCache);
            } else {
              progress := Suspended(Confirming(root, data, ready, {}));
            }
          }
        case Confirming(root, wanted, nodes, confirmed) =>
          if host in nodes && host !in confirmed && data.source == wanted.source && data.target == wanted.target {
            var now := confirmed + {host};
            if |now| >= threshold || now == nodes {
              CacheCheckpoints(wanted.source, wanted.target);
              progress := Returned(wanted, FromCheckpoints);
            } else {
              progress := Suspended(Confirming(root, wanted, nodes, now));
            }
          }
        case Polling(tally) =>
          var after := Receive(tally, host, data);
          if after != tally && Count(after.counter, data) >= threshold {
            CacheCheckpoints(data.source, data.target);
            progress := Returned(data, FromConsensus);
          } else {
            progress := Suspended(Polling(after));
          }
      }
    }

    method Prune()
      modifies this
      ensures Caches() == Pruned(old(Caches()))
      ensures PrefersNewest(old(sourceCache), sourceCache) && |sourceCache.Keys| == Min(3, |old(sourceCache).Keys|)
      ensures PrefersNewest(old(targetCache), targetCache) && |targetCache.Keys| == Min(3, |old(targetCache).Keys|)
    {
      KeepNewestKeepsNewest(sourceCache, 3);
      KeepNewestKeepsNewest(targetCache, 3);
      KeepNewestSize(sourceCache, 3);
      KeepNewestSize(targetCache, 3);
      sourceCache := Newest(sourceCache, 3);
      targetCache := Newest(targetCache, 3);
    }

    /** Sort by epoch, newest first, and cut after `n` entries. */
    static method Newest(cache: Cache, n: nat) returns (kept: Cache)
      ensures kept == KeepNewest(cache, n)
    {
      kept := map[];
      var rest, left := cache, n;
      while left > 0 && rest.Keys != {}
        invariant kept + KeepNewest(rest, left) == KeepNewest(cache, n)
        invariant kept.Keys !! rest.Keys
        decreases left
      {
        var top := Largest(rest.Keys);
        ghost var tail := KeepNewest(rest - {top}, left - 1);
        assert kept + tail[top := rest[top]] == kept[top := rest[top]] + tail;
        kept, rest, left := kept[top := rest[top]], rest - {top}, left - 1;
      }
      assert kept + map[] == kept;
    }
  }
}
