/** Choosing the best block among the beacon nodes' proposals, against the clock (src/providers/multi_beacon_node.py). */
module BestBlock {
  import opened Basics

  datatype Block = Block(consensusValue: nat, executionValue: nat, body: string)

  /** A finished request: its task, and the block it brought unless it failed. */
  datatype Completion = Completion(task: nat, block: Option<Block>)

  /** One return of `asyncio.wait`: how many requests finished since the last one, and the time since the start. */
  datatype Turn = Turn(finished: nat, clock: real)

  datatype Outcome = Chosen(block: Block) | AllFailed | StillWaiting

  /** What a block counts for: on Gnosis and Chiado its two values are in different currencies. */
  function Value(b: Block, consensusOnly: bool): int {
    if consensusOnly then b.consensusValue else b.consensusValue + b.executionValue
  }

  // ---------- what the choice means ----------

  /** `there` is worth no more than `here`, or less: by both values together, or by the consensus value alone. */
  ghost predicate WorthNoMore(there: Block, here: Block, consensusOnly: bool, less: bool) {
    && (consensusOnly ==> there.consensusValue <= here.consensusValue)
    && (consensusOnly && less ==> there.consensusValue < here.consensusValue)
    && (!consensusOnly ==> there.consensusValue + there.executionValue <= here.consensusValue + here.executionValue)
    && (!consensusOnly && less ==> there.consensusValue + there.executionValue < here.consensusValue + here.executionValue)
  }

  /** The block at `k` is worth as much as any in `log`, and more than any before it. */
  ghost predicate FirstBest(log: seq<Completion>, k: nat, consensusOnly: bool) {
    && k < |log| && log[k].block.Some?
    && forall j :: 0 <= j < |log| && log[j].block.Some? ==>
         WorthNoMore(log[j].block.value, log[k].block.value, consensusOnly, j < k)
  }

  ghost predicate FirstBlock(log: seq<Completion>, from: nat, k: nat) {
    && from <= k < |log| && log[k].block.Some?
    && forall j :: from <= j < k ==> log[j].block.None?
  }

  ghost predicate NoBlock(log: seq<Completion>) {
    forall i :: 0 <= i < |log| ==> log[i].block.None?
  }

  // ---------- the requests and the clock ----------

  function Finished(turns: seq<Turn>): nat {
    if turns == [] then 0 else Finished(turns[..|turns| - 1]) + turns[|turns| - 1].finished
  }

  lemma {:induction false} FinishedGrows(turns: seq<Turn>, n: nat)
    requires n <= |turns|
    ensures Finished(turns[..n]) <= Finished(turns)
  {
    if n < |turns| {
      var init := turns[..|turns| - 1];
      assert init[..n] == turns[..n];
      FinishedGrows(init, n);
    } else {
      assert turns[..n] == turns;
    }
  }

  /** Each request finishes at most once; `asyncio.wait` returns empty-handed only when its timeout is over. */
  ghost predicate Observed(tasks: set<nat>, timeout: real, turns: seq<Turn>, log: seq<Completion>) {
    && (forall i :: 0 <= i < |log| ==> log[i].task in tasks)
    && (forall i, j :: 0 <= i < j < |log| ==> log[i].task != log[j].task)
    && (forall i :: 0 <= i < |turns| && turns[i].finished == 0 ==> turns[i].clock >= timeout)
    && Finished(turns) <= |log|
  }

  /** The requests that have not finished after the first `n` completions. */
  ghost predicate Remaining(tasks: set<nat>, log: seq<Completion>, n: nat, pending: set<nat>) {
    && n <= |log|
    && |log| - n <= |pending| == |tasks| - n
    && (forall i :: n <= i < |log| ==> log[i].task in pending)
  }

  lemma {:induction false} LogFits(tasks: set<nat>, log: seq<Completion>)
    requires forall i :: 0 <= i < |log| ==> log[i].task in tasks
    requires forall i, j :: 0 <= i < j < |log| ==> log[i].task != log[j].task
    ensures |log| <= |tasks|
  {
    if log != [] {
      LogFits(tasks - {log[0].task}, log[1..]);
    }
  }

  /** One turn's completions: each leaves `pending`, and only a strictly better block replaces the best one. */
  method ProcessDone(
    tasks: set<nat>, log: seq<Completion>, from: nat, count: nat, consensusOnly: bool,
    pending: set<nat>, best: Option<Block>, bestValue: int, ghost bestAt: nat)
    returns (pending': set<nat>, best': Option<Block>, bestValue': int, ghost bestAt': nat)
    requires from + count <= |log| && Remaining(tasks, log, from, pending)
    requires forall i, j :: 0 <= i < j < |log| ==> log[i].task != log[j].task
    requires BestSoFar(log[..from], best, bestValue, bestAt, consensusOnly)
    ensures Remaining(tasks, log, from + count, pending')
    ensures BestSoFar(log[..from + count], best', bestValue', bestAt', consensusOnly)
  {
    pending', best', bestValue', bestAt' := pending, best, bestValue, bestAt;
    for n := from to from + count
      invariant Remaining(tasks, log, n, pending')
      invariant BestSoFar(log[..n], best', bestValue', bestAt', consensusOnly)
    {
      pending' := pending' - {log[n].task};
      BestSoFarStep(log, n, best', bestValue', bestAt', consensusOnly);
      if log[n].block.Some? && Value(log[n].block.value, consensusOnly) > bestValue' {
        best', bestValue', bestAt' := log[n].block, Value(log[n].block.value, consensusOnly), n;
      }
    }
  }

  ghost predicate BestSoFar(log: seq<Completion>, best: Option<Block>, bestValue: int, bestAt: nat, consensusOnly: bool) {
    if best.None? then NoBlock(log) && bestValue == -1
    else FirstBest(log, bestAt, consensusOnly) && log[bestAt].block == best && bestValue == Value(best.value, consensusOnly)
  }

  lemma BestSoFarStep(log: seq<Completion>, n: nat, best: Option<Block>, bestValue: int, bestAt: nat, consensusOnly: bool)
    requires n < |log| && BestSoFar(log[..n], best, bestValue, bestAt, consensusOnly)
    ensures if log[n].block.Some? && Value(log[n].block.value, consensusOnly) > bestValue
            then BestSoFar(log[..n + 1], log[n].block, Value(log[n].block.value, consensusOnly), n, consensusOnly)
            else BestSoFar(log[..n + 1], best, bestValue, bestAt, consensusOnly)
  {
  }

  /** After `n` turns there are requests left and time to wait for them. */
  ghost predicate StillTimed(requests: nat, timeout: real, turns: seq<Turn>, n: nat)
    requires n <= |turns|
  {
    Finished(turns[..n]) < requests && InTime(timeout, turns, n)
  }

  ghost predicate InTime(timeout: real, turns: seq<Turn>, n: nat)
    requires n <= |turns|
  {
    forall i :: 0 <= i < n ==> turns[i].clock < timeout
  }

  lemma FinishedStep(turns: seq<Turn>, n: nat)
    requires n < |turns|
    ensures Finished(turns[..n + 1]) == Finished(turns[..n]) + turns[n].finished <= Finished(turns)
  {
    FinishedGrows(turns, n + 1);
    assert turns[..n + 1][..n] == turns[..n];
  }

  /** Collect blocks until the timeout, or until every request has finished. */
  method TimedPhase(tasks: set<nat>, timeout: real, consensusOnly: bool, turns: seq<Turn>, log: seq<Completion>)
    returns (pending: set<nat>, best: Option<Block>, timed: nat, used: nat, ghost k: nat)
    requires timeout > 0.0 && Observed(tasks, timeout, turns, log)
    ensures used <= |turns| && timed == Finished(turns[..used]) <= |log|
    ensures used > 0 ==> StillTimed(|tasks|, timeout, turns, used - 1)
    ensures StillTimed(|tasks|, timeout, turns, used) ==> used == |turns|
    ensures Remaining(tasks, log, timed, pending)
    ensures if best.None? then NoBlock(log[..timed])
            else FirstBest(log[..timed], k, consensusOnly) && log[k].block == best
  {
    pending, best, timed, used, k := tasks, None, 0, 0, 0;
    var bestValue, remainingTimeout := -1, timeout;
    LogFits(tasks, log);
    while pending != {} && remainingTimeout > 0.0 && used < |turns|
      invariant used <= |turns| && timed == Finished(turns[..used]) <= |log|
      invariant Remaining(tasks, log, timed, pending)
      invariant BestSoFar(log[..timed], best, bestValue, k, consensusOnly)
      invariant used > 0 ==> StillTimed(|tasks|, timeout, turns, used - 1)
      invariant remainingTimeout > 0.0 <==> InTime(timeout, turns, used)
      decreases |turns| - used
    {
      FinishedStep(turns, used);
      pending, best, bestValue, k :=
        ProcessDone(tasks, log, timed, turns[used].finished, consensusOnly, pending, best, bestValue, k);
      timed := timed + turns[used].finished;
      remainingTimeout := if turns[used].clock < timeout then timeout - turns[used].clock else 0.0;
      used := used + 1;
    }
  }

  /** Every turn but the last one lets a request finish, or uses up the timeout. */
  lemma {:induction false} TurnsBounded(tasks: set<nat>, timeout: real, turns: seq<Turn>, log: seq<Completion>, n: nat)
    requires Observed(tasks, timeout, turns, log)
    requires n <= |turns| && StillTimed(|tasks|, timeout, turns, n)
    ensures n <= Finished(turns[..n]) < |tasks|
  {
    if n > 0 {
      assert turns[..n][..n - 1] == turns[..n - 1];
      TurnsBounded(tasks, timeout, turns, log, n - 1);
    }
  }

  /**
   Wait for blocks until the timeout, or until every request has finished; after a timeout without any block, for the
   first one. `log` lists the completions in order, as far as they happened; the timed phase took `used` turns.
   */
  method ProduceBestBlock(tasks: set<nat>, timeout: real, consensusOnly: bool, turns: seq<Turn>, log: seq<Completion>)
    returns (outcome: Outcome, used: nat, ghost k: nat)
    requires timeout > 0.0 && Observed(tasks, timeout, turns, log)
    ensures used <= |turns| && Finished(turns[..used]) <= |log|
    ensures used > 0 ==> StillTimed(|tasks|, timeout, turns, used - 1)
    ensures outcome.StillWaiting? ==>
              if StillTimed(|tasks|, timeout, turns, used) then used == |turns| else NoBlock(log) && |log| < |tasks|
    ensures !outcome.StillWaiting? ==> !StillTimed(|tasks|, timeout, turns, used)
    ensures outcome.Chosen? ==>
              var timed := Finished(turns[..used]);
              && k < |log| && log[k].block == Some(outcome.block)
              && if NoBlock(log[..timed]) then FirstBlock(log, timed, k) else FirstBest(log[..timed], k, consensusOnly)
    ensures outcome.AllFailed? ==> NoBlock(log) && |log| == |tasks|
  {
    var pending, best, timed;
    pending, best, timed, used, k := TimedPhase(tasks, timeout, consensusOnly, turns, log);
    if pending != {} && (used == 0 || turns[used - 1].clock < timeout) {
      return StillWaiting, used, k;
    }
    if best.Some? {
      return Chosen(best.value), used, k;
    }
    assert forall i :: 0 <= i < timed ==> log[i] == log[..timed][i];
    outcome, k := AwaitFirst(tasks, log, timed, pending);
  }

  /** After the timeout: the first block that any pending request still brings. */
  method AwaitFirst(tasks: set<nat>, log: seq<Completion>, from: nat, pending: set<nat>)
    returns (outcome: Outcome, ghost k: nat)
    requires Remaining(tasks, log, from, pending)
    requires forall i, j :: 0 <= i < j < |log| ==> log[i].task != log[j].task
    ensures outcome.Chosen? ==> FirstBlock(log, from, k) && log[k].block == Some(outcome.block)
    ensures !outcome.Chosen? ==> forall i :: from <= i < |log| ==> log[i].block.None?
    ensures outcome.AllFailed? ==> |log| == |tasks|
    ensures outcome.StillWaiting? ==> |log| < |tasks|
  {
    var n: nat, left := from, pending;
    k := 0;
    while left != {}
      invariant Remaining(tasks, log, n, left) && from <= n
      invariant forall j :: from <= j < n ==> log[j].block.None?
      decreases |left|
    {
      if n == |log| {
        return StillWaiting, k;
      }
      if log[n].block.Some? {
        return Chosen(log[n].block.value), n;
      }
      left := left - {log[n].task};
      n := n + 1;
    }
    return AllFailed, k;
  }
}
