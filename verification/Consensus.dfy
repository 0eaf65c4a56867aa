/**
 Attestation data consensus without a head event (src/providers/multi_beacon_node.py).

 Every node is asked over and over; a map remembers each host's latest answer and a counter,
 updated incrementally, says how many hosts stand behind each value.
 */
module Consensus {
  import opened Basics
  import opened Types
  import Args

  datatype Response = Answer(host: Host, data: AttestationData) | Failure

  /** The latest successful answer of each host in a history of responses: the meaning of `host_to_att_data`. */
  function Latest(rs: seq<Response>): map<Host, AttestationData>
  {
    if rs == [] then map[]
    else
      var before, last := Latest(rs[..|rs| - 1]), rs[|rs| - 1];
      if last.Answer? then before[last.host := last.data] else before
  }

  /** The hosts whose latest answer is `d`. */
  ghost function Backers(latest: map<Host, AttestationData>, d: AttestationData): set<Host> {
    set h | h in latest && latest[h] == d
  }

  ghost predicate Undecided(rs: seq<Response>, threshold: nat) {
    forall d :: |Backers(Latest(rs), d)| < threshold
  }

  /** `d` wins at response number `used`: before it no value had enough backers, with it exactly `d` has exactly enough. */
  ghost predicate DecidedAt(rs: seq<Response>, used: nat, threshold: nat, d: AttestationData) {
    && 0 < used <= |rs|
    && rs[used - 1].Answer? && rs[used - 1].data == d
    && |Backers(Latest(rs[..used]), d)| == threshold
    && (forall k :: 0 <= k < used ==> Undecided(rs[..k], threshold))
    && (forall e :: e != d ==> |Backers(Latest(rs[..used]), e)| < threshold)
  }

  // ---------- the incrementally updated counter ----------

  datatype Tally = Tally(latest: map<Host, AttestationData>, counter: map<AttestationData, int>)

  const EMPTY_TALLY := Tally(map[], map[])

  /** A missing key of the counter counts as zero. */
  function Count(counter: map<AttestationData, int>, d: AttestationData): int {
    if d in counter then counter[d] else 0
  }

  function Bump(counter: map<AttestationData, int>, d: AttestationData, delta: int): map<AttestationData, int> {
    counter[d := Count(counter, d) + delta]
  }

  function Receive(t: Tally, host: Host, data: AttestationData): Tally {
    if host in t.latest && t.latest[host] == data then t
    else
      var counter := Bump(t.counter, data, 1);
      Tally(t.latest[host := data],
            if host in t.latest then Bump(counter, t.latest[host], -1) else counter)
  }

  ghost predicate Exact(t: Tally) {
    forall d :: Count(t.counter, d) == |Backers(t.latest, d)|
  }

  /** How one new answer moves the backers: one host joins its new value and leaves its old one. */
  lemma BackersAfterAnswer(latest: map<Host, AttestationData>, host: Host, data: AttestationData, d: AttestationData)
    ensures var after := Backers(latest[host := data], d);
            && after == (if d == data then Backers(latest, d) + {host} else Backers(latest, d) - {host})
            && |after| == |Backers(latest, d)|
                          + (if d == data && !(host in latest && latest[host] == d) then 1 else 0)
                          - (if d != data && host in latest && latest[host] == d then 1 else 0)
  {
    var before := Backers(latest, d);
    assert Backers(latest[host := data], d) == if d == data then before + {host} else before - {host};
    assert host in before <==> host in latest && latest[host] == d;
  }

  lemma ReceiveStaysExact(t: Tally, host: Host, data: AttestationData)
    requires Exact(t)
    ensures Exact(Receive(t, host, data))
    ensures Receive(t, host, data).latest == t.latest[host := data]
  {
    var after := Receive(t, host, data);
    if !(host in t.latest && t.latest[host] == data) {
      forall d ensures Count(after.counter, d) == |Backers(after.latest, d)| {
        BackersAfterAnswer(t.latest, host, data, d);
        assert Count(after.counter, d) == Count(t.counter, d) + (if d == data then 1 else 0)
                                          - (if host in t.latest && t.latest[host] == d then 1 else 0);
      }
    } else {
      assert t.latest[host := data] == t.latest;
    }
  }

  // ---------- the polling loop ----------

  function Flatten(rounds: seq<seq<Response>>): seq<Response> {
    if rounds == [] then [] else Flatten(rounds[..|rounds| - 1]) + rounds[|rounds| - 1]
  }

  lemma LatestStep(rs: seq<Response>, r: Response)
    ensures Latest(rs + [r]) == if r.Answer? then Latest(rs)[r.host := r.data] else Latest(rs)
  {
  }

  lemma FlattenPrefix(rounds: seq<seq<Response>>, n: nat)
    requires n <= |rounds|
    ensures Flatten(rounds[..n]) <= Flatten(rounds)
  {
    if n < |rounds| {
      var init := rounds[..|rounds| - 1];
      assert init[..n] == rounds[..n];
      FlattenPrefix(init, n);
    } else {
      assert rounds[..n] == rounds;
    }
  }

  /** The responses of all rounds, round by round. */
  lemma {:induction false} FlattenAppend(a: seq<seq<Response>>, b: seq<seq<Response>>, round: seq<Response>)
    ensures Flatten(a + b) == Flatten(a) + Flatten(b) && Flatten([round]) == round
  {
    assert [round][..0] == [];
    if b == [] {
      assert a + b == a;
    } else {
      var init := b[..|b| - 1];
      assert (a + b)[..|a + b| - 1] == a + init;
      FlattenAppend(a, init, round);
    }
  }

  /** One response can push at most one value over the threshold, and by exactly one vote. */
  lemma DecisionStep(rs: seq<Response>, host: Host, data: AttestationData, threshold: nat)
    requires Undecided(rs, threshold)
    ensures var after := Latest(rs + [Answer(host, data)]);
            && |Backers(after, data)| <= threshold
            && (forall e :: e != data ==> |Backers(after, e)| < threshold)
  {
    LatestStep(rs, Answer(host, data));
    forall d ensures |Backers(Latest(rs + [Answer(host, data)]), d)| <= |Backers(Latest(rs), d)| + (if d == data then 1 else 0) {
      BackersAfterAnswer(Latest(rs), host, data, d);
    }
  }

  /** The loop's state after the responses `seen`: both maps tell the truth about them, and nothing was ever decided. */
  ghost predicate Polling(seen: seq<Response>, t: Tally, threshold: nat) {
    && Exact(t)
    && t.latest == Latest(seen)
    && forall k :: 0 <= k <= |seen| ==> Undecided(seen[..k], threshold)
  }

  /** One more response either leaves the loop polling or decides the value it carries. */
  lemma PollingStep(seen: seq<Response>, t: Tally, r: Response, threshold: nat)
    requires Polling(seen, t, threshold)
    ensures r.Failure? ==> Polling(seen + [r], t, threshold)
    ensures r.Answer? ==>
              var after := Receive(t, r.host, r.data);
              if after == t || Count(after.counter, r.data) < threshold then Polling(seen + [r], after, threshold)
              else DecidedAt(seen + [r], |seen| + 1, threshold, r.data)
  {
    var all := seen + [r];
    LatestStep(seen, r);
    assert forall k :: 0 <= k <= |seen| ==> all[..k] == seen[..k];
    assert seen[..|seen|] == seen && all[..|all|] == all;
    assert Undecided(seen, threshold);
    if r.Answer? {
      ReceiveStaysExact(t, r.host, r.data);
      DecisionStep(seen, r.host, r.data, threshold);
    }
  }

  lemma DecidedInPrefix(rs: seq<Response>, all: seq<Response>, threshold: nat, d: AttestationData)
    requires rs <= all && DecidedAt(rs, |rs|, threshold, d)
    ensures DecidedAt(all, |rs|, threshold, d)
  {
    assert forall k :: 0 <= k <= |rs| ==> all[..k] == rs[..k];
  }

  /**
   The loop, over the responses observed so far: `rounds[i]` lists the responses of round `i` in completion order.
   `None` means that it is still polling after all of them.
   */
  method ProduceAttestationDataWithoutHeadEvent(rounds: seq<seq<Response>>, threshold: nat)
    returns (result: Option<AttestationData>, used: nat)
    requires threshold >= 1
    ensures result.Some? ==> DecidedAt(Flatten(rounds), used, threshold, result.value)
    ensures result.None? ==>
              && used == |Flatten(rounds)|
              && forall k :: 0 <= k <= used ==> Undecided(Flatten(rounds)[..k], threshold)
  {
    var hostToData: map<Host, AttestationData> := map[];
    var counter: map<AttestationData, int> := map[];
    ghost var seen: seq<Response> := [];
    used := 0;
    NothingSeen(threshold);
    var round := 0;
    while round < |rounds|
      invariant 0 <= round <= |rounds|
      invariant seen == Flatten(rounds[..round]) && used == |seen|
      invariant Polling(seen, Tally(hostToData, counter), threshold)
    {
      assert rounds[..round + 1][..round] == rounds[..round];
      ghost var start := seen;
      var i := 0;
      while i < |rounds[round]|
        invariant 0 <= i <= |rounds[round]|
        invariant seen == start + rounds[round][..i] && used == |seen|
        invariant Polling(seen, Tally(hostToData, counter), threshold)
      {
        var response := rounds[round][i];
        PollingStep(seen, Tally(hostToData, counter), response, threshold);
        seen := seen + [response];
        used := used + 1;
        i := i + 1;
        assert seen == start + rounds[round][..i];
        if response.Answer? {
          var host, data := response.host, response.data;
          ghost var after := Receive(Tally(hostToData, counter), host, data);
          if !(host in hostToData && hostToData[host] == data) {
            counter := Bump(counter, data, 1);
            if host in hostToData {
              counter := Bump(counter, hostToData[host], -1);
            }
            hostToData := hostToData[host := data];
            assert Tally(hostToData, counter) == after;
            if Count(counter, data) >= threshold {
              FlattenPrefix(rounds, round + 1);
              DecidedInPrefix(seen, Flatten(rounds), threshold, data);
              return Some(data), used;
            }
          }
        }
      }
      round := round + 1;
      assert seen == Flatten(rounds[..round]);
    }
    assert rounds[..round] == rounds;
    return None, used;
  }

  lemma NothingSeen(threshold: nat)
    requires threshold >= 1
    ensures Polling([], EMPTY_TALLY, threshold)
  {
  }

  // ---------- what the loop promises over whole runs ----------

  /** A run has at most one outcome, even when the threshold is no majority. */
  lemma DecisionIsUnique(rs: seq<Response>, threshold: nat, u1: nat, d1: AttestationData, u2: nat, d2: AttestationData)
    requires DecidedAt(rs, u1, threshold, d1) && DecidedAt(rs, u2, threshold, d2)
    ensures u1 == u2 && d1 == d2
  {
  }

  /** Each entry of the latest-answer map is an answer that was really given. */
  lemma {:induction false} LatestWasGiven(rs: seq<Response>, host: Host)
    requires host in Latest(rs)
    ensures Answer(host, Latest(rs)[host]) in rs
  {
    var last := rs[|rs| - 1];
    if !(last.Answer? && last.host == host) {
      LatestWasGiven(rs[..|rs| - 1], host);
    }
  }

  /** Answer number `i` is the last one that its host has given. */
  ghost predicate LastOf(rs: seq<Response>, host: Host, d: AttestationData, i: nat)
    requires i < |rs|
  {
    rs[i] == Answer(host, d) && forall j :: i < j < |rs| && rs[j].Answer? ==> rs[j].host != host
  }

  /** The map holds exactly the last answer of each host that has given one. */
  lemma {:induction false} LatestIff(rs: seq<Response>, host: Host, d: AttestationData)
    ensures (host in Latest(rs) && Latest(rs)[host] == d) <==> exists i :: 0 <= i < |rs| && LastOf(rs, host, d, i)
  {
    if rs != [] {
      var n := |rs| - 1;
      var init, last := rs[..n], rs[n];
      LatestIff(init, host, d);
      if last.Answer? && last.host == host {
        assert LastOf(rs, host, last.data, n);
        assert forall i :: 0 <= i < n ==> !LastOf(rs, host, d, i);
      } else {
        assert forall i :: 0 <= i < n ==> (LastOf(rs, host, d, i) <==> LastOf(init, host, d, i));
      }
    }
  }

  /** If a host's every answer in the tail is `d`, and it answers there at all, its latest answer is `d`. */
  lemma {:induction false} LatestAfterTail(rs: seq<Response>, tail: seq<Response>, host: Host, d: AttestationData)
    requires forall r :: r in tail && r.Answer? && r.host == host ==> r.data == d
    requires Answer(host, d) in tail || (host in Latest(rs) && Latest(rs)[host] == d)
    ensures host in Latest(rs + tail) && Latest(rs + tail)[host] == d
  {
    if tail == [] {
      assert rs + tail == rs;
    } else {
      var init, last := tail[..|tail| - 1], tail[|tail| - 1];
      assert tail == init + [last];
      assert rs + tail == (rs + init) + [last];
      LatestStep(rs + init, last);
      assert forall r :: r in init ==> r in tail;
      assert last in tail;
      if !(last.Answer? && last.host == host) {
        assert Answer(host, d) in tail ==> Answer(host, d) in init;
        LatestAfterTail(rs, init, host, d);
      }
    }
  }

  /** Once a threshold of hosts answers `d`, and nothing else, within one round, the loop does not survive that round. */
  lemma AgreementEndsTheLoop(before: seq<Response>, round: seq<Response>, hosts: set<Host>, threshold: nat, d: AttestationData)
    requires |hosts| >= threshold
    requires forall h :: h in hosts ==> Answer(h, d) in round
    requires forall r :: r in round && r.Answer? && r.host in hosts ==> r.data == d
    ensures !Undecided(before + round, threshold)
  {
    var latest := Latest(before + round);
    forall h | h in hosts ensures h in Backers(latest, d) {
      LatestAfterTail(before, round, h, d);
    }
    SubsetSize(hosts, Backers(latest, d));
  }

  // ---------- quorum intersection ----------

  ghost predicate From(rs: seq<Response>, hosts: set<Host>) {
    forall r :: r in rs && r.Answer? ==> r.host in hosts
  }

  lemma BackersAreHosts(rs: seq<Response>, hosts: set<Host>, d: AttestationData)
    requires From(rs, hosts)
    ensures Backers(Latest(rs), d) <= hosts
    ensures forall h :: h in Backers(Latest(rs), d) ==> Answer(h, d) in rs
  {
  }

  /** With a majority threshold any two decided runs share a host that stood behind both results. */
  lemma DecisionsShareAHost(
    c: Args.Config, rs1: seq<Response>, u1: nat, d1: AttestationData, rs2: seq<Response>, u2: nat, d2: AttestationData)
    returns (h: Host)
    requires Args.Sound(c) && Args.Majority(c)
    requires From(rs1, Elements(c.hosts)) && From(rs2, Elements(c.hosts))
    requires DecidedAt(rs1, u1, c.threshold, d1) && DecidedAt(rs2, u2, c.threshold, d2)
    ensures h in c.hosts && Answer(h, d1) in rs1[..u1] && Answer(h, d2) in rs2[..u2]
    ensures h in Backers(Latest(rs1[..u1]), d1) && h in Backers(Latest(rs2[..u2]), d2)
  {
    DistinctIffSetAsLarge(c.hosts);
    BackersAreHosts(rs1[..u1], Elements(c.hosts), d1);
    BackersAreHosts(rs2[..u2], Elements(c.hosts), d2);
    h := QuorumsMeet(Backers(Latest(rs1[..u1]), d1), Backers(Latest(rs2[..u2]), d2), Elements(c.hosts));
  }

  /** No host ever takes back an answer. */
  ghost predicate Steady(rs: seq<Response>) {
    forall i, j :: 0 <= i < |rs| && 0 <= j < |rs| && rs[i].Answer? && rs[j].Answer? && rs[i].host == rs[j].host
                   ==> rs[i].data == rs[j].data
  }

  ghost predicate CannotSplit(c: Args.Config) {
    forall rs1, u1: nat, d1, rs2, u2: nat, d2 ::
      && From(rs1, Elements(c.hosts)) && From(rs2, Elements(c.hosts)) && Steady(rs1 + rs2)
      && DecidedAt(rs1, u1, c.threshold, d1) && DecidedAt(rs2, u2, c.threshold, d2)
      ==> d1 == d2
  }

  /** Two runs over hosts that do not change their minds can disagree exactly when the threshold is no majority. */
  lemma CannotSplitIffMajority(c: Args.Config)
    requires Args.Sound(c)
    ensures CannotSplit(c) <==> Args.Majority(c)
  {
    if Args.Majority(c) {
      forall rs1, u1: nat, d1, rs2, u2: nat, d2 |
        && From(rs1, Elements(c.hosts)) && From(rs2, Elements(c.hosts)) && Steady(rs1 + rs2)
        && DecidedAt(rs1, u1, c.threshold, d1) && DecidedAt(rs2, u2, c.threshold, d2)
        ensures d1 == d2
      {
        var h := DecisionsShareAHost(c, rs1, u1, d1, rs2, u2, d2);
        var i :| 0 <= i < u1 && rs1[i] == Answer(h, d1);
        var j :| 0 <= j < u2 && rs2[j] == Answer(h, d2);
        assert (rs1 + rs2)[i] == Answer(h, d1) && (rs1 + rs2)[|rs1| + j] == Answer(h, d2);
      }
    } else {
      MinorityCanSplit(c);
    }
  }

  function Unanimous(hosts: seq<Host>, d: AttestationData): (rs: seq<Response>)
  {
    seq(|hosts|, i requires 0 <= i < |hosts| => Answer(hosts[i], d))
  }

  lemma {:induction false} UnanimousLatest(hosts: seq<Host>, d: AttestationData, k: nat)
    requires k <= |hosts|
    ensures var latest := Latest(Unanimous(hosts, d)[..k]);
            latest.Keys == Elements(hosts[..k]) && forall h :: h in latest ==> latest[h] == d
  {
    if k > 0 {
      var rs := Unanimous(hosts, d);
      UnanimousLatest(hosts, d, k - 1);
      assert rs[..k][..k - 1] == rs[..k - 1];
      assert hosts[..k] == hosts[..k - 1] + [hosts[k - 1]];
    }
  }

  lemma UnanimousTally(hosts: seq<Host>, d: AttestationData, k: nat)
    requires Distinct(hosts) && k <= |hosts|
    ensures |Backers(Latest(Unanimous(hosts, d)[..k]), d)| == k
    ensures forall e :: e != d ==> Backers(Latest(Unanimous(hosts, d)[..k]), e) == {}
  {
    UnanimousLatest(hosts, d, k);
    DistinctIffSetAsLarge(hosts[..k]);
    assert Backers(Latest(Unanimous(hosts, d)[..k]), d) == Elements(hosts[..k]);
  }

  lemma UnanimousDecides(hosts: seq<Host>, d: AttestationData)
    requires Distinct(hosts) && |hosts| >= 1
    ensures DecidedAt(Unanimous(hosts, d), |hosts|, |hosts|, d)
  {
    forall k | 0 <= k <= |hosts|
      ensures |Backers(Latest(Unanimous(hosts, d)[..k]), d)| == k
      ensures forall e :: e != d ==> |Backers(Latest(Unanimous(hosts, d)[..k]), e)| == 0
    {
      UnanimousTally(hosts, d, k);
    }
  }

  /** Disjoint groups of hosts that each answer one thing take nothing back. */
  lemma UnanimousGroupsAreSteady(left: seq<Host>, right: seq<Host>, d1: AttestationData, d2: AttestationData)
    requires Elements(left) !! Elements(right)
    ensures Steady(Unanimous(left, d1) + Unanimous(right, d2))
  {
    var rs := Unanimous(left, d1) + Unanimous(right, d2);
    forall i | 0 <= i < |rs|
      ensures rs[i].Answer? && (rs[i].host in Elements(left) <==> rs[i].data == d1 && i < |left|)
      ensures i >= |left| ==> rs[i].host in Elements(right) && rs[i].data == d2
    {
      if i < |left| {
        assert rs[i] == Answer(left[i], d1);
      } else {
        assert rs[i] == Answer(right[i - |left|], d2);
      }
    }
  }

  /** The two halves of a client whose threshold is no majority can decide on different values. */
  lemma MinorityCanSplit(c: Args.Config)
    requires Args.Sound(c) && !Args.Majority(c)
    ensures !CannotSplit(c)
  {
    var cp := Checkpoint(0, "");
    var d1, d2 := AttestationData(0, 0, "", cp, cp), AttestationData(1, 0, "", cp, cp);
    var t := c.threshold;
    var left, right := c.hosts[..t], c.hosts[t..2 * t];
    UnanimousDecides(left, d1);
    UnanimousDecides(right, d2);
    UnanimousGroupsAreSteady(left, right, d1, d2);
    var rs1, rs2 := Unanimous(left, d1), Unanimous(right, d2);
    assert From(rs1, Elements(c.hosts)) && From(rs2, Elements(c.hosts));
    assert d1 != d2;
  }
}
