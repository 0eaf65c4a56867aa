/** Selection proofs and contributions of sync committee duties (src/services/sync_committee.py). */
module SyncCommittee {
  import opened Basics

  const SYNC_COMMITTEE_SUBNET_COUNT := 4

  datatype SyncDuty = SyncDuty(pubkey: string, validatorIndex: nat, indices: seq<nat>)

  datatype Selection = Selection(subcommittee: nat, proof: string, isAggregator: bool)

  datatype ProvenDuty = ProvenDuty(duty: SyncDuty, selections: seq<Selection>)

  // ---------- subcommittees ----------

  function Subnets(indices: seq<nat>, size: nat): set<nat>
    requires size >= SYNC_COMMITTEE_SUBNET_COUNT
  {
    set i | i in indices :: i / (size / SYNC_COMMITTEE_SUBNET_COUNT)
  }

  lemma SubnetsStep(indices: seq<nat>, n: nat, size: nat)
    requires size >= SYNC_COMMITTEE_SUBNET_COUNT && n < |indices|
    ensures Subnets(indices[..n + 1], size)
         == Subnets(indices[..n], size) + {indices[n] / (size / SYNC_COMMITTEE_SUBNET_COUNT)}
  {
    assert indices[..n + 1] == indices[..n] + [indices[n]];
    assert indices[n] in indices[..n + 1];
    assert forall i :: i in indices[..n] ==> i in indices[..n + 1];
  }

  method ComputeSubnets(indices: seq<nat>, size: nat) returns (subnets: set<nat>)
    requires size >= SYNC_COMMITTEE_SUBNET_COUNT
    ensures subnets == Subnets(indices, size)
    ensures var width := size / SYNC_COMMITTEE_SUBNET_COUNT;
            forall n: nat :: n in subnets <==> SomeIn(indices, n, width)
  {
    subnets := {};
    for n := 0 to |indices|
      invariant subnets == Subnets(indices[..n], size)
    {
      subnets := subnets + {indices[n] / (size / SYNC_COMMITTEE_SUBNET_COUNT)};
      SubnetsStep(indices, n, size);
    }
    assert indices[..|indices|] == indices;
    forall n: nat ensures n in subnets <==> SomeIn(indices, n, size / SYNC_COMMITTEE_SUBNET_COUNT) {
      InSubnetIff(indices, size, n);
    }
  }

  ghost predicate SomeIn(indices: seq<nat>, n: nat, width: nat) {
    exists i :: i in indices && n * width <= i < n * width + width
  }

  /** A subcommittee is meant exactly by the indices of its own stretch of the committee. */
  lemma InSubnetIff(indices: seq<nat>, size: nat, n: nat)
    requires size >= SYNC_COMMITTEE_SUBNET_COUNT
    ensures n in Subnets(indices, size) <==> SomeIn(indices, n, size / SYNC_COMMITTEE_SUBNET_COUNT)
  {
    var width := size / SYNC_COMMITTEE_SUBNET_COUNT;
    forall i | i in indices ensures i / width == n <==> n * width <= i < n * width + width {
      StretchIff(i, width, n);
    }
    if n in Subnets(indices, size) {
      var i :| i in indices && i / width == n;
      assert n * width <= i < n * width + width;
    }
  }

  lemma StretchIff(i: nat, width: nat, n: nat)
    requires width > 0
    ensures i / width == n <==> n * width <= i < n * width + width
  {
    assert i == i / width * width + i % width;
    if n * width <= i < n * width + width {
      QuotientBelow(i, width, n + 1);
      QuotientReached(i, width, n);
    }
  }

  /** Every member of the committee falls into one of the four subcommittees exactly when four divides its size. */
  lemma SubnetsInRangeIff(size: nat)
    requires size >= SYNC_COMMITTEE_SUBNET_COUNT
    ensures (forall i: nat :: i < size ==> i / (size / SYNC_COMMITTEE_SUBNET_COUNT) < SYNC_COMMITTEE_SUBNET_COUNT)
            <==> size % SYNC_COMMITTEE_SUBNET_COUNT == 0
  {
    var width := size / 4;
    assert size == 4 * width + size % 4;
    if size % 4 == 0 {
      forall i: nat | i < size ensures i / width < 4 {
        QuotientBelow(i, width, 4);
      }
    } else {
      QuotientReached(size - 1, width, 4);
    }
  }

  lemma QuotientBelow(i: nat, width: nat, q: nat)
    requires width > 0 && i < q * width
    ensures i / width < q
  {
  }

  lemma QuotientReached(i: nat, width: nat, q: nat)
    requires width > 0 && i >= q * width
    ensures i / width >= q
  {
    var k, r := i / width, i % width;
    assert i == k * width + r;
    assert (q - k - 1) * width == q * width - k * width - width;
  }

  // ---------- requesting and regrouping selection proofs ----------

  datatype Request = Request(pubkey: string, subcommittee: nat)

  function RequestsOf(pubkey: string, subnets: seq<nat>): seq<Request> {
    seq(|subnets|, i requires 0 <= i < |subnets| => Request(pubkey, subnets[i]))
  }

  /** The signing requests of all duties, duty by duty; `subnets[i]` lists the subcommittees of duty `i` in some order. */
  function Requests(duties: seq<SyncDuty>, subnets: seq<seq<nat>>): seq<Request>
    requires |duties| == |subnets|
  {
    if duties == [] then []
    else Requests(duties[..|duties| - 1], subnets[..|duties| - 1])
         + RequestsOf(duties[|duties| - 1].pubkey, subnets[|duties| - 1])
  }

  function OfKey(rs: seq<Request>, pubkey: string): seq<Request> {
    if rs == [] then []
    else
      var init, last := OfKey(rs[..|rs| - 1], pubkey), rs[|rs| - 1];
      if last.pubkey == pubkey then init + [last] else init
  }

  lemma {:induction false} OfKeyAppend(a: seq<Request>, b: seq<Request>, pubkey: string)
    ensures OfKey(a + b, pubkey) == OfKey(a, pubkey) + OfKey(b, pubkey)
  {
    if b == [] {
      assert a + b == a;
    } else {
      assert (a + b)[..|a + b| - 1] == a + b[..|b| - 1];
      OfKeyAppend(a, b[..|b| - 1], pubkey);
    }
  }

  lemma {:induction false} OfKeyUniform(rs: seq<Request>, pubkey: string)
    ensures (forall r :: r in rs ==> r.pubkey == pubkey) ==> OfKey(rs, pubkey) == rs
    ensures (forall r :: r in rs ==> r.pubkey != pubkey) ==> OfKey(rs, pubkey) == []
  {
    if rs != [] {
      var init, last := rs[..|rs| - 1], rs[|rs| - 1];
      assert rs == init + [last];
      OfKeyUniform(init, pubkey);
    }
  }

  lemma {:induction false} RequestKeys(duties: seq<SyncDuty>, subnets: seq<seq<nat>>)
    requires |duties| == |subnets|
    ensures forall r :: r in Requests(duties, subnets) ==> exists i :: 0 <= i < |duties| && duties[i].pubkey == r.pubkey
  {
    if duties != [] {
      RequestKeys(duties[..|duties| - 1], subnets[..|duties| - 1]);
    }
  }

  ghost predicate DistinctKeys(duties: seq<SyncDuty>) {
    forall i, j :: 0 <= i < j < |duties| ==> duties[i].pubkey != duties[j].pubkey
  }

  lemma OfKeyOfOne(pubkey: string, subnets: seq<nat>, other: string)
    ensures OfKey(RequestsOf(pubkey, subnets), other) == if other == pubkey then RequestsOf(pubkey, subnets) else []
  {
    OfKeyUniform(RequestsOf(pubkey, subnets), other);
  }

  lemma OfMissingKey(duties: seq<SyncDuty>, subnets: seq<seq<nat>>, pubkey: string)
    requires |duties| == |subnets| && forall i :: 0 <= i < |duties| ==> duties[i].pubkey != pubkey
    ensures OfKey(Requests(duties, subnets), pubkey) == []
  {
    RequestKeys(duties, subnets);
    OfKeyUniform(Requests(duties, subnets), pubkey);
  }

  /** Picking a duty's requests out of everybody's by public key gives back exactly its own, in order. */
  lemma {:induction false} RegroupingIsExact(duties: seq<SyncDuty>, subnets: seq<seq<nat>>, i: nat)
    requires |duties| == |subnets| && i < |duties| && DistinctKeys(duties)
    ensures OfKey(Requests(duties, subnets), duties[i].pubkey) == RequestsOf(duties[i].pubkey, subnets[i])
  {
    var n := |duties| - 1;
    var pubkey := duties[i].pubkey;
    OfKeyAppend(Requests(duties[..n], subnets[..n]), RequestsOf(duties[n].pubkey, subnets[n]), pubkey);
    OfKeyOfOne(duties[n].pubkey, subnets[n], pubkey);
    if i < n {
      RegroupingIsExact(duties[..n], subnets[..n], i);
    } else {
      OfMissingKey(duties[..n], subnets[..n], pubkey);
    }
  }

  /** The requests of every duty with the public key, duty by duty. */
  function Collected(duties: seq<SyncDuty>, subnets: seq<seq<nat>>, pubkey: string): seq<Request>
    requires |duties| == |subnets|
  {
    if duties == [] then []
    else
      var n := |duties| - 1;
      var before := Collected(duties[..n], subnets[..n], pubkey);
      if duties[n].pubkey == pubkey then before + RequestsOf(pubkey, subnets[n]) else before
  }

  /** Picking by public key collects the requests of all duties that share it. */
  lemma {:induction false} PickedIsCollected(duties: seq<SyncDuty>, subnets: seq<seq<nat>>, pubkey: string)
    requires |duties| == |subnets|
    ensures OfKey(Requests(duties, subnets), pubkey) == Collected(duties, subnets, pubkey)
  {
    if duties != [] {
      var n := |duties| - 1;
      PickedIsCollected(duties[..n], subnets[..n], pubkey);
      OfKeyAppend(Requests(duties[..n], subnets[..n]), RequestsOf(duties[n].pubkey, subnets[n]), pubkey);
      OfKeyOfOne(duties[n].pubkey, subnets[n], pubkey);
    }
  }

  lemma {:induction false} CollectedHolds(duties: seq<SyncDuty>, subnets: seq<seq<nat>>, i: nat)
    requires |duties| == |subnets| && i < |duties|
    ensures |Collected(duties, subnets, duties[i].pubkey)| >= |subnets[i]|
  {
    var n := |duties| - 1;
    if i < n {
      CollectedHolds(duties[..n], subnets[..n], i);
    }
  }

  /** With a shared public key, a duty also collects the other duty's proofs. */
  lemma {:induction false} SharedKeyMixesProofs(duties: seq<SyncDuty>, subnets: seq<seq<nat>>, i: nat, j: nat)
    requires |duties| == |subnets| && i < j < |duties| && duties[i].pubkey == duties[j].pubkey
    ensures |OfKey(Requests(duties, subnets), duties[i].pubkey)| >= |subnets[i]| + |subnets[j]|
  {
    var n := |duties| - 1;
    PickedIsCollected(duties, subnets, duties[i].pubkey);
    if j < n {
      PickedIsCollected(duties[..n], subnets[..n], duties[i].pubkey);
      SharedKeyMixesProofs(duties[..n], subnets[..n], i, j);
    } else {
      CollectedHolds(duties[..n], subnets[..n], i);
    }
  }

  /** Every duty gets back exactly its own requests if and only if no two duties share a public key. */
  lemma RegroupingIsExactIff(duties: seq<SyncDuty>, subnets: seq<seq<nat>>)
    requires |duties| == |subnets| && forall i :: 0 <= i < |subnets| ==> subnets[i] != []
    ensures DistinctKeys(duties) <==>
            forall i :: 0 <= i < |duties| ==>
              OfKey(Requests(duties, subnets), duties[i].pubkey) == RequestsOf(duties[i].pubkey, subnets[i])
  {
    if DistinctKeys(duties) {
      forall i | 0 <= i < |duties|
        ensures OfKey(Requests(duties, subnets), duties[i].pubkey) == RequestsOf(duties[i].pubkey, subnets[i])
      {
        RegroupingIsExact(duties, subnets, i);
      }
    } else {
      var i, j :| 0 <= i < j < |duties| && duties[i].pubkey == duties[j].pubkey;
      SharedKeyMixesProofs(duties, subnets, i, j);
    }
  }

  /** Exactly one proof per subcommittee of the duty, signed for that subcommittee with the duty's key. */
  ghost predicate OneProofPerSubnet(
    p: ProvenDuty, size: nat, sign: Request -> Option<string>, aggregates: string -> bool)
    requires size >= SYNC_COMMITTEE_SUBNET_COUNT
  {
    && (forall s :: s in p.selections ==>
          && sign(Request(p.duty.pubkey, s.subcommittee)) == Some(s.proof)
          && s.isAggregator == aggregates(s.proof))
    && (forall i, j :: 0 <= i < j < |p.selections| ==> p.selections[i].subcommittee != p.selections[j].subcommittee)
    && (forall n :: n in Subnets(p.duty.indices, size) <==> exists s :: s in p.selections && s.subcommittee == n)
  }

  ghost predicate AllExact(
    proven: seq<ProvenDuty>, size: nat, sign: Request -> Option<string>, aggregates: string -> bool)
    requires size >= SYNC_COMMITTEE_SUBNET_COUNT
  {
    forall i :: 0 <= i < |proven| ==> OneProofPerSubnet(proven[i], size, sign, aggregates)
  }

  ghost predicate Enumerates(order: seq<nat>, elements: set<nat>) {
    Distinct(order) && Elements(order) == elements
  }

  method Enumerate(elements: set<nat>) returns (order: seq<nat>)
    ensures Enumerates(order, elements)
  {
    order := [];
    var left := elements;
    while left != {}
      invariant left <= elements && Enumerates(order, elements - left)
    {
      var x :| x in left;
      assert Elements(order + [x]) == Elements(order) + {x};
      order, left := order + [x], left - {x};
      assert elements - left == Elements(order);
    }
    assert elements - {} == elements;
  }

  ghost predicate SubnetsListed(duties: seq<SyncDuty>, subnets: seq<seq<nat>>, size: nat)
    requires size >= SYNC_COMMITTEE_SUBNET_COUNT
  {
    |subnets| == |duties| && forall i :: 0 <= i < |duties| ==> Enumerates(subnets[i], Subnets(duties[i].indices, size))
  }

  /** The first loop: one request per duty and subcommittee. */
  method RequestProofs(duties: seq<SyncDuty>, size: nat) returns (requests: seq<Request>, ghost subnets: seq<seq<nat>>)
    requires size >= SYNC_COMMITTEE_SUBNET_COUNT
    ensures SubnetsListed(duties, subnets, size) && requests == Requests(duties, subnets)
  {
    requests, subnets := [], [];
    for i := 0 to |duties|
      invariant SubnetsListed(duties[..i], subnets, size) && requests == Requests(duties[..i], subnets)
    {
      var indices := ComputeSubnets(duties[i].indices, size);
      var order := Enumerate(indices);
      assert duties[..i + 1][..i] == duties[..i] && (subnets + [order])[..i] == subnets;
      requests, subnets := requests + RequestsOf(duties[i].pubkey, order), subnets + [order];
    }
    assert duties[..|duties|] == duties;
  }

  ghost predicate AllGranted(duties: seq<SyncDuty>, size: nat, sign: Request -> Option<string>)
    requires size >= SYNC_COMMITTEE_SUBNET_COUNT
  {
    forall d, n :: d in duties && n in Subnets(d.indices, size) ==> sign(Request(d.pubkey, n)).Some?
  }

  /** All selection proofs are requested at once; one refusal fails them all. Then each duty picks its own by public key. */
  method PrepareSelectionProofs(
    duties: seq<SyncDuty>, size: nat, sign: Request -> Option<string>, aggregates: string -> bool)
    returns (r: Option<seq<ProvenDuty>>)
    requires size >= SYNC_COMMITTEE_SUBNET_COUNT
    ensures r.Some? <==> AllGranted(duties, size, sign)
    ensures r.Some? ==> |r.value| == |duties| && forall i :: 0 <= i < |duties| ==> r.value[i].duty == duties[i]
    ensures r.Some? && DistinctKeys(duties) ==> AllExact(r.value, size, sign, aggregates)
    ensures r.Some? && AllExact(r.value, size, sign, aggregates) && (forall d :: d in duties ==> d.indices != [])
            ==> DistinctKeys(duties)
  {
    var requests, subnets := RequestProofs(duties, size);
    GrantedIff(duties, subnets, size, sign);
    if exists q :: q in requests && sign(q).None? {
      return None;
    }
    var proven: seq<ProvenDuty> := [];
    for i := 0 to |duties|
      invariant |proven| == i && forall j :: 0 <= j < i ==> proven[j].duty == duties[j]
      invariant forall j :: 0 <= j < i ==> |proven[j].selections| == |OfKey(requests, duties[j].pubkey)|
      invariant DistinctKeys(duties) ==> AllExact(proven, size, sign, aggregates)
    {
      var selections := PickOwn(requests, duties[i].pubkey, sign, aggregates);
      proven := proven + [ProvenDuty(duties[i], selections)];
      if DistinctKeys(duties) {
        RegroupingIsExact(duties, subnets, i);
        OwnProofs(duties[i], subnets[i], size, selections, sign, aggregates);
      }
    }
    if AllExact(proven, size, sign, aggregates) && forall d :: d in duties ==> d.indices != [] {
      ExactOnlyIfDistinct(duties, subnets, size, proven, sign, aggregates);
    }
    return Some(proven);
  }

  /** A duty that collected another one's proofs has too many of them. */
  lemma ExactOnlyIfDistinct(
    duties: seq<SyncDuty>, subnets: seq<seq<nat>>, size: nat, proven: seq<ProvenDuty>,
    sign: Request -> Option<string>, aggregates: string -> bool)
    requires size >= SYNC_COMMITTEE_SUBNET_COUNT && SubnetsListed(duties, subnets, size)
    requires |proven| == |duties| && forall i :: 0 <= i < |duties| ==> proven[i].duty == duties[i]
    requires forall i :: 0 <= i < |duties| ==>
               |proven[i].selections| == |OfKey(Requests(duties, subnets), duties[i].pubkey)|
    requires AllExact(proven, size, sign, aggregates) && forall d :: d in duties ==> d.indices != []
    ensures DistinctKeys(duties)
  {
    forall i, j | 0 <= i < j < |duties| ensures duties[i].pubkey != duties[j].pubkey {
      ProofsFit(proven[i], subnets[i], size, sign, aggregates);
      assert Subnets(duties[j].indices, size) != {} by {
        assert duties[j] in duties && duties[j].indices[0] in duties[j].indices;
        assert duties[j].indices[0] / (size / SYNC_COMMITTEE_SUBNET_COUNT) in Subnets(duties[j].indices, size);
      }
      assert Enumerates(subnets[j], Subnets(duties[j].indices, size));
      if duties[i].pubkey == duties[j].pubkey {
        SharedKeyMixesProofs(duties, subnets, i, j);
      }
    }
  }

  /** One proof per subcommittee are as many proofs as there are subcommittees. */
  lemma ProofsFit(p: ProvenDuty, order: seq<nat>, size: nat, sign: Request -> Option<string>, aggregates: string -> bool)
    requires size >= SYNC_COMMITTEE_SUBNET_COUNT && Enumerates(order, Subnets(p.duty.indices, size))
    requires OneProofPerSubnet(p, size, sign, aggregates)
    ensures |p.selections| == |order|
  {
    var found := seq(|p.selections|, i requires 0 <= i < |p.selections| => p.selections[i].subcommittee);
    assert Elements(found) == Elements(order) by {
      forall n ensures n in found <==> n in order {
        assert n in order <==> n in Elements(order);
        assert n in Elements(order) <==> exists s :: s in p.selections && s.subcommittee == n;
        if s :| s in p.selections && s.subcommittee == n {
          var i :| 0 <= i < |p.selections| && p.selections[i] == s;
          assert found[i] == n;
        }
      }
    }
    DistinctIffSetAsLarge(found);
    DistinctIffSetAsLarge(order);
  }

  lemma GrantedIff(duties: seq<SyncDuty>, subnets: seq<seq<nat>>, size: nat, sign: Request -> Option<string>)
    requires size >= SYNC_COMMITTEE_SUBNET_COUNT && SubnetsListed(duties, subnets, size)
    ensures AllGranted(duties, size, sign) <==> forall q :: q in Requests(duties, subnets) ==> sign(q).Some?
  {
    RequestedIff(duties, subnets, size);
    if forall q :: q in Requests(duties, subnets) ==> sign(q).Some? {
      forall d, n | d in duties && n in Subnets(d.indices, size) ensures sign(Request(d.pubkey, n)).Some? {
        assert Request(d.pubkey, n) in Requests(duties, subnets);
      }
    }
  }

  lemma {:induction false} RequestedIff(duties: seq<SyncDuty>, subnets: seq<seq<nat>>, size: nat)
    requires size >= SYNC_COMMITTEE_SUBNET_COUNT && SubnetsListed(duties, subnets, size)
    ensures forall q :: q in Requests(duties, subnets) <==>
              exists d :: d in duties && d.pubkey == q.pubkey && q.subcommittee in Subnets(d.indices, size)
  {
    if duties != [] {
      var n := |duties| - 1;
      RequestedIff(duties[..n], subnets[..n], size);
      assert duties == duties[..n] + [duties[n]];
      var own := RequestsOf(duties[n].pubkey, subnets[n]);
      forall q ensures q in own <==> q.pubkey == duties[n].pubkey && q.subcommittee in Subnets(duties[n].indices, size) {
        if q.subcommittee in Elements(subnets[n]) && q.pubkey == duties[n].pubkey {
          var i :| 0 <= i < |subnets[n]| && subnets[n][i] == q.subcommittee;
          assert own[i] == q;
        }
      }
    }
  }

  function Select(q: Request, sign: Request -> Option<string>, aggregates: string -> bool): Selection
    requires sign(q).Some?
  {
    Selection(q.subcommittee, sign(q).value, aggregates(sign(q).value))
  }

  /** The inner loop over all signatures, skipping the ones with another identifier. */
  method PickOwn(requests: seq<Request>, pubkey: string, sign: Request -> Option<string>, aggregates: string -> bool)
    returns (selections: seq<Selection>)
    requires forall q :: q in requests ==> sign(q).Some?
    ensures var own := OfKey(requests, pubkey);
            && |selections| == |own|
            && forall i :: 0 <= i < |own| ==> sign(own[i]).Some? && selections[i] == Select(own[i], sign, aggregates)
  {
    selections := [];
    for i := 0 to |requests|
      invariant var own := OfKey(requests[..i], pubkey);
                && |selections| == |own|
                && forall j :: 0 <= j < |own| ==> sign(own[j]).Some? && selections[j] == Select(own[j], sign, aggregates)
    {
      assert requests[..i + 1][..i] == requests[..i];
      if requests[i].pubkey == pubkey {
        selections := selections + [Select(requests[i], sign, aggregates)];
      }
    }
    assert requests[..|requests|] == requests;
  }

  lemma OwnProofs(
    duty: SyncDuty, order: seq<nat>, size: nat, selections: seq<Selection>,
    sign: Request -> Option<string>, aggregates: string -> bool)
    requires size >= SYNC_COMMITTEE_SUBNET_COUNT && Enumerates(order, Subnets(duty.indices, size))
    requires |selections| == |order|
    requires forall i :: 0 <= i < |order| ==>
               var q := RequestsOf(duty.pubkey, order)[i]; sign(q).Some? && selections[i] == Select(q, sign, aggregates)
    ensures OneProofPerSubnet(ProvenDuty(duty, selections), size, sign, aggregates)
  {
    forall n | n in Subnets(duty.indices, size) ensures exists s :: s in selections && s.subcommittee == n {
      assert n in Elements(order);
      var i :| 0 <= i < |order| && order[i] == n;
      assert selections[i] in selections;
    }
    forall s | s in selections ensures s.subcommittee in Elements(order) {}
  }

  // ---------- aggregating ----------

  datatype Contribution = Contribution(subcommittee: nat, body: string)

  datatype Message = Message(pubkey: string, aggregatorIndex: nat, contribution: Contribution, proof: string)

  predicate Matches(c: Contribution, s: Selection) {
    s.subcommittee == c.subcommittee && s.isAggregator
  }

  function ForDuty(c: Contribution, p: ProvenDuty, n: nat): seq<Message>
    requires n <= |p.selections|
  {
    if n == 0 then []
    else if Matches(c, p.selections[n - 1])
    then ForDuty(c, p, n - 1) + [Message(p.duty.pubkey, p.duty.validatorIndex, c, p.selections[n - 1].proof)]
    else ForDuty(c, p, n - 1)
  }

  function ForContribution(c: Contribution, duties: seq<ProvenDuty>): seq<Message> {
    if duties == [] then []
    else ForContribution(c, duties[..|duties| - 1]) + ForDuty(c, duties[|duties| - 1], |duties[|duties| - 1].selections|)
  }

  function ForAll(contributions: seq<Contribution>, duties: seq<ProvenDuty>): seq<Message> {
    if contributions == [] then []
    else ForAll(contributions[..|contributions| - 1], duties) + ForContribution(contributions[|contributions| - 1], duties)
  }

  predicate Aggregates(p: ProvenDuty) {
    exists s :: s in p.selections && s.isAggregator
  }

  /** The duties that aggregate, and then one message per contribution, duty and matching aggregator proof. */
  method AggregateSyncMessages(duties: seq<ProvenDuty>, contributions: seq<Contribution>) returns (messages: seq<Message>)
    ensures messages == ForAll(contributions, duties)
  {
    messages := [];
    for i := 0 to |contributions|
      invariant messages == ForAll(contributions[..i], duties)
    {
      var forOne := MessagesFor(contributions[i], duties);
      assert contributions[..i + 1][..i] == contributions[..i];
      messages := messages + forOne;
    }
    assert contributions[..|contributions|] == contributions;
  }

  method MessagesFor(c: Contribution, duties: seq<ProvenDuty>) returns (messages: seq<Message>)
    ensures messages == ForContribution(c, duties)
  {
    messages := [];
    for i := 0 to |duties|
      invariant messages == ForContribution(c, duties[..i])
    {
      assert duties[..i + 1][..i] == duties[..i];
      var duty := duties[i];
      ghost var before := messages;
      if Aggregates(duty) {
        for n := 0 to |duty.selections|
          invariant messages == before + ForDuty(c, duty, n)
        {
          if Matches(c, duty.selections[n]) {
            messages := messages + [Message(duty.duty.pubkey, duty.duty.validatorIndex, c, duty.selections[n].proof)];
          }
        }
      } else {
        NoAggregatorNoMessage(c, duty, |duty.selections|);
      }
    }
    assert duties[..|duties|] == duties;
  }

  lemma {:induction false} NoAggregatorNoMessage(c: Contribution, p: ProvenDuty, n: nat)
    requires n <= |p.selections| && !Aggregates(p)
    ensures ForDuty(c, p, n) == []
  {
    if n > 0 {
      assert p.selections[n - 1] in p.selections;
      NoAggregatorNoMessage(c, p, n - 1);
    }
  }

  /** How many messages carry a contribution of the subcommittee under the public key. */
  function Messages(ms: seq<Message>, pubkey: string, subcommittee: nat): nat {
    if ms == [] then 0
    else Messages(ms[..|ms| - 1], pubkey, subcommittee)
         + if ms[|ms| - 1].pubkey == pubkey && ms[|ms| - 1].contribution.subcommittee == subcommittee then 1 else 0
  }

  lemma {:induction false} MessagesAppend(a: seq<Message>, b: seq<Message>, pubkey: string, subcommittee: nat)
    ensures Messages(a + b, pubkey, subcommittee) == Messages(a, pubkey, subcommittee) + Messages(b, pubkey, subcommittee)
  {
    if b == [] {
      assert a + b == a;
    } else {
      assert (a + b)[..|a + b| - 1] == a + b[..|b| - 1];
      MessagesAppend(a, b[..|b| - 1], pubkey, subcommittee);
    }
  }

  ghost predicate DistinctSubcommittees(p: ProvenDuty) {
    forall i, j :: 0 <= i < j < |p.selections| ==> p.selections[i].subcommittee != p.selections[j].subcommittee
  }

  ghost predicate AggregatorAmong(p: ProvenDuty, subcommittee: nat, n: nat)
    requires n <= |p.selections|
  {
    exists i :: 0 <= i < n && p.selections[i].subcommittee == subcommittee && p.selections[i].isAggregator
  }

  lemma {:induction false} CountForDuty(c: Contribution, p: ProvenDuty, n: nat, pubkey: string, subcommittee: nat)
    requires n <= |p.selections| && DistinctSubcommittees(p)
    ensures Messages(ForDuty(c, p, n), pubkey, subcommittee)
         == if p.duty.pubkey == pubkey && c.subcommittee == subcommittee && AggregatorAmong(p, subcommittee, n) then 1 else 0
  {
    if n > 0 {
      CountForDuty(c, p, n - 1, pubkey, subcommittee);
      var s := p.selections[n - 1];
      if Matches(c, s) {
        var m := Message(p.duty.pubkey, p.duty.validatorIndex, c, s.proof);
        assert (ForDuty(c, p, n - 1) + [m])[..|ForDuty(c, p, n - 1)|] == ForDuty(c, p, n - 1);
      }
    }
  }

  ghost predicate Well(duties: seq<ProvenDuty>) {
    && (forall i :: 0 <= i < |duties| ==> DistinctSubcommittees(duties[i]))
    && (forall i, j :: 0 <= i < j < |duties| ==> duties[i].duty.pubkey != duties[j].duty.pubkey)
  }

  /** The duty with this key aggregates for this subcommittee. */
  ghost predicate Aggregator(duties: seq<ProvenDuty>, pubkey: string, subcommittee: nat) {
    exists i :: 0 <= i < |duties| && duties[i].duty.pubkey == pubkey
                && AggregatorAmong(duties[i], subcommittee, |duties[i].selections|)
  }

  lemma {:induction false} CountForContribution(c: Contribution, duties: seq<ProvenDuty>, pubkey: string, subcommittee: nat)
    requires Well(duties)
    ensures Messages(ForContribution(c, duties), pubkey, subcommittee)
         == if c.subcommittee == subcommittee && Aggregator(duties, pubkey, subcommittee) then 1 else 0
  {
    if duties != [] {
      var init, last := duties[..|duties| - 1], duties[|duties| - 1];
      CountForContribution(c, init, pubkey, subcommittee);
      CountForDuty(c, last, |last.selections|, pubkey, subcommittee);
      MessagesAppend(ForContribution(c, init), ForDuty(c, last, |last.selections|), pubkey, subcommittee);
      assert Aggregator(duties, pubkey, subcommittee) <==>
             Aggregator(init, pubkey, subcommittee)
             || (last.duty.pubkey == pubkey && AggregatorAmong(last, subcommittee, |last.selections|));
    }
  }

  /**
   If each subcommittee yields at most one contribution, there is exactly one message for each duty and subcommittee
   for which it aggregates and which has a contribution, and none for any other pair.
   */
  lemma {:induction false} OneMessagePerAggregator(
    contributions: seq<Contribution>, duties: seq<ProvenDuty>, pubkey: string, subcommittee: nat)
    requires Well(duties)
    requires forall i, j :: 0 <= i < j < |contributions| ==> contributions[i].subcommittee != contributions[j].subcommittee
    ensures Messages(ForAll(contributions, duties), pubkey, subcommittee)
         == if Aggregator(duties, pubkey, subcommittee)
               && exists c :: c in contributions && c.subcommittee == subcommittee then 1 else 0
  {
    if contributions != [] {
      var init, last := contributions[..|contributions| - 1], contributions[|contributions| - 1];
      assert contributions == init + [last];
      OneMessagePerAggregator(init, duties, pubkey, subcommittee);
      CountForContribution(last, duties, pubkey, subcommittee);
      MessagesAppend(ForAll(init, duties), ForContribution(last, duties), pubkey, subcommittee);
    }
  }

  /** Every message uses the proof that its duty holds for the contribution's subcommittee. */
  lemma {:induction false} MessagesUseOwnProof(contributions: seq<Contribution>, duties: seq<ProvenDuty>)
    ensures forall m :: m in ForAll(contributions, duties) ==>
              exists c, p :: c in contributions && p in duties && UsesProofOf(m, c, p)
  {
    if contributions != [] {
      var init, last := contributions[..|contributions| - 1], contributions[|contributions| - 1];
      assert contributions == init + [last];
      MessagesUseOwnProof(init, duties);
      ProofsForContribution(last, duties);
    }
  }

  ghost predicate UsesProofOf(m: Message, c: Contribution, p: ProvenDuty) {
    && m.contribution == c && m.pubkey == p.duty.pubkey && m.aggregatorIndex == p.duty.validatorIndex
    && exists s :: s in p.selections && Matches(c, s) && m.proof == s.proof
  }

  lemma {:induction false} ProofsForDuty(c: Contribution, p: ProvenDuty, n: nat)
    requires n <= |p.selections|
    ensures forall m :: m in ForDuty(c, p, n) ==> UsesProofOf(m, c, p)
  {
    if n > 0 {
      ProofsForDuty(c, p, n - 1);
      assert p.selections[n - 1] in p.selections;
    }
  }

  lemma {:induction false} ProofsForContribution(c: Contribution, duties: seq<ProvenDuty>)
    ensures forall m :: m in ForContribution(c, duties) ==> exists p :: p in duties && UsesProofOf(m, c, p)
  {
    if duties != [] {
      var init, last := duties[..|duties| - 1], duties[|duties| - 1];
      assert duties == init + [last];
      ProofsForContribution(c, init);
      ProofsForDuty(c, last, |last.selections|);
    }
  }
}
