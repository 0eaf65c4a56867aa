/** Signing many messages: batches at one remote signer, and groups by signer (src/providers/remote_signer.py, src/providers/keymanager.py). */
module BatchSigning {
  import opened Basics

  type Url = string

  datatype Item = Item(message: string, identifier: string)

  datatype Signed = Signed(message: string, signature: string, identifier: string)

  datatype SigningError = NoExecutor | LengthMismatch | BadBatchSize | SigningFailed

  /** What the remote signer does with one message is up to it; it may refuse. */
  type Signer = Item -> Option<string>

  function Zip(messages: seq<string>, identifiers: seq<string>): (r: seq<Item>)
    ensures |r| == Min(|messages|, |identifiers|)
    ensures forall i :: 0 <= i < |r| ==> r[i] == Item(messages[i], identifiers[i])
  {
    seq(Min(|messages|, |identifiers|),
        i requires 0 <= i < Min(|messages|, |identifiers|) => Item(messages[i], identifiers[i]))
  }

  predicate AllSigned(items: seq<Item>, sign: Signer) {
    forall i :: 0 <= i < |items| ==> sign(items[i]).Some?
  }

  /** The unbatched result: each message with its signature and its own identifier, in input order. */
  function Signatures(items: seq<Item>, sign: Signer): (r: seq<Signed>)
    requires AllSigned(items, sign)
    ensures |r| == |items|
  {
    seq(|items|, i requires 0 <= i < |items| =>
      Signed(items[i].message, sign(items[i]).value, items[i].identifier))
  }

  /** `asyncio.gather` over a batch: all results in order, or the failure of one. */
  method Gather(items: seq<Item>, sign: Signer) returns (r: Option<seq<Signed>>)
    ensures r.Some? <==> AllSigned(items, sign)
    ensures r.Some? ==> r.value == Signatures(items, sign)
  {
    var results: seq<Signed> := [];
    for i := 0 to |items|
      invariant AllSigned(items[..i], sign) && results == Signatures(items[..i], sign)
    {
      var signature := sign(items[i]);
      if signature.None? {
        return None;
      }
      results := results + [Signed(items[i].message, signature.value, items[i].identifier)];
    }
    assert items[..|items|] == items;
    return Some(results);
  }

  method SignInBatches(messages: seq<string>, identifiers: seq<string>, batchSize: int, hasExecutor: bool, sign: Signer)
    returns (r: Result<seq<Signed>, SigningError>)
    ensures !hasExecutor ==> r == Err(NoExecutor)
    ensures hasExecutor && |messages| != |identifiers| ==> r == Err(LengthMismatch)
    ensures hasExecutor && |messages| == |identifiers| && (batchSize >= 1 || messages == []) ==>
              var items := Zip(messages, identifiers);
              r == if AllSigned(items, sign) then Ok(Signatures(items, sign)) else Err(SigningFailed)
    ensures hasExecutor && |messages| == |identifiers| && messages != [] && batchSize < 1 ==>
              r == if batchSize == 0 then Err(BadBatchSize) else Ok([])
  {
    if !hasExecutor {
      return Err(NoExecutor);
    }
    if |messages| != |identifiers| {
      return Err(LengthMismatch);
    }
    if |messages| <= batchSize {
      var all := Gather(Zip(messages, identifiers), sign);
      return if all.Some? then Ok(all.value) else Err(SigningFailed);
    }
    r := SignInSeparateProcess(messages, identifiers, batchSize, sign);
  }

  /** The loop over `range(0, n, batchSize)`: an error for step zero, and no iteration at all for a negative step. */
  method SignInSeparateProcess(messages: seq<string>, identifiers: seq<string>, batchSize: int, sign: Signer)
    returns (r: Result<seq<Signed>, SigningError>)
    requires |messages| == |identifiers|
    ensures batchSize == 0 ==> r == Err(BadBatchSize)
    ensures batchSize < 0 ==> r == Ok([])
    ensures batchSize >= 1 ==>
              var items := Zip(messages, identifiers);
              r == if AllSigned(items, sign) then Ok(Signatures(items, sign)) else Err(SigningFailed)
  {
    if batchSize == 0 {
      return Err(BadBatchSize);
    }
    if batchSize < 0 {
      return Ok([]);
    }
    ghost var items := Zip(messages, identifiers);
    var results: seq<Signed> := [];
    var i := 0;
    while i < |messages|
      invariant 0 <= i
      invariant AllSigned(items[..Min(i, |items|)], sign)
      invariant results == Signatures(items[..Min(i, |items|)], sign)
      decreases |messages| - i
    {
      var end := Min(i + batchSize, |messages|);
      var batch := Zip(messages[i..end], identifiers[i..end]);
      var signed := Gather(batch, sign);
      assert batch == items[i..end];
      assert items[..end] == items[..i] + batch;
      if signed.None? {
        return Err(SigningFailed);
      }
      results := results + signed.value;
      i := i + batchSize;
    }
    assert items[..|items|] == items;
    return Ok(results);
  }

  // ---------- grouping by signer ----------

  type SignerOf = map<string, Url>

  function Known(items: seq<Item>, signerOf: SignerOf): seq<Item> {
    if items == [] then []
    else
      var init, last := Known(items[..|items| - 1], signerOf), items[|items| - 1];
      if last.identifier in signerOf then init + [last] else init
  }

  /** Exactly the items with a known signer, each as often as it was given. */
  lemma {:induction false} KnownIff(items: seq<Item>, signerOf: SignerOf, item: Item)
    ensures multiset(Known(items, signerOf))[item] == if item.identifier in signerOf then multiset(items)[item] else 0
  {
    if items != [] {
      var init, last := items[..|items| - 1], items[|items| - 1];
      assert items == init + [last];
      KnownIff(init, signerOf, item);
    }
  }

  /** The items of one signer, in order. */
  function Of(items: seq<Item>, signerOf: SignerOf, url: Url): seq<Item> {
    if items == [] then []
    else
      var init, last := Of(items[..|items| - 1], signerOf, url), items[|items| - 1];
      if last.identifier in signerOf && signerOf[last.identifier] == url then init + [last] else init
  }

  lemma {:induction false} OfAppend(a: seq<Item>, b: seq<Item>, signerOf: SignerOf, url: Url)
    ensures Of(a + b, signerOf, url) == Of(a, signerOf, url) + Of(b, signerOf, url)
  {
    if b == [] {
      assert a + b == a;
    } else {
      var init := b[..|b| - 1];
      assert (a + b)[..|a + b| - 1] == a + init;
      OfAppend(a, init, signerOf, url);
    }
  }

  /** Taking one signer's items of one signer's group is the group itself, or nothing for another signer. */
  lemma {:induction false} OfOf(items: seq<Item>, signerOf: SignerOf, u: Url, v: Url)
    ensures Of(Of(items, signerOf, u), signerOf, v) == if u == v then Of(items, signerOf, u) else []
  {
    if items != [] {
      var init, last := items[..|items| - 1], items[|items| - 1];
      OfOf(init, signerOf, u, v);
      if last.identifier in signerOf && signerOf[last.identifier] == u {
        OfAppend(Of(init, signerOf, u), [last], signerOf, v);
        assert [last][..0] == [];
      }
    }
  }

  /** The groups of the given signers, one after the other. */
  function Grouped(items: seq<Item>, signerOf: SignerOf, order: seq<Url>): seq<Item> {
    if order == [] then []
    else Grouped(items, signerOf, order[..|order| - 1]) + Of(items, signerOf, order[|order| - 1])
  }

  /** One more item joins exactly its own signer's group. */
  lemma {:induction false} GroupedStep(items: seq<Item>, item: Item, signerOf: SignerOf, order: seq<Url>)
    requires Distinct(order)
    ensures multiset(Grouped(items + [item], signerOf, order))
         == multiset(Grouped(items, signerOf, order))
            + if item.identifier in signerOf && signerOf[item.identifier] in order then multiset{item} else multiset{}
  {
    if order != [] {
      var init, last := order[..|order| - 1], order[|order| - 1];
      assert order == init + [last];
      GroupedStep(items, item, signerOf, init);
      assert (items + [item])[..|items|] == items;
    }
  }

  /** Regrouping loses nothing and repeats nothing. */
  lemma {:induction false} GroupedIsPermutation(items: seq<Item>, signerOf: SignerOf, order: seq<Url>)
    requires Distinct(order)
    requires forall item :: item in items && item.identifier in signerOf ==> signerOf[item.identifier] in order
    ensures multiset(Grouped(items, signerOf, order)) == multiset(Known(items, signerOf))
  {
    if items == [] {
      GroupedNothing(signerOf, order);
    } else {
      var init, last := items[..|items| - 1], items[|items| - 1];
      assert items == init + [last];
      GroupedIsPermutation(init, signerOf, order);
      GroupedStep(init, last, signerOf, order);
    }
  }

  lemma {:induction false} GroupedNothing(signerOf: SignerOf, order: seq<Url>)
    ensures Grouped([], signerOf, order) == []
  {
    if order != [] {
      GroupedNothing(signerOf, order[..|order| - 1]);
    }
  }

  /** Within one signer the input order is kept. */
  lemma {:induction false} GroupedKeepsOrder(items: seq<Item>, signerOf: SignerOf, order: seq<Url>, url: Url)
    requires Distinct(order)
    ensures Of(Grouped(items, signerOf, order), signerOf, url) == if url in order then Of(items, signerOf, url) else []
  {
    if order != [] {
      var init, last := order[..|order| - 1], order[|order| - 1];
      assert order == init + [last];
      GroupedKeepsOrder(items, signerOf, init, url);
      OfOf(items, signerOf, last, url);
      OfAppend(Grouped(items, signerOf, init), Of(items, signerOf, last), signerOf, url);
    }
  }

  /** What `Keymanager.sign_in_batches` returns for `items`: exactly those with a known signer, regrouped, each signed. */
  ghost predicate SignedByGroup(items: seq<Item>, signerOf: SignerOf, signAt: Url -> Signer, r: seq<Signed>) {
    exists grouped: seq<Item> ::
      && SignedInOrder(grouped, signerOf, signAt, r)
      && multiset(grouped) == multiset(Known(items, signerOf))
      && forall url :: Of(grouped, signerOf, url) == Of(items, signerOf, url)
  }

  /** The group an item belongs to, as far as `signer_inputs` has been filled. */
  ghost predicate Filled(items: seq<Item>, signerOf: SignerOf, inputs: map<Url, seq<Item>>, order: seq<Url>) {
    && Distinct(order) && Elements(order) == inputs.Keys
    && (forall url :: Of(items, signerOf, url) == if url in inputs then inputs[url] else [])
    && (forall url :: url in inputs ==> inputs[url] != [])
    && (forall item :: item in items && item.identifier in signerOf ==> signerOf[item.identifier] in order)
  }

  /** The first loop: each message with a known signer is appended to that signer's inputs. */
  method GroupBySigner(items: seq<Item>, signerOf: SignerOf) returns (inputs: map<Url, seq<Item>>, order: seq<Url>)
    ensures Filled(items, signerOf, inputs, order)
  {
    inputs, order := map[], [];
    for i := 0 to |items|
      invariant Filled(items[..i], signerOf, inputs, order)
    {
      var item := items[i];
      assert items[..i + 1] == items[..i] + [item];
      assert items[..i + 1][..i] == items[..i];
      if item.identifier in signerOf {
        var url := signerOf[item.identifier];
        if url !in inputs {
          order := order + [url];
          inputs := inputs[url := []];
        }
        inputs := inputs[url := inputs[url] + [item]];
      }
    }
    assert items[..|items|] == items;
  }

  ghost predicate SignedInOrder(grouped: seq<Item>, signerOf: SignerOf, signAt: Url -> Signer, r: seq<Signed>) {
    && |r| == |grouped|
    && forall i :: 0 <= i < |r| ==>
         && grouped[i].identifier in signerOf
         && r[i].message == grouped[i].message && r[i].identifier == grouped[i].identifier
         && signAt(signerOf[grouped[i].identifier])(grouped[i]) == Some(r[i].signature)
  }

  lemma {:induction false} OfBelongs(items: seq<Item>, signerOf: SignerOf, url: Url)
    ensures forall item :: item in Of(items, signerOf, url) <==>
              item in items && item.identifier in signerOf && signerOf[item.identifier] == url
  {
    if items != [] {
      var init, last := items[..|items| - 1], items[|items| - 1];
      assert items == init + [last];
      OfBelongs(init, signerOf, url);
    }
  }

  /** No known key's message is refused by its signer. */
  ghost predicate AllSignable(items: seq<Item>, signerOf: SignerOf, signAt: Url -> Signer) {
    forall item :: item in items && item.identifier in signerOf ==> signAt(signerOf[item.identifier])(item).Some?
  }

  lemma GroupSigned(
    items: seq<Item>, signerOf: SignerOf, signAt: Url -> Signer, url: Url, grouped: seq<Item>, r: seq<Signed>)
    requires SignedInOrder(grouped, signerOf, signAt, r)
    requires AllSigned(Of(items, signerOf, url), signAt(url))
    ensures SignedInOrder(grouped + Of(items, signerOf, url), signerOf, signAt,
                          r + Signatures(Of(items, signerOf, url), signAt(url)))
  {
    OfBelongs(items, signerOf, url);
    var group := Of(items, signerOf, url);
    forall i | 0 <= i < |group| ensures group[i].identifier in signerOf && signerOf[group[i].identifier] == url {
      assert group[i] in group;
    }
  }

  /** A group is refused only if one of its own messages is. */
  lemma SignableGroup(items: seq<Item>, signerOf: SignerOf, signAt: Url -> Signer, url: Url)
    requires AllSignable(items, signerOf, signAt)
    ensures AllSigned(Of(items, signerOf, url), signAt(url))
  {
  }

  lemma AllGroupsSignable(items: seq<Item>, signerOf: SignerOf, signAt: Url -> Signer, order: seq<Url>)
    requires forall item :: item in items && item.identifier in signerOf ==> signerOf[item.identifier] in order
    requires forall url :: url in order ==> AllSigned(Of(items, signerOf, url), signAt(url))
    ensures AllSignable(items, signerOf, signAt)
  {
    forall item | item in items && item.identifier in signerOf ensures signAt(signerOf[item.identifier])(item).Some? {
      var url := signerOf[item.identifier];
      OfBelongs(items, signerOf, url);
      assert AllSigned(Of(items, signerOf, url), signAt(url));
      var i :| 0 <= i < |Of(items, signerOf, url)| && Of(items, signerOf, url)[i] == item;
    }
  }

  lemma GroupsAreComplete(
    items: seq<Item>, signerOf: SignerOf, signAt: Url -> Signer, inputs: map<Url, seq<Item>>, order: seq<Url>, r: seq<Signed>)
    requires Filled(items, signerOf, inputs, order)
    requires SignedInOrder(Grouped(items, signerOf, order), signerOf, signAt, r)
    ensures SignedByGroup(items, signerOf, signAt, r)
  {
    GroupedIsPermutation(items, signerOf, order);
    forall url ensures Of(Grouped(items, signerOf, order), signerOf, url) == Of(items, signerOf, url) {
      GroupedKeepsOrder(items, signerOf, order, url);
    }
  }

  ghost predicate AnyKnown(items: seq<Item>, signerOf: SignerOf) {
    exists item :: item in items && item.identifier in signerOf
  }

  lemma NoGroupNothingKnown(items: seq<Item>, signerOf: SignerOf, inputs: map<Url, seq<Item>>, order: seq<Url>)
    requires Filled(items, signerOf, inputs, order)
    ensures AnyKnown(items, signerOf) <==> order != []
  {
    if order != [] {
      assert order[0] in Elements(order);
      OfBelongs(items, signerOf, order[0]);
      assert inputs[order[0]][0] in Of(items, signerOf, order[0]);
    }
  }

  /** One `sign_in_batches` call per signer; the results are concatenated. */
  method SignGroups(
    ghost items: seq<Item>, inputs: map<Url, seq<Item>>, order: seq<Url>, batchSize: int,
    ghost signerOf: SignerOf, signAt: Url -> Signer)
    returns (r: Result<seq<Signed>, SigningError>)
    requires Filled(items, signerOf, inputs, order)
    ensures batchSize >= 1 && r.Ok? ==> SignedInOrder(Grouped(items, signerOf, order), signerOf, signAt, r.value)
    ensures batchSize >= 1 ==>
              (r.Ok? <==> forall url :: url in order ==> AllSigned(Of(items, signerOf, url), signAt(url)))
              && (r.Err? ==> r.error == SigningFailed)
    ensures batchSize < 1 ==> r == if order != [] && batchSize == 0 then Err(BadBatchSize) else Ok([])
  {
    var results: seq<Signed> := [];
    for i := 0 to |order|
      invariant batchSize >= 1 ==> SignedInOrder(Grouped(items, signerOf, order[..i]), signerOf, signAt, results)
      invariant batchSize >= 1 ==> forall j :: 0 <= j < i ==> AllSigned(Of(items, signerOf, order[j]), signAt(order[j]))
      invariant batchSize < 1 ==> results == [] && (i > 0 ==> batchSize != 0)
    {
      var url := order[i];
      assert order[..i + 1][..i] == order[..i];
      assert url in Elements(order);
      var group := inputs[url];
      assert Zip(Messages(group), Identifiers(group)) == group;
      var signed := SignInBatches(Messages(group), Identifiers(group), batchSize, true, signAt(url));
      if signed.Err? {
        return signed;
      }
      if batchSize >= 1 {
        GroupSigned(items, signerOf, signAt, url, Grouped(items, signerOf, order[..i]), results);
      }
      results := results + signed.value;
    }
    assert order[..|order|] == order;
    return Ok(results);
  }

  /** A batch size below one shows only when there is something to sign: an error for zero, nothing signed for less. */
  method KeymanagerSignInBatches(
    messages: seq<string>, identifiers: seq<string>, batchSize: int, signerOf: SignerOf, signAt: Url -> Signer)
    returns (r: Result<seq<Signed>, SigningError>)
    ensures var items := Zip(messages, identifiers);
            if batchSize >= 1 then
              && (r.Ok? ==> AllSignable(items, signerOf, signAt) && SignedByGroup(items, signerOf, signAt, r.value))
              && (r.Err? ==> !AllSignable(items, signerOf, signAt) && r.error == SigningFailed)
            else r == if AnyKnown(items, signerOf) && batchSize == 0 then Err(BadBatchSize) else Ok([])
  {
    var items := Zip(messages, identifiers);
    var inputs, order := GroupBySigner(items, signerOf);
    NoGroupNothingKnown(items, signerOf, inputs, order);
    r := SignGroups(items, inputs, order, batchSize, signerOf, signAt);
    if batchSize >= 1 {
      if r.Ok? {
        AllGroupsSignable(items, signerOf, signAt, order);
        GroupsAreComplete(items, signerOf, signAt, inputs, order, r.value);
      } else if AllSignable(items, signerOf, signAt) {
        forall url | url in order ensures AllSigned(Of(items, signerOf, url), signAt(url)) {
          SignableGroup(items, signerOf, signAt, url);
        }
      }
    }
  }

  function Messages(items: seq<Item>): seq<string> {
    seq(|items|, i requires 0 <= i < |items| => items[i].message)
  }

  function Identifiers(items: seq<Item>): seq<string> {
    seq(|items|, i requires 0 <= i < |items| => items[i].identifier)
  }
}
