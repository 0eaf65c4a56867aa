/**
 Remote keys: the table of keys, its import and delete endpoints, and the signer object behind each key
 (src/providers/keymanager.py).
 */
module Keymanager {
  import opened Basics

  type Pubkey = string
  type Url = string

  /** The rows of the key table; the primary key is unique. */
  type Table = map<Pubkey, Url>

  datatype RemoteKey = RemoteKey(pubkey: Pubkey, url: Url)

  datatype ImportStatus = Imported | Duplicate | ImportError
  datatype DeleteStatus = Deleted | NotFound | DeleteError

  // ---------- the endpoints, on the table ----------

  /** Inserting row by row; `fails(i)` says that the database refuses the i-th statement for a reason of its own. */
  function ImportInto(t: Table, keys: seq<RemoteKey>, fails: nat -> bool): (r: (Table, seq<ImportStatus>))
    ensures |r.1| == |keys|
  {
    if keys == [] then (t, [])
    else
      var last := keys[|keys| - 1];
      var (before, statuses) := ImportInto(t, keys[..|keys| - 1], fails);
      if fails(|keys| - 1) then (before, statuses + [ImportError])
      else if last.pubkey in before then (before, statuses + [Duplicate])
      else (before[last.pubkey := last.url], statuses + [Imported])
  }

  function DeleteFrom(t: Table, keys: seq<Pubkey>, fails: nat -> bool): (r: (Table, seq<DeleteStatus>))
    ensures |r.1| == |keys|
  {
    if keys == [] then (t, [])
    else
      var last := keys[|keys| - 1];
      var (before, statuses) := DeleteFrom(t, keys[..|keys| - 1], fails);
      if fails(|keys| - 1) then (before, statuses + [DeleteError])
      else if last !in before then (before, statuses + [NotFound])
      else (before - {last}, statuses + [Deleted])
  }

  function CountOf<T(==)>(s: seq<T>, x: T): nat {
    multiset(s)[x]
  }

  /** IMPORTED answers count the new rows, and existing rows are never overwritten. */
  lemma {:induction false} ImportAccounts(t: Table, keys: seq<RemoteKey>, fails: nat -> bool)
    ensures var (after, statuses) := ImportInto(t, keys, fails);
            && |after| == |t| + CountOf(statuses, Imported)
            && t.Keys <= after.Keys && (forall k :: k in t ==> after[k] == t[k])
  {
    if keys != [] {
      ImportAccounts(t, keys[..|keys| - 1], fails);
    }
  }

  /** An earlier statement for the same key went through. */
  ghost predicate Earlier(pubkeys: seq<Pubkey>, fails: nat -> bool, i: nat)
    requires i < |pubkeys|
  {
    exists j :: 0 <= j < i && pubkeys[j] == pubkeys[i] && !fails(j)
  }

  function Pubkeys(keys: seq<RemoteKey>): seq<Pubkey> {
    seq(|keys|, i requires 0 <= i < |keys| => keys[i].pubkey)
  }

  lemma EarlierInPrefix(keys: seq<RemoteKey>, fails: nat -> bool, n: nat, i: nat)
    requires i < n <= |keys|
    ensures Earlier(Pubkeys(keys), fails, i) <==> Earlier(Pubkeys(keys[..n]), fails, i)
  {
    assert forall j :: 0 <= j < n ==> Pubkeys(keys[..n])[j] == Pubkeys(keys)[j];
  }

  /** The last statement of an import: its answer, and what it did to the table that the earlier ones left. */
  lemma ImportStep(t: Table, keys: seq<RemoteKey>, fails: nat -> bool)
    requires keys != []
    ensures var (before, earlier), (after, statuses) := ImportInto(t, keys[..|keys| - 1], fails), ImportInto(t, keys, fails);
            var last, status := keys[|keys| - 1], statuses[|keys| - 1];
            && statuses == earlier + [status]
            && before.Keys <= after.Keys
            && (status == ImportError <==> fails(|keys| - 1))
            && (status == Duplicate <==> !fails(|keys| - 1) && last.pubkey in before)
            && (status == Imported ==> last.pubkey !in before && after == before[last.pubkey := last.url])
            && (status != Imported ==> after == before)
  {
  }

  lemma {:induction false} ImportedKeys(t: Table, keys: seq<RemoteKey>, fails: nat -> bool, k: Pubkey)
    ensures k in ImportInto(t, keys, fails).0 <==> k in t || exists j :: 0 <= j < |keys| && keys[j].pubkey == k && !fails(j)
  {
    if keys != [] {
      var n := |keys| - 1;
      ImportStep(t, keys, fails);
      ImportedKeys(t, keys[..n], fails, k);
      assert forall j :: 0 <= j < n ==> keys[..n][j] == keys[j];
    }
  }

  /**
   Each answer tells why: an error exactly when the statement failed, DUPLICATE exactly when the key was there already, or
   had been imported before, and IMPORTED otherwise, with a new row that has the key's URL.
   */
  lemma {:induction false} ImportAnswers(t: Table, keys: seq<RemoteKey>, fails: nat -> bool, i: nat)
    requires i < |keys|
    ensures var (after, statuses) := ImportInto(t, keys, fails);
            && (statuses[i] == ImportError <==> fails(i))
            && (statuses[i] == Duplicate <==> !fails(i) && (keys[i].pubkey in t || Earlier(Pubkeys(keys), fails, i)))
            && (statuses[i] != ImportError ==> keys[i].pubkey in after)
            && (statuses[i] == Imported ==> keys[i].pubkey !in t && after[keys[i].pubkey] == keys[i].url)
  {
    var n := |keys| - 1;
    ImportStep(t, keys, fails);
    ImportAccounts(t, keys[..n], fails);
    if i < n {
      ImportAnswers(t, keys[..n], fails, i);
      assert ImportInto(t, keys, fails).1[i] == ImportInto(t, keys[..n], fails).1[i];
      EarlierInPrefix(keys, fails, n, i);
    } else {
      ImportedKeys(t, keys[..n], fails, keys[i].pubkey);
      assert forall j :: 0 <= j < n ==> Pubkeys(keys)[j] == keys[..n][j].pubkey;
    }
  }

  /** Every row that was not there before was answered IMPORTED. */
  lemma {:induction false} NewRowsWereImported(t: Table, keys: seq<RemoteKey>, fails: nat -> bool, k: Pubkey) returns (i: nat)
    requires k in ImportInto(t, keys, fails).0 && k !in t
    ensures i < |keys| && keys[i].pubkey == k && ImportInto(t, keys, fails).1[i] == Imported
  {
    var init := keys[..|keys| - 1];
    if k in ImportInto(t, init, fails).0 {
      i := NewRowsWereImported(t, init, fails, k);
    } else {
      i := |init|;
    }
  }

  lemma {:induction false} DeleteAccounts(t: Table, keys: seq<Pubkey>, fails: nat -> bool)
    ensures var (after, statuses) := DeleteFrom(t, keys, fails);
            && |t| == |after| + CountOf(statuses, Deleted)
            && after.Keys <= t.Keys && (forall k :: k in after ==> after[k] == t[k])
            && (forall i :: 0 <= i < |keys| && statuses[i] != DeleteError ==> keys[i] !in after)
            && (forall k :: k in t && k !in after ==> k in keys)
  {
    if keys != [] {
      var init, last := keys[..|keys| - 1], keys[|keys| - 1];
      assert keys == init + [last];
      DeleteAccounts(t, init, fails);
      var (before, earlier) := DeleteFrom(t, init, fails);
      var (after, statuses) := DeleteFrom(t, keys, fails);
      assert forall i :: 0 <= i < |init| ==> keys[i] == init[i] && statuses[i] == earlier[i];
      if last in before {
        assert (before - {last}).Keys == before.Keys - {last};
      }
    }
  }

  lemma DeleteStep(t: Table, keys: seq<Pubkey>, fails: nat -> bool)
    requires keys != []
    ensures var (before, earlier), (after, statuses) := DeleteFrom(t, keys[..|keys| - 1], fails), DeleteFrom(t, keys, fails);
            var last, status := keys[|keys| - 1], statuses[|keys| - 1];
            && statuses == earlier + [status]
            && (status == DeleteError <==> fails(|keys| - 1))
            && (status == NotFound <==> !fails(|keys| - 1) && last !in before)
            && after == (if status == Deleted then before - {last} else before)
  {
  }

  lemma {:induction false} DeletedKeys(t: Table, keys: seq<Pubkey>, fails: nat -> bool, k: Pubkey)
    ensures k in DeleteFrom(t, keys, fails).0 <==> k in t && forall j :: 0 <= j < |keys| && keys[j] == k ==> fails(j)
  {
    if keys != [] {
      var n := |keys| - 1;
      DeleteStep(t, keys, fails);
      DeletedKeys(t, keys[..n], fails, k);
      assert forall j :: 0 <= j < n ==> keys[..n][j] == keys[j];
    }
  }

  /** Likewise: NOT_FOUND exactly when the key was not there, or had been deleted before. */
  lemma {:induction false} DeleteAnswers(t: Table, keys: seq<Pubkey>, fails: nat -> bool, i: nat)
    requires i < |keys|
    ensures var statuses := DeleteFrom(t, keys, fails).1;
            && (statuses[i] == DeleteError <==> fails(i))
            && (statuses[i] == NotFound <==> !fails(i) && (keys[i] !in t || Earlier(keys, fails, i)))
  {
    var n := |keys| - 1;
    DeleteStep(t, keys, fails);
    if i < n {
      DeleteAnswers(t, keys[..n], fails, i);
      assert DeleteFrom(t, keys, fails).1[i] == DeleteFrom(t, keys[..n], fails).1[i];
      assert Earlier(keys, fails, i) <==> Earlier(keys[..n], fails, i);
    } else {
      DeletedKeys(t, keys[..n], fails, keys[i]);
      assert forall j :: 0 <= j < n ==> keys[..n][j] == keys[j];
    }
  }

  /** Importing keys the table does not have and deleting them again, without database errors, changes nothing. */
  lemma DeleteUndoesImport(t: Table, keys: seq<RemoteKey>, pubkeys: seq<Pubkey>)
    requires forall i :: 0 <= i < |keys| ==> keys[i].pubkey !in t
    requires forall p :: p in pubkeys <==> exists i :: 0 <= i < |keys| && keys[i].pubkey == p
    ensures DeleteFrom(ImportInto(t, keys, i => false).0, pubkeys, i => false).0 == t
  {
    var never := i => false;
    ImportAccounts(t, keys, never);
    var imported := ImportInto(t, keys, never).0;
    DeleteAccounts(imported, pubkeys, never);
    var after := DeleteFrom(imported, pubkeys, never).0;
    forall p | p in pubkeys ensures p !in after && p !in t {
      var i :| 0 <= i < |pubkeys| && pubkeys[i] == p;
      NoErrors(imported, pubkeys, never, i);
    }
    forall p | p in imported && p !in t ensures p in pubkeys {
      var i := NewRowsWereImported(t, keys, never, p);
    }
    assert after.Keys == t.Keys;
  }

  lemma {:induction false} NoErrors(t: Table, keys: seq<Pubkey>, never: nat -> bool, i: nat)
    requires i < |keys| && forall n :: !never(n)
    ensures DeleteFrom(t, keys, never).1[i] != DeleteError
  {
    if i < |keys| - 1 {
      NoErrors(t, keys[..|keys| - 1], never, i);
    }
  }

  // ---------- any sequence of requests ----------

  datatype KeyRequest = Import(keys: seq<RemoteKey>, fails: nat -> bool) | Delete(pubkeys: seq<Pubkey>, fails: nat -> bool)

  function TableStep(t: Table, request: KeyRequest): Table {
    match request
    case Import(keys, fails) => ImportInto(t, keys, fails).0
    case Delete(pubkeys, fails) => DeleteFrom(t, pubkeys, fails).0
  }

  function TableAfter(t: Table, requests: seq<KeyRequest>): Table {
    if requests == [] then t else TableStep(TableAfter(t, requests[..|requests| - 1]), requests[|requests| - 1])
  }

  /** The IMPORTED answers of all requests together. */
  function AllImported(t: Table, requests: seq<KeyRequest>): nat {
    if requests == [] then 0
    else
      var init, last := requests[..|requests| - 1], requests[|requests| - 1];
      AllImported(t, init) +
      if last.Import? then CountOf(ImportInto(TableAfter(t, init), last.keys, last.fails).1, Imported) else 0
  }

  /** The DELETED answers of all requests together. */
  function AllDeleted(t: Table, requests: seq<KeyRequest>): nat {
    if requests == [] then 0
    else
      var init, last := requests[..|requests| - 1], requests[|requests| - 1];
      AllDeleted(t, init) +
      if last.Delete? then CountOf(DeleteFrom(TableAfter(t, init), last.pubkeys, last.fails).1, Deleted) else 0
  }

  /** Over any sequence of imports and deletes the table has exactly the rows that the answers account for. */
  lemma {:induction false} AnswersAccountForRows(t: Table, requests: seq<KeyRequest>)
    ensures |TableAfter(t, requests)| + AllDeleted(t, requests) == |t| + AllImported(t, requests)
  {
    if requests != [] {
      var init, last := requests[..|requests| - 1], requests[|requests| - 1];
      AnswersAccountForRows(t, init);
      match last
      case Import(keys, fails) => ImportAccounts(TableAfter(t, init), keys, fails);
      case Delete(pubkeys, fails) => DeleteAccounts(TableAfter(t, init), pubkeys, fails);
    }
  }

  predicate Servable(t: Table, canBeEntered: Url -> bool) {
    forall p :: p in t ==> canBeEntered(t[p])
  }

  lemma ServableIff(t: Table, canBeEntered: Url -> bool)
    ensures Servable(t, canBeEntered) <==> forall p :: p in t ==> canBeEntered(t[p])
  {
  }

  /** The table as the last successful mapping update saw it; `served` if none succeeded. */
  function LastServed(t: Table, requests: seq<KeyRequest>, canBeEntered: Url -> bool, served: Table): Table {
    if requests == [] then served
    else if Servable(TableAfter(t, requests), canBeEntered) then TableAfter(t, requests)
    else LastServed(t, requests[..|requests| - 1], canBeEntered, served)
  }

  /** Whether the mapping update succeeds, request by request. */
  function Outcomes(t: Table, requests: seq<KeyRequest>, canBeEntered: Url -> bool): (oks: seq<bool>)
    ensures |oks| == |requests|
  {
    if requests == [] then []
    else Outcomes(t, requests[..|requests| - 1], canBeEntered) + [Servable(TableAfter(t, requests), canBeEntered)]
  }

  lemma {:induction false} OutcomeIsServable(t: Table, requests: seq<KeyRequest>, canBeEntered: Url -> bool, i: nat)
    requires i < |requests|
    ensures Outcomes(t, requests, canBeEntered)[i] <==> Servable(TableAfter(t, requests[..i + 1]), canBeEntered)
  {
    var n := |requests| - 1;
    if i < n {
      OutcomeIsServable(t, requests[..n], canBeEntered, i);
      assert requests[..n][..i + 1] == requests[..i + 1];
    } else {
      assert requests[..i + 1] == requests;
    }
  }

  /** A request's update succeeds if and only if each row that the table has by then can be served. */
  lemma OutcomeIff(t: Table, requests: seq<KeyRequest>, canBeEntered: Url -> bool, i: nat)
    requires i < |requests|
    ensures var table := TableAfter(t, requests[..i + 1]);
            Outcomes(t, requests, canBeEntered)[i] <==> forall p :: p in table ==> canBeEntered(table[p])
  {
    OutcomeIsServable(t, requests, canBeEntered, i);
    ServableIff(TableAfter(t, requests[..i + 1]), canBeEntered);
  }

  // ---------- the signers ----------

  class RemoteSigner {
    const url: Url

    constructor (url: Url)
      ensures this.url == url
    {
      this.url := url;
    }
  }

  class Keymanager {
    /**
     A signer for this URL can be constructed and entered. That takes a host name, but also a scheme, and a path that is
     empty or ends in a slash, or the client session of the signer cannot be created.
     */
    const canBeEntered: Url -> bool
    var table: Table
    var signers: map<Pubkey, RemoteSigner>

    /** Signers in use have distinct URLs that can be served. This holds between any two requests. */
    ghost predicate Valid()
      reads this
    {
      && (forall p :: p in signers ==> canBeEntered(signers[p].url))
      && (forall p, q :: p in signers && q in signers && signers[p].url == signers[q].url ==> signers[p] == signers[q])
    }

    ghost predicate Serves(t: Table)
      reads this
    {
      && signers.Keys == t.Keys
      && forall p :: p in signers ==> signers[p].url == t[p]
    }

    /** The mapping serves exactly the rows of the table. */
    ghost predicate Synced()
      reads this
    {
      Serves(table)
    }

    constructor (canBeEntered: Url -> bool, table: Table)
      ensures Valid() && this.canBeEntered == canBeEntered && this.table == table && signers == map[]
    {
      this.canBeEntered := canBeEntered;
      this.table := table;
      signers := map[];
    }

    /** Rebuild the mapping; rows come in any order. A row whose signer cannot be entered fails the whole update. */
    method UpdateMapping() returns (ok: bool)
      requires Valid()
      modifies this`signers
      ensures Valid()
      ensures ok <==> forall p :: p in table ==> canBeEntered(table[p])
      ensures ok ==> Synced()
      ensures !ok ==> signers == old(signers)
      ensures ok ==> forall p, q :: p in table && q in old(signers) && old(signers)[q].url == table[p] ==>
                       signers[p] == old(signers)[q]
      ensures ok ==> forall p :: p in table && (forall q :: q in old(signers) ==> old(signers)[q].url != table[p]) ==>
                       fresh(signers[p])
    {
      var signersByUrl := ByUrl();
      ghost var known := signersByUrl;
      var newMapping: map<Pubkey, RemoteSigner> := map[];
      var rows := table.Keys;
      while rows != {}
        invariant signers == old(signers) && Valid()
        invariant rows <= table.Keys && newMapping.Keys == table.Keys - rows
        invariant forall u :: u in known ==> u in signersByUrl && signersByUrl[u] == known[u]
        invariant forall u :: u in signersByUrl ==>
                    signersByUrl[u].url == u && canBeEntered(u) && (u in known || fresh(signersByUrl[u]))
        invariant forall p :: p in newMapping ==>
                    table[p] in signersByUrl && newMapping[p] == signersByUrl[table[p]]
      {
        var p :| p in rows;
        var url := table[p];
        if p in signers && signers[p].url == url {
          newMapping := newMapping[p := signers[p]];
        } else if url in signersByUrl {
          newMapping := newMapping[p := signersByUrl[url]];
        } else {
          if !canBeEntered(url) {
            return false;
          }
          var signer := new RemoteSigner(url);
          signersByUrl := signersByUrl[url := signer];
          newMapping := newMapping[p := signer];
        }
        rows := rows - {p};
      }
      signers := newMapping;
      return true;
    }

    method ByUrl() returns (byUrl: map<Url, RemoteSigner>)
      requires Valid()
      ensures forall u :: u in byUrl ==> byUrl[u].url == u && canBeEntered(u) && byUrl[u] in signers.Values
      ensures forall p :: p in signers ==> signers[p].url in byUrl && byUrl[signers[p].url] == signers[p]
    {
      byUrl := map[];
      var left := signers.Keys;
      while left != {}
        invariant left <= signers.Keys
        invariant forall u :: u in byUrl ==> byUrl[u].url == u && canBeEntered(u) && byUrl[u] in signers.Values
        invariant forall p :: p in signers && p !in left ==> signers[p].url in byUrl && byUrl[signers[p].url] == signers[p]
      {
        var p :| p in left;
        byUrl := byUrl[signers[p].url := signers[p]];
        left := left - {p};
      }
    }

    /** The rows stay in the table even when the mapping update that follows fails. */
    method ImportRemoteKeys(keys: seq<RemoteKey>, fails: nat -> bool) returns (statuses: seq<ImportStatus>, ok: bool)
      requires Valid()
      modifies this
      ensures Valid()
      ensures (table, statuses) == ImportInto(old(table), keys, fails)
      ensures ok <==> forall p :: p in table ==> canBeEntered(table[p])
      ensures ok ==> Synced()
      ensures ok ==> forall p, q :: p in table && q in old(signers) && old(signers)[q].url == table[p] ==>
                       signers[p] == old(signers)[q]
      ensures !ok ==> signers == old(signers)
    {
      statuses := [];
      for i := 0 to |keys|
        invariant Valid() && signers == old(signers)
        invariant (table, statuses) == ImportInto(old(table), keys[..i], fails)
      {
        assert keys[..i + 1][..i] == keys[..i];
        if fails(i) {
          statuses := statuses + [ImportError];
        } else if keys[i].pubkey in table {
          statuses := statuses + [Duplicate];
        } else {
          table := table[keys[i].pubkey := keys[i].url];
          statuses := statuses + [Imported];
        }
      }
      assert keys[..|keys|] == keys;
      ok := UpdateMapping();
    }

    method DeleteRemoteKeys(keys: seq<Pubkey>, fails: nat -> bool) returns (statuses: seq<DeleteStatus>, ok: bool)
      requires Valid()
      modifies this
      ensures Valid()
      ensures (table, statuses) == DeleteFrom(old(table), keys, fails)
      ensures ok <==> forall p :: p in table ==> canBeEntered(table[p])
      ensures ok ==> Synced()
      ensures ok ==> forall p, q :: p in table && q in old(signers) && old(signers)[q].url == table[p] ==>
                       signers[p] == old(signers)[q]
      ensures !ok ==> signers == old(signers)
    {
      statuses := [];
      for i := 0 to |keys|
        invariant Valid() && signers == old(signers)
        invariant (table, statuses) == DeleteFrom(old(table), keys[..i], fails)
      {
        assert keys[..i + 1][..i] == keys[..i];
        if fails(i) {
          statuses := statuses + [DeleteError];
        } else if keys[i] !in table {
          statuses := statuses + [NotFound];
        } else {
          table := table - {keys[i]};
          statuses := statuses + [Deleted];
        }
      }
      assert keys[..|keys|] == keys;
      ok := UpdateMapping();
    }

    method Serve(request: KeyRequest) returns (ok: bool)
      requires Valid()
      modifies this
      ensures Valid() && table == TableStep(old(table), request)
      ensures ok <==> Servable(table, canBeEntered)
      ensures ok ==> Synced()
      ensures !ok ==> signers == old(signers)
    {
      match request {
        case Import(keys, fails) =>
          var statuses;
          statuses, ok := ImportRemoteKeys(keys, fails);
        case Delete(pubkeys, fails) =>
          var statuses;
          statuses, ok := DeleteRemoteKeys(pubkeys, fails);
      }
    }

    /** Any sequence of requests; each one updates the mapping whether or not an earlier update failed. */
    method ServeRequests(requests: seq<KeyRequest>, ghost served: Table) returns (oks: seq<bool>)
      requires Valid() && Serves(served)
      modifies this
      ensures Valid() && table == TableAfter(old(table), requests)
      ensures oks == Outcomes(old(table), requests, canBeEntered)
      ensures Serves(LastServed(old(table), requests, canBeEntered, served))
      ensures Synced() <==> LastServed(old(table), requests, canBeEntered, served) == table
    {
      oks := [];
      ghost var start := table;
      for i := 0 to |requests|
        invariant Valid() && table == TableAfter(start, requests[..i])
        invariant oks == Outcomes(start, requests[..i], canBeEntered)
        invariant Serves(LastServed(start, requests[..i], canBeEntered, served))
      {
        assert requests[..i + 1][..i] == requests[..i];
        var ok := Serve(requests[i]);
        assert table == TableAfter(start, requests[..i + 1]);
        oks := oks + [ok];
      }
      assert requests[..|requests|] == requests;
    }

    /** One new key whose signer cannot be entered: its row stays, the update fails, and the mapping misses the key. */
    method ImportUnservable(key: RemoteKey) returns (ok: bool)
      requires Valid() && key.pubkey !in table && !canBeEntered(key.url)
      modifies this
      ensures Valid() && !ok && !Synced()
      ensures table == old(table)[key.pubkey := key.url] && signers == old(signers)
    {
      var never := i => false;
      assert [key][..0] == [] && [key][..1] == [key];
      assert ImportInto(table, [], never) == (table, []);
      assert ImportInto(table, [key], never).0 == table[key.pubkey := key.url];
      var statuses;
      statuses, ok := ImportRemoteKeys([key], never);
      assert table[key.pubkey] == key.url;
    }
  }
}
