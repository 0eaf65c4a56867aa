/** Failure-compatible datatypes and the finite-set facts the protocol proofs lean on. */
module Basics {

  datatype Option<+T> = None | Some(value: T)

  datatype Result<+T, +E> = Ok(value: T) | Err(error: E)

  function Max(a: int, b: int): int {
    if a < b then b else a
  }

  function Min(a: int, b: int): int {
    if a < b then a else b
  }

  function Elements<T>(s: seq<T>): set<T> {
    set x | x in s
  }

  ghost predicate Distinct<T>(s: seq<T>) {
    forall i, j :: 0 <= i < j < |s| ==> s[i] != s[j]
  }

  lemma SubsetSize<T>(a: set<T>, b: set<T>)
    requires a <= b
    ensures |a| <= |b|
  {
    assert b == a + (b - a);
  }

  ghost predicate Total<T(!new)>(before: (T, T) -> bool) {
    && (forall x, y :: before(x, y) || before(y, x))
    && (forall x, y, z :: before(x, y) && before(y, z) ==> before(x, z))
  }

  ghost predicate IsFirst<T>(s: set<T>, before: (T, T) -> bool, x: T) {
    x in s && forall y :: y in s ==> before(x, y)
  }

  /** A finite set that is not empty has a first element in any total order. */
  lemma {:induction false} FirstExists<T(!new)>(s: set<T>, before: (T, T) -> bool)
    requires s != {} && Total(before)
    ensures exists x :: IsFirst(s, before, x)
  {
    var x :| x in s;
    if s == {x} {
      assert IsFirst(s, before, x);
    } else {
      FirstExists(s - {x}, before);
      var y :| IsFirst(s - {x}, before, y);
      assert forall z :: z in s ==> z == x || z in s - {x};
      assert IsFirst(s, before, if before(x, y) then x else y);
    }
  }

  function Largest(s: set<nat>): (top: nat)
    requires s != {}
    ensures top in s && forall x :: x in s ==> x <= top
  {
    var before := (x: nat, y: nat) => y <= x;
    FirstExists(s, before);
    assert exists top :: IsFirst(s, before, top);
    var top :| top in s && forall x :: x in s ==> x <= top;
    top
  }

  function Smallest(s: set<nat>): (low: nat)
    requires s != {}
    ensures low in s && forall x :: x in s ==> low <= x
  {
    var before := (x: nat, y: nat) => x <= y;
    FirstExists(s, before);
    assert exists low :: IsFirst(s, before, low);
    var low :| low in s && forall x :: x in s ==> low <= x;
    low
  }

  /** The length test used for uniqueness checks: no element repeats exactly when the set is as large as the list. */
  lemma {:induction false} DistinctIffSetAsLarge<T>(s: seq<T>)
    ensures |Elements(s)| <= |s|
    ensures Distinct(s) <==> |Elements(s)| == |s|
  {
    if s != [] {
      var n := |s| - 1;
      var init, last := s[..n], s[n];
      assert s == init + [last];
      DistinctIffSetAsLarge(init);
      assert Elements(s) == Elements(init) + {last};
      if last in Elements(init) {
        var i :| 0 <= i < n && init[i] == last;
        assert s[i] == s[n];
        assert Elements(s) == Elements(init);
      } else {
        assert forall i :: 0 <= i < n ==> s[i] == init[i];
        if Distinct(init) {
          assert forall i :: 0 <= i < n ==> s[i] in Elements(init);
        }
      }
    }
  }

  /** Some `n` elements of the set, in some order. */
  lemma {:induction false} TakeSome<T>(s: set<T>, n: nat) returns (some: seq<T>)
    requires n <= |s|
    ensures |some| == n && Distinct(some) && Elements(some) <= s
    ensures forall i :: 0 <= i < n ==> some[i] in s
  {
    some := [];
    if n > 0 {
      var x :| x in s;
      var rest := TakeSome(s - {x}, n - 1);
      some := rest + [x];
    }
  }

  /** Two subsets that are together larger than the whole share an element. */
  lemma QuorumsMeet<T>(a: set<T>, b: set<T>, all: set<T>) returns (common: T)
    requires a <= all && b <= all
    requires |a| + |b| > |all|
    ensures common in a && common in b
  {
    if a * b == {} {
      assert |a + b| == |a| + |b|;
      SubsetSize(a + b, all);
    }
    common :| common in a * b;
  }
}
