/** The standard library's sort, known to its callers only through its contract. */
module Sorting {

  ghost predicate Ascending<T>(s: seq<T>, key: T -> int) {
    forall i, j | 0 <= i < j < |s| :: key(s[i]) <= key(s[j])
  }

  ghost predicate StrictlyAscending<T>(s: seq<T>, key: T -> int) {
    forall i, j | 0 <= i < j < |s| :: key(s[i]) < key(s[j])
  }

  ghost predicate DistinctKeys<T>(s: seq<T>, key: T -> int) {
    forall i, j | 0 <= i < j < |s| :: key(s[i]) != key(s[j])
  }

  method Sort<T>(s: seq<T>, key: T -> int) returns (r: seq<T>)
    ensures Ascending(r, key)
    ensures multiset(r) == multiset(s)
    ensures |r| == |s|
  {
    r := [];
    for n := 0 to |s|
      invariant Ascending(r, key)
      invariant multiset(r) == multiset(s[..n])
      invariant |r| == n
    {
      assert s[..n + 1] == s[..n] + [s[n]];
      r := Insert(r, s[n], key);
    }
    assert s[..|s|] == s;
  }

  method Insert<T>(s: seq<T>, x: T, key: T -> int) returns (r: seq<T>)
    requires Ascending(s, key)
    ensures Ascending(r, key)
    ensures multiset(r) == multiset(s) + multiset{x}
    ensures |r| == |s| + 1
  {
    var at := 0;
    while at < |s| && key(s[at]) <= key(x)
      invariant 0 <= at <= |s|
      invariant forall i | 0 <= i < at :: key(s[i]) <= key(x)
    {
      at := at + 1;
    }
    r := s[..at] + [x] + s[at..];
    InsertedElements(s, at, x);
    InsertedOrder(s, at, x, key);
  }

  lemma InsertedElements<T>(s: seq<T>, at: nat, x: T)
    requires at <= |s|
    ensures multiset(s[..at] + [x] + s[at..]) == multiset(s) + multiset{x}
  {
    assert s == s[..at] + s[at..];
  }

  lemma InsertedOrder<T>(s: seq<T>, at: nat, x: T, key: T -> int)
    requires at <= |s| && Ascending(s, key)
    requires forall i | 0 <= i < at :: key(s[i]) <= key(x)
    requires at < |s| ==> key(x) < key(s[at])
    ensures Ascending(s[..at] + [x] + s[at..], key)
  {
    var r := s[..at] + [x] + s[at..];
    forall i, j | 0 <= i < j < |r| ensures key(r[i]) <= key(r[j]) {
      if j < at {
        assert r[i] == s[i] && r[j] == s[j];
      } else if j == at {
        assert r[i] == s[i] && r[j] == x;
      } else {
        assert r[j] == s[j - 1];
        if i < at {
          assert r[i] == s[i];
        } else if i == at {
          assert r[i] == x;
        } else {
          assert r[i] == s[i - 1];
        }
      }
    }
  }

  /** A permutation keeps every element. */
  lemma SameElements<T>(a: seq<T>, b: seq<T>)
    requires multiset(a) == multiset(b)
    ensures |a| == |b|
    ensures forall x | x in a :: x in b
    ensures forall x | x in b :: x in a
  {
    assert |multiset(a)| == |a| && |multiset(b)| == |b|;
    forall x | x in a ensures x in b {
      assert x in multiset(a);
    }
    forall x | x in b ensures x in a {
      assert x in multiset(b);
    }
  }

  /** Distinct keys stay distinct under permutation, so ascending becomes strictly ascending. */
  lemma AscendingDistinct<T>(s: seq<T>, r: seq<T>, key: T -> int)
    requires multiset(r) == multiset(s) && Ascending(r, key) && DistinctKeys(s, key)
    ensures StrictlyAscending(r, key)
  {
    forall i, j | 0 <= i < j < |r| ensures key(r[i]) < key(r[j]) {
      NoTwins(s, r, key, i, j);
    }
  }

  lemma NoTwins<T>(s: seq<T>, r: seq<T>, key: T -> int, i: nat, j: nat)
    requires multiset(r) == multiset(s) && DistinctKeys(s, key) && i < j < |r|
    ensures key(r[i]) != key(r[j])
  {
    if r[i] == r[j] {
      assert r == r[..j] + [r[j]] + r[j + 1..] && r[i] in r[..j];
      assert multiset(s)[r[i]] >= 2;
      TwoIndices(s, r[i]);
    } else {
      assert r[i] in multiset(s) && r[j] in multiset(s);
    }
  }

  lemma {:induction false} TwoIndices<T>(s: seq<T>, x: T)
    requires multiset(s)[x] >= 2
    ensures exists i, j | 0 <= i < j < |s| :: s[i] == s[j] == x
  {
    assert s == [s[0]] + s[1..];
    if s[0] == x {
      assert x in s[1..];
      var j :| 0 <= j < |s[1..]| && s[1..][j] == x;
      assert s[0] == s[j + 1] == x;
    } else {
      TwoIndices(s[1..], x);
      var i, j :| 0 <= i < j < |s[1..]| && s[1..][i] == s[1..][j] == x;
      assert s[i + 1] == s[j + 1] == x;
    }
  }

  lemma TailElements<T>(a: seq<T>)
    requires a != []
    ensures multiset(a[1..]) == multiset(a) - multiset{a[0]}
  {
    assert a == [a[0]] + a[1..];
  }

  lemma FirstIsLeast<T>(a: seq<T>, x: T, key: T -> int)
    requires StrictlyAscending(a, key) && x in a
    ensures key(a[0]) <= key(x)
    ensures key(x) <= key(a[0]) ==> x == a[0]
  {
  }

  lemma FirstsAgree<T>(a: seq<T>, b: seq<T>, key: T -> int)
    requires multiset(a) == multiset(b) && a != []
    requires StrictlyAscending(a, key) && StrictlyAscending(b, key)
    ensures |a| == |b| && a[0] == b[0]
  {
    hide StrictlyAscending;
    SameElements(a, b);
    assert a[0] in b && b[0] in a;
    FirstIsLeast(a, b[0], key);
    FirstIsLeast(b, a[0], key);
  }

  /** Two strictly ascending orders of the same elements are the same sequence. */
  lemma {:induction false} StrictOrderUnique<T>(a: seq<T>, b: seq<T>, key: T -> int)
    requires multiset(a) == multiset(b)
    requires StrictlyAscending(a, key) && StrictlyAscending(b, key)
    ensures a == b
  {
    hide StrictlyAscending;
    if a == [] {
      assert |multiset(b)| == 0;
    } else {
      FirstsAgree(a, b, key);
      TailElements(a);
      TailElements(b);
      TailAscends(a, key);
      TailAscends(b, key);
      StrictOrderUnique(a[1..], b[1..], key);
      assert a == [a[0]] + a[1..] && b == [b[0]] + b[1..];
    }
  }

  lemma TailAscends<T>(a: seq<T>, key: T -> int)
    requires a != [] && StrictlyAscending(a, key)
    ensures StrictlyAscending(a[1..], key)
  {
  }

  // ---- The sorted sequence as a value ----

  /** Where a key goes: after every element whose key is not larger. */
  ghost function InsertionPoint<T>(s: seq<T>, k: int, key: T -> int): (at: nat)
    requires Ascending(s, key)
    ensures at <= |s|
    ensures forall i | 0 <= i < at :: key(s[i]) <= k
    ensures at < |s| ==> k < key(s[at])
  {
    if s == [] || k < key(s[0]) then 0 else 1 + InsertionPoint(s[1..], k, key)
  }

  ghost function SortedCopy<T>(s: seq<T>, key: T -> int): (r: seq<T>)
    ensures Ascending(r, key)
    ensures multiset(r) == multiset(s)
    ensures |r| == |s|
  {
    if s == [] then []
    else
      var rest := SortedCopy(s[1..], key);
      var at := InsertionPoint(rest, key(s[0]), key);
      InsertedElements(rest, at, s[0]);
      InsertedOrder(rest, at, s[0], key);
      assert s == [s[0]] + s[1..];
      rest[..at] + [s[0]] + rest[at..]
  }

  // ---- Any two ascending permutations have the same keys ----

  function Keys<T>(s: seq<T>, key: T -> int): (ks: seq<int>)
    ensures |ks| == |s| && forall i | 0 <= i < |s| :: ks[i] == key(s[i])
  {
    seq(|s|, i requires 0 <= i < |s| => key(s[i]))
  }

  lemma WithoutOne<T>(s: seq<T>, j: nat)
    requires j < |s|
    ensures multiset(s[..j] + s[j + 1..]) == multiset(s) - multiset{s[j]}
  {
    assert s == s[..j] + [s[j]] + s[j + 1..];
  }

  lemma BackWithOne<T>(a: multiset<T>, b: multiset<T>, x: T)
    requires x in a && x in b && a - multiset{x} == b - multiset{x}
    ensures a == b
  {
    assert a == (a - multiset{x}) + multiset{x} && b == (b - multiset{x}) + multiset{x};
  }

  lemma SameLength<T>(a: seq<T>, b: seq<T>)
    requires multiset(a) == multiset(b)
    ensures |a| == |b|
  {
    assert |multiset(a)| == |a| && |multiset(b)| == |b|;
  }

  lemma KeysOfTail<T>(a: seq<T>, key: T -> int)
    requires a != []
    ensures multiset(Keys(a[1..], key)) == multiset(Keys(a, key)) - multiset{key(a[0])}
  {
    TailElements(Keys(a, key));
    assert Keys(a[1..], key) == Keys(a, key)[1..];
  }

  lemma KeysWithoutOne<T>(b: seq<T>, j: nat, key: T -> int)
    requires j < |b|
    ensures multiset(Keys(b[..j] + b[j + 1..], key)) == multiset(Keys(b, key)) - multiset{key(b[j])}
  {
    WithoutOne(Keys(b, key), j);
    assert Keys(b[..j] + b[j + 1..], key) == Keys(b, key)[..j] + Keys(b, key)[j + 1..];
  }

  lemma {:induction false} KeysPermuted<T>(a: seq<T>, b: seq<T>, key: T -> int)
    requires multiset(a) == multiset(b)
    ensures multiset(Keys(a, key)) == multiset(Keys(b, key))
    decreases |a|
  {
    SameLength(a, b);
    if a == [] {
    } else {
      assert a[0] in multiset(b);
      var j :| 0 <= j < |b| && b[j] == a[0];
      TailElements(a);
      WithoutOne(b, j);
      KeysPermuted(a[1..], b[..j] + b[j + 1..], key);
      KeysOfTail(a, key);
      KeysWithoutOne(b, j, key);
      assert Keys(a, key)[0] == key(a[0]) && Keys(b, key)[j] == key(a[0]);
      BackWithOne(multiset(Keys(a, key)), multiset(Keys(b, key)), key(a[0]));
    }
  }

  predicate SortedInts(a: seq<int>) {
    forall i, j | 0 <= i < j < |a| :: a[i] <= a[j]
  }

  lemma LeastIsFirst(a: seq<int>, b: seq<int>)
    requires a != [] && b != [] && multiset(a) == multiset(b) && SortedInts(a) && SortedInts(b)
    ensures a[0] == b[0]
  {
    assert a[0] in multiset(b) && b[0] in multiset(a);
    var i :| 0 <= i < |a| && a[i] == b[0];
    var j :| 0 <= j < |b| && b[j] == a[0];
  }

  lemma {:induction false} SortedIntsEqual(a: seq<int>, b: seq<int>)
    requires multiset(a) == multiset(b) && SortedInts(a) && SortedInts(b)
    ensures a == b
    decreases |a|
  {
    SameLength(a, b);
    if a == [] {
    } else {
      LeastIsFirst(a, b);
      TailElements(a);
      TailElements(b);
      TailSorted(a);
      TailSorted(b);
      hide SortedInts;
      SortedIntsEqual(a[1..], b[1..]);
      assert a == [a[0]] + a[1..] && b == [b[0]] + b[1..];
    }
  }

  lemma TailSorted(a: seq<int>)
    requires a != [] && SortedInts(a)
    ensures SortedInts(a[1..])
  {
  }

  lemma AscendingKeysEqual<T>(a: seq<T>, b: seq<T>, key: T -> int)
    requires multiset(a) == multiset(b) && Ascending(a, key) && Ascending(b, key)
    ensures |a| == |b| && forall i | 0 <= i < |a| :: key(a[i]) == key(b[i])
  {
    KeysPermuted(a, b, key);
    SortedIntsEqual(Keys(a, key), Keys(b, key));
    assert Keys(a, key) == Keys(b, key);
  }

  // ---- Sums over a sequence ----

  function Total<T>(s: seq<T>, weight: T -> nat): nat {
    if s == [] then 0 else Total(s[..|s| - 1], weight) + weight(s[|s| - 1])
  }

  lemma {:induction false} TotalAppend<T>(a: seq<T>, b: seq<T>, weight: T -> nat)
    ensures Total(a + b, weight) == Total(a, weight) + Total(b, weight)
  {
    if b == [] {
      assert a + b == a;
    } else {
      assert (a + b)[..|a + b| - 1] == a + b[..|b| - 1];
      TotalAppend(a, b[..|b| - 1], weight);
    }
  }

  lemma TotalOne<T>(x: T, weight: T -> nat)
    ensures Total([x], weight) == weight(x)
  {
    assert [x][..0] == [];
  }

  lemma TotalWithout<T>(s: seq<T>, j: nat, weight: T -> nat)
    requires j < |s|
    ensures Total(s, weight) == Total(s[..j] + s[j + 1..], weight) + weight(s[j])
  {
    hide Total;
    assert s == s[..j] + [s[j]] + s[j + 1..];
    TotalOne(s[j], weight);
    TotalAppend(s[..j] + [s[j]], s[j + 1..], weight);
    TotalAppend(s[..j], [s[j]], weight);
    TotalAppend(s[..j], s[j + 1..], weight);
  }

  lemma TotalFirst<T>(s: seq<T>, weight: T -> nat)
    requires s != []
    ensures Total(s, weight) == Total(s[1..], weight) + weight(s[0])
  {
    hide Total;
    assert s[..0] + s[0 + 1..] == s[1..];
    TotalWithout(s, 0, weight);
  }

  lemma TotalStep<T>(s: seq<T>, k: nat, weight: T -> nat)
    requires k < |s|
    ensures Total(s[..k + 1], weight) == Total(s[..k], weight) + weight(s[k]) <= Total(s, weight)
  {
    assert s[..k + 1][..k] == s[..k];
    assert s == s[..k + 1] + s[k + 1..];
    TotalAppend(s[..k + 1], s[k + 1..], weight);
  }

  /** The sum does not depend on the order. */
  lemma {:induction false} TotalPermuted<T>(a: seq<T>, b: seq<T>, weight: T -> nat)
    requires multiset(a) == multiset(b)
    ensures Total(a, weight) == Total(b, weight)
    decreases |a|
  {
    SameLength(a, b);
    if a == [] {
    } else {
      hide Total;
      assert a[0] in multiset(b);
      var j :| 0 <= j < |b| && b[j] == a[0];
      TailElements(a);
      WithoutOne(b, j);
      TotalPermuted(a[1..], b[..j] + b[j + 1..], weight);
      TotalWithout(b, j, weight);
      TotalFirst(a, weight);
    }
  }

  lemma {:induction false} TotalUniform<T>(s: seq<T>, weight: T -> nat, v: nat)
    requires forall i | 0 <= i < |s| :: weight(s[i]) == v
    ensures Total(s, weight) == |s| * v
  {
    if s == [] {
    } else {
      TotalUniform(s[..|s| - 1], weight, v);
    }
  }

  lemma {:induction false} TotalsMatch<S, T>(a: seq<S>, u: S -> nat, b: seq<T>, v: T -> nat)
    requires |a| == |b| && forall i | 0 <= i < |a| :: u(a[i]) == v(b[i])
    ensures Total(a, u) == Total(b, v)
  {
    if a == [] {
    } else {
      TotalsMatch(a[..|a| - 1], u, b[..|b| - 1], v);
    }
  }

  // ---- Distinct keys ----

  /** With distinct keys, any ascending permutation is the sorted copy. */
  lemma SortedIsUnique<T>(s: seq<T>, r: seq<T>, key: T -> int)
    requires DistinctKeys(s, key) && Ascending(r, key) && multiset(r) == multiset(s)
    ensures r == SortedCopy(s, key) && StrictlyAscending(r, key)
  {
    AscendingDistinct(s, r, key);
    AscendingDistinct(s, SortedCopy(s, key), key);
    StrictOrderUnique(r, SortedCopy(s, key), key);
  }

  /** With distinct keys, sorting forgets the order of its input. */
  lemma SortForgetsOrder<T>(a: seq<T>, b: seq<T>, key: T -> int)
    requires multiset(a) == multiset(b) && DistinctKeys(a, key)
    ensures SortedCopy(a, key) == SortedCopy(b, key)
  {
    SortedIsUnique(a, SortedCopy(b, key), key);
  }
}
