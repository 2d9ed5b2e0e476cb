/** Small sequence utilities shared by both revisions of the quest system:
    the optional value that stands in for a nullable pointer, the list
    operations of Unreal's TArray that the quest code relies on (AddUnique,
    Remove), and the order-by-key sort that FQuest::Init applies to its
    objectives. */
module Common {

  datatype Option<T> = None | Some(value: T)

  /** No element occurs twice. */
  predicate NoDup(s: seq<int>) {
    forall i, j :: 0 <= i < j < |s| ==> s[i] != s[j]
  }

  /** Two lists without duplicates and with no element in common
      concatenate to a list without duplicates. */
  lemma NoDupConcat(p: seq<int>, q: seq<int>)
    requires NoDup(p) && NoDup(q)
    requires forall x :: x in p ==> x !in q
    ensures NoDup(p + q)
  {
    forall i, j | 0 <= i < j < |p + q| ensures (p + q)[i] != (p + q)[j] {
      if i < |p| && j >= |p| {
        assert (p + q)[i] in p && (p + q)[j] in q;
      }
    }
  }

  /** TArray::AddUnique: append x unless it is already present. */
  function AddUnique(s: seq<int>, x: int): (r: seq<int>)
    ensures x in r
    ensures forall y :: y in r <==> y in s || y == x
    ensures |r| == if x in s then |s| else |s| + 1
    ensures x in s ==> r == s
    ensures NoDup(s) ==> NoDup(r)
  {
    if x in s then s else s + [x]
  }

  /** TArray::Remove: drop every element equal to x, keeping the others in order. */
  function RemoveAll(s: seq<int>, x: int): (r: seq<int>)
    ensures x !in r
    ensures forall y :: y in r <==> y in s && y != x
    ensures |r| <= |s|
    ensures multiset(r) == multiset(s)[x := 0]
  {
    if s == [] then []
    else
      var rest := RemoveAll(s[..|s| - 1], x);
      assert s == s[..|s| - 1] + [s[|s| - 1]];
      if s[|s| - 1] == x then rest else rest + [s[|s| - 1]]
  }

  /** Removing x from a list that does not hold it leaves the list as it was. */
  lemma {:induction false} RemoveAbsent(s: seq<int>, x: int)
    requires x !in s
    ensures RemoveAll(s, x) == s
  {
    if s != [] {
      RemoveAbsent(s[..|s| - 1], x);
      assert s == s[..|s| - 1] + [s[|s| - 1]];
    }
  }

  /** Removal distributes over concatenation: the surviving elements keep
      their relative order. */
  lemma {:induction false} RemoveConcat(a: seq<int>, b: seq<int>, x: int)
    ensures RemoveAll(a + b, x) == RemoveAll(a, x) + RemoveAll(b, x)
  {
    if b == [] {
      assert a + b == a;
    } else {
      var b' := b[..|b| - 1];
      assert (a + b)[..|a + b| - 1] == a + b';
      assert (a + b)[|a + b| - 1] == b[|b| - 1];
      RemoveConcat(a, b', x);
    }
  }

  /** Removes every element of xs, one after the other. */
  function RemoveEach(s: seq<int>, xs: seq<int>): (r: seq<int>)
    ensures forall y :: y in r <==> y in s && y !in xs
    decreases |xs|
  {
    if xs == [] then s else RemoveAll(RemoveEach(s, xs[..|xs| - 1]), xs[|xs| - 1])
  }

  /** Removing one more element after the others. */
  lemma RemoveEachSnoc(s: seq<int>, xs: seq<int>, x: int)
    ensures RemoveEach(s, xs + [x]) == RemoveAll(RemoveEach(s, xs), x)
  {
    assert (xs + [x])[..|xs|] == xs;
  }

  /** s is ordered by key, ascending (ties in any order). */
  predicate SortedBy<T>(s: seq<T>, key: T -> int) {
    forall i, j :: 0 <= i < j < |s| ==> key(s[i]) <= key(s[j])
  }

  /** No two elements share a key. */
  predicate DistinctBy<T>(s: seq<T>, key: T -> int) {
    forall i, j :: 0 <= i < j < |s| ==> key(s[i]) != key(s[j])
  }

  /** Inserts x into a key-sorted list before the first element with a larger key. */
  function InsertBy<T>(x: T, s: seq<T>, key: T -> int): (r: seq<T>)
    requires SortedBy(s, key)
    ensures SortedBy(r, key)
    ensures multiset(r) == multiset(s) + multiset{x}
    ensures |r| == |s| + 1
    ensures r[0] == x || (s != [] && r[0] == s[0])
  {
    if s == [] then [x]
    else if key(x) <= key(s[0]) then [x] + s
    else
      var rest := InsertBy(x, s[1..], key);
      ConsSorted(s[0], rest, key);
      InsertByCount(x, s, rest);
      [s[0]] + rest
  }

  /** Re-attaching the head to a list that gained x counts the whole list and x. */
  lemma InsertByCount<T>(x: T, s: seq<T>, rest: seq<T>)
    requires s != [] && multiset(rest) == multiset(s[1..]) + multiset{x}
    ensures multiset([s[0]] + rest) == multiset(s) + multiset{x}
  {
    assert s == [s[0]] + s[1..];
  }

  /** Putting an element no larger than the head in front keeps a list sorted. */
  lemma ConsSorted<T>(x: T, s: seq<T>, key: T -> int)
    requires SortedBy(s, key)
    requires s != [] ==> key(x) <= key(s[0])
    ensures SortedBy([x] + s, key)
  {
    var r := [x] + s;
    forall i, j | 0 <= i < j < |r| ensures key(r[i]) <= key(r[j]) {
      if i > 0 {
        assert r[i] == s[i - 1] && r[j] == s[j - 1];
      } else {
        assert r[j] == s[j - 1];
        assert key(s[0]) <= key(s[j - 1]) || j == 1;
      }
    }
  }

  /** TArray::Sort with a "key(a) < key(b)" predicate: any ascending
      arrangement of s is a correct outcome; this one is an insertion sort. */
  function SortBy<T>(s: seq<T>, key: T -> int): (r: seq<T>)
    ensures SortedBy(r, key)
    ensures multiset(r) == multiset(s)
    ensures |r| == |s|
  {
    if s == [] then []
    else
      var rest := SortBy(s[1..], key);
      assert s == [s[0]] + s[1..];
      InsertBy(s[0], rest, key)
  }

  /** Putting an element with a fresh key in front keeps the keys distinct. */
  lemma DistinctCons<T>(x: T, s: seq<T>, key: T -> int)
    requires DistinctBy(s, key)
    requires forall y :: y in s ==> key(y) != key(x)
    ensures DistinctBy([x] + s, key)
  {
    var r := [x] + s;
    forall i, j | 0 <= i < j < |r| ensures key(r[i]) != key(r[j]) {
      assert r[j] == s[j - 1];
      if i > 0 {
        assert r[i] == s[i - 1];
      } else {
        assert s[j - 1] in s;
      }
    }
  }

  /** The tail of a list with distinct keys has distinct keys, none of them
      the head's. */
  lemma DistinctTail<T>(s: seq<T>, key: T -> int)
    requires s != [] && DistinctBy(s, key)
    ensures DistinctBy(s[1..], key)
    ensures forall y :: y in s[1..] ==> key(y) != key(s[0])
  {
    forall i, j | 0 <= i < j < |s[1..]| ensures key(s[1..][i]) != key(s[1..][j]) {
      assert s[1..][i] == s[i + 1] && s[1..][j] == s[j + 1];
    }
    forall y | y in s[1..] ensures key(y) != key(s[0]) {
      var k :| 0 <= k < |s[1..]| && s[1..][k] == y;
      assert s[k + 1] == y;
    }
  }

  /** An element of a list holding the elements of s and x is x or in s. */
  lemma InSum<T>(r: seq<T>, s: seq<T>, x: T)
    requires multiset(r) == multiset(s) + multiset{x}
    ensures forall y :: y in r ==> y == x || y in s
  {
    forall y | y in r ensures y == x || y in s {
      assert y in multiset(r);
    }
  }

  /** Inserting an element with a fresh key keeps the keys distinct. */
  lemma {:induction false} InsertByDistinct<T>(x: T, s: seq<T>, key: T -> int)
    requires SortedBy(s, key) && DistinctBy(s, key)
    requires forall y :: y in s ==> key(y) != key(x)
    ensures DistinctBy(InsertBy(x, s, key), key)
  {
    if s == [] {
    } else if key(x) <= key(s[0]) {
      DistinctCons(x, s, key);
    } else {
      var tail := s[1..];
      DistinctTail(s, key);
      assert s == [s[0]] + tail;
      assert forall y :: y in tail ==> y in s;
      InsertByDistinct(x, tail, key);
      var rest := InsertBy(x, tail, key);
      InSum(rest, tail, x);
      assert s[0] in s;
      DistinctCons(s[0], rest, key);
    }
  }

  /** Sorting a list with distinct keys keeps them distinct. */
  lemma {:induction false} SortByDistinct<T>(s: seq<T>, key: T -> int)
    requires DistinctBy(s, key)
    ensures DistinctBy(SortBy(s, key), key)
  {
    if s != [] {
      var tail := s[1..];
      DistinctTail(s, key);
      SortByDistinct(tail, key);
      var rest := SortBy(tail, key);
      SameElements(rest, tail);
      forall y | y in rest ensures key(y) != key(s[0]) {
        assert y in multiset(rest);
        assert y in tail;
      }
      InsertByDistinct(s[0], rest, key);
    }
  }

  /** An element of a permutation is an element of the original. */
  lemma SameElements<T>(a: seq<T>, b: seq<T>)
    requires multiset(a) == multiset(b)
    ensures forall x :: x in a <==> x in b
  {
    forall x ensures x in a <==> x in b {
      assert x in a <==> x in multiset(a);
      assert x in b <==> x in multiset(b);
    }
  }
}
