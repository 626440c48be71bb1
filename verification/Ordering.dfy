/** Code-point order on strings, and the stable sort that `sorted(..., key=...)` performs. */
module Ordering {
  import opened Common

  predicate Less(a: string, b: string) {
    |b| > 0 && (|a| == 0 || a[0] < b[0] || (a[0] == b[0] && Less(a[1..], b[1..])))
  }

  lemma {:induction false} LessAsymmetric(a: string, b: string)
    requires Less(a, b)
    ensures !Less(b, a) && a != b
  {
    if |a| > 0 && a[0] == b[0] {
      LessAsymmetric(a[1..], b[1..]);
    }
  }

  lemma {:induction false} LessTransitive(a: string, b: string, c: string)
    requires Less(a, b) && Less(b, c)
    ensures Less(a, c)
  {
    if |a| > 0 && a[0] == b[0] == c[0] {
      LessTransitive(a[1..], b[1..], c[1..]);
    }
  }

  lemma {:induction false} LessTotal(a: string, b: string)
    ensures Less(a, b) || a == b || Less(b, a)
  {
    if |a| > 0 && |b| > 0 && a[0] == b[0] {
      LessTotal(a[1..], b[1..]);
      assert a == [a[0]] + a[1..] && b == [b[0]] + b[1..];
    }
  }

  function InsertBy<T>(key: T -> string, x: T, s: seq<T>): (r: seq<T>)
  {
    if s == [] || !Less(key(s[0]), key(x)) then [x] + s
    else [s[0]] + InsertBy(key, x, s[1..])
  }

  function SortBy<T>(key: T -> string, s: seq<T>): (r: seq<T>)
  {
    if s == [] then [] else InsertBy(key, s[0], SortBy(key, s[1..]))
  }

  ghost predicate StrictlySortedBy<T>(key: T -> string, s: seq<T>) {
    forall i, j :: 0 <= i < j < |s| ==> Less(key(s[i]), key(s[j]))
  }

  ghost predicate DistinctKeys<T>(key: T -> string, s: seq<T>) {
    forall i, j :: 0 <= i < j < |s| ==> key(s[i]) != key(s[j])
  }

  lemma {:induction false} InsertByPermutes<T>(key: T -> string, x: T, s: seq<T>)
    ensures multiset(InsertBy(key, x, s)) == multiset(s) + multiset{x}
  {
    if s != [] && Less(key(s[0]), key(x)) {
      InsertByPermutes(key, x, s[1..]);
      assert s == [s[0]] + s[1..];
    }
  }

  lemma {:induction false} SortByMultiset<T>(key: T -> string, s: seq<T>)
    ensures multiset(SortBy(key, s)) == multiset(s)
  {
    if s != [] {
      SortByMultiset(key, s[1..]);
      InsertByPermutes(key, s[0], SortBy(key, s[1..]));
      assert s == [s[0]] + s[1..];
    }
  }

  /** Sorting permutes. */
  lemma SortByPermutes<T>(key: T -> string, s: seq<T>)
    ensures multiset(SortBy(key, s)) == multiset(s)
    ensures |SortBy(key, s)| == |s|
    ensures forall x :: x in SortBy(key, s) <==> x in s
  {
    SortByMultiset(key, s);
    SameMembers(SortBy(key, s), s);
  }

  lemma {:induction false} InsertBySorts<T>(key: T -> string, x: T, s: seq<T>)
    requires StrictlySortedBy(key, s)
    requires forall y :: y in s ==> key(y) != key(x)
    ensures StrictlySortedBy(key, InsertBy(key, x, s))
  {
    hide Less;
    if s == [] {
    } else if Less(key(s[0]), key(x)) {
      InsertBySorts(key, x, s[1..]);
      InsertByPermutes(key, x, s[1..]);
      var r := InsertBy(key, x, s[1..]);
      forall y | y in r ensures Less(key(s[0]), key(y)) {
        assert y in multiset(r);
        assert y == x || y in s[1..];
      }
      assert InsertBy(key, x, s) == [s[0]] + r;
    } else {
      LessTotal(key(s[0]), key(x));
      forall j | 0 < j < |s| ensures Less(key(x), key(s[j])) {
        LessTransitive(key(x), key(s[0]), key(s[j]));
      }
    }
  }

  /** With distinct keys the sort is strictly increasing and keeps exactly the same items. */
  lemma {:induction false} SortBySorts<T>(key: T -> string, s: seq<T>)
    requires DistinctKeys(key, s)
    ensures StrictlySortedBy(key, SortBy(key, s))
  {
    if s != [] {
      SortBySorts(key, s[1..]);
      SortByPermutes(key, s[1..]);
      var rest := SortBy(key, s[1..]);
      forall y | y in rest ensures key(y) != key(s[0]) {
        assert y in multiset(rest);
        assert y in s[1..];
      }
      InsertBySorts(key, s[0], rest);
    }
  }

  lemma {:induction false} StrictlySortedUnique<T>(key: T -> string, a: seq<T>, b: seq<T>)
    requires StrictlySortedBy(key, a) && StrictlySortedBy(key, b)
    requires forall x :: x in a <==> x in b
    ensures a == b
  {
    if a == [] || b == [] {
      EmptyByMembers(a);
      EmptyByMembers(b);
    } else {
      assert a[0] in b && b[0] in a;
      var k :| 0 <= k < |b| && b[k] == a[0];
      var m :| 0 <= m < |a| && a[m] == b[0];
      if k > 0 && m > 0 {
        LessAsymmetric(key(a[0]), key(b[0]));
        assert false;
      }
      HeadDiffersFromTail(key, a);
      HeadDiffersFromTail(key, b);
      forall x ensures x in a[1..] <==> x in b[1..] {
        assert x in a <==> x == a[0] || x in a[1..];
        assert x in b <==> x == b[0] || x in b[1..];
      }
      StrictlySortedUnique(key, a[1..], b[1..]);
      assert a == [a[0]] + a[1..] && b == [b[0]] + b[1..];
    }
  }

  lemma EmptyByMembers<T>(s: seq<T>)
    ensures s == [] || exists x :: x in s
  {
    if s != [] {
      assert s[0] in s;
    }
  }

  lemma HeadDiffersFromTail<T>(key: T -> string, s: seq<T>)
    requires StrictlySortedBy(key, s) && s != []
    ensures s[0] !in s[1..]
  {
    forall k | 1 <= k < |s| ensures s[k] != s[0] {
      LessAsymmetric(key(s[0]), key(s[k]));
    }
  }

  /** A strictly sorted sequence is its own sort. */
  lemma SortByFixed<T>(key: T -> string, a: seq<T>)
    requires StrictlySortedBy(key, a)
    ensures DistinctKeys(key, a) && SortBy(key, a) == a
  {
    forall i, j | 0 <= i < j < |a| ensures key(a[i]) != key(a[j]) {
      LessAsymmetric(key(a[i]), key(a[j]));
    }
    SortBySorts(key, a);
    SortByPermutes(key, a);
    StrictlySortedUnique(key, SortBy(key, a), a);
  }
}
