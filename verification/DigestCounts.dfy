/** Counted record digests in digest order: what a Counter or a GROUP BY table holds. */
module DigestCounts {
  import opened Common
  import opened Ordering

  datatype Row = Row(digest: string, count: nat)

  function DigestOf(row: Row): string { row.digest }

  /** The rows of m: one per digest, in digest order, each with its positive multiplicity. */
  ghost predicate Lists(rows: seq<Row>, m: multiset<string>) {
    StrictlySortedBy(DigestOf, rows) && Covers(rows, m)
  }

  ghost predicate Covers(rows: seq<Row>, m: multiset<string>) {
    forall d: string, n: nat :: Row(d, n) in rows <==> n == m[d] && n > 0
  }

  /** A multiset has only one listing. */
  lemma ListingUnique(a: seq<Row>, b: seq<Row>, m: multiset<string>)
    requires Lists(a, m) && Lists(b, m)
    ensures a == b
  {
    forall row ensures row in a <==> row in b {
      assert Row(row.digest, row.count) in a <==> Row(row.digest, row.count) in b;
    }
    StrictlySortedUnique(DigestOf, a, b);
  }

  /** A listing determines its multiset. */
  lemma ListingInjective(rows: seq<Row>, m: multiset<string>, m': multiset<string>)
    requires Lists(rows, m) && Lists(rows, m')
    ensures m == m'
  {
    forall d ensures m[d] == m'[d] {
      assert Row(d, m[d]) in rows <==> m[d] > 0;
      assert Row(d, m'[d]) in rows <==> m'[d] > 0;
    }
  }

  function Total(rows: seq<Row>): nat {
    if rows == [] then 0 else Total(rows[..|rows| - 1]) + rows[|rows| - 1].count
  }

  /** Summing the counts of a listing gives the number of records. */
  lemma {:induction false} TotalIsSize(rows: seq<Row>, m: multiset<string>)
    requires Lists(rows, m)
    ensures Total(rows) == |m|
  {
    if rows == [] {
      forall d ensures m[d] == 0 {
        assert Row(d, m[d]) in rows <==> m[d] > 0;
      }
      assert m == multiset{};
    } else {
      var last := rows[|rows| - 1];
      assert last in rows;
      WithoutLast(rows, m);
      TotalIsSize(rows[..|rows| - 1], m[last.digest := 0]);
    }
  }

  lemma WithoutLast(rows: seq<Row>, m: multiset<string>)
    requires Lists(rows, m) && rows != []
    ensures Lists(rows[..|rows| - 1], m[rows[|rows| - 1].digest := 0])
    ensures m[rows[|rows| - 1].digest] == rows[|rows| - 1].count
  {
    var init, last := rows[..|rows| - 1], rows[|rows| - 1];
    assert Row(last.digest, last.count) in rows;
    forall row ensures row in rows <==> row in init || row == last {
      assert rows == init + [last];
    }
    forall row | row in init ensures row.digest != last.digest {
      var i :| 0 <= i < |init| && init[i] == row;
      LessAsymmetric(DigestOf(rows[i]), DigestOf(last));
    }
    forall d: string, n: nat ensures Row(d, n) in init <==> n == m[last.digest := 0][d] && n > 0 {
      assert Row(d, n) in rows <==> n == m[d] && n > 0;
    }
  }

  /** Sorting rows that cover m lists m. */
  lemma SortLists(rows: seq<Row>, m: multiset<string>)
    requires DistinctKeys(DigestOf, rows) && Covers(rows, m)
    ensures Lists(SortBy(DigestOf, rows), m)
  {
    SortBySorts(DigestOf, rows);
    SortByPermutes(DigestOf, rows);
  }

  /** Rows for the digests seen so far. */
  ghost predicate Tallied(seen: seq<string>, counts: map<string, nat>, m: multiset<string>) {
    && Distinct(seen)
    && (forall d :: d in seen <==> d in counts)
    && (forall d :: d in counts <==> d in m)
    && (forall d :: d in counts ==> counts[d] == m[d])
  }

  /** `Counter(digests)`: first-seen order and a count per digest. */
  method CountDigests(digests: seq<string>) returns (seen: seq<string>, counts: map<string, nat>)
    ensures Tallied(seen, counts, multiset(digests))
  {
    seen, counts := [], map[];
    for i := 0 to |digests|
      invariant Tallied(seen, counts, multiset(digests[..i]))
    {
      var d := digests[i];
      assert digests[..i + 1] == digests[..i] + [d];
      if d in counts {
        counts := counts[d := counts[d] + 1];
      } else {
        DistinctAppend(seen, d);
        seen, counts := seen + [d], counts[d := 1];
      }
    }
    assert digests[..|digests|] == digests;
  }

  /** `sorted(counter.items())`. */
  method SortedCounts(digests: seq<string>) returns (rows: seq<Row>)
    ensures Lists(rows, multiset(digests))
  {
    var seen, counts := CountDigests(digests);
    rows := [];
    for i := 0 to |seen|
      invariant |rows| == i
      invariant forall k :: 0 <= k < i ==> seen[k] in counts && rows[k] == Row(seen[k], counts[seen[k]])
    {
      rows := rows + [Row(seen[i], counts[seen[i]])];
    }
    TalliedRowsCover(seen, counts, rows, multiset(digests));
    SortLists(rows, multiset(digests));
    rows := SortBy(DigestOf, rows);
  }

  lemma TalliedRowsCover(seen: seq<string>, counts: map<string, nat>, rows: seq<Row>, m: multiset<string>)
    requires Tallied(seen, counts, m) && |rows| == |seen|
    requires forall k :: 0 <= k < |seen| ==> seen[k] in counts && rows[k] == Row(seen[k], counts[seen[k]])
    ensures DistinctKeys(DigestOf, rows) && Covers(rows, m)
  {
    forall d: string, n: nat ensures Row(d, n) in rows <==> n == m[d] && n > 0 {
      if n == m[d] && n > 0 {
        assert d in seen;
        var k :| 0 <= k < |seen| && seen[k] == d;
        assert rows[k] == Row(d, n);
      }
    }
  }

  /** Rows of a kept for their smaller count in b: the inner join both overlap queries make. */
  method JoinLeast(rows: seq<Row>, other: map<string, nat>, ghost a: multiset<string>, ghost b: multiset<string>)
    returns (joined: seq<Row>, total: nat)
    requires Lists(rows, a)
    requires forall d :: (if d in other then other[d] else 0) == b[d]
    requires forall d :: d in other ==> other[d] > 0
    ensures Lists(joined, a * b) && total == |a * b|
  {
    joined, total := [], 0;
    for i := 0 to |rows|
      invariant Picked(rows, i, joined, a * b)
      invariant total == Total(joined)
    {
      var row := rows[i];
      assert row in rows && Row(row.digest, row.count) in rows;
      if row.digest in other {
        var least := if row.count < other[row.digest] then row.count else other[row.digest];
        PickedNext(rows, i, joined, a * b, Row(row.digest, least));
        joined, total := joined + [Row(row.digest, least)], total + least;
        assert joined[..|joined| - 1] + [joined[|joined| - 1]] == joined;
      } else {
        PickedSkip(rows, i, joined, a * b);
      }
    }
    PickedAll(rows, joined, a, a * b);
    TotalIsSize(joined, a * b);
  }

  /** Rows of a reduced by their count in b: the outer join behind the side-only queries. */
  method JoinExcess(rows: seq<Row>, other: map<string, nat>, ghost a: multiset<string>, ghost b: multiset<string>)
    returns (joined: seq<Row>, total: nat)
    requires Lists(rows, a)
    requires forall d :: (if d in other then other[d] else 0) == b[d]
    ensures Lists(joined, a - b) && total == |a - b|
  {
    joined, total := [], 0;
    for i := 0 to |rows|
      invariant Picked(rows, i, joined, a - b)
      invariant total == Total(joined)
    {
      var row := rows[i];
      assert row in rows && Row(row.digest, row.count) in rows;
      var taken := if row.digest in other then other[row.digest] else 0;
      if row.count > taken {
        var kept := Row(row.digest, row.count - taken);
        PickedNext(rows, i, joined, a - b, kept);
        joined, total := joined + [kept], total + kept.count;
        assert joined[..|joined| - 1] + [joined[|joined| - 1]] == joined;
      } else {
        PickedSkip(rows, i, joined, a - b);
      }
    }
    PickedAll(rows, joined, a, a - b);
    TotalIsSize(joined, a - b);
  }

  /** joined lists the part of m that the first i rows account for. */
  ghost predicate Picked(rows: seq<Row>, i: nat, joined: seq<Row>, m: multiset<string>) {
    && i <= |rows|
    && StrictlySortedBy(DigestOf, joined)
    && (forall d: string, n: nat :: Row(d, n) in joined <==> n == m[d] && n > 0 && Among(rows, i, d))
  }

  ghost predicate Among(rows: seq<Row>, i: nat, d: string)
    requires i <= |rows|
  {
    exists k :: 0 <= k < i && rows[k].digest == d
  }

  lemma PickedNext(rows: seq<Row>, i: nat, joined: seq<Row>, m: multiset<string>, row: Row)
    requires i < |rows| && StrictlySortedBy(DigestOf, rows) && Picked(rows, i, joined, m)
    requires row.digest == rows[i].digest && row.count == m[row.digest] > 0
    ensures Picked(rows, i + 1, joined + [row], m)
  {
    forall j | 0 <= j < |joined| ensures Less(DigestOf(joined[j]), DigestOf(row)) {
      assert Row(joined[j].digest, joined[j].count) in joined;
      var k :| 0 <= k < i && rows[k].digest == joined[j].digest;
      assert Less(DigestOf(rows[k]), DigestOf(rows[i]));
    }
    forall d: string ensures Among(rows, i + 1, d) <==> Among(rows, i, d) || d == row.digest {}
    forall d: string, n: nat
      ensures Row(d, n) in joined + [row] <==> n == m[d] && n > 0 && Among(rows, i + 1, d)
    {
      assert Row(d, n) in joined + [row] <==> Row(d, n) in joined || Row(d, n) == row;
    }
  }

  lemma PickedSkip(rows: seq<Row>, i: nat, joined: seq<Row>, m: multiset<string>)
    requires i < |rows| && Picked(rows, i, joined, m) && m[rows[i].digest] == 0
    ensures Picked(rows, i + 1, joined, m)
  {
    forall d: string ensures Among(rows, i + 1, d) <==> Among(rows, i, d) || d == rows[i].digest {}
  }

  lemma PickedAll(rows: seq<Row>, joined: seq<Row>, a: multiset<string>, m: multiset<string>)
    requires Lists(rows, a) && Picked(rows, |rows|, joined, m) && m <= a
    ensures Lists(joined, m)
  {
    forall d: string, n: nat ensures Row(d, n) in joined <==> n == m[d] && n > 0 {
      if n == m[d] && n > 0 {
        assert Row(d, a[d]) in rows;
        assert Among(rows, |rows|, d);
      }
    }
  }
}
