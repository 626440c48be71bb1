/** The commitment to a record multiset: its canonical bytes and their digest. */
module DatasetIdentity {
  import opened DigestCounts
  import opened Numerals

  /** SHA-256 taken to be injective: a digest is known by the bytes it commits to. */
  datatype Sha256 = Sha256(committed: string)

  datatype Identity = Identity(recordCount: nat, commitment: Sha256)

  // ---------------------------------------------------------------- canonical JSON

  /** The constant text around the two values of an array element. */
  datatype Layout = Layout(opening: string, middle: string, closing: string)

  /** Keys sorted, no spaces: the count comes before the digest. */
  const COMPACT := Layout("{\"count\":", "\"sha256\":\"", "}")

  function Item(form: Layout, row: Row): string {
    form.opening + (Numeral(row.count) + [','] + (form.middle + (row.digest + ['"'] + form.closing)))
  }

  /** Elements joined by commas. */
  function Joined(form: Layout, rows: seq<Row>): string {
    if rows == [] then []
    else if |rows| == 1 then Item(form, rows[0])
    else Joined(form, rows[..|rows| - 1]) + [','] + Item(form, rows[|rows| - 1])
  }

  /** The one-shot serialisation of the whole array. */
  function Canonical(form: Layout, rows: seq<Row>): string {
    ['['] + (Joined(form, rows) + [']'])
  }

  /** Digests as `hexdigest` spells them. */
  predicate Hexadecimal(s: string) {
    forall i :: 0 <= i < |s| ==> IsDigit(s[i]) || 'a' <= s[i] <= 'f'
  }

  ghost predicate HexRows(rows: seq<Row>) {
    forall i :: 0 <= i < |rows| ==> Hexadecimal(rows[i].digest)
  }

  /** Cutting two strings at the first c of each. */
  lemma {:induction false} CutAt(x: string, y: string, c: char, r: string, s: string)
    requires c !in x && c !in y && x + [c] + r == y + [c] + s
    ensures x == y && r == s
  {
    var a, b := x + [c] + r, y + [c] + s;
    assert a[0] == if x == [] then c else x[0];
    assert b[0] == if y == [] then c else y[0];
    if x == [] || y == [] {
      assert a[1..] == r && b[1..] == s;
    } else {
      assert a[1..] == x[1..] + [c] + r && b[1..] == y[1..] + [c] + s;
      CutAt(x[1..], y[1..], c, r, s);
      assert x == [x[0]] + x[1..] && y == [y[0]] + y[1..];
    }
  }

  lemma PrefixCut(p: string, x: string, y: string)
    requires p + x == p + y
    ensures x == y
  {
    assert (p + x)[|p|..] == x && (p + y)[|p|..] == y;
  }

  lemma ItemThenRest(o: string, n: string, m: string, d: string, z: string, r: string)
    ensures (o + (n + [','] + (m + (d + ['"'] + z)))) + r == o + (n + [','] + (m + (d + ['"'] + (z + r))))
  {
    assert (d + ['"'] + z) + r == d + ['"'] + (z + r);
    assert (m + (d + ['"'] + z)) + r == m + (d + ['"'] + (z + r));
    assert (n + [','] + (m + (d + ['"'] + z))) + r == n + [','] + (m + (d + ['"'] + (z + r)));
  }

  /** The first element and what follows it are determined by the text. */
  lemma ItemInjective(form: Layout, a: Row, b: Row, r: string, s: string)
    requires Hexadecimal(a.digest) && Hexadecimal(b.digest)
    requires Item(form, a) + r == Item(form, b) + s
    ensures a == b && r == s
  {
    ItemThenRest(form.opening, Numeral(a.count), form.middle, a.digest, form.closing, r);
    ItemThenRest(form.opening, Numeral(b.count), form.middle, b.digest, form.closing, s);
    var ra, rb := a.digest + ['"'] + (form.closing + r), b.digest + ['"'] + (form.closing + s);
    PrefixCut(form.opening, Numeral(a.count) + [','] + (form.middle + ra),
              Numeral(b.count) + [','] + (form.middle + rb));
    CutAt(Numeral(a.count), Numeral(b.count), ',', form.middle + ra, form.middle + rb);
    NumeralRoundTrip(a.count);
    NumeralRoundTrip(b.count);
    PrefixCut(form.middle, ra, rb);
    CutAt(a.digest, b.digest, '"', form.closing + r, form.closing + s);
    PrefixCut(form.closing, r, s);
  }

  lemma {:induction false} JoinedFromHead(form: Layout, rows: seq<Row>)
    requires |rows| >= 2
    ensures Joined(form, rows) == Item(form, rows[0]) + ([','] + Joined(form, rows[1..]))
  {
    var init, last := rows[..|rows| - 1], Item(form, rows[|rows| - 1]);
    if |rows| == 2 {
      assert init == [rows[0]] && rows[1..] == [rows[1]];
      assert Item(form, rows[0]) + [','] + last == Item(form, rows[0]) + ([','] + last);
    } else {
      JoinedFromHead(form, init);
      assert rows[1..][..|rows| - 2] == init[1..];
      TailMoves(Item(form, rows[0]), Joined(form, init[1..]), last);
    }
  }

  lemma TailMoves(head: string, between: string, last: string)
    ensures (head + ([','] + between)) + [','] + last == head + ([','] + (between + [','] + last))
  {
  }

  /** What the text holds after its first element. */
  function Rest(form: Layout, rows: seq<Row>): string
    requires rows != []
  {
    if |rows| == 1 then [']'] else [','] + (Joined(form, rows[1..]) + [']'])
  }

  lemma SplitHead(form: Layout, rows: seq<Row>)
    requires rows != []
    ensures Joined(form, rows) + [']'] == Item(form, rows[0]) + Rest(form, rows)
  {
    if |rows| >= 2 {
      JoinedFromHead(form, rows);
      HeadStays(Item(form, rows[0]), Joined(form, rows[1..]));
    }
  }

  lemma HeadStays(head: string, tail: string)
    ensures (head + ([','] + tail)) + [']'] == head + ([','] + (tail + [']']))
  {
  }

  lemma NoElementsIsBracket(form: Layout, rows: seq<Row>)
    requires form.opening != [] && form.opening[0] != ']'
    ensures Joined(form, rows) + [']'] == [']'] <==> rows == []
  {
    if rows != [] {
      SplitHead(form, rows);
      assert (Item(form, rows[0]) + Rest(form, rows))[0] == form.opening[0];
    }
  }

  /** Followed by a closing bracket, the joined elements determine the rows. */
  lemma {:induction false} JoinedInjective(form: Layout, a: seq<Row>, b: seq<Row>)
    requires form.opening != [] && form.opening[0] != ']'
    requires HexRows(a) && HexRows(b) && Joined(form, a) + [']'] == Joined(form, b) + [']']
    ensures a == b
    decreases |a|
  {
    hide Item, Hexadecimal;
    NoElementsIsBracket(form, a);
    NoElementsIsBracket(form, b);
    if a != [] && b != [] {
      SplitHead(form, a);
      SplitHead(form, b);
      ItemInjective(form, a[0], b[0], Rest(form, a), Rest(form, b));
      assert Rest(form, a)[0] == Rest(form, b)[0];
      if |a| > 1 && |b| > 1 {
        PrefixCut([','], Joined(form, a[1..]) + [']'], Joined(form, b[1..]) + [']']);
        JoinedInjective(form, a[1..], b[1..]);
      }
      assert a == [a[0]] + a[1..] && b == [b[0]] + b[1..];
    }
  }

  // ---------------------------------------------------------------- identities

  /** What an identity of the multiset m is. */
  ghost predicate Identifies(id: Identity, m: multiset<string>) {
    id.recordCount == |m| && exists rows :: Lists(rows, m) && id.commitment == Sha256(Canonical(COMPACT, rows))
  }

  ghost predicate HexDigests(m: multiset<string>) {
    forall d :: d in m ==> Hexadecimal(d)
  }

  /** The spill hashes an opening bracket, each element behind its comma, and a closing bracket. */
  method StreamedIdentity(rows: seq<Row>, ghost m: multiset<string>) returns (id: Identity)
    requires Lists(rows, m)
    ensures id == Identity(|m|, Sha256(Canonical(COMPACT, rows))) && Identifies(id, m)
  {
    var hashed, first, recordCount := ['['], true, 0;
    for i := 0 to |rows|
      invariant first <==> i == 0
      invariant hashed == ['['] + Joined(COMPACT, rows[..i])
      invariant recordCount == Total(rows[..i])
    {
      assert rows[..i + 1][..i] == rows[..i] && rows[..i + 1][i] == rows[i];
      hashed := HashElement(hashed, first, COMPACT, rows, i);
      first := false;
      recordCount := recordCount + rows[i].count;
    }
    hashed := hashed + [']'];
    assert rows[..|rows|] == rows;
    assert hashed == ['['] + (Joined(COMPACT, rows) + [']']);
    TotalIsSize(rows, m);
    id := Identity(recordCount, Sha256(hashed));
  }

  method HashElement(before: string, first: bool, form: Layout, rows: seq<Row>, i: nat) returns (hashed: string)
    requires i < |rows| && (first <==> i == 0)
    requires before == ['['] + Joined(form, rows[..i])
    ensures hashed == ['['] + Joined(form, rows[..i + 1])
  {
    assert rows[..i + 1][..i] == rows[..i] && rows[..i + 1][i] == rows[i];
    hashed := before;
    if !first {
      hashed := hashed + [','];
    }
    hashed := hashed + Item(form, rows[i]);
  }

  /** The in-memory commitment: count, sort, serialise once. */
  method InMemoryIdentity(hashes: seq<string>) returns (id: Identity)
    ensures Identifies(id, multiset(hashes))
  {
    var rows := SortedCounts(hashes);
    id := Identity(|hashes|, Sha256(Canonical(COMPACT, rows)));
    assert |multiset(hashes)| == |hashes|;
  }

  /** Identities are equal exactly when the record multisets are, whichever way each was computed. */
  lemma IdentityDecides(a: Identity, b: Identity, m: multiset<string>, n: multiset<string>)
    requires Identifies(a, m) && Identifies(b, n) && HexDigests(m) && HexDigests(n)
    ensures a == b <==> m == n
    ensures a.commitment == b.commitment <==> m == n
  {
    var r :| Lists(r, m) && a.commitment == Sha256(Canonical(COMPACT, r));
    var s :| Lists(s, n) && b.commitment == Sha256(Canonical(COMPACT, s));
    if m == n {
      ListingUnique(r, s, m);
    }
    if a.commitment == b.commitment {
      PrefixCut(['['], Joined(COMPACT, r) + [']'], Joined(COMPACT, s) + [']']);
      ListedHex(r, m);
      ListedHex(s, n);
      JoinedInjective(COMPACT, r, s);
      ListingInjective(r, m, n);
    }
  }

  lemma ListedHex(rows: seq<Row>, m: multiset<string>)
    requires Lists(rows, m) && HexDigests(m)
    ensures HexRows(rows)
  {
    forall i | 0 <= i < |rows| ensures Hexadecimal(rows[i].digest) {
      assert Row(rows[i].digest, rows[i].count) in rows;
    }
  }
}
