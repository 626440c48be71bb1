/** The temporary table of record digests: batched upserts under a disk that may fill up at any moment. */
module DatasetSpills {
  import opened Common
  import opened Ordering
  import opened DigestCounts
  import opened DatasetIdentity

  datatype Experiment = Baseline | Candidate

  datatype Split = Train | Eval

  datatype Role = Role(experiment: Experiment, split: Split)

  datatype Key = Key(role: Role, digest: string)

  type Table = map<Key, nat>

  /** What the disk does to one batch: refuse a write before the commit, or commit and then measure. */
  datatype Disk = WriteFails(afterRows: nat) | Commits(size: nat)

  predicate Takes(disk: Disk, maximumBytes: nat) { disk.Commits? && disk.size <= maximumBytes }

  datatype ScratchFull = ScratchFull

  datatype Overlap = Overlap(trainCount: nat, evalCount: nat, overlapCount: nat, preview: seq<string>, distinct: nat)

  datatype Alignment = Alignment(matching: nat, baselineOnly: nat, candidateOnly: nat,
                                 baselinePreview: seq<Row>, candidatePreview: seq<Row>)

  function Multiplicity(table: Table, role: Role, digest: string): nat {
    if Key(role, digest) in table then table[Key(role, digest)] else 0
  }

  /** The rows of one role are exactly the multiset m. */
  ghost predicate Stores(table: Table, role: Role, m: multiset<string>) {
    forall d: string {:trigger Multiplicity(table, role, d)} :: Multiplicity(table, role, d) == m[d]
  }

  /** INSERT ... ON CONFLICT DO UPDATE, one row. */
  function Upsert(table: Table, role: Role, row: Row): Table {
    table[Key(role, row.digest) := Multiplicity(table, role, row.digest) + row.count]
  }

  ghost function Counted(rows: seq<Row>, d: string): nat {
    if rows == [] then 0
    else Counted(rows[..|rows| - 1], d) + if rows[|rows| - 1].digest == d then rows[|rows| - 1].count else 0
  }

  /** A digest's rows add up to its multiplicity. */
  lemma {:induction false} CountedIsMultiplicity(rows: seq<Row>, m: multiset<string>, d: string)
    requires Lists(rows, m)
    ensures Counted(rows, d) == m[d]
  {
    if rows == [] {
      assert Row(d, m[d]) in rows <==> m[d] > 0;
    } else {
      WithoutLast(rows, m);
      CountedIsMultiplicity(rows[..|rows| - 1], m[rows[|rows| - 1].digest := 0], d);
    }
  }

  /** The table after a batch holds the old rows plus the batch. */
  lemma Landed(before: Table, after: Table, contents: map<Role, multiset<string>>, rows: seq<Row>,
               m: multiset<string>, role: Role)
    requires Lists(rows, m)
    requires forall r: Role :: r in contents && Stores(before, r, contents[r])
    requires forall other: Role, d: string ::
      Multiplicity(after, other, d) == Multiplicity(before, other, d) + if other == role then Counted(rows, d) else 0
    ensures forall r: Role :: Stores(after, r, if r == role then contents[r] + m else contents[r])
  {
    forall r: Role, d: string
      ensures Multiplicity(after, r, d) == (if r == role then contents[r] + m else contents[r])[d]
    {
      CountedIsMultiplicity(rows, m, d);
      assert Stores(before, r, contents[r]);
    }
  }

  lemma AllRolesListed(role: Role)
    ensures role in AllRoles()
  {
    match role {
      case Role(Baseline, Train) =>
      case Role(Baseline, Eval) =>
      case Role(Candidate, Train) =>
      case Role(Candidate, Eval) =>
    }
  }

  /** The sizes of two splits and of what they share, and the head of the sorted shared digests. */
  ghost predicate OverlapIs(fact: Overlap, a: multiset<string>, b: multiset<string>, limit: nat) {
    && fact.trainCount == |a| && fact.evalCount == |b| && fact.overlapCount == |a * b|
    && exists rows: seq<Row> :: Lists(rows, a * b) && fact.distinct == |rows|
         && fact.preview == DigestsOf(First(rows, limit))
  }

  /** The sizes of the common part and of both differences, and the heads of the sorted differences. */
  ghost predicate AlignmentIs(fact: Alignment, a: multiset<string>, b: multiset<string>, limit: nat) {
    && fact.matching == |a * b| && fact.baselineOnly == |a - b| && fact.candidateOnly == |b - a|
    && (exists rows: seq<Row> :: Lists(rows, a - b) && fact.baselinePreview == First(rows, limit))
    && (exists rows: seq<Row> :: Lists(rows, b - a) && fact.candidatePreview == First(rows, limit))
  }

  class DatasetSpill {
    const maximumBytes: nat
    var table: Table
    var exhausted: bool
    var peakBytes: nat
    ghost var contents: map<Role, multiset<string>>

    ghost predicate Valid()
      reads this
    {
      && (forall key :: key in table ==> table[key] > 0)
      && (forall role: Role :: role in contents && Stores(table, role, contents[role]))
    }

    /** The empty table.  Where the disk refuses the schema, or the schema alone is over budget, the source raises: the
        table is exhausted from the start, and nobody gets to use it. */
    constructor (maximumBytes: nat, schema: Disk)
      ensures Valid() && this.maximumBytes == maximumBytes
      ensures !exhausted <==> schema.Commits? && schema.size <= maximumBytes
      ensures forall role: Role :: role in contents && contents[role] == multiset{}
    {
      this.maximumBytes := maximumBytes;
      table := map[];
      exhausted := !Takes(schema, maximumBytes);
      peakBytes := if schema.Commits? then schema.size else 0;
      contents := map role: Role | role in AllRoles() :: multiset{};
      new;
      forall role: Role ensures role in contents { AllRolesListed(role); }
    }

    /** One batch: all of it lands or none of it, and a full disk is never written again.  A batch that was
        committed before the measurement found the disk over budget stays, although it is not reported. */
    method AddBatch(role: Role, digests: seq<string>, disk: Disk) returns (r: Result<nat, ScratchFull>)
      requires Valid()
      modifies this
      ensures Valid()
      ensures digests == [] || old(exhausted) ==>
        contents == old(contents) && exhausted == old(exhausted) && (r.Ok? <==> digests == [])
      ensures r.Ok? ==> r.value == |digests| && exhausted == old(exhausted)
      ensures r.Err? ==> exhausted
      ensures digests != [] && !old(exhausted) ==>
        && (r.Ok? <==> disk.Commits? && disk.size <= maximumBytes)
        && contents == if disk.Commits? then old(contents)[role := old(contents[role]) + multiset(digests)]
                       else old(contents)
      ensures peakBytes == if digests != [] && !old(exhausted) && disk.Commits? && disk.size > old(peakBytes)
                           then disk.size else old(peakBytes)
    {
      if |digests| == 0 {
        return Ok(0);
      }
      if exhausted {
        return Err(ScratchFull);
      }
      var rows := SortedCounts(digests);
      forall row | row in rows ensures row.count > 0 {
        assert Row(row.digest, row.count) in rows;
      }
      if disk.WriteFails? {
        var savepoint := table;
        UpsertAll(role, First(rows, disk.afterRows));
        table := savepoint;
        exhausted := true;
        return Err(ScratchFull);
      }
      Commit(role, rows, multiset(digests));
      peakBytes := if peakBytes < disk.size then disk.size else peakBytes;
      if disk.size > maximumBytes {
        exhausted := true;
        return Err(ScratchFull);
      }
      return Ok(|digests|);
    }

    method Commit(role: Role, rows: seq<Row>, ghost m: multiset<string>)
      requires Valid() && Lists(rows, m)
      requires forall row :: row in rows ==> row.count > 0
      modifies this`table, this`contents
      ensures Valid() && contents == old(contents)[role := old(contents[role]) + m]
    {
      ghost var before := table;
      UpsertAll(role, rows);
      Landed(before, table, contents, rows, m, role);
      contents := contents[role := contents[role] + m];
    }

    method UpsertAll(role: Role, rows: seq<Row>)
      requires forall key :: key in table ==> table[key] > 0
      requires forall row :: row in rows ==> row.count > 0
      modifies this`table
      ensures forall key :: key in table ==> table[key] > 0
      ensures forall other: Role, d: string ::
        Multiplicity(table, other, d) ==
        old(Multiplicity(table, other, d)) + if other == role then Counted(rows, d) else 0
    {
      assert forall d: string :: Counted(rows[..0], d) == 0;
      for i := 0 to |rows|
        invariant forall key :: key in table ==> table[key] > 0
        invariant forall other: Role, d: string ::
          Multiplicity(table, other, d) ==
          old(Multiplicity(table, other, d)) + if other == role then Counted(rows[..i], d) else 0
      {
        assert rows[..i + 1][..i] == rows[..i];
        table := Upsert(table, role, rows[i]);
      }
      assert rows[..|rows|] == rows;
    }

    /** Empty one role, unless the database refuses the statement. */
    method DeleteSplit(role: Role, works: bool) returns (ok: bool)
      requires Valid()
      modifies this`table, this`contents
      ensures Valid() && ok == works
      ensures contents == if ok then old(contents)[role := multiset{}] else old(contents)
    {
      if !works {
        return false;
      }
      ok := true;
      ghost var before := table;
      table := map key | key in table && key.role != role :: table[key];
      contents := contents[role := multiset{}];
      forall r: Role, d: string ensures Multiplicity(table, r, d) == contents[r][d] {
        assert Stores(before, r, old(contents)[r]);
        assert Multiplicity(before, r, d) == old(contents)[r][d];
      }
    }

    /** SELECT digest, multiplicity ... ORDER BY digest. */
    method Select(role: Role) returns (rows: seq<Row>, lookup: map<string, nat>)
      requires Valid()
      ensures Lists(rows, contents[role])
      ensures forall d :: (if d in lookup then lookup[d] else 0) == contents[role][d]
      ensures forall d :: d in lookup ==> lookup[d] > 0
    {
      var remaining := set key | key in table && key.role == role :: key;
      ghost var all := remaining;
      rows, lookup := [], map[];
      while remaining != {}
        invariant remaining <= all
        invariant forall key :: key in all <==> key in table && key.role == role
        invariant DistinctKeys(DigestOf, rows)
        invariant forall d: string, n: nat :: Row(d, n) in rows <==>
          Key(role, d) in all - remaining && n == table[Key(role, d)]
        invariant forall d: string :: d in lookup <==> Key(role, d) in all - remaining
        invariant forall d: string :: d in lookup ==> lookup[d] == table[Key(role, d)]
        decreases |remaining|
      {
        var key :| key in remaining;
        forall i | 0 <= i < |rows| ensures rows[i].digest != key.digest {
          assert Row(rows[i].digest, rows[i].count) in rows;
        }
        rows := rows + [Row(key.digest, table[key])];
        lookup := lookup[key.digest := table[key]];
        remaining := remaining - {key};
      }
      assert Stores(table, role, contents[role]);
      forall d: string ensures contents[role][d] == if Key(role, d) in all then table[Key(role, d)] else 0 {
        assert Multiplicity(table, role, d) == contents[role][d];
      }
      SortLists(rows, contents[role]);
      rows := SortBy(DigestOf, rows);
    }

    /** SUM(multiplicity). */
    method Count(role: Role) returns (n: nat)
      requires Valid()
      ensures n == |contents[role]|
    {
      var rows, _ := Select(role);
      n := 0;
      for i := 0 to |rows|
        invariant n == Total(rows[..i])
      {
        assert rows[..i + 1][..i] == rows[..i];
        n := n + rows[i].count;
      }
      assert rows[..|rows|] == rows;
      TotalIsSize(rows, contents[role]);
    }

    /** Exact overlap of one experiment's two splits as stored; the preview is the head of the digest list. */
    method OverlapFact(experiment: Experiment, limit: nat) returns (fact: Overlap)
      requires Valid()
      ensures OverlapIs(fact, contents[Role(experiment, Train)], contents[Role(experiment, Eval)], limit)
    {
      var train, _ := Select(Role(experiment, Train));
      var _, other := Select(Role(experiment, Eval));
      ghost var a, b := contents[Role(experiment, Train)], contents[Role(experiment, Eval)];
      var joined, total := JoinLeast(train, other, a, b);
      var trainCount := Count(Role(experiment, Train));
      var evalCount := Count(Role(experiment, Eval));
      fact := Overlap(trainCount, evalCount, total, DigestsOf(First(joined, limit)), |joined|);
    }

    method MultisetIdentity(role: Role) returns (id: Identity)
      requires Valid()
      ensures Identifies(id, contents[role])
    {
      var rows, _ := Select(role);
      id := StreamedIdentity(rows, contents[role]);
    }

    method AlignmentFact(limit: nat) returns (fact: Alignment)
      requires Valid()
      ensures AlignmentIs(fact, contents[Role(Baseline, Eval)], contents[Role(Candidate, Eval)], limit)
    {
      ghost var a, b := contents[Role(Baseline, Eval)], contents[Role(Candidate, Eval)];
      var baseline, inBaseline := Select(Role(Baseline, Eval));
      var candidate, inCandidate := Select(Role(Candidate, Eval));
      var _, matching := JoinLeast(baseline, inCandidate, a, b);
      var onlyBaseline, baselineOnly := JoinExcess(baseline, inCandidate, a, b);
      var onlyCandidate, candidateOnly := JoinExcess(candidate, inBaseline, b, a);
      fact := Alignment(matching, baselineOnly, candidateOnly, First(onlyBaseline, limit), First(onlyCandidate, limit));
    }
  }

  function AllRoles(): set<Role> {
    {Role(Baseline, Train), Role(Baseline, Eval), Role(Candidate, Train), Role(Candidate, Eval)}
  }

  /** LIMIT n. */
  function First(rows: seq<Row>, limit: nat): seq<Row> {
    if |rows| <= limit then rows else rows[..limit]
  }

  function DigestsOf(rows: seq<Row>): seq<string> {
    seq(|rows|, i requires 0 <= i < |rows| => rows[i].digest)
  }
}
