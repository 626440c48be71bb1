/** What can be read off two flattened evaluations about the mappings that they come from. */
module FlattenedMappings {
  import opened Common
  import opened ConfigFairness
  import opened DottedKeys
  import opened ConfigPayloads
  import opened EvaluationFlattening

  // ---------------------------------------------------------------- equal mappings

  /** Equal mappings hold equal values at each path. */
  lemma {:induction false} EqualAtPath(e: Config, f: Config, p: Path)
    requires Equal(Mapping(e), Mapping(f)) && p != []
    ensures EqualOrBothMissing(Lookup(e, p), Lookup(f, p))
    ensures IsLeaf(e, p) <==> IsLeaf(f, p)
    decreases |p|
  {
    if p[0] in e {
      assert Equal(e[p[0]], f[p[0]]);
      if |p| > 1 && e[p[0]].Mapping? {
        EqualAtPath(e[p[0]].entries, f[p[0]].entries, p[1..]);
      }
    }
  }

  /** The same leaves with identical values. */
  ghost predicate SameLeaves(e: Config, f: Config) {
    forall p: Path :: LeafAt(e, p) == LeafAt(f, p)
  }

  ghost function LeafAt(e: Config, p: Path): Option<Value> {
    if IsLeaf(e, p) then Lookup(e, p) else None
  }

  /** Some leaf of both holds values that are equal but not identical. */
  ghost predicate SpelledApart(e: Config, f: Config) {
    exists p: Path :: Respelled(LeafAt(e, p), LeafAt(f, p))
  }

  predicate Respelled(v: Option<Value>, w: Option<Value>) {
    v.Some? && w.Some? && Equal(v.value, w.value) && v != w
  }

  /** Equal mappings differ only by the spelling of some leaf. */
  lemma EqualMappings(e: Config, f: Config)
    requires Equal(Mapping(e), Mapping(f))
    ensures e == f <==> SameLeaves(e, f)
    ensures e != f <==> SpelledApart(e, f)
  {
    hide Equal, IsLeaf, Lookup;
    forall p: Path ensures LeafAt(e, p) == LeafAt(f, p) || Respelled(LeafAt(e, p), LeafAt(f, p)) {
      EqualLeaves(e, f, p);
    }
    if SameLeaves(e, f) {
      forall q: Path | q != [] ensures SameAnswer(Lookup(e, q), Lookup(f, q)) {
        EqualAnswers(e, f, q);
      }
      SameAnswers(e, f);
    }
  }

  lemma EqualLeaves(e: Config, f: Config, p: Path)
    requires Equal(Mapping(e), Mapping(f))
    ensures LeafAt(e, p) == LeafAt(f, p) || Respelled(LeafAt(e, p), LeafAt(f, p))
  {
    hide Equal, Lookup;
    if p != [] {
      EqualAtPath(e, f, p);
    }
  }

  lemma EqualAnswers(e: Config, f: Config, p: Path)
    requires Equal(Mapping(e), Mapping(f)) && p != [] && LeafAt(e, p) == LeafAt(f, p)
    ensures SameAnswer(Lookup(e, p), Lookup(f, p))
  {
    hide Lookup;
    EqualAtPath(e, f, p);
  }

  // ---------------------------------------------------------------- mappings without leaves

  /** A scalar or list is a leaf itself; a mapping must hold one at some depth. */
  ghost predicate HasLeaf(v: Value)
    decreases v
  {
    v.Mapping? ==> exists k :: k in v.entries && HasLeaf(v.entries[k])
  }

  /** v without the mappings in it that hold no leaf. */
  ghost function PruneValue(v: Value): Value
    decreases v
  {
    if v.Mapping? then Mapping(map k | k in v.entries && HasLeaf(v.entries[k]) :: PruneValue(v.entries[k])) else v
  }

  ghost function Prune(e: Config): Config {
    map k | k in e && HasLeaf(e[k]) :: PruneValue(e[k])
  }

  ghost function PruneFound(found: Option<Value>): Option<Value> {
    if found.Some? && HasLeaf(found.value) then Some(PruneValue(found.value)) else None
  }

  /** Nothing below a mapping without leaves holds one. */
  lemma {:induction false} NothingInBarren(e: Config, p: Path)
    requires !HasLeaf(Mapping(e)) && p != []
    ensures PruneFound(Lookup(e, p)) == None
    decreases |p|
  {
    if |p| > 1 && p[0] in e && e[p[0]].Mapping? {
      assert e[p[0]] == Mapping(e[p[0]].entries);
      NothingInBarren(e[p[0]].entries, p[1..]);
    }
  }

  lemma {:induction false} PruneLookup(e: Config, p: Path)
    requires p != []
    ensures Lookup(Prune(e), p) == PruneFound(Lookup(e, p))
    decreases |p|
  {
    if |p| > 1 && p[0] in e && e[p[0]].Mapping? {
      var inner := e[p[0]].entries;
      assert e[p[0]] == Mapping(inner) && PruneValue(e[p[0]]) == Mapping(Prune(inner));
      if HasLeaf(e[p[0]]) {
        PruneLookup(inner, p[1..]);
      } else {
        NothingInBarren(inner, p[1..]);
      }
    }
  }

  /** A mapping holds a leaf exactly when some path in it leads to one. */
  lemma {:induction false} LeafBelow(e: Config)
    ensures HasLeaf(Mapping(e)) <==> exists p: Path :: IsLeaf(e, p)
    decreases Mapping(e)
  {
    if HasLeaf(Mapping(e)) {
      var p := SomeLeaf(e);
    }
    if p: Path :| IsLeaf(e, p) {
      if !HasLeaf(Mapping(e)) {
        NothingInBarren(e, p);
        assert false;
      }
    }
  }

  lemma {:induction false} SomeLeaf(e: Config) returns (p: Path)
    requires HasLeaf(Mapping(e))
    ensures IsLeaf(e, p)
    decreases Mapping(e)
  {
    var k :| k in e && HasLeaf(e[k]);
    if e[k].Mapping? {
      assert e[k] == Mapping(e[k].entries);
      var q := SomeLeaf(e[k].entries);
      p := [k] + q;
      assert p[1..] == q;
    } else {
      p := [k];
    }
  }

  /** No mapping inside e is without leaves. */
  ghost predicate LeavesEverywhere(e: Config) {
    forall p: Path :: p != [] && Lookup(e, p).Some? ==> HasLeaf(Lookup(e, p).value)
  }

  lemma {:induction false} PruneKeepsLeaf(v: Value)
    requires HasLeaf(v)
    ensures HasLeaf(PruneValue(v))
    decreases v
  {
    if v.Mapping? {
      var k :| k in v.entries && HasLeaf(v.entries[k]);
      PruneKeepsLeaf(v.entries[k]);
      assert k in PruneValue(v).entries && PruneValue(v).entries[k] == PruneValue(v.entries[k]);
    }
  }

  /** Pruning keeps each leaf and leaves no mapping without one. */
  lemma PruneMeaning(e: Config)
    ensures SameLeaves(e, Prune(e)) && LeavesEverywhere(Prune(e))
  {
    hide Prune, Lookup;
    forall p: Path ensures LeafAt(e, p) == LeafAt(Prune(e), p) {
      if p != [] {
        PruneLookup(e, p);
      }
    }
    forall p: Path | p != [] && Lookup(Prune(e), p).Some? ensures HasLeaf(Lookup(Prune(e), p).value) {
      PruneLookup(e, p);
      PruneKeepsLeaf(Lookup(e, p).value);
    }
  }

  lemma LookupTwice(e: Config, p: Path, q: Path)
    requires p != [] && q != [] && Lookup(e, p).Some? && Lookup(e, p).value.Mapping?
    ensures Lookup(e, p + q) == Lookup(Lookup(e, p).value.entries, q)
    decreases |p|
  {
    if |p| == 1 {
      assert (p + q)[1..] == q;
    } else {
      assert (p + q)[1..] == p[1..] + q;
      LookupTwice(e[p[0]].entries, p[1..], q);
    }
  }

  /** Where one mapping holds a mapping with a leaf, the other one holds a mapping. */
  lemma MappingInBoth(e: Config, f: Config, p: Path)
    requires SameLeaves(e, f) && p != [] && Lookup(e, p).Some? && Lookup(e, p).value.Mapping?
    requires HasLeaf(Lookup(e, p).value)
    ensures Lookup(f, p).Some? && Lookup(f, p).value.Mapping?
  {
    hide Lookup, HasLeaf;
    var inner := Lookup(e, p).value.entries;
    assert Lookup(e, p).value == Mapping(inner);
    var q := SomeLeaf(inner);
    LookupTwice(e, p, q);
    assert LeafAt(e, p + q) == LeafAt(f, p + q);
    LookupThrough(f, p, p + q);
  }

  /** Mappings that hold leaves everywhere are determined by them. */
  lemma LeavesDetermine(e: Config, f: Config)
    requires SameLeaves(e, f) && LeavesEverywhere(e) && LeavesEverywhere(f)
    ensures e == f
  {
    hide Lookup, HasLeaf;
    forall q: Path | q != [] ensures SameAnswer(Lookup(e, q), Lookup(f, q)) {
      assert LeafAt(e, q) == LeafAt(f, q);
      if Lookup(e, q).Some? && Lookup(e, q).value.Mapping? { MappingInBoth(e, f, q); }
      if Lookup(f, q).Some? && Lookup(f, q).value.Mapping? { MappingInBoth(f, e, q); }
    }
    SameAnswers(e, f);
  }

  /** Two mappings have the same leaves exactly when they are equal up to mappings without leaves. */
  lemma SameLeavesMeaning(e: Config, f: Config)
    ensures SameLeaves(e, f) <==> Prune(e) == Prune(f)
    ensures LeavesEverywhere(e) && LeavesEverywhere(f) ==> (SameLeaves(e, f) <==> e == f)
  {
    hide LeavesEverywhere, Prune, LeafAt;
    PruneMeaning(e);
    PruneMeaning(f);
    if SameLeaves(e, f) {
      forall p: Path ensures LeafAt(Prune(e), p) == LeafAt(Prune(f), p) {
        assert LeafAt(e, p) == LeafAt(Prune(e), p) && LeafAt(f, p) == LeafAt(Prune(f), p);
        assert LeafAt(e, p) == LeafAt(f, p);
      }
      LeavesDetermine(Prune(e), Prune(f));
      if LeavesEverywhere(e) && LeavesEverywhere(f) { LeavesDetermine(e, f); }
    }
    if Prune(e) == Prune(f) {
      forall p: Path ensures LeafAt(e, p) == LeafAt(f, p) {
        assert LeafAt(e, p) == LeafAt(Prune(e), p) && LeafAt(f, p) == LeafAt(Prune(f), p);
      }
    }
  }

  // ---------------------------------------------------------------- flattened alike

  /** Each leaf has a partner in the other mapping, with the same joined key and the same value. */
  ghost predicate JoinedIn(e: Config, f: Config) {
    forall p: Path :: IsLeaf(e, p) ==> Partnered(f, Join(p), Lookup(e, p))
  }

  ghost predicate Partnered(f: Config, key: string, v: Option<Value>) {
    exists q: Path :: IsLeaf(f, q) && Join(q) == key && Lookup(f, q) == v
  }

  ghost predicate SameJoined(e: Config, f: Config) { JoinedIn(e, f) && JoinedIn(f, e) }

  ghost predicate DotFreeLeaves(e: Config) { forall p: Path :: IsLeaf(e, p) ==> DotFreePath(p) }

  lemma PartnerIsSame(e: Config, f: Config, p: Path)
    requires DotFreeLeaves(e) && DotFreeLeaves(f) && JoinedIn(e, f) && IsLeaf(e, p)
    ensures IsLeaf(f, p) && Lookup(f, p) == Lookup(e, p)
  {
    hide Lookup;
    assert Partnered(f, Join(p), Lookup(e, p));
    var q: Path :| IsLeaf(f, q) && Join(q) == Join(p) && Lookup(f, q) == Lookup(e, p);
    JoinInjective(p, q);
  }

  /** Without dots inside keys the partner of a leaf is the leaf at the same path. */
  lemma DotFreePartners(e: Config, f: Config)
    requires DotFreeLeaves(e) && DotFreeLeaves(f)
    ensures SameJoined(e, f) <==> SameLeaves(e, f)
  {
    hide Lookup, DotFreeLeaves;
    if SameJoined(e, f) {
      forall p: Path ensures LeafAt(e, p) == LeafAt(f, p) {
        if IsLeaf(e, p) { PartnerIsSame(e, f, p); }
        if IsLeaf(f, p) { PartnerIsSame(f, e, p); }
      }
    }
    if SameLeaves(e, f) {
      forall p: Path | IsLeaf(e, p) ensures Partnered(f, Join(p), Lookup(e, p)) {
        assert LeafAt(e, p) == LeafAt(f, p);
        assert IsLeaf(f, p);
      }
      forall p: Path | IsLeaf(f, p) ensures Partnered(e, Join(p), Lookup(f, p)) {
        assert LeafAt(e, p) == LeafAt(f, p);
        assert IsLeaf(e, p);
      }
    }
  }

  /** A partner in f keeps its value when nothing in f collides. */
  lemma EntryHasPartner(x: map<string, Value>, y: map<string, Value>, e: Config, f: Config, key: string)
    requires Flattens(x, e) && Flattens(y, f) && NoCollision(f) && JoinedIn(e, f) && key in x
    ensures key in y && y[key] == x[key]
  {
    hide Lookup;
    KeepsExactly(y, f);
    assert FromLeaf(x[key], key, e);
    var p: Path :| IsLeaf(e, p) && Join(p) == key && Lookup(e, p) == Some(x[key]);
    assert Partnered(f, key, Lookup(e, p));
  }

  lemma AlikeMeansJoined(x: map<string, Value>, e: Config, f: Config)
    requires Flattens(x, e) && Flattens(x, f) && NoCollision(e)
    ensures JoinedIn(e, f)
  {
    hide Lookup;
    KeepsExactly(x, e);
    forall p: Path | IsLeaf(e, p) ensures Partnered(f, Join(p), Lookup(e, p)) {
      assert FromLeaf(x[Join(p)], Join(p), f);
    }
  }

  /** Mappings without collisions flatten alike exactly when their leaves pair up under their joined keys. */
  lemma AlikeMeaning(x: map<string, Value>, y: map<string, Value>, e: Config, f: Config)
    requires Flattens(x, e) && Flattens(y, f) && NoCollision(e) && NoCollision(f)
    ensures x == y <==> SameJoined(e, f)
  {
    hide Lookup, NoCollision, IsLeaf, FromLeaf, JoinedIn, Flattens;
    if x == y {
      AlikeMeansJoined(x, e, f);
      AlikeMeansJoined(x, f, e);
    }
    if SameJoined(e, f) {
      forall key | key in x ensures key in y && y[key] == x[key] { EntryHasPartner(x, y, e, f, key); }
      forall key | key in y ensures key in x && x[key] == y[key] { EntryHasPartner(y, x, f, e, key); }
    }
  }

  /** Without dots inside keys they flatten alike exactly when they are equal up to mappings without leaves. */
  lemma DotFreeAlike(x: map<string, Value>, y: map<string, Value>, e: Config, f: Config)
    requires Flattens(x, e) && Flattens(y, f) && DotFreeLeaves(e) && DotFreeLeaves(f)
    ensures x == y <==> Prune(e) == Prune(f)
    ensures LeavesEverywhere(e) && LeavesEverywhere(f) ==> (x == y <==> e == f)
  {
    hide Flattens, SameJoined, SameLeaves, Prune, LeavesEverywhere, IsLeaf;
    DotFreeNeverCollides(e);
    DotFreeNeverCollides(f);
    AlikeMeaning(x, y, e, f);
    DotFreePartners(e, f);
    SameLeavesMeaning(e, f);
  }

  // ---------------------------------------------------------------- equal mappings flattened

  /** Two leaves share this joined key and hold different values. */
  ghost predicate Collides(e: Config, key: string) {
    exists p, q: Path :: CollidingLeaves(e, p, q) && Join(p) == key
  }

  ghost predicate CollidingLeaves(e: Config, p: Path, q: Path) {
    IsLeaf(e, p) && IsLeaf(e, q) && Join(p) == Join(q) && Lookup(e, p) != Lookup(e, q)
  }

  /** Equal mappings flatten to the same keys, and where the values are not equal two leaves collide. */
  lemma EqualFlattened(x: map<string, Value>, y: map<string, Value>, e: Config, f: Config, key: string)
    requires Flattens(x, e) && Flattens(y, f) && Equal(Mapping(e), Mapping(f)) && key in x
    ensures key in y && (Equal(x[key], y[key]) || Collides(e, key))
  {
    hide Lookup;
    assert FromLeaf(x[key], key, e);
    var p: Path :| IsLeaf(e, p) && Join(p) == key && Lookup(e, p) == Some(x[key]);
    EqualAtPath(e, f, p);
    assert FromLeaf(y[key], key, f);
    var q: Path :| IsLeaf(f, q) && Join(q) == key && Lookup(f, q) == Some(y[key]);
    EqualAtPath(e, f, q);
    if Lookup(e, p) != Lookup(e, q) {
      assert CollidingLeaves(e, p, q);
    }
  }

  /** Equal mappings without collisions flatten differently exactly when some leaf is spelled differently. */
  lemma EqualFlattenedApart(x: map<string, Value>, y: map<string, Value>, e: Config, f: Config)
    requires Flattens(x, e) && Flattens(y, f) && NoCollision(e) && NoCollision(f) && Equal(Mapping(e), Mapping(f))
    ensures x != y <==> SpelledApart(e, f)
    ensures x != y <==> e != f
  {
    hide Flattens, NoCollision, Equal, SameLeaves, SpelledApart, JoinedIn, Lookup;
    AlikeMeaning(x, y, e, f);
    EqualMappings(e, f);
    if e == f {
      OwnPartners(e);
    }
    if x == y {
      forall p: Path ensures LeafAt(e, p) == LeafAt(f, p) {
        EqualLeafKept(x, e, f, p);
      }
      assert SameLeaves(e, f) by { SameLeavesFrom(e, f); }
    }
  }

  lemma SameLeavesFrom(e: Config, f: Config)
    requires forall p: Path :: LeafAt(e, p) == LeafAt(f, p)
    ensures SameLeaves(e, f)
  {
  }

  lemma OwnPartners(e: Config)
    ensures SameJoined(e, e)
  {
    hide Lookup;
  }

  lemma EqualLeafKept(x: map<string, Value>, e: Config, f: Config, p: Path)
    requires Flattens(x, e) && Flattens(x, f) && NoCollision(e) && NoCollision(f) && Equal(Mapping(e), Mapping(f))
    ensures LeafAt(e, p) == LeafAt(f, p)
  {
    hide Lookup, Equal;
    if p != [] {
      EqualAtPath(e, f, p);
      KeepsExactly(x, e);
      KeepsExactly(x, f);
    }
  }

  // ---------------------------------------------------------------- whichever leaf survives

  ghost predicate LeafKey(e: Config, key: string) { exists p: Path :: IsLeaf(e, p) && Join(p) == key }

  ghost function AValue(e: Config, key: string): (v: Value)
    requires LeafKey(e, key)
    ensures FromLeaf(v, key, e)
  {
    var p: Path :| IsLeaf(e, p) && Join(p) == key;
    Lookup(e, p).value
  }

  lemma SomeFlattening(e: Config) returns (x: map<string, Value>)
    ensures Flattens(x, e)
  {
    hide Lookup;
    var leaves := set p | p in Nodes(e) && IsLeaf(e, p);
    var keys := set p | p in leaves :: Join(p);
    forall key | key in keys ensures LeafKey(e, key) {}
    x := map key | key in keys && LeafKey(e, key) :: AValue(e, key);
    forall p: Path | IsLeaf(e, p) ensures Join(p) in x {
      NodesAreLookups(e, p);
      assert p in leaves;
    }
  }

  /** Any leaf may be the one that survives under its key. */
  lemma MaySurvive(x: map<string, Value>, e: Config, p: Path)
    requires Flattens(x, e) && IsLeaf(e, p) && Lookup(e, p).Some?
    ensures Flattens(x[Join(p) := Lookup(e, p).value], e)
  {
    hide Lookup, IsLeaf;
    assert FromLeaf(Lookup(e, p).value, Join(p), e);
  }

  lemma IsFound(e: Config, p: Path)
    ensures IsLeaf(e, p) ==> Lookup(e, p).Some?
  {
  }

  ghost predicate AlwaysAlike(e: Config, f: Config) {
    forall x, y: map<string, Value> :: Flattens(x, e) && Flattens(y, f) ==> x == y
  }

  lemma CollisionShows(e: Config, f: Config)
    requires AlwaysAlike(e, f) || AlwaysAlike(f, e)
    ensures NoCollision(e)
  {
    hide Lookup, IsLeaf, Flattens;
    var x := SomeFlattening(e);
    var y := SomeFlattening(f);
    forall p, q | IsLeaf(e, p) && IsLeaf(e, q) && Join(p) == Join(q) ensures Lookup(e, p) == Lookup(e, q) {
      IsFound(e, p);
      IsFound(e, q);
      MaySurvive(x, e, p);
      MaySurvive(x, e, q);
      var a, b := x[Join(p) := Lookup(e, p).value], x[Join(p) := Lookup(e, q).value];
      assert a == y && b == y;
      assert a[Join(p)] == b[Join(p)];
    }
  }

  /** Whichever leaves survive, two mappings flatten alike if and only if neither collides and their leaves pair up. */
  lemma AlwaysAlikeMeaning(e: Config, f: Config)
    ensures AlwaysAlike(e, f) <==> NoCollision(e) && NoCollision(f) && SameJoined(e, f)
  {
    hide NoCollision, SameJoined, Flattens;
    if AlwaysAlike(e, f) {
      CollisionShows(e, f);
      CollisionShows(f, e);
      var x := SomeFlattening(e);
    var y := SomeFlattening(f);
      AlikeMeaning(x, y, e, f);
    } else if NoCollision(e) && NoCollision(f) && SameJoined(e, f) {
      var x, y: map<string, Value> :| Flattens(x, e) && Flattens(y, f) && x != y;
      AlikeMeaning(x, y, e, f);
    }
  }

  /** Equal mappings flatten alike whichever leaves survive, if and only if they are identical and nothing collides. */
  lemma EqualAlwaysAlike(e: Config, f: Config)
    requires Equal(Mapping(e), Mapping(f))
    ensures AlwaysAlike(e, f) <==> e == f && NoCollision(e)
  {
    hide NoCollision, SameJoined, Flattens, Equal, SpelledApart;
    AlwaysAlikeMeaning(e, f);
    if AlwaysAlike(e, f) {
      var x := SomeFlattening(e);
      var y := SomeFlattening(f);
      EqualFlattenedApart(x, y, e, f);
    } else if e == f && NoCollision(e) {
      OwnPartners(e);
    }
  }

  ghost predicate SometimesAlike(e: Config, f: Config) {
    exists x: map<string, Value> :: Flattens(x, e) && Flattens(x, f)
  }

  /** Under each joined key of one mapping the other one has a leaf too, and some leaves of both hold the same value. */
  ghost predicate PairUp(e: Config, f: Config) {
    forall key :: LeafKey(e, key) || LeafKey(f, key) ==> ValueInBoth(e, f, key)
  }

  ghost predicate ValueInBoth(e: Config, f: Config, key: string) {
    exists v :: FromLeaf(v, key, e) && FromLeaf(v, key, f)
  }

  ghost function CommonValue(e: Config, f: Config, key: string): (v: Value)
    requires ValueInBoth(e, f, key)
    ensures FromLeaf(v, key, e) && FromLeaf(v, key, f)
  {
    var v :| FromLeaf(v, key, e) && FromLeaf(v, key, f);
    v
  }

  lemma CommonFlattening(e: Config, f: Config) returns (x: map<string, Value>)
    requires PairUp(e, f)
    ensures Flattens(x, e) && Flattens(x, f)
  {
    hide Lookup, IsLeaf, FromLeaf;
    var any := SomeFlattening(e);
    x := map key | key in any && ValueInBoth(e, f, key) :: CommonValue(e, f, key);
    forall p: Path | IsLeaf(e, p) || IsLeaf(f, p) ensures Join(p) in x {
      assert LeafKey(e, Join(p)) || LeafKey(f, Join(p));
      assert ValueInBoth(e, f, Join(p));
      SharedIsKey(any, e, f, Join(p));
    }
  }

  lemma SharedIsKey(x: map<string, Value>, e: Config, f: Config, key: string)
    requires Flattens(x, e) && ValueInBoth(e, f, key)
    ensures key in x
  {
    hide Lookup;
  }

  /** Two mappings may flatten alike, if the right leaves survive, exactly when their leaves pair up so. */
  lemma SometimesAlikeMeaning(e: Config, f: Config)
    ensures SometimesAlike(e, f) <==> PairUp(e, f)
  {
    hide Lookup, IsLeaf, FromLeaf;
    if PairUp(e, f) {
      var x := CommonFlattening(e, f);
    }
    if SometimesAlike(e, f) {
      var x: map<string, Value> :| Flattens(x, e) && Flattens(x, f);
      forall key | LeafKey(e, key) || LeafKey(f, key) ensures ValueInBoth(e, f, key) {
        assert FromLeaf(x[key], key, e) && FromLeaf(x[key], key, f);
      }
    }
  }
}
