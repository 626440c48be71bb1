/** A whole list of configuration values inserted into one payload. */
module ConfigPayloads {
  import opened Common
  import opened ConfigFairness
  import opened DottedKeys
  import opened ConfigTrees

  /** A value to be inserted at a path. */
  datatype Item = Item(path: Path, value: Value)

  ghost function Items(entries: seq<Entry>): (items: seq<Item>) {
    seq(|entries|, i requires 0 <= i < |entries| => Item(Split(entries[i].key), entries[i].value))
  }

  /** A later key may not repeat or shorten an earlier one, and may lengthen it only where it holds null. */
  ghost predicate Follows(earlier: Item, later: Item) {
    && later.path != earlier.path && !(later.path < earlier.path)
    && (earlier.path < later.path ==> earlier.value == Null)
  }

  ghost predicate Compatible(items: seq<Item>, n: nat)
    requires n <= |items|
  {
    && (forall i :: 0 <= i < n ==> ValidPath(items[i].path))
    && (forall i, j :: 0 <= i < j < n ==> Follows(items[i], items[j]))
  }

  /** Item i is the last word on its path among the first n: nothing later runs through it. */
  ghost predicate Kept(items: seq<Item>, n: nat, i: nat)
    requires n <= |items|
  {
    i < n && forall j :: i < j < n ==> !(items[i].path < items[j].path)
  }

  ghost predicate Holds(items: seq<Item>, n: nat, p: Path)
    requires n <= |items|
  {
    exists i: nat :: Kept(items, n, i) && items[i].path == p
  }

  ghost predicate RunsThrough(items: seq<Item>, n: nat, p: Path)
    requires n <= |items|
  {
    exists i: nat :: i < n && p < items[i].path
  }

  /** The leaves are the kept items, and the dictionaries lie on the way to some item. */
  ghost predicate Represents(nodes: map<Path, nat>, leaves: map<Path, Value>, items: seq<Item>, n: nat)
    requires n <= |items|
  {
    && (forall p: Path :: p in nodes <==> p == [] || RunsThrough(items, n, p))
    && (forall p: Path :: p in leaves <==> Holds(items, n, p))
    && (forall i: nat :: Kept(items, n, i) ==> items[i].path in leaves && leaves[items[i].path] == items[i].value)
  }

  /** An item that is not kept is run through by a later one. */
  lemma NotKept(items: seq<Item>, n: nat, i: nat)
    requires i < n <= |items| && Compatible(items, n)
    ensures Holds(items, n, items[i].path) <==> Kept(items, n, i)
    ensures !Kept(items, n, i) ==> RunsThrough(items, n, items[i].path) && items[i].value == Null
  {
    if Holds(items, n, items[i].path) {
      var k: nat :| Kept(items, n, k) && items[k].path == items[i].path;
      assert (k < i ==> Follows(items[k], items[i])) && (i < k ==> Follows(items[i], items[k]));
    }
    if !Kept(items, n, i) {
      var j :| i < j < n && items[i].path < items[j].path;
      assert Follows(items[i], items[j]);
    }
  }

  lemma PrefixHoldsNull(leaves: map<Path, Value>, q: Path, p: Path)
    requires forall j: nat :: 0 < j < |p| && p[..j] in leaves ==> leaves[p[..j]] == Null
    requires q != [] && q < p && q in leaves
    ensures leaves[q] == Null
  {
    assert p[..|q|] == q;
  }

  lemma InsertableFollows(nodes: map<Path, nat>, leaves: map<Path, Value>, items: seq<Item>, n: nat, i: nat)
    requires i < n < |items| && Compatible(items, n) && Represents(nodes, leaves, items, n) && items[i].path != []
    requires Insertable(nodes, leaves, items[n].path)
    ensures Follows(items[i], items[n])
  {
    NotKept(items, n, i);
    assert items[n].path < items[i].path ==> RunsThrough(items, n, items[n].path);
    if items[i].path < items[n].path && Kept(items, n, i) {
      PrefixHoldsNull(leaves, items[i].path, items[n].path);
    }
  }

  lemma CompatibleNext(items: seq<Item>, n: nat)
    requires n < |items| && Compatible(items, n) && ValidPath(items[n].path)
    requires forall i :: 0 <= i < n ==> Follows(items[i], items[n])
    ensures Compatible(items, n + 1)
  {
  }

  lemma InsertableMeansCompatible(nodes: map<Path, nat>, leaves: map<Path, Value>, items: seq<Item>, n: nat)
    requires n < |items| && Compatible(items, n) && Represents(nodes, leaves, items, n)
    requires forall i :: 0 <= i <= n ==> items[i].path != []
    requires Insertable(nodes, leaves, items[n].path)
    ensures Compatible(items, n + 1)
  {
    forall i: nat | i < n ensures Follows(items[i], items[n]) {
      InsertableFollows(nodes, leaves, items, n, i);
    }
    CompatibleNext(items, n);
  }

  lemma CompatibleMeansInsertable(nodes: map<Path, nat>, leaves: map<Path, Value>, items: seq<Item>, n: nat)
    requires n < |items| && Represents(nodes, leaves, items, n) && items[n].path != []
    requires Compatible(items, n + 1)
    ensures Insertable(nodes, leaves, items[n].path)
  {
    var p := items[n].path;
    assert forall i: nat :: i < n ==> Follows(items[i], items[n]);
    forall j: nat | 0 < j < |p| && p[..j] in leaves ensures leaves[p[..j]] == Null {
      var i: nat :| Kept(items, n, i) && items[i].path == p[..j];
      assert Follows(items[i], items[n]);
    }
  }

  lemma KeptNext(items: seq<Item>, n: nat, i: nat)
    requires n < |items|
    ensures i < n ==> (Kept(items, n + 1, i) <==> Kept(items, n, i) && !(items[i].path < items[n].path))
    ensures Kept(items, n + 1, n)
  {
  }

  lemma OnTheWayIsPrefix(q: Path, p: Path)
    requires p != []
    ensures OnTheWay(q, p, |p| - 1) <==> q != [] && q < p
  {
    if q < p { assert p[..|q|] == q; }
  }

  /** After inserting item n, the payload represents one item more. */
  lemma RepresentsNext(nodes: map<Path, nat>, nodes': map<Path, nat>, leaves: map<Path, Value>,
                       leaves': map<Path, Value>, items: seq<Item>, n: nat)
    requires n < |items| && Represents(nodes, leaves, items, n) && Compatible(items, n + 1)
    requires forall i :: 0 <= i <= n ==> items[i].path != []
    requires Opened(nodes', nodes, items[n].path, |items[n].path| - 1)
    requires items[n].path in leaves' && leaves'[items[n].path] == items[n].value
    requires Cleared(leaves' - {items[n].path}, leaves, items[n].path, |items[n].path| - 1)
    ensures Represents(nodes', leaves', items, n + 1)
  {
    NodesNext(nodes, nodes', leaves, items, n);
    LeavesNext(nodes, leaves, leaves', items, n);
  }

  lemma NodesNext(nodes: map<Path, nat>, nodes': map<Path, nat>, leaves: map<Path, Value>, items: seq<Item>, n: nat)
    requires n < |items| && Represents(nodes, leaves, items, n) && items[n].path != []
    requires Opened(nodes', nodes, items[n].path, |items[n].path| - 1)
    ensures forall p: Path :: p in nodes' <==> p == [] || RunsThrough(items, n + 1, p)
  {
    forall q: Path ensures q in nodes' <==> q == [] || RunsThrough(items, n + 1, q) {
      OnTheWayIsPrefix(q, items[n].path);
      assert RunsThrough(items, n + 1, q) <==> RunsThrough(items, n, q) || q < items[n].path;
    }
  }

  lemma LeavesNext(nodes: map<Path, nat>, leaves: map<Path, Value>, leaves': map<Path, Value>, items: seq<Item>, n: nat)
    requires n < |items| && Represents(nodes, leaves, items, n) && Compatible(items, n + 1)
    requires forall i :: 0 <= i <= n ==> items[i].path != []
    requires items[n].path in leaves' && leaves'[items[n].path] == items[n].value
    requires Cleared(leaves' - {items[n].path}, leaves, items[n].path, |items[n].path| - 1)
    ensures forall p: Path :: p in leaves' <==> Holds(items, n + 1, p)
    ensures forall i: nat :: Kept(items, n + 1, i) ==>
      items[i].path in leaves' && leaves'[items[i].path] == items[i].value
  {
    var p := items[n].path;
    KeptNext(items, n, n);
    forall i: nat | Kept(items, n + 1, i)
      ensures items[i].path in leaves' && leaves'[items[i].path] == items[i].value
    {
      if i < n {
        KeptNext(items, n, i);
        assert Follows(items[i], items[n]);
        OnTheWayIsPrefix(items[i].path, p);
        assert items[i].path in leaves' - {p};
      }
    }
    forall q: Path | q in leaves' ensures Holds(items, n + 1, q) {
      if q != p {
        assert q in leaves' - {p};
        OnTheWayIsPrefix(q, p);
        var i: nat :| Kept(items, n, i) && items[i].path == q;
        KeptNext(items, n, i);
      }
    }
  }

  lemma ItemsAre(entries: seq<Entry>)
    ensures |Items(entries)| == |entries|
    ensures forall i :: 0 <= i < |entries| ==>
      Items(entries)[i] == Item(Split(entries[i].key), entries[i].value) && Items(entries)[i].path != []
  {
  }

  lemma NothingInserted(nodes: map<Path, nat>, leaves: map<Path, Value>, items: seq<Item>)
    requires nodes.Keys == {[]} && leaves == map[]
    ensures Compatible(items, 0) && Represents(nodes, leaves, items, 0)
  {
  }

  lemma CompatiblePrefix(items: seq<Item>, n: nat)
    requires n <= |items|
    ensures Compatible(items, |items|) ==> Compatible(items, n)
  {
  }

  /** All values inserted in order; not ok where the source raises: no value at all, or one that cannot be inserted. */
  method BuildTree(entries: seq<Entry>) returns (tree: ConfigTree, ok: bool)
    ensures fresh(tree) && tree.Valid()
    ensures ok <==> entries != [] && Compatible(Items(entries), |entries|)
    ensures ok ==> Represents(tree.nodes, tree.leaves, Items(entries), |entries|)
  {
    hide Compatible, Represents, Insertable, Opened, Cleared, Items;
    ghost var items := Items(entries);
    ItemsAre(entries);
    tree := new ConfigTree();
    var found := false;
    NothingInserted(tree.nodes, tree.leaves, items);
    for n := 0 to |entries|
      invariant fresh(tree) && tree.Valid() && (found <==> n > 0)
      invariant Compatible(items, n) && Represents(tree.nodes, tree.leaves, items, n)
    {
      found := true;
      ghost var nodes, leaves := tree.nodes, tree.leaves;
      if Insertable(nodes, leaves, items[n].path) {
        InsertableMeansCompatible(nodes, leaves, items, n);
      } else if Compatible(items, n + 1) {
        CompatibleMeansInsertable(nodes, leaves, items, n);
      }
      CompatiblePrefix(items, n + 1);
      var inserted := tree.Insert(entries[n].key, entries[n].value);
      if !inserted {
        return tree, false;
      }
      RepresentsNext(nodes, tree.nodes, leaves, tree.leaves, items, n);
    }
    ok := found;
  }

  /** The nested mapping holds exactly what the items say: each kept item at its path, a mapping at every path
      that an item runs through, and nothing else. */
  ghost predicate IsPayload(config: Config, items: seq<Item>) {
    forall q: Path :: q != [] ==> HeldRight(Lookup(config, q), items, q)
  }

  ghost predicate HeldRight(found: Option<Value>, items: seq<Item>, q: Path) {
    && (forall i: nat :: Kept(items, |items|, i) && items[i].path == q ==> found == Some(items[i].value))
    && (RunsThrough(items, |items|, q) ==> found.Some? && found.value.Mapping?)
    && (!RunsThrough(items, |items|, q) && !Holds(items, |items|, q) ==> found == None)
  }

  /** The payload, or None where the source raises. */
  method ConfigPayload(entries: seq<Entry>) returns (r: Option<Config>)
    requires forall i :: 0 <= i < |entries| ==> !entries[i].value.Mapping?
    ensures r.Some? <==> entries != [] && Compatible(Items(entries), |entries|)
    ensures r.Some? ==> IsPayload(r.value, Items(entries))
  {
    var tree, ok := BuildTree(entries);
    if !ok {
      return None;
    }
    r := Some(Tree(tree.dicts, 0));
    TreeIsPayload(tree.dicts, tree.nodes, tree.leaves, Items(entries));
  }

  lemma TreeIsPayload(dicts: Store, nodes: map<Path, nat>, leaves: map<Path, Value>, items: seq<Item>)
    requires Ordered(dicts) && Maps(dicts, nodes, leaves) && Represents(nodes, leaves, items, |items|)
    requires forall i :: 0 <= i < |items| ==> !items[i].value.Mapping?
    ensures IsPayload(Tree(dicts, 0), items)
  {
    forall r: Path | r in leaves ensures !leaves[r].Mapping? {
      var i: nat :| Kept(items, |items|, i) && items[i].path == r;
    }
    forall q: Path | q != [] ensures HeldRight(Lookup(Tree(dicts, 0), q), items, q) {
      LookupReads(dicts, nodes, leaves, [], q);
      assert [] + q == q;
    }
  }

  // ---------------------------------------------------------------- keys in any order

  ghost predicate NoNulls(items: seq<Item>) {
    forall i :: 0 <= i < |items| ==> items[i].value != Null
  }

  /** Valid paths, none of which equals or extends another: a condition without order. */
  ghost predicate PrefixFree(items: seq<Item>) {
    && (forall i :: 0 <= i < |items| ==> ValidPath(items[i].path))
    && (forall i, j :: 0 <= i < |items| && 0 <= j < |items| && i != j ==> !(items[i].path <= items[j].path))
  }

  /** Distinct, prefix-free keys with valid segments are accepted, and every value is kept; without nulls nothing else
      is accepted. */
  lemma CompatibleIsPrefixFree(items: seq<Item>)
    ensures PrefixFree(items) ==> Compatible(items, |items|)
    ensures PrefixFree(items) ==> forall i: nat :: i < |items| ==> Kept(items, |items|, i)
    ensures NoNulls(items) && Compatible(items, |items|) ==> PrefixFree(items)
  {
    if NoNulls(items) && Compatible(items, |items|) {
      forall i, j | 0 <= i < |items| && 0 <= j < |items| && i != j ensures !(items[i].path <= items[j].path) {
        assert i < j ==> Follows(items[i], items[j]);
        assert j < i ==> Follows(items[j], items[i]);
      }
    }
    if PrefixFree(items) {
      forall i, j | 0 <= i < j < |items| ensures Follows(items[i], items[j]) {
        assert !(items[i].path <= items[j].path) && !(items[j].path <= items[i].path);
      }
    }
  }

  /** Every value inserted under prefix-free keys, null included, is read back at its split key. */
  lemma ReadsBack(config: Config, items: seq<Item>, i: nat)
    requires IsPayload(config, items) && PrefixFree(items) && i < |items| && items[i].path != []
    ensures Lookup(config, items[i].path) == Some(items[i].value)
  {
    CompatibleIsPrefixFree(items);
    assert Kept(items, |items|, i);
    assert HeldRight(Lookup(config, items[i].path), items, items[i].path);
  }

  /** Two mappings that answer every lookup alike, up to what is inside mappings, are equal. */
  ghost predicate SameAnswer(a: Option<Value>, b: Option<Value>) {
    a == b || (a.Some? && b.Some? && a.value.Mapping? && b.value.Mapping?)
  }

  lemma {:induction false} SameAnswers(a: Config, b: Config)
    requires forall q: Path :: q != [] ==> SameAnswer(Lookup(a, q), Lookup(b, q))
    ensures a == b
    decreases Mapping(a)
  {
    forall k: string ensures (k in a <==> k in b) && (k in a && k in b ==> a[k] == b[k]) {
      assert SameAnswer(Lookup(a, [k]), Lookup(b, [k]));
      if k in a && k in b && a[k].Mapping? && b[k].Mapping? {
        forall q: Path | q != [] ensures SameAnswer(Lookup(a[k].entries, q), Lookup(b[k].entries, q)) {
          assert ([k] + q)[1..] == q;
          assert SameAnswer(Lookup(a, [k] + q), Lookup(b, [k] + q));
        }
        assert a[k] == Mapping(a[k].entries);
        SameAnswers(a[k].entries, b[k].entries);
      }
    }
  }

  /** Under prefix-free keys the order of insertion does not show in the payload. */
  lemma OrderDoesNotMatter(first: Config, second: Config, items: seq<Item>, others: seq<Item>)
    requires PrefixFree(items) && multiset(items) == multiset(others)
    requires IsPayload(first, items) && IsPayload(second, others)
    ensures PrefixFree(others) && first == second
  {
    PermutedPrefixFree(items, others);
    CompatibleIsPrefixFree(items);
    CompatibleIsPrefixFree(others);
    forall q: Path | q != [] ensures SameAnswer(Lookup(first, q), Lookup(second, q)) {
      SameHeld(Lookup(first, q), Lookup(second, q), items, others, q);
    }
    SameAnswers(first, second);
  }

  lemma PermutedPrefixFree(items: seq<Item>, others: seq<Item>)
    requires PrefixFree(items) && multiset(items) == multiset(others)
    ensures PrefixFree(others)
  {
    SameMembers(items, others);
    forall i | 0 <= i < |others| ensures ValidPath(others[i].path) {
      assert others[i] in items;
    }
    forall i, j | 0 <= i < |others| && 0 <= j < |others| && i != j ensures !(others[i].path <= others[j].path) {
      assert others[i] in items && others[j] in items;
      if others[i] == others[j] {
        TwiceInMultiset(others, i, j);
        OnceInMultiset(items, others[i]);
        assert false;
      }
    }
  }

  lemma TwiceInMultiset<T>(s: seq<T>, i: int, j: int)
    requires 0 <= i < |s| && 0 <= j < |s| && i != j && s[i] == s[j]
    ensures multiset(s)[s[i]] >= 2
  {
    var a, b := if i < j then i else j, if i < j then j else i;
    assert s == s[..a] + [s[a]] + s[a + 1..b] + [s[b]] + s[b + 1..];
  }

  lemma OnceInMultiset(items: seq<Item>, item: Item)
    requires PrefixFree(items) && item in items
    ensures multiset(items)[item] == 1
  {
    var i :| 0 <= i < |items| && items[i] == item;
    assert items == items[..i] + [item] + items[i + 1..];
    forall k | 0 <= k < |items| && k != i ensures items[k] != item {
      assert !(items[k].path <= items[i].path);
    }
    assert item !in items[..i] && item !in items[i + 1..];
  }

  lemma HeldInBoth(items: seq<Item>, others: seq<Item>, q: Path)
    requires forall item :: item in items ==> item in others
    requires forall i: nat :: i < |others| ==> Kept(others, |others|, i)
    ensures Holds(items, |items|, q) ==> Holds(others, |others|, q)
    ensures RunsThrough(items, |items|, q) ==> RunsThrough(others, |others|, q)
  {
    if Holds(items, |items|, q) {
      var k: nat :| Kept(items, |items|, k) && items[k].path == q;
      assert items[k] in others;
      var j: nat :| j < |others| && others[j] == items[k];
      assert Kept(others, |others|, j);
    }
    if RunsThrough(items, |items|, q) {
      var k: nat :| k < |items| && q < items[k].path;
      assert items[k] in others;
      var j: nat :| j < |others| && others[j] == items[k];
    }
  }

  lemma SameHeld(a: Option<Value>, b: Option<Value>, items: seq<Item>, others: seq<Item>, q: Path)
    requires multiset(items) == multiset(others)
    requires forall i: nat :: i < |items| ==> Kept(items, |items|, i)
    requires forall i: nat :: i < |others| ==> Kept(others, |others|, i)
    requires HeldRight(a, items, q) && HeldRight(b, others, q)
    ensures SameAnswer(a, b)
  {
    SameMembers(items, others);
    HeldInBoth(items, others, q);
    HeldInBoth(others, items, q);
    if Holds(items, |items|, q) {
      var i: nat :| Kept(items, |items|, i) && items[i].path == q;
      assert items[i] in others;
      var j: nat :| j < |others| && others[j] == items[i];
      assert Kept(others, |others|, j);
    }
  }

  lemma Swapped<T>(s: seq<T>, i: nat, j: nat)
    requires i < j < |s|
    ensures multiset(s[i := s[j]][j := s[i]]) == multiset(s)
  {
    var u := s[i := s[j]];
    assert multiset(u) == multiset(s) - multiset{s[i]} + multiset{s[j]};
    assert u[j] == s[j];
    assert multiset(u[j := s[i]]) == multiset(u) - multiset{s[j]} + multiset{s[i]};
    assert s[i] in multiset(s);
  }

  /** When one key equals or extends another, some order is refused: the one that puts the longer key first. */
  lemma SomeOrderIsRefused(items: seq<Item>, i: nat, j: nat) returns (others: seq<Item>)
    requires i < |items| && j < |items| && i != j && items[i].path <= items[j].path
    ensures multiset(others) == multiset(items) && !Compatible(others, |others|)
  {
    if j < i {
      others := items;
      assert !Follows(others[j], others[i]);
    } else {
      others := items[i := items[j]][j := items[i]];
      Swapped(items, i, j);
      assert !Follows(others[i], others[j]);
    }
  }

  /** A list is accepted in every order, nulls or not, if and only if its keys are prefix-free. */
  lemma EveryOrderIsAccepted(items: seq<Item>)
    ensures (forall others: seq<Item> :: multiset(others) == multiset(items) ==> Compatible(others, |others|))
            <==> PrefixFree(items)
  {
    hide Compatible, PrefixFree;
    if PrefixFree(items) {
      forall others: seq<Item> | multiset(others) == multiset(items) ensures Compatible(others, |others|) {
        PermutedPrefixFree(items, others);
        CompatibleIsPrefixFree(others);
      }
    } else if Compatible(items, |items|) {
      var i, j := ExtendedKey(items);
      var others := SomeOrderIsRefused(items, i, j);
    }
  }

  lemma ExtendedKey(items: seq<Item>) returns (i: nat, j: nat)
    requires Compatible(items, |items|) && !PrefixFree(items)
    ensures i < |items| && j < |items| && i != j && items[i].path <= items[j].path
  {
    hide Follows;
    i, j :| i < |items| && j < |items| && i != j && items[i].path <= items[j].path;
  }

  // ---------------------------------------------------------------- null

  /** A null gives way silently to a longer key that comes later, and only to a later one. */
  lemma NullIsOverwritten(p: Path, q: Path, v: Value)
    requires ValidPath(q) && p != [] && p < q
    ensures Compatible([Item(p, Null), Item(q, v)], 2) && !Holds([Item(p, Null), Item(q, v)], 2, p)
    ensures !Compatible([Item(q, v), Item(p, Null)], 2)
  {
    var later, earlier := [Item(p, Null), Item(q, v)], [Item(q, v), Item(p, Null)];
    assert p == q[..|p|];
    assert later[0].path < later[1].path && p != q;
    assert !Kept(later, 2, 0);
    assert !Follows(earlier[0], earlier[1]);
  }
}
