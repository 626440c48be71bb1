/** Dotted configuration keys inserted, one by one, into nested dictionaries. */
module ConfigTrees {
  import opened Common
  import opened ConfigFairness
  import opened DottedKeys

  /** What a dictionary holds under a key: a scalar, or another dictionary of the same payload. */
  datatype Slot = Leaf(value: Value) | Child(id: nat)

  /** Every dictionary of a payload, by identity; number 0 is the payload itself. */
  type Store = seq<map<string, Slot>>

  datatype Entry = Entry(key: string, value: Value)

  /** Dictionaries only hold younger dictionaries. */
  predicate Ordered(dicts: Store) {
    forall id: nat, k: string :: id < |dicts| && k in dicts[id] && dicts[id][k].Child? ==>
      id < dicts[id][k].id < |dicts|
  }

  /** The nested mapping that dictionary id stands for. */
  function Tree(dicts: Store, id: nat): Config
    requires Ordered(dicts) && id < |dicts|
    decreases |dicts| - id
  {
    map k | k in dicts[id] :: SlotValue(dicts, id, k)
  }

  function SlotValue(dicts: Store, id: nat, k: string): Value
    requires Ordered(dicts) && id < |dicts| && k in dicts[id]
    decreases |dicts| - id, 0
  {
    match dicts[id][k]
    case Leaf(v) => v
    case Child(child) => Mapping(Tree(dicts, child))
  }

  function Sub(p: Path, k: string): Path { p + [k] }

  /** One dictionary holds exactly the leaves and sub-dictionaries one step below its path. */
  ghost predicate SlotAgrees(dicts: Store, nodes: map<Path, nat>, leaves: map<Path, Value>, p: Path, k: string)
    requires p in nodes && nodes[p] < |dicts|
  {
    && (k in dicts[nodes[p]] <==> Sub(p, k) in nodes || Sub(p, k) in leaves)
    && (Sub(p, k) in nodes ==> dicts[nodes[p]][k] == Child(nodes[Sub(p, k)]))
    && (Sub(p, k) in leaves ==> dicts[nodes[p]][k] == Leaf(leaves[Sub(p, k)]))
  }

  ghost predicate Grounded(nodes: map<Path, nat>, p: Path) {
    p == [] || p[..|p| - 1] in nodes
  }

  /** nodes and leaves are the paths of the dictionaries and of the scalars in the store. */
  ghost predicate Maps(dicts: Store, nodes: map<Path, nat>, leaves: map<Path, Value>) {
    && [] in nodes && nodes[[]] == 0 && [] !in leaves
    && (forall p: Path :: p in nodes ==> nodes[p] < |dicts|)
    && (forall p: Path, q: Path :: p in nodes && q in nodes && nodes[p] == nodes[q] ==> p == q)
    && (forall p: Path, k: string :: p in nodes ==> SlotAgrees(dicts, nodes, leaves, p, k))
    && (forall p: Path {:trigger Grounded(nodes, p)} :: p in nodes || p in leaves ==> Grounded(nodes, p))
    && (forall p: Path :: p in nodes ==> p !in leaves)
  }

  function GrownStore(dicts: Store, at: nat, k: string): Store
    requires at < |dicts|
  {
    dicts[at := dicts[at][k := Child(|dicts|)]] + [map[]]
  }

  /** An absent or null slot becomes a new dictionary. */
  lemma GrowKeepsMaps(dicts: Store, nodes: map<Path, nat>, leaves: map<Path, Value>, p: Path, k: string)
    requires Maps(dicts, nodes, leaves) && p in nodes && Sub(p, k) !in nodes
    ensures Maps(GrownStore(dicts, nodes[p], k), nodes[Sub(p, k) := |dicts|], leaves - {Sub(p, k)})
  {
    var nodes', leaves' := nodes[Sub(p, k) := |dicts|], leaves - {Sub(p, k)};
    assert Sub(p, k)[..|p|] == p;
    forall q: Path | q in nodes' || q in leaves' ensures Grounded(nodes', q) {
      if q != Sub(p, k) { assert Grounded(nodes, q); }
    }
    forall q: Path, j: string | q in nodes'
      ensures nodes'[q] < |dicts| + 1 && SlotAgrees(GrownStore(dicts, nodes[p], k), nodes', leaves', q, j)
    {
      GrowSlot(dicts, nodes, leaves, p, k, q, j);
    }
  }

  lemma GrowSlot(dicts: Store, nodes: map<Path, nat>, leaves: map<Path, Value>, p: Path, k: string, q: Path, j: string)
    requires Maps(dicts, nodes, leaves) && p in nodes && Sub(p, k) !in nodes
    requires q in nodes || q == Sub(p, k)
    ensures nodes[Sub(p, k) := |dicts|][q] < |dicts| + 1
    ensures SlotAgrees(GrownStore(dicts, nodes[p], k), nodes[Sub(p, k) := |dicts|], leaves - {Sub(p, k)}, q, j)
  {
    SubInjective(p, k, q, j);
    if q == Sub(p, k) {
      BelowNothing(dicts, nodes, leaves, q, j);
    } else {
      assert SlotAgrees(dicts, nodes, leaves, q, j);
    }
  }

  lemma SubInjective(p: Path, k: string, q: Path, j: string)
    ensures Sub(p, k) == Sub(q, j) <==> p == q && k == j
    ensures Sub(p, k) != p && Sub(q, j) != q
  {
    if Sub(p, k) == Sub(q, j) {
      assert Sub(p, k)[..|p|] == p && Sub(q, j)[..|q|] == q;
      assert Sub(p, k)[|p|] == k && Sub(q, j)[|q|] == j;
    }
  }

  /** Nothing hangs below a path that is not a dictionary. */
  lemma BelowNothing(dicts: Store, nodes: map<Path, nat>, leaves: map<Path, Value>, q: Path, j: string)
    requires Maps(dicts, nodes, leaves) && q !in nodes
    ensures Sub(q, j) !in nodes && Sub(q, j) !in leaves
  {
    assert Sub(q, j)[..|q|] == q;
    assert !Grounded(nodes, Sub(q, j));
  }

  lemma PutKeepsMaps(dicts: Store, nodes: map<Path, nat>, leaves: map<Path, Value>, p: Path, k: string, v: Value)
    requires Maps(dicts, nodes, leaves) && p in nodes
    requires Sub(p, k) !in nodes && Sub(p, k) !in leaves
    ensures Maps(dicts[nodes[p] := dicts[nodes[p]][k := Leaf(v)]], nodes, leaves[Sub(p, k) := v])
  {
    var put, leaves' := dicts[nodes[p] := dicts[nodes[p]][k := Leaf(v)]], leaves[Sub(p, k) := v];
    assert Sub(p, k)[..|p|] == p;
    forall q: Path, j: string | q in nodes ensures SlotAgrees(put, nodes, leaves', q, j) {
      SubInjective(p, k, q, j);
      assert SlotAgrees(dicts, nodes, leaves, q, j);
    }
  }

  // ---------------------------------------------------------------- reading back

  lemma {:induction false} Above(nodes: map<Path, nat>, leaves: map<Path, Value>, p: Path, n: nat)
    requires forall q: Path {:trigger Grounded(nodes, q)} :: q in nodes || q in leaves ==> Grounded(nodes, q)
    requires (p in nodes || p in leaves) && n < |p|
    ensures p[..n] in nodes
  {
    assert Grounded(nodes, p);
    if n < |p| - 1 {
      Above(nodes, leaves, p[..|p| - 1], n);
      assert p[..|p| - 1][..n] == p[..n];
    }
  }

  /** One step of a lookup. */
  lemma LookupSlot(dicts: Store, id: nat, q: Path)
    requires Ordered(dicts) && id < |dicts| && q != []
    ensures q[0] !in dicts[id] ==> Lookup(Tree(dicts, id), q) == None
    ensures q[0] in dicts[id] && |q| == 1 ==> Lookup(Tree(dicts, id), q) == Some(SlotValue(dicts, id, q[0]))
    ensures q[0] in dicts[id] && |q| > 1 && dicts[id][q[0]].Child? ==>
      Lookup(Tree(dicts, id), q) == Lookup(Tree(dicts, dicts[id][q[0]].id), q[1..])
    ensures q[0] in dicts[id] && |q| > 1 && dicts[id][q[0]].Leaf? && !dicts[id][q[0]].value.Mapping? ==>
      Lookup(Tree(dicts, id), q) == None
  {
  }

  /** What a store holds at a path. */
  ghost function Held(dicts: Store, nodes: map<Path, nat>, leaves: map<Path, Value>, p: Path): Option<Value>
    requires Maps(dicts, nodes, leaves) && Ordered(dicts)
  {
    if p in leaves then Some(leaves[p])
    else if p in nodes then Some(Mapping(Tree(dicts, nodes[p])))
    else None
  }

  /** Nothing is held beyond a path that is not a dictionary. */
  lemma NothingBeyond(nodes: map<Path, nat>, leaves: map<Path, Value>, p: Path, q: Path)
    requires forall r: Path {:trigger Grounded(nodes, r)} :: r in nodes || r in leaves ==> Grounded(nodes, r)
    requires |q| > 1 && Sub(p, q[0]) !in nodes
    ensures p + q !in nodes && p + q !in leaves
  {
    assert (p + q)[..|p| + 1] == Sub(p, q[0]);
    if p + q in leaves || p + q in nodes {
      Above(nodes, leaves, p + q, |p| + 1);
    }
  }

  /** A lookup in the nested mapping finds exactly the leaves and dictionaries of the store. */
  lemma {:induction false} LookupReads(dicts: Store, nodes: map<Path, nat>, leaves: map<Path, Value>, p: Path, q: Path)
    requires Maps(dicts, nodes, leaves) && Ordered(dicts) && p in nodes && q != []
    requires forall r: Path :: r in leaves ==> !leaves[r].Mapping?
    ensures Lookup(Tree(dicts, nodes[p]), q) == Held(dicts, nodes, leaves, p + q)
    decreases |q|
  {
    LookupSlot(dicts, nodes[p], q);
    assert SlotAgrees(dicts, nodes, leaves, p, q[0]);
    if |q| == 1 {
      LastStep(dicts, nodes, leaves, p, q);
    } else if Sub(p, q[0]) in nodes {
      assert Sub(p, q[0]) + q[1..] == p + q;
      LookupReads(dicts, nodes, leaves, Sub(p, q[0]), q[1..]);
    } else {
      NothingBeyond(nodes, leaves, p, q);
    }
  }

  lemma LastStep(dicts: Store, nodes: map<Path, nat>, leaves: map<Path, Value>, p: Path, q: Path)
    requires Maps(dicts, nodes, leaves) && Ordered(dicts) && p in nodes && |q| == 1
    ensures q[0] in dicts[nodes[p]] ==> Some(SlotValue(dicts, nodes[p], q[0])) == Held(dicts, nodes, leaves, p + q)
    ensures q[0] !in dicts[nodes[p]] ==> Held(dicts, nodes, leaves, p + q) == None
  {
    assert p + q == Sub(p, q[0]);
    assert SlotAgrees(dicts, nodes, leaves, p, q[0]);
  }

  // ---------------------------------------------------------------- insertion

  /** A key may be inserted when its segments are valid, nothing is held at it, and every shorter path above it
      that holds a scalar holds null. */
  ghost predicate Insertable(nodes: map<Path, nat>, leaves: map<Path, Value>, p: Path) {
    && ValidPath(p) && p !in nodes && p !in leaves
    && (forall j: nat :: 0 < j < |p| && p[..j] in leaves ==> leaves[p[..j]] == Null)
  }

  /** leaves without what lay on the way to p. */
  ghost predicate Cleared(now: map<Path, Value>, before: map<Path, Value>, p: Path, i: nat)
    requires i <= |p|
  {
    forall q: Path {:trigger q in now} {:trigger q in before} ::
      && (q in now <==> q in before && !OnTheWay(q, p, i))
      && (q in now ==> now[q] == before[q])
  }

  /** q is one of the first i nonempty prefixes of p. */
  ghost predicate OnTheWay(q: Path, p: Path, i: nat)
    requires i <= |p|
  {
    0 < |q| <= i && q == p[..|q|]
  }

  ghost predicate Opened(now: map<Path, nat>, before: map<Path, nat>, p: Path, i: nat)
    requires i <= |p|
  {
    forall q: Path {:trigger q in now} {:trigger q in before} :: q in now <==> q in before || OnTheWay(q, p, i)
  }

  /** Only null was found on the way. */
  ghost predicate FreeWay(before: map<Path, Value>, p: Path, i: nat)
    requires i <= |p|
  {
    forall j: nat :: 0 < j <= i && p[..j] in before ==> before[p[..j]] == Null
  }

  lemma StepOnTheWay(q: Path, p: Path, i: nat)
    requires i < |p|
    ensures OnTheWay(q, p, i + 1) <==> OnTheWay(q, p, i) || q == p[..i + 1]
    ensures !OnTheWay(p[..i + 1], p, i)
  {
  }

  lemma WayExtends(nodes: map<Path, nat>, nodes': map<Path, nat>, first: map<Path, nat>, leaves: map<Path, Value>,
                   leaves': map<Path, Value>, before: map<Path, Value>, p: Path, i: nat)
    requires i < |p| && Opened(nodes, first, p, i) && Cleared(leaves, before, p, i)
    requires nodes'.Keys == nodes.Keys + {p[..i + 1]} && leaves' == leaves - {p[..i + 1]}
    ensures Opened(nodes', first, p, i + 1) && Cleared(leaves', before, p, i + 1)
  {
    forall q: Path ensures q in nodes' <==> q in first || OnTheWay(q, p, i + 1) {
      StepOnTheWay(q, p, i);
      assert q in nodes' <==> q in nodes || q == p[..i + 1];
    }
    forall q: Path ensures q in leaves' <==> q in before && !OnTheWay(q, p, i + 1) {
      StepOnTheWay(q, p, i);
      assert q in leaves' <==> q in leaves && q != p[..i + 1];
    }
  }

  lemma NothingOnTheWay(nodes: map<Path, nat>, leaves: map<Path, Value>, p: Path)
    ensures Opened(nodes, nodes, p, 0) && Cleared(leaves, leaves, p, 0)
  {
  }

  /** What lies at the next prefix is what lay there in the beginning. */
  lemma NextOnTheWay(nodes: map<Path, nat>, first: map<Path, nat>, leaves: map<Path, Value>, before: map<Path, Value>,
                     p: Path, i: nat)
    requires i < |p| && Opened(nodes, first, p, i) && Cleared(leaves, before, p, i)
    ensures p[..i + 1] in leaves <==> p[..i + 1] in before
    ensures p[..i + 1] in leaves ==> leaves[p[..i + 1]] == before[p[..i + 1]]
    ensures p[..i + 1] in nodes <==> p[..i + 1] in first
  {
    StepOnTheWay(p[..i + 1], p, i);
  }

  /** With null only on the way, insertion hangs on the last segment. */
  lemma WholeWay(first: map<Path, nat>, before: map<Path, Value>, p: Path)
    requires p != [] && ValidPath(p) && FreeWay(before, p, |p| - 1)
    ensures Insertable(first, before, p) <==> p !in first && p !in before
  {
  }

  class ConfigTree {
    var dicts: Store
    ghost var nodes: map<Path, nat>
    ghost var leaves: map<Path, Value>

    ghost predicate Valid()
      reads this
    {
      Ordered(dicts) && Maps(dicts, nodes, leaves)
    }

    constructor ()
      ensures Valid() && nodes.Keys == {[]} && leaves == map[]
    {
      dicts, nodes, leaves := [map[]], map[[] := 0], map[];
    }

    /** A new dictionary in an absent or null slot. */
    method Grow(current: nat, ghost p: Path, part: string) returns (child: nat)
      requires Valid() && p in nodes && nodes[p] == current && Sub(p, part) !in nodes
      modifies this
      ensures Valid() && Sub(p, part) in nodes && nodes[Sub(p, part)] == child
      ensures nodes.Keys == old(nodes).Keys + {Sub(p, part)} && leaves == old(leaves) - {Sub(p, part)}
    {
      GrowKeepsMaps(dicts, nodes, leaves, p, part);
      child := |dicts|;
      nodes := nodes[Sub(p, part) := |dicts|];
      leaves := leaves - {Sub(p, part)};
      dicts := GrownStore(dicts, current, part);
    }

    /** One step down: an absent or null slot gives way to a new dictionary, a scalar is in conflict. */
    method Enter(current: nat, ghost p: Path, part: string) returns (next: Option<nat>)
      requires Valid() && p in nodes && nodes[p] == current
      modifies this
      ensures Valid()
      ensures next.None? <==> Sub(p, part) in old(leaves) && old(leaves)[Sub(p, part)] != Null
      ensures next.Some? ==> Sub(p, part) in nodes && nodes[Sub(p, part)] == next.value
      ensures next.Some? ==> nodes.Keys == old(nodes).Keys + {Sub(p, part)} && leaves == old(leaves) - {Sub(p, part)}
    {
      assert SlotAgrees(dicts, nodes, leaves, p, part);
      if part in dicts[current] && dicts[current][part].Child? {
        assert Sub(p, part) in nodes && Sub(p, part) !in leaves;
        return Some(dicts[current][part].id);
      }
      if part in dicts[current] && dicts[current][part] != Leaf(Null) {
        return None;
      }
      var child := Grow(current, p, part);
      next := Some(child);
    }

    /** The last segment: it must be free. */
    method Put(current: nat, ghost p: Path, leaf: string, value: Value) returns (ok: bool)
      requires Valid() && p in nodes && nodes[p] == current
      modifies this
      ensures Valid() && nodes == old(nodes)
      ensures ok <==> Sub(p, leaf) !in old(leaves) && Sub(p, leaf) !in nodes
      ensures leaves == if ok then old(leaves)[Sub(p, leaf) := value] else old(leaves)
    {
      assert SlotAgrees(dicts, nodes, leaves, p, leaf);
      ok := leaf !in dicts[current];
      if ok {
        PutKeepsMaps(dicts, nodes, leaves, p, leaf, value);
        leaves := leaves[Sub(p, leaf) := value];
        dicts := dicts[current := dicts[current][leaf := Leaf(value)]];
      }
    }

    /** Down to the dictionary that is to hold the last segment. */
    method Walk(parts: Path) returns (current: Option<nat>)
      requires Valid() && parts != []
      modifies this
      ensures Valid()
      ensures current.Some? <==> FreeWay(old(leaves), parts, |parts| - 1)
      ensures current.Some? ==> parts[..|parts| - 1] in nodes && nodes[parts[..|parts| - 1]] == current.value
      ensures current.Some? ==> Opened(nodes, old(nodes), parts, |parts| - 1)
      ensures current.Some? ==> Cleared(leaves, old(leaves), parts, |parts| - 1)
    {
      hide Opened, Cleared, OnTheWay;
      var at := 0;
      NothingOnTheWay(nodes, leaves, parts);
      for i := 0 to |parts| - 1
        invariant Valid() && parts[..i] in nodes && nodes[parts[..i]] == at
        invariant Opened(nodes, old(nodes), parts, i) && Cleared(leaves, old(leaves), parts, i)
        invariant FreeWay(old(leaves), parts, i)
      {
        assert Sub(parts[..i], parts[i]) == parts[..i + 1];
        NextOnTheWay(nodes, old(nodes), leaves, old(leaves), parts, i);
        ghost var nodesBefore, leavesBefore := nodes, leaves;
        var next := Enter(at, parts[..i], parts[i]);
        if next.None? {
          return None;
        }
        WayExtends(nodesBefore, nodes, old(nodes), leavesBefore, leaves, old(leaves), parts, i);
        at := next.value;
      }
      current := Some(at);
    }

    method Insert(key: string, value: Value) returns (ok: bool)
      requires Valid()
      modifies this
      ensures Valid()
      ensures ok <==> Insertable(old(nodes), old(leaves), Split(key))
      ensures ok ==> Opened(nodes, old(nodes), Split(key), |Split(key)| - 1)
      ensures ok ==> Split(key) in leaves && leaves[Split(key)] == value
      ensures ok ==> Cleared(leaves - {Split(key)}, old(leaves), Split(key), |Split(key)| - 1)
    {
      hide Opened, Cleared, Maps, Ordered;
      var parts := Split(key);
      if !ValidPath(parts) {
        return false;
      }
      var current := Walk(parts);
      if current.None? {
        return false;
      }
      var last := |parts| - 1;
      assert Sub(parts[..last], parts[last]) == parts == parts[..last + 1];
      NextOnTheWay(nodes, old(nodes), leaves, old(leaves), parts, last);
      WholeWay(old(nodes), old(leaves), parts);
      ghost var leavesBefore := leaves;
      ok := Put(current.value, parts[..last], parts[last], value);
      assert ok ==> leaves - {parts} == leavesBefore;
    }
  }
}
