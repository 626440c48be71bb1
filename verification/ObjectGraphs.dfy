/** Decoded YAML and JSON values as an object graph, and the two walkers that accept or reject it. */
module ObjectGraphs {

  /** A scalar, or a reference to a container by its identity. */
  datatype Value = Scalar | Ref(id: nat)

  datatype Container = Mapping(items: seq<(Value, Value)>) | Sequence(values: seq<Value>)

  type Heap = map<nat, Container>

  const MAX_NESTING_DEPTH: nat := 256

  /** The members in walking order: each key before its item. */
  function Kids(c: Container): (kids: seq<Value>) {
    match c
    case Mapping(items) => seq(2 * |items|, k requires 0 <= k < 2 * |items| =>
      if k % 2 == 0 then items[k / 2].0 else items[k / 2].1)
    case Sequence(values) => values
  }

  ghost predicate Closed(h: Heap) {
    forall id: nat, k: nat :: id in h && k < |Kids(h[id])| ==> Live(h, Kids(h[id])[k])
  }

  predicate Live(h: Heap, v: Value) { v.Ref? ==> v.id in h }

  /** Where a path of member positions leads from v; None when it leaves the graph. */
  ghost function Follow(h: Heap, v: Value, path: seq<nat>): Value
    requires Closed(h) && Live(h, v) && IsPath(h, v, path)
    ensures Live(h, Follow(h, v, path))
    decreases |path|
  {
    if path == [] then v else Follow(h, Kids(h[v.id])[path[0]], path[1..])
  }

  ghost predicate IsPath(h: Heap, v: Value, path: seq<nat>)
    requires Closed(h) && Live(h, v)
    decreases |path|
  {
    path == [] || (v.Ref? && path[0] < |Kids(h[v.id])| && IsPath(h, Kids(h[v.id])[path[0]], path[1..]))
  }

  /** Some path from v ends at container x. */
  ghost predicate Reaches(h: Heap, v: Value, x: nat)
    requires Closed(h) && Live(h, v)
  {
    exists path :: IsPath(h, v, path) && Follow(h, v, path) == Ref(x)
  }

  /** No path from v, itself at depth d, goes deeper than the limit. */
  ghost predicate Shallow(h: Heap, v: Value, d: nat)
    requires Closed(h) && Live(h, v)
  {
    forall path :: IsPath(h, v, path) ==> d + |path| <= MAX_NESTING_DEPTH
  }

  /** Every container has exactly one path from v: what hangs below v is a tree. */
  ghost predicate IsTree(h: Heap, v: Value)
    requires Closed(h) && Live(h, v)
  {
    forall p, q :: IsPath(h, v, p) && IsPath(h, v, q) && Follow(h, v, p) == Follow(h, v, q) && Follow(h, v, p).Ref? ==>
      p == q
  }

  // ---------------------------------------------------------------- one step down

  lemma Descend(h: Heap, v: Value, k: nat, rest: seq<nat>)
    requires Closed(h) && Live(h, v) && v.Ref? && k < |Kids(h[v.id])|
    ensures IsPath(h, v, [k] + rest) <==> IsPath(h, Kids(h[v.id])[k], rest)
    ensures IsPath(h, v, [k] + rest) ==> Follow(h, v, [k] + rest) == Follow(h, Kids(h[v.id])[k], rest)
  {
    assert ([k] + rest)[1..] == rest;
  }

  /** A nonempty path begins with a member, which reaches whatever the path reaches. */
  lemma StepInto(h: Heap, v: Value, path: seq<nat>)
    requires Closed(h) && Live(h, v) && IsPath(h, v, path) && path != []
    ensures v.Ref? && path[0] < |Kids(h[v.id])| && IsPath(h, Kids(h[v.id])[path[0]], path[1..])
    ensures Follow(h, v, path) == Follow(h, Kids(h[v.id])[path[0]], path[1..])
    ensures Follow(h, v, path).Ref? ==> Reaches(h, Kids(h[v.id])[path[0]], Follow(h, v, path).id)
  {
    var kid, rest := Kids(h[v.id])[path[0]], path[1..];
    assert IsPath(h, kid, rest) && Follow(h, kid, rest) == Follow(h, v, path);
  }

  lemma ReachesDown(h: Heap, v: Value, x: nat)
    requires Closed(h) && Live(h, v) && v.Ref?
    ensures Reaches(h, v, x) <==> x == v.id || exists k: nat :: k < |Kids(h[v.id])| && Reaches(h, Kids(h[v.id])[k], x)
  {
    if Reaches(h, v, x) {
      var path :| IsPath(h, v, path) && Follow(h, v, path) == Ref(x);
      if path != [] {
        StepInto(h, v, path);
      }
    }
    if x == v.id {
      assert IsPath(h, v, []) && Follow(h, v, []) == v;
    }
    if k: nat :| k < |Kids(h[v.id])| && Reaches(h, Kids(h[v.id])[k], x) {
      var rest :| IsPath(h, Kids(h[v.id])[k], rest) && Follow(h, Kids(h[v.id])[k], rest) == Ref(x);
      Descend(h, v, k, rest);
    }
  }

  lemma ShallowDown(h: Heap, v: Value, d: nat)
    requires Closed(h) && Live(h, v) && v.Ref?
    ensures Shallow(h, v, d) <==>
      d <= MAX_NESTING_DEPTH && forall k: nat :: k < |Kids(h[v.id])| ==> Shallow(h, Kids(h[v.id])[k], d + 1)
  {
    if Shallow(h, v, d) {
      assert IsPath(h, v, []);
      forall k: nat, rest | k < |Kids(h[v.id])| && IsPath(h, Kids(h[v.id])[k], rest)
        ensures d + 1 + |rest| <= MAX_NESTING_DEPTH
      {
        Descend(h, v, k, rest);
        assert |[k] + rest| == 1 + |rest|;
      }
    }
    if d <= MAX_NESTING_DEPTH && forall k: nat :: k < |Kids(h[v.id])| ==> Shallow(h, Kids(h[v.id])[k], d + 1) {
      forall path | IsPath(h, v, path) ensures d + |path| <= MAX_NESTING_DEPTH {
        if path != [] {
          StepInto(h, v, path);
          assert Shallow(h, Kids(h[v.id])[path[0]], d + 1);
        }
      }
    }
  }

  /** v heads a tree when its members head disjoint trees that do not lead back to v. */
  lemma TreeDown(h: Heap, v: Value)
    requires Closed(h) && Live(h, v) && v.Ref?
    ensures IsTree(h, v) <==> MembersApart(h, v)
  {
    var kids := Kids(h[v.id]);
    if IsTree(h, v) {
      TreeMembersApart(h, v);
    }
    if MembersApart(h, v) {
      forall p, q | IsPath(h, v, p) && IsPath(h, v, q) && Follow(h, v, p) == Follow(h, v, q) && Follow(h, v, p).Ref?
        ensures p == q
      {
        if p != [] { StepInto(h, v, p); }
        if q != [] { StepInto(h, v, q); }
        if p != [] && q != [] {
          assert IsTree(h, kids[p[0]]);
          assert p == [p[0]] + p[1..] && q == [q[0]] + q[1..];
        }
      }
    }
  }

  ghost predicate MembersApart(h: Heap, v: Value)
    requires Closed(h) && Live(h, v) && v.Ref?
  {
    var kids := Kids(h[v.id]);
    && (forall k: nat :: k < |kids| ==> IsTree(h, kids[k]) && !Reaches(h, kids[k], v.id))
    && (forall j: nat, k: nat, x: nat :: j < k < |kids| ==> !(Reaches(h, kids[j], x) && Reaches(h, kids[k], x)))
  }

  lemma TreeMembersApart(h: Heap, v: Value)
    requires Closed(h) && Live(h, v) && v.Ref? && IsTree(h, v)
    ensures MembersApart(h, v)
  {
    var kids := Kids(h[v.id]);
    assert IsPath(h, v, []) && Follow(h, v, []) == v;
    forall k: nat | k < |kids| ensures IsTree(h, kids[k]) && !Reaches(h, kids[k], v.id) {
      forall p, q | IsPath(h, kids[k], p) && IsPath(h, kids[k], q) && Follow(h, kids[k], p) == Follow(h, kids[k], q)
                    && Follow(h, kids[k], p).Ref?
        ensures p == q
      {
        Descend(h, v, k, p);
        Descend(h, v, k, q);
        assert ([k] + p)[1..] == p && ([k] + q)[1..] == q;
      }
      if Reaches(h, kids[k], v.id) {
        var p :| IsPath(h, kids[k], p) && Follow(h, kids[k], p) == Ref(v.id);
        Descend(h, v, k, p);
        assert false;
      }
    }
    forall j: nat, k: nat, x: nat | j < k < |kids| ensures !(Reaches(h, kids[j], x) && Reaches(h, kids[k], x)) {
      if Reaches(h, kids[j], x) && Reaches(h, kids[k], x) {
        var p :| IsPath(h, kids[j], p) && Follow(h, kids[j], p) == Ref(x);
        var q :| IsPath(h, kids[k], q) && Follow(h, kids[k], q) == Ref(x);
        assert ([j] + p)[0] != ([k] + q)[0];
        Descend(h, v, j, p);
        Descend(h, v, k, q);
        assert false;
      }
    }
  }

  // ---------------------------------------------------------------- YAML: trees only

  /** Below v, at depth d, hangs a shallow tree of containers none of which is busy. */
  ghost predicate Good(h: Heap, v: Value, d: nat, busy: set<nat>)
    requires Closed(h) && Live(h, v)
  {
    Shallow(h, v, d) && IsTree(h, v) && Avoids(h, v, busy)
  }

  ghost predicate Avoids(h: Heap, v: Value, busy: set<nat>)
    requires Closed(h) && Live(h, v)
  {
    forall x :: x in busy ==> !Reaches(h, v, x)
  }

  lemma ScalarIsGood(h: Heap, d: nat, busy: set<nat>)
    requires Closed(h)
    ensures Good(h, Scalar, d, busy) <==> d <= MAX_NESTING_DEPTH
    ensures forall x :: !Reaches(h, Scalar, x)
  {
    assert IsPath(h, Scalar, []);
  }

  lemma GoodNeedsDepth(h: Heap, v: Value, d: nat)
    requires Closed(h) && Live(h, v) && Shallow(h, v, d)
    ensures d <= MAX_NESTING_DEPTH
  {
    assert IsPath(h, v, []);
  }

  lemma ReachesItself(h: Heap, id: nat)
    requires Closed(h) && id in h
    ensures Reaches(h, Ref(id), id)
  {
    assert IsPath(h, Ref(id), []) && Follow(h, Ref(id), []) == Ref(id);
  }

  /** The first n members are good, and share nothing. */
  ghost predicate FirstGood(h: Heap, id: nat, n: nat, d: nat, busy: set<nat>)
    requires Closed(h) && id in h && n <= |Kids(h[id])|
  {
    && (forall k: nat :: k < n ==> Good(h, Kids(h[id])[k], d, busy))
    && (forall j: nat, k: nat, x: nat :: j < k < n ==>
      !(Reaches(h, Kids(h[id])[j], x) && Reaches(h, Kids(h[id])[k], x)))
  }

  /** The first n members reach exactly what was added to the completed set. */
  ghost predicate Grown(h: Heap, id: nat, n: nat, before: set<nat>, completed: set<nat>)
    requires Closed(h) && id in h && n <= |Kids(h[id])|
  {
    forall x :: x in completed <==> x in before || ReachedByFirst(h, id, n, x)
  }

  ghost predicate ReachedByFirst(h: Heap, id: nat, n: nat, x: nat)
    requires Closed(h) && id in h && n <= |Kids(h[id])|
  {
    exists k: nat :: k < n && Reaches(h, Kids(h[id])[k], x)
  }

  /** One member more: it must be good and avoid everything its elder siblings reach. */
  lemma OneMoreMember(h: Heap, id: nat, n: nat, d: nat, active: set<nat>, before: set<nat>, completed: set<nat>)
    requires Closed(h) && id in h && n < |Kids(h[id])|
    requires FirstGood(h, id, n, d, active + before) && Grown(h, id, n, before, completed)
    ensures Good(h, Kids(h[id])[n], d, active + completed) <==> FirstGood(h, id, n + 1, d, active + before)
  {
    var kid := Kids(h[id])[n];
    if Good(h, kid, d, active + completed) {
      forall x | x in active + before ensures !Reaches(h, kid, x) {
        assert x in active + completed;
      }
      forall j: nat, x: nat | j < n ensures !(Reaches(h, Kids(h[id])[j], x) && Reaches(h, kid, x)) {
        assert Reaches(h, Kids(h[id])[j], x) ==> ReachedByFirst(h, id, n, x);
      }
    }
    if FirstGood(h, id, n + 1, d, active + before) {
      assert Good(h, kid, d, active + before);
    }
  }

  lemma GrownNext(h: Heap, id: nat, n: nat, before: set<nat>, completed: set<nat>, after: set<nat>)
    requires Closed(h) && id in h && n < |Kids(h[id])| && Grown(h, id, n, before, completed)
    requires forall x :: x in after <==> x in completed || Reaches(h, Kids(h[id])[n], x)
    ensures Grown(h, id, n + 1, before, after)
  {
    forall x ensures x in after <==> x in before || ReachedByFirst(h, id, n + 1, x) {
      assert ReachedByFirst(h, id, n + 1, x) <==> ReachedByFirst(h, id, n, x) || Reaches(h, Kids(h[id])[n], x);
    }
  }

  /** A container is good exactly when all its members are, with itself active. */
  lemma ContainerGood(h: Heap, id: nat, d: nat, active: set<nat>, before: set<nat>)
    requires Closed(h) && id in h && d <= MAX_NESTING_DEPTH && id !in active && id !in before
    ensures Good(h, Ref(id), d, active + before) <==>
            FirstGood(h, id, |Kids(h[id])|, d + 1, active + {id} + before)
  {
    var v, kids := Ref(id), Kids(h[id]);
    ShallowDown(h, v, d);
    TreeDown(h, v);
    forall x ensures Reaches(h, v, x) <==> x == id || ReachedByFirst(h, id, |kids|, x) {
      ReachesDown(h, v, x);
    }
    if Good(h, v, d, active + before) {
      forall k: nat, x | k < |kids| && x in active + {id} + before ensures !Reaches(h, kids[k], x) {
        assert Reaches(h, kids[k], x) ==> ReachedByFirst(h, id, |kids|, x);
      }
    }
    if FirstGood(h, id, |kids|, d + 1, active + {id} + before) {
      forall k: nat | k < |kids| ensures Good(h, kids[k], d + 1, active + {id} + before) && !Reaches(h, kids[k], id) {
        assert id in active + {id} + before;
      }
      forall x | x in active + before ensures !Reaches(h, v, x) {
        assert x in active + {id} + before;
      }
    }
  }

  lemma ContainerGrown(h: Heap, id: nat, before: set<nat>, completed: set<nat>)
    requires Closed(h) && id in h && Grown(h, id, |Kids(h[id])|, before, completed)
    ensures forall x :: x in completed + {id} <==> x in before || Reaches(h, Ref(id), x)
  {
    forall x ensures Reaches(h, Ref(id), x) <==> x == id || ReachedByFirst(h, id, |Kids(h[id])|, x) {
      ReachesDown(h, Ref(id), x);
    }
  }

  class YamlWalk {
    const h: Heap
    var active: set<nat>
    var completed: set<nat>

    constructor (h: Heap)
      ensures this.h == h && active == completed == {}
    {
      this.h, active, completed := h, {}, {};
    }

    /** The recursive walk: containers on the way down are active, finished ones are completed. */
    method Validate(value: Value, depth: nat) returns (ok: bool)
      requires Closed(h) && Live(h, value) && depth <= MAX_NESTING_DEPTH + 1
      modifies this
      ensures active == old(active)
      ensures ok <==> Good(h, value, depth, old(active) + old(completed))
      ensures ok ==> forall x :: x in completed <==> x in old(completed) || Reaches(h, value, x)
      decreases MAX_NESTING_DEPTH + 1 - depth, 0
    {
      if depth > MAX_NESTING_DEPTH {
        if Shallow(h, value, depth) { GoodNeedsDepth(h, value, depth); }
        return false;
      }
      if value.Scalar? {
        ScalarIsGood(h, depth, active + completed);
        return true;
      }
      ReachesItself(h, value.id);
      if value.id in active {
        assert value.id in active + completed;
        return false;
      }
      if value.id in completed {
        assert value.id in active + completed;
        return false;
      }
      ContainerGood(h, value.id, depth, active, completed);
      ghost var before := completed;
      active := active + {value.id};
      ok := ValidateMembers(value.id, depth + 1);
      if ok {
        ContainerGrown(h, value.id, before, completed);
        completed := completed + {value.id};
      }
      active := active - {value.id};
    }

    method ValidateMembers(id: nat, depth: nat) returns (ok: bool)
      requires Closed(h) && id in h && depth <= MAX_NESTING_DEPTH + 1
      modifies this
      ensures active == old(active)
      ensures ok <==> FirstGood(h, id, |Kids(h[id])|, depth, old(active) + old(completed))
      ensures ok ==> Grown(h, id, |Kids(h[id])|, old(completed), completed)
      decreases MAX_NESTING_DEPTH + 1 - depth, 2
    {
      match h[id]
      case Mapping(items) =>
        for i := 0 to |items|
          invariant active == old(active)
          invariant FirstGood(h, id, 2 * i, depth, old(active) + old(completed))
          invariant Grown(h, id, 2 * i, old(completed), completed)
        {
          ok := ValidateMember(id, 2 * i, depth, old(completed));
          if !ok { return; }
          ok := ValidateMember(id, 2 * i + 1, depth, old(completed));
          if !ok { return; }
        }
        return true;
      case Sequence(values) =>
        for i := 0 to |values|
          invariant active == old(active)
          invariant FirstGood(h, id, i, depth, old(active) + old(completed))
          invariant Grown(h, id, i, old(completed), completed)
        {
          ok := ValidateMember(id, i, depth, old(completed));
          if !ok { return; }
        }
        return true;
    }

    /** The walk of member n, after its elder siblings. */
    method ValidateMember(id: nat, n: nat, depth: nat, ghost before: set<nat>) returns (ok: bool)
      requires Closed(h) && id in h && n < |Kids(h[id])| && depth <= MAX_NESTING_DEPTH + 1
      requires FirstGood(h, id, n, depth, active + before) && Grown(h, id, n, before, completed)
      modifies this
      ensures active == old(active)
      ensures ok <==> FirstGood(h, id, n + 1, depth, old(active) + before)
      ensures !ok ==> !FirstGood(h, id, |Kids(h[id])|, depth, old(active) + before)
      ensures ok ==> Grown(h, id, n + 1, before, completed)
      decreases MAX_NESTING_DEPTH + 1 - depth, 1
    {
      ghost var middle := completed;
      OneMoreMember(h, id, n, depth, active, before, completed);
      ok := Validate(Kids(h[id])[n], depth);
      if ok {
        GrownNext(h, id, n, before, middle, completed);
      }
    }
  }

  /** A decoded YAML value is accepted exactly when it is a tree of containers at most 256 levels deep. */
  method ValidateYamlGraph(h: Heap, value: Value) returns (ok: bool)
    requires Closed(h) && Live(h, value)
    ensures ok <==> Shallow(h, value, 0) && IsTree(h, value)
  {
    var walk := new YamlWalk(h);
    ok := walk.Validate(value, 0);
  }

  // ---------------------------------------------------------------- JSON: depth only

  lemma {:induction false} FollowOn(h: Heap, v: Value, p: seq<nat>, q: seq<nat>)
    requires Closed(h) && Live(h, v) && IsPath(h, v, p) && IsPath(h, Follow(h, v, p), q)
    ensures IsPath(h, v, p + q) && Follow(h, v, p + q) == Follow(h, Follow(h, v, p), q)
    decreases |p|
  {
    if p == [] {
      assert p + q == q;
    } else {
      FollowOn(h, Kids(h[v.id])[p[0]], p[1..], q);
      assert (p + q)[1..] == p[1..] + q;
    }
  }

  /** Around a loop there are paths of every length. */
  lemma {:induction false} AroundLoop(h: Heap, v: Value, loop: seq<nat>, m: nat) returns (path: seq<nat>)
    requires Closed(h) && Live(h, v) && IsPath(h, v, loop) && Follow(h, v, loop) == v && loop != []
    ensures IsPath(h, v, path) && Follow(h, v, path) == v && |path| >= m
  {
    path := [];
    if m > 0 {
      path := AroundLoop(h, v, loop, m - 1);
      FollowOn(h, v, path, loop);
      path := path + loop;
    }
  }

  /** A shallow member never leads back to its own container. */
  lemma NoWayBack(h: Heap, id: nat, n: nat, d: nat)
    requires Closed(h) && id in h && n < |Kids(h[id])| && Shallow(h, Kids(h[id])[n], d)
    ensures !Reaches(h, Kids(h[id])[n], id)
  {
    var kid := Kids(h[id])[n];
    if Reaches(h, kid, id) {
      var p :| IsPath(h, kid, p) && Follow(h, kid, p) == Ref(id);
      Descend(h, Ref(id), n, []);
      FollowOn(h, kid, p, [n]);
      var path := AroundLoop(h, kid, p + [n], MAX_NESTING_DEPTH + 1);
    }
  }

  /** Below v nothing is too deep and nothing active comes up again. */
  ghost predicate Passes(h: Heap, v: Value, d: nat, active: set<nat>)
    requires Closed(h) && Live(h, v)
  {
    Shallow(h, v, d) && Avoids(h, v, active)
  }

  ghost predicate FirstPass(h: Heap, id: nat, n: nat, d: nat, active: set<nat>)
    requires Closed(h) && id in h && n <= |Kids(h[id])|
  {
    forall k: nat :: k < n ==> Passes(h, Kids(h[id])[k], d, active)
  }

  lemma ContainerPasses(h: Heap, id: nat, d: nat, active: set<nat>)
    requires Closed(h) && id in h && d <= MAX_NESTING_DEPTH && id !in active
    ensures Passes(h, Ref(id), d, active) <==> FirstPass(h, id, |Kids(h[id])|, d + 1, active + {id})
  {
    var v, kids := Ref(id), Kids(h[id]);
    ShallowDown(h, v, d);
    if Passes(h, v, d, active) {
      forall k: nat | k < |kids| ensures Passes(h, kids[k], d + 1, active + {id}) {
        NoWayBack(h, id, k, d + 1);
        forall x | x in active ensures !Reaches(h, kids[k], x) {
          ReachesDown(h, v, x);
        }
      }
    }
    if FirstPass(h, id, |kids|, d + 1, active + {id}) {
      forall x | x in active ensures !Reaches(h, v, x) {
        assert x in active + {id};
        ReachesDown(h, v, x);
      }
    }
  }

  class JsonWalk {
    const h: Heap
    var active: set<nat>

    constructor (h: Heap)
      ensures this.h == h && active == {}
    {
      this.h, active := h, {};
    }

    /** The walk keeps no memory of finished containers: shared ones are walked again. */
    method Walk(current: Value, depth: nat) returns (ok: bool)
      requires Closed(h) && Live(h, current) && depth <= MAX_NESTING_DEPTH + 1
      modifies this
      ensures active == old(active)
      ensures ok <==> Passes(h, current, depth, active)
      decreases MAX_NESTING_DEPTH + 1 - depth, 0
    {
      if depth > MAX_NESTING_DEPTH {
        if Shallow(h, current, depth) { GoodNeedsDepth(h, current, depth); }
        return false;
      }
      if current.Scalar? {
        ScalarIsGood(h, depth, active);
        return true;
      }
      ReachesItself(h, current.id);
      if current.id in active {
        return false;
      }
      ContainerPasses(h, current.id, depth, active);
      active := active + {current.id};
      ok := WalkMembers(current.id, depth + 1);
      active := active - {current.id};
    }

    method WalkMembers(id: nat, depth: nat) returns (ok: bool)
      requires Closed(h) && id in h && depth <= MAX_NESTING_DEPTH + 1
      modifies this
      ensures active == old(active)
      ensures ok <==> FirstPass(h, id, |Kids(h[id])|, depth, active)
      decreases MAX_NESTING_DEPTH + 1 - depth, 2
    {
      match h[id]
      case Mapping(items) =>
        for i := 0 to |items|
          invariant active == old(active) && FirstPass(h, id, 2 * i, depth, active)
        {
          ok := WalkMember(id, 2 * i, depth);
          if !ok { return; }
          ok := WalkMember(id, 2 * i + 1, depth);
          if !ok { return; }
        }
        return true;
      case Sequence(values) =>
        for i := 0 to |values|
          invariant active == old(active) && FirstPass(h, id, i, depth, active)
        {
          ok := WalkMember(id, i, depth);
          if !ok { return; }
        }
        return true;
    }

    method WalkMember(id: nat, n: nat, depth: nat) returns (ok: bool)
      requires Closed(h) && id in h && n < |Kids(h[id])| && depth <= MAX_NESTING_DEPTH + 1
      requires FirstPass(h, id, n, depth, active)
      modifies this
      ensures active == old(active)
      ensures ok <==> FirstPass(h, id, n + 1, depth, active)
      ensures !ok ==> !FirstPass(h, id, |Kids(h[id])|, depth, active)
      decreases MAX_NESTING_DEPTH + 1 - depth, 1
    {
      ok := Walk(Kids(h[id])[n], depth);
    }
  }

  /** A decoded JSON value is accepted exactly when no path goes deeper than 256 levels; sharing is allowed, and a
      cycle is rejected because it has no deepest path. */
  method ValidateJsonGraph(h: Heap, value: Value) returns (ok: bool)
    requires Closed(h) && Live(h, value)
    ensures ok <==> Shallow(h, value, 0)
  {
    var walk := new JsonWalk(h);
    ok := walk.Walk(value, 0);
  }
}
