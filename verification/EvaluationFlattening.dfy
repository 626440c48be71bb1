/** The evaluation mapping of a configuration flattened to dotted keys by a bounded work-stack walk. */
module EvaluationFlattening {
  import opened Common
  import opened ConfigFairness
  import opened DottedKeys
  import opened ConfigPayloads

  const MAX_NODES: nat := 256
  const MAX_DEPTH: nat := 8
  const MAX_KEY: nat := 256
  const MAX_TEXT: nat := 4096

  /** Finite JSON scalars; text must be bounded and free of control characters, and null is not one. */
  predicate JsonScalar(v: Value) {
    match v
    case Bool(_) => true
    case Num(_) => true
    case Str(s) => 0 < |s| <= MAX_TEXT && forall i :: 0 <= i < |s| ==> s[i] as int >= 32 && s[i] as int != 127
    case _ => false
  }

  /** Text has one to 4096 characters, none of which is a control character; null and lists are no scalars. */
  lemma ScalarMeans(v: Value)
    ensures JsonScalar(v) <==>
      v.Bool? || v.Num? || (v.Str? && v.text != [] && !(|v.text| > 4096) && !HasControl(v.text))
  {
    if v.Str? && HasControl(v.text) {
      var i :| 0 <= i < |v.text| && (v.text[i] < ' ' || v.text[i] == '\U{7F}');
      assert v.text[i] as int < 32 || v.text[i] as int == 127;
    }
  }

  predicate HasControl(s: string) { exists i :: 0 <= i < |s| && (s[i] < ' ' || s[i] == '\U{7F}') }

  /** The paths from v to every value in it, v itself included. */
  ghost function Paths(v: Value): set<Path> {
    {[]} + if v.Mapping? then set k, p | k in v.entries && p in Paths(v.entries[k]) :: [k] + p else {}
  }

  lemma {:induction false} PathsAreLookups(v: Value, p: Path)
    ensures p in Paths(v) <==> p == [] || (v.Mapping? && Lookup(v.entries, p).Some?)
    decreases |p|
  {
    if p != [] && v.Mapping? && p[0] in v.entries {
      PathsAreLookups(v.entries[p[0]], p[1..]);
      assert p == [p[0]] + p[1..];
      if p in Paths(v) {
        var k, q :| k in v.entries && q in Paths(v.entries[k]) && p == [k] + q;
        assert q == p[1..];
      }
    }
  }

  /** Every value below the evaluation mapping, by path. */
  ghost function Nodes(evaluation: Config): set<Path> { Paths(Mapping(evaluation)) - {[]} }

  lemma NodesAreLookups(evaluation: Config, p: Path)
    ensures p in Nodes(evaluation) <==> p != [] && Lookup(evaluation, p).Some?
  {
    PathsAreLookups(Mapping(evaluation), p);
  }

  /** What the walk demands of one value. */
  predicate Fine(evaluation: Config, p: Path) {
    && 0 < |p| <= MAX_DEPTH && p[|p| - 1] != "" && |Join(p)| <= MAX_KEY
    && Lookup(evaluation, p).Some?
    && (Lookup(evaluation, p).value.Mapping? || JsonScalar(Lookup(evaluation, p).value))
  }

  ghost predicate Accepts(evaluation: Config) {
    |Nodes(evaluation)| <= MAX_NODES && forall p :: p in Nodes(evaluation) ==> Fine(evaluation, p)
  }

  ghost predicate IsLeaf(evaluation: Config, p: Path) {
    p != [] && Lookup(evaluation, p).Some? && !Lookup(evaluation, p).value.Mapping?
  }

  /** Every entry is a leaf under its joined key, and every leaf's joined key has an entry. */
  ghost predicate Flattens(flattened: map<string, Value>, evaluation: Config) {
    && (forall key :: key in flattened ==> FromLeaf(flattened[key], key, evaluation))
    && (forall p: Path :: IsLeaf(evaluation, p) ==> Join(p) in flattened)
  }

  ghost predicate FromLeaf(v: Value, key: string, evaluation: Config) {
    exists p :: IsLeaf(evaluation, p) && Join(p) == key && Lookup(evaluation, p) == Some(v)
  }

  // ---------------------------------------------------------------- lookups and keys one segment further

  lemma {:induction false} LookupFurther(m: Config, p: Path, k: string)
    requires p != [] && Lookup(m, p).Some? && Lookup(m, p).value.Mapping?
    ensures Lookup(m, p + [k]) ==
            if k in Lookup(m, p).value.entries then Some(Lookup(m, p).value.entries[k]) else None
    decreases |p|
  {
    assert (p + [k])[0] == p[0] && (p + [k])[1..] == p[1..] + [k];
    if |p| > 1 {
      LookupFurther(m[p[0]].entries, p[1..], k);
    }
  }

  /** What a longer path finds lies inside what its prefix finds. */
  lemma {:induction false} LookupThrough(m: Config, p: Path, q: Path)
    requires p != [] && p < q && Lookup(m, q).Some?
    ensures Lookup(m, p).Some? && Lookup(m, p).value.Mapping? && q[|p|] in Lookup(m, p).value.entries
    decreases |p|
  {
    if |p| > 1 {
      LookupThrough(m[p[0]].entries, p[1..], q[1..]);
    }
  }

  lemma {:induction false} JoinFurther(p: Path, k: string)
    requires p != []
    ensures Join(p + [k]) == Join(p) + ['.'] + k
  {
    if |p| == 1 {
      assert (p + [k])[1..] == [k];
    } else {
      assert (p + [k])[1..] == p[1..] + [k];
      JoinFurther(p[1..], k);
      assert p[0] + ['.'] + (Join(p[1..]) + ['.'] + k) == p[0] + ['.'] + Join(p[1..]) + ['.'] + k;
    }
  }

  // ---------------------------------------------------------------- the work stack

  datatype Frame = Frame(key: string, value: Value, depth: nat)

  /** Frame i stands for path i. */
  ghost predicate FrameAt(evaluation: Config, frame: Frame, p: Path) {
    && p != [] && Lookup(evaluation, p) == Some(frame.value) && frame.key == Join(p) && frame.depth == |p|
    && (|p| > 1 ==> p[|p| - 1] != "")
  }

  ghost predicate Stacked(evaluation: Config, stack: seq<Frame>, paths: seq<Path>) {
    && |stack| == |paths|
    && (forall i :: 0 <= i < |stack| ==> FrameAt(evaluation, stack[i], paths[i]))
    && AllApart(paths)
  }

  ghost predicate AllApart(paths: seq<Path>) {
    forall i, j :: 0 <= i < |paths| && 0 <= j < |paths| && i != j ==> !(paths[i] <= paths[j])
  }

  ghost predicate Ahead(paths: seq<Path>, q: Path) {
    exists i :: 0 <= i < |paths| && paths[i] <= q
  }

  /** Every value is either done or ahead, never both. */
  ghost predicate Progress(evaluation: Config, paths: seq<Path>, done: set<Path>) {
    forall q: Path :: (q in done ==> q in Nodes(evaluation))
      && (q in Nodes(evaluation) ==> (q in done <==> !Ahead(paths, q)))
  }

  /** What has been flattened so far. */
  ghost predicate Collected(evaluation: Config, done: set<Path>, flattened: map<string, Value>) {
    && (forall p: Path :: p in done ==> Fine(evaluation, p))
    && (forall key :: key in flattened ==> FromLeaf(flattened[key], key, evaluation))
    && (forall p: Path :: p in done && IsLeaf(evaluation, p) ==> Join(p) in flattened)
  }

  ghost function Children(p: Path, keys: seq<string>): (paths: seq<Path>) {
    seq(|keys|, i requires 0 <= i < |keys| => p + [keys[i]])
  }

  /** p leads to a mapping with these entries; the empty path leads to the evaluation mapping itself. */
  ghost predicate LeadsTo(evaluation: Config, p: Path, entries: Config) {
    if p == [] then entries == evaluation else Lookup(evaluation, p) == Some(Mapping(entries))
  }

  /** The keys in the order of `items()`, whichever that is. */
  method KeysOf(entries: Config) returns (keys: seq<string>)
    ensures Distinct(keys) && forall k :: k in keys <==> k in entries
  {
    keys := [];
    var remaining := entries.Keys;
    while remaining != {}
      invariant remaining <= entries.Keys && Distinct(keys)
      invariant forall k :: k in keys <==> k in entries && k !in remaining
      decreases |remaining|
    {
      var k :| k in remaining;
      DistinctAppend(keys, k);
      keys, remaining := keys + [k], remaining - {k};
    }
  }

  lemma ChildLeads(evaluation: Config, p: Path, entries: Config, k: string)
    requires LeadsTo(evaluation, p, entries) && k in entries
    ensures Lookup(evaluation, p + [k]) == Some(entries[k])
    ensures Join(p + [k]) == if p == [] then k else Join(p) + ['.'] + k
  {
    if p == [] {
      assert p + [k] == [k];
    } else {
      LookupFurther(evaluation, p, k);
      JoinFurther(p, k);
    }
  }

  /** One frame per member of the mapping at p. */
  method Frames(evaluation: Config, ghost p: Path, entries: Config, keys: seq<string>, prefix: Option<string>,
                depth: nat)
    returns (frames: seq<Frame>)
    requires LeadsTo(evaluation, p, entries) && (forall k :: k in keys ==> k in entries)
    requires depth == |p| && prefix == if p == [] then None else Some(Join(p))
    requires p != [] ==> "" !in keys
    ensures |frames| == |keys|
    ensures forall i :: 0 <= i < |keys| ==> FrameAt(evaluation, frames[i], p + [keys[i]])
  {
    frames := [];
    for i := 0 to |keys|
      invariant |frames| == i
      invariant forall j :: 0 <= j < i ==> FrameAt(evaluation, frames[j], p + [keys[j]])
    {
      assert keys[i] in keys;
      ChildLeads(evaluation, p, entries, keys[i]);
      var key := if prefix.None? then keys[i] else prefix.value + ['.'] + keys[i];
      frames := frames + [Frame(key, entries[keys[i]], depth + 1)];
    }
  }

  ghost predicate Apart(paths: seq<Path>, p: Path) {
    forall i :: 0 <= i < |paths| ==> !(paths[i] <= p) && !(p <= paths[i])
  }

  lemma PrefixesCompare(a: Path, b: Path, q: Path)
    requires a <= q && b <= q
    ensures a <= b || b <= a
  {
    if |a| <= |b| { assert a == q[..|a|] == b[..|a|]; } else { assert b == q[..|b|] == a[..|b|]; }
  }

  lemma PrefixOfPrefix(a: Path, b: Path, q: Path)
    requires a <= b && b <= q
    ensures a <= q
  {
    assert a == b[..|a|] == q[..|a|];
  }

  lemma ApartFromChild(q: Path, p: Path, k: string)
    requires !(q <= p) && !(p <= q)
    ensures !(q <= p + [k]) && !(p + [k] <= q)
  {
    assert p <= p + [k];
    if q <= p + [k] { PrefixesCompare(q, p, p + [k]); }
    if p + [k] <= q { PrefixOfPrefix(p, p + [k], q); }
  }

  lemma SiblingsApart(p: Path, j: string, k: string)
    requires j != k
    ensures !(p + [j] <= p + [k])
  {
    assert (p + [j])[|p|] == j && (p + [k])[|p|] == k;
  }

  lemma ApartMore(restPaths: seq<Path>, p: Path, keys: seq<string>)
    requires AllApart(restPaths) && Apart(restPaths, p) && Distinct(keys)
    ensures AllApart(restPaths + Children(p, keys))
  {
    var paths, n := restPaths + Children(p, keys), |restPaths|;
    forall i, j | 0 <= i < |paths| && 0 <= j < |paths| && i != j ensures !(paths[i] <= paths[j]) {
      if i >= n && j >= n {
        SiblingsApart(p, keys[i - n], keys[j - n]);
      } else if i >= n {
        ApartFromChild(paths[j], p, keys[i - n]);
      } else if j >= n {
        ApartFromChild(paths[i], p, keys[j - n]);
      }
    }
  }

  /** The members' frames may join a stack that is apart from their mapping. */
  lemma StackedMore(evaluation: Config, rest: seq<Frame>, restPaths: seq<Path>, p: Path, keys: seq<string>,
                    frames: seq<Frame>)
    requires Stacked(evaluation, rest, restPaths) && Apart(restPaths, p) && Distinct(keys) && |frames| == |keys|
    requires forall i :: 0 <= i < |keys| ==> FrameAt(evaluation, frames[i], p + [keys[i]])
    ensures Stacked(evaluation, rest + frames, restPaths + Children(p, keys))
  {
    ApartMore(restPaths, p, keys);
    var stack, paths, n := rest + frames, restPaths + Children(p, keys), |rest|;
    forall i | 0 <= i < |stack| ensures FrameAt(evaluation, stack[i], paths[i]) {
      if i >= n { assert FrameAt(evaluation, frames[i - n], p + [keys[i - n]]); }
    }
  }

  lemma StackedRest(evaluation: Config, stack: seq<Frame>, paths: seq<Path>)
    requires Stacked(evaluation, stack, paths) && stack != []
    ensures Stacked(evaluation, stack[..|stack| - 1], paths[..|paths| - 1])
    ensures Apart(paths[..|paths| - 1], paths[|paths| - 1])
      && FrameAt(evaluation, stack[|stack| - 1], paths[|paths| - 1])
  {
  }

  // ---------------------------------------------------------------- what remains to be done

  /** Below a mapping lie exactly its members and what is below them. */
  lemma AheadOfMembers(evaluation: Config, p: Path, entries: Config, keys: seq<string>, q: Path)
    requires LeadsTo(evaluation, p, entries) && (forall k :: k in keys <==> k in entries)
    requires q in Nodes(evaluation)
    ensures Ahead(Children(p, keys), q) <==> p < q
  {
    NodesAreLookups(evaluation, q);
    if p < q {
      if p != [] { LookupThrough(evaluation, p, q); }
      assert q[|p|] in entries;
      var i :| 0 <= i < |keys| && keys[i] == q[|p|];
      assert Children(p, keys)[i] == q[..|p| + 1];
    }
    if Ahead(Children(p, keys), q) {
      var i :| 0 <= i < |Children(p, keys)| && Children(p, keys)[i] <= q;
      assert q[..|p|] == (p + [keys[i]])[..|p|] == p;
    }
  }

  lemma AheadJoins(a: seq<Path>, b: seq<Path>, q: Path)
    ensures Ahead(a + b, q) <==> Ahead(a, q) || Ahead(b, q)
  {
    if Ahead(a, q) {
      var i :| 0 <= i < |a| && a[i] <= q;
      assert (a + b)[i] <= q;
    }
    if Ahead(b, q) {
      var i :| 0 <= i < |b| && b[i] <= q;
      assert (a + b)[|a| + i] <= q;
    }
  }

  /** Handling the top of the stack moves its path from ahead to done, and its members to ahead. */
  lemma ProgressNext(evaluation: Config, paths: seq<Path>, done: set<Path>, p: Path, below: seq<Path>)
    requires paths != [] && paths[|paths| - 1] == p && Progress(evaluation, paths, done) && p in Nodes(evaluation)
    requires Apart(paths[..|paths| - 1], p)
    requires forall q :: q in Nodes(evaluation) ==> (Ahead(below, q) <==> p < q)
    ensures Progress(evaluation, paths[..|paths| - 1] + below, done + {p}) && p !in done
  {
    var rest := paths[..|paths| - 1];
    assert rest + [p] == paths;
    forall q: Path ensures Ahead(paths, q) <==> Ahead(rest, q) || p <= q {
      AheadJoins(rest, [p], q);
      assert [p][0] == p;
    }
    forall q: Path ensures Ahead(rest + below, q) <==> Ahead(rest, q) || Ahead(below, q) {
      AheadJoins(rest, below, q);
    }
    assert p <= p && !Ahead(rest, p);
    forall q: Path | q in Nodes(evaluation) ensures q in done + {p} <==> !Ahead(rest + below, q) {
      assert p <= q <==> p < q || p == q;
    }
  }

  lemma DoneIsBounded(evaluation: Config, paths: seq<Path>, done: set<Path>)
    requires Progress(evaluation, paths, done)
    ensures |done| <= |Nodes(evaluation)|
    ensures paths == [] ==> done == Nodes(evaluation)
  {
    SubsetSize(done, Nodes(evaluation));
    if paths == [] {
      assert forall q: Path :: !Ahead(paths, q);
    }
  }

  /** A leaf that passed the checks is entered under its joined key, over whatever was there. */
  lemma CollectLeaf(evaluation: Config, done: set<Path>, flattened: map<string, Value>, p: Path, v: Value)
    requires Collected(evaluation, done, flattened) && IsLeaf(evaluation, p) && Lookup(evaluation, p) == Some(v)
    requires Fine(evaluation, p)
    ensures Collected(evaluation, done + {p}, flattened[Join(p) := v])
  {
    assert FromLeaf(v, Join(p), evaluation);
  }

  lemma CollectMapping(evaluation: Config, done: set<Path>, flattened: map<string, Value>, p: Path)
    requires Collected(evaluation, done, flattened) && !IsLeaf(evaluation, p) && Fine(evaluation, p)
    ensures Collected(evaluation, done + {p}, flattened)
  {
  }

  /** One value too many. */
  lemma TooManyNodes(evaluation: Config, paths: seq<Path>, done: set<Path>, p: Path)
    requires Progress(evaluation, paths, done) && p in Nodes(evaluation) && p !in done && |done| >= MAX_NODES
    ensures !Accepts(evaluation)
  {
    SubsetSize(done + {p}, Nodes(evaluation));
  }

  /** The checks on a popped frame. */
  predicate FrameFine(frame: Frame) {
    && frame.depth <= MAX_DEPTH && frame.key != "" && |frame.key| <= MAX_KEY
    && (frame.value.Mapping? || JsonScalar(frame.value))
  }

  lemma FrameFineIsFine(evaluation: Config, frame: Frame, p: Path)
    requires FrameAt(evaluation, frame, p)
    ensures FrameFine(frame) <==> Fine(evaluation, p)
    ensures p in Nodes(evaluation)
  {
    NodesAreLookups(evaluation, p);
    assert |p| > 1 ==> |Join(p)| > 0;
  }

  lemma EmptyKeyIsNotFine(evaluation: Config, p: Path, entries: Config)
    requires p != [] && Lookup(evaluation, p) == Some(Mapping(entries)) && "" in entries
    ensures !Accepts(evaluation)
  {
    LookupFurther(evaluation, p, "");
    NodesAreLookups(evaluation, p + [""]);
    assert !Fine(evaluation, p + [""]);
  }

  lemma Begins(evaluation: Config, keys: seq<string>)
    requires forall k :: k in keys <==> k in evaluation
    ensures Progress(evaluation, Children([], keys), {})
  {
    forall q: Path | q in Nodes(evaluation) ensures Ahead(Children([], keys), q) {
      NodesAreLookups(evaluation, q);
      AheadOfMembers(evaluation, [], evaluation, keys, q);
    }
  }

  lemma LeafNext(evaluation: Config, paths: seq<Path>, done: set<Path>, p: Path)
    requires paths != [] && paths[|paths| - 1] == p && Progress(evaluation, paths, done) && IsLeaf(evaluation, p)
    requires Apart(paths[..|paths| - 1], p)
    ensures Progress(evaluation, paths[..|paths| - 1], done + {p})
  {
    NodesAreLookups(evaluation, p);
    forall q: Path | q in Nodes(evaluation) ensures Ahead([], q) <==> p < q {
      NodesAreLookups(evaluation, q);
      if p < q { LookupThrough(evaluation, p, q); }
    }
    ProgressNext(evaluation, paths, done, p, []);
    assert paths[..|paths| - 1] + [] == paths[..|paths| - 1];
  }

  lemma MappingNext(evaluation: Config, paths: seq<Path>, done: set<Path>, p: Path, entries: Config, keys: seq<string>)
    requires paths != [] && paths[|paths| - 1] == p && p != [] && Progress(evaluation, paths, done)
    requires Lookup(evaluation, p) == Some(Mapping(entries)) && forall k :: k in keys <==> k in entries
    requires Apart(paths[..|paths| - 1], p)
    ensures Progress(evaluation, paths[..|paths| - 1] + Children(p, keys), done + {p})
  {
    NodesAreLookups(evaluation, p);
    forall q: Path | q in Nodes(evaluation) ensures Ahead(Children(p, keys), q) <==> p < q {
      AheadOfMembers(evaluation, p, entries, keys, q);
    }
    ProgressNext(evaluation, paths, done, p, Children(p, keys));
  }

  lemma NotDone(evaluation: Config, paths: seq<Path>, done: set<Path>, p: Path)
    requires paths != [] && paths[|paths| - 1] == p && Progress(evaluation, paths, done) && p in Nodes(evaluation)
    ensures p !in done
  {
    assert p <= p;
  }

  method Roots(evaluation: Config) returns (stack: seq<Frame>, ghost paths: seq<Path>)
    ensures Stacked(evaluation, stack, paths) && Progress(evaluation, paths, {})
  {
    var keys := KeysOf(evaluation);
    stack := Frames(evaluation, [], evaluation, keys, None, 0);
    StackedMore(evaluation, [], [], [], keys, stack);
    paths := Children([], keys);
    assert [] + stack == stack && [] + paths == paths;
    Begins(evaluation, keys);
  }

  /** The members of a popped mapping go on the stack, unless one has an empty key. */
  method Expand(evaluation: Config, rest: seq<Frame>, ghost paths: seq<Path>, frame: Frame, ghost done: set<Path>)
    returns (ok: bool, stack: seq<Frame>, ghost after: seq<Path>)
    requires paths != [] && |rest| == |paths| - 1 && frame.value.Mapping?
    requires Stacked(evaluation, rest + [frame], paths) && Progress(evaluation, paths, done)
    ensures !ok ==> !Accepts(evaluation)
    ensures ok ==> Stacked(evaluation, stack, after) && Progress(evaluation, after, done + {paths[|paths| - 1]})
  {
    ghost var p, restPaths := paths[|paths| - 1], paths[..|paths| - 1];
    StackedRest(evaluation, rest + [frame], paths);
    assert (rest + [frame])[..|rest|] == rest;
    var keys := KeysOf(frame.value.entries);
    if "" in keys {
      EmptyKeyIsNotFine(evaluation, p, frame.value.entries);
      return false, rest, restPaths;
    }
    var members := Frames(evaluation, p, frame.value.entries, keys, Some(frame.key), frame.depth);
    StackedMore(evaluation, rest, restPaths, p, keys, members);
    MappingNext(evaluation, paths, done, p, frame.value.entries, keys);
    ok, stack, after := true, rest + members, restPaths + Children(p, keys);
  }

  /** The stack, the paths its frames stand for, what is done and what is collected fit together. */
  ghost predicate Underway(evaluation: Config, stack: seq<Frame>, paths: seq<Path>, done: set<Path>,
                           flattened: map<string, Value>) {
    Stacked(evaluation, stack, paths) && Progress(evaluation, paths, done) && Collected(evaluation, done, flattened)
  }

  /** One turn of the loop, after the count was found good. */
  method Handle(evaluation: Config, stack: seq<Frame>, ghost paths: seq<Path>, ghost done: set<Path>,
                flattened: map<string, Value>)
    returns (ok: bool, stack': seq<Frame>, ghost paths': seq<Path>, flattened': map<string, Value>)
    requires stack != [] && Underway(evaluation, stack, paths, done, flattened)
    ensures !ok ==> !Accepts(evaluation)
    ensures ok ==> Underway(evaluation, stack', paths', done + {paths[|paths| - 1]}, flattened')
  {
    var frame, rest := stack[|stack| - 1], stack[..|stack| - 1];
    ghost var p := paths[|paths| - 1];
    StackedRest(evaluation, stack, paths);
    FrameFineIsFine(evaluation, frame, p);
    if !FrameFine(frame) {
      return false, rest, paths, flattened;
    }
    flattened' := flattened;
    if frame.value.Mapping? {
      assert rest + [frame] == stack;
      ok, stack', paths' := Expand(evaluation, rest, paths, frame, done);
      CollectMapping(evaluation, done, flattened, p);
    } else {
      LeafNext(evaluation, paths, done, p);
      CollectLeaf(evaluation, done, flattened, p, frame.value);
      ok, stack', paths', flattened' := true, rest, paths[..|paths| - 1], flattened[frame.key := frame.value];
    }
  }

  /** The walk over the stack; its order of pops does not matter for what is accepted. */
  method Flatten(evaluation: Config) returns (r: Option<map<string, Value>>)
    ensures r.Some? <==> Accepts(evaluation)
    ensures r.Some? ==> Flattens(r.value, evaluation)
  {
    var stack, flattened, nodes := [], map[], 0;
    ghost var paths, done: set<Path> := [], {};
    stack, paths := Roots(evaluation);
    while stack != []
      invariant Underway(evaluation, stack, paths, done, flattened)
      invariant nodes == |done| <= MAX_NODES
      decreases MAX_NODES - nodes
    {
      nodes := nodes + 1;
      ghost var p := TopIsNode(evaluation, stack, paths, done);
      if nodes > MAX_NODES {
        TooManyNodes(evaluation, paths, done, p);
        return None;
      }
      var ok;
      ok, stack, paths, flattened := Handle(evaluation, stack, paths, done, flattened);
      if !ok {
        return None;
      }
      done := done + {p};
    }
    AllDone(evaluation, paths, done, flattened);
    r := Some(flattened);
  }

  lemma TopIsNode(evaluation: Config, stack: seq<Frame>, paths: seq<Path>, done: set<Path>) returns (p: Path)
    requires stack != [] && Stacked(evaluation, stack, paths) && Progress(evaluation, paths, done)
    ensures p == paths[|paths| - 1] && p in Nodes(evaluation) && p !in done
  {
    p := paths[|paths| - 1];
    StackedRest(evaluation, stack, paths);
    FrameFineIsFine(evaluation, stack[|stack| - 1], p);
    NotDone(evaluation, paths, done, p);
  }

  lemma AllDone(evaluation: Config, paths: seq<Path>, done: set<Path>, flattened: map<string, Value>)
    requires paths == [] && Progress(evaluation, paths, done) && Collected(evaluation, done, flattened)
    requires |done| <= MAX_NODES
    ensures Accepts(evaluation) && Flattens(flattened, evaluation)
  {
    DoneIsBounded(evaluation, paths, done);
    forall p: Path | IsLeaf(evaluation, p) ensures p in done {
      NodesAreLookups(evaluation, p);
    }
  }

  /** `_flatten_evaluation` of a configuration that may be absent. */
  method FlattenEvaluation(config: Option<Config>) returns (r: Option<map<string, Value>>)
    ensures r.Some? <==> config.Some? && HasEvaluation(config.value) && Accepts(EvaluationOf(config.value))
    ensures r.Some? ==> Flattens(r.value, EvaluationOf(config.value))
  {
    if config.None? || !HasEvaluation(config.value) {
      return None;
    }
    r := Flatten(config.value["evaluation"].entries);
  }

  predicate HasEvaluation(config: Config) { "evaluation" in config && config["evaluation"].Mapping? }

  function EvaluationOf(config: Config): Config
    requires HasEvaluation(config)
  {
    config["evaluation"].entries
  }

  // ---------------------------------------------------------------- what flattening loses

  /** Leaves that share a joined key hold the same value. */
  ghost predicate NoCollision(evaluation: Config) {
    forall p, q :: IsLeaf(evaluation, p) && IsLeaf(evaluation, q) && Join(p) == Join(q) ==>
      Lookup(evaluation, p) == Lookup(evaluation, q)
  }

  ghost predicate KeepsEveryLeaf(flattened: map<string, Value>, evaluation: Config) {
    forall p: Path :: IsLeaf(evaluation, p) ==>
      Join(p) in flattened && Lookup(evaluation, p) == Some(flattened[Join(p)])
  }

  /** Every leaf's value survives exactly when no two leaves collide on a joined key. */
  lemma KeepsExactly(flattened: map<string, Value>, evaluation: Config)
    requires Flattens(flattened, evaluation)
    ensures KeepsEveryLeaf(flattened, evaluation) <==> NoCollision(evaluation)
  {
    if NoCollision(evaluation) {
      forall p: Path | IsLeaf(evaluation, p)
        ensures Join(p) in flattened && Lookup(evaluation, p) == Some(flattened[Join(p)])
      {
        assert FromLeaf(flattened[Join(p)], Join(p), evaluation);
      }
    }
  }

  /** A dotted key beside a nested one collides, and one of the two values is lost. */
  lemma DottedKeyCollides(a: string, b: string, v: Value, w: Value)
    requires !v.Mapping? && !w.Mapping? && v != w
    ensures !NoCollision(map[a + ['.'] + b := v, a := Mapping(map[b := w])])
  {
    var evaluation: Config := map[a + ['.'] + b := v, a := Mapping(map[b := w])];
    var p, q := [a + ['.'] + b], [a, b];
    assert |a + ['.'] + b| > |a|;
    assert q[1..] == [b] && Lookup(map[b := w], [b]) == Some(w);
    assert Lookup(evaluation, p) == Some(v) && Lookup(evaluation, q) == Some(w);
    assert IsLeaf(evaluation, p) && IsLeaf(evaluation, q) && Join(p) == Join(q);
  }

  /** Without dots inside keys nothing collides. */
  lemma DotFreeNeverCollides(evaluation: Config)
    requires forall p: Path :: IsLeaf(evaluation, p) ==> DotFreePath(p)
    ensures NoCollision(evaluation)
  {
    forall p, q | IsLeaf(evaluation, p) && IsLeaf(evaluation, q) && Join(p) == Join(q)
      ensures Lookup(evaluation, p) == Lookup(evaluation, q)
    {
      JoinInjective(p, q);
    }
  }

  lemma LookupBelow(config: Config, p: Path)
    requires HasEvaluation(config) && p != []
    ensures Lookup(config, ["evaluation"] + p) == Lookup(EvaluationOf(config), p)
  {
    assert (["evaluation"] + p)[1..] == p;
  }

  /** Item i was inserted at "evaluation." followed by this key. */
  ghost predicate InsertedAs(items: seq<Item>, i: nat, p: Path, key: string, v: Value) {
    i < |items| && p != [] && items[i].path == ["evaluation"] + p && Join(p) == key && items[i].value == v
  }

  lemma PayloadKeepsLeaves(config: Config, items: seq<Item>, flattened: map<string, Value>)
    requires PrefixFree(items) && IsPayload(config, items) && HasEvaluation(config)
    requires Flattens(flattened, EvaluationOf(config))
    ensures KeepsEveryLeaf(flattened, EvaluationOf(config))
  {
    var evaluation := EvaluationOf(config);
    forall p: Path | IsLeaf(evaluation, p) ensures DotFreePath(p) {
      var i := LeafIsItem(config, items, p);
      assert forall k :: 0 <= k < |p| ==> items[i].path[k + 1] == p[k];
      ValidIsDotFree(items[i].path);
    }
    DotFreeNeverCollides(evaluation);
    KeepsExactly(flattened, evaluation);
  }

  lemma ItemIsFlattened(config: Config, items: seq<Item>, flattened: map<string, Value>, i: nat, p: Path)
    requires PrefixFree(items) && IsPayload(config, items) && HasEvaluation(config)
    requires KeepsEveryLeaf(flattened, EvaluationOf(config))
    requires i < |items| && p != [] && items[i].path == ["evaluation"] + p && !items[i].value.Mapping?
    ensures Join(p) in flattened && flattened[Join(p)] == items[i].value
  {
    ReadsBack(config, items, i);
    LookupBelow(config, p);
    assert IsLeaf(EvaluationOf(config), p);
  }

  /** Inserting keys and flattening gives back exactly the inserted evaluation entries, under their own keys. */
  lemma InsertedThenFlattened(config: Config, items: seq<Item>, flattened: map<string, Value>)
    requires PrefixFree(items)
    requires forall i :: 0 <= i < |items| ==> !items[i].value.Mapping?
    requires IsPayload(config, items) && HasEvaluation(config) && Flattens(flattened, EvaluationOf(config))
    ensures forall i: nat, p: Path, key, v :: InsertedAs(items, i, p, key, v) ==>
      key in flattened && flattened[key] == v
    ensures forall key :: key in flattened ==> exists i: nat, p: Path :: InsertedAs(items, i, p, key, flattened[key])
  {
    PayloadKeepsLeaves(config, items, flattened);
    forall i: nat, p: Path, key, v | InsertedAs(items, i, p, key, v) ensures key in flattened && flattened[key] == v {
      ItemIsFlattened(config, items, flattened, i, p);
    }
    forall key | key in flattened ensures exists i: nat, p: Path :: InsertedAs(items, i, p, key, flattened[key]) {
      var i, p := KeyIsItem(config, items, flattened, key);
    }
  }

  lemma KeyIsItem(config: Config, items: seq<Item>, flattened: map<string, Value>, key: string)
    returns (i: nat, p: Path)
    requires IsPayload(config, items) && HasEvaluation(config) && Flattens(flattened, EvaluationOf(config))
    requires key in flattened
    ensures InsertedAs(items, i, p, key, flattened[key])
  {
    assert FromLeaf(flattened[key], key, EvaluationOf(config));
    p :| IsLeaf(EvaluationOf(config), p) && Join(p) == key && Lookup(EvaluationOf(config), p) == Some(flattened[key]);
    i := LeafIsItem(config, items, p);
  }

  lemma LeafIsItem(config: Config, items: seq<Item>, p: Path) returns (i: nat)
    requires IsPayload(config, items) && HasEvaluation(config) && IsLeaf(EvaluationOf(config), p)
    ensures i < |items| && items[i].path == ["evaluation"] + p
    ensures Lookup(EvaluationOf(config), p) == Some(items[i].value)
  {
    LookupBelow(config, p);
    var q := ["evaluation"] + p;
    assert HeldRight(Lookup(config, q), items, q);
    i :| Kept(items, |items|, i) && items[i].path == q;
  }
}
