/** Dependency graphs of evidence obligations and the depth-first search that admits them. */
module DependencyGraphs {
  import opened Common

  type Graph = map<string, seq<string>>

  /** Every dependency names a known identifier. */
  ghost predicate Closed(g: Graph) {
    forall id :: id in g ==> forall d :: d in g[id] ==> d in g
  }

  /** p is a non-empty walk along dependency edges. */
  ghost predicate Walk(g: Graph, p: seq<string>) {
    && p != []
    && (forall i :: 0 <= i < |p| ==> p[i] in g)
    && (forall i :: 0 <= i < |p| - 1 ==> p[i + 1] in g[p[i]])
  }

  /** Some walk of at least one edge, of whatever length, returns to its start. */
  ghost predicate Cyclic(g: Graph) {
    exists p :: Walk(g, p) && |p| >= 2 && p[0] == p[|p| - 1]
  }

  ghost predicate Ranked(g: Graph, rank: map<string, nat>) {
    && g.Keys <= rank.Keys
    && forall id, d :: id in g && d in g[id] ==> d in g && rank[d] < rank[id]
  }

  lemma {:induction false} RankFallsAlongWalk(g: Graph, rank: map<string, nat>, p: seq<string>)
    requires Ranked(g, rank) && Walk(g, p)
    ensures rank[p[|p| - 1]] + |p| - 1 <= rank[p[0]]
  {
    if |p| > 1 {
      RankFallsAlongWalk(g, rank, p[1..]);
    }
  }

  /** A rank that every edge lowers excludes cycles of any length. */
  lemma RankedIsAcyclic(g: Graph, rank: map<string, nat>)
    requires Ranked(g, rank)
    ensures !Cyclic(g)
  {
    forall p | Walk(g, p) && |p| >= 2 ensures p[0] != p[|p| - 1] {
      RankFallsAlongWalk(g, rank, p);
    }
  }

  ghost predicate Reaches(g: Graph, from: string, to: string) {
    exists p :: Walk(g, p) && p[0] == from && p[|p| - 1] == to
  }

  ghost function Reach(g: Graph, from: string): set<string> {
    set to | to in g && Reaches(g, from, to)
  }

  lemma ReachesSelf(g: Graph, id: string)
    requires id in g
    ensures Reaches(g, id, id)
  {
    assert Walk(g, [id]);
  }

  /** Reaching a node means being it, or reaching it from a dependency. */
  lemma ReachesStep(g: Graph, from: string, to: string)
    requires from in g && Closed(g)
    ensures Reaches(g, from, to) <==> from == to || exists d :: d in g[from] && Reaches(g, d, to)
  {
    if Reaches(g, from, to) && from != to {
      var p :| Walk(g, p) && p[0] == from && p[|p| - 1] == to;
      assert Walk(g, p[1..]) && p[1] in g[from];
    }
    if d :| d in g[from] && Reaches(g, d, to) {
      var p :| Walk(g, p) && p[0] == d && p[|p| - 1] == to;
      assert Walk(g, [from] + p);
    }
    if from == to {
      ReachesSelf(g, from);
    }
  }

  /** In an acyclic graph a dependency reaches strictly fewer nodes than its dependent. */
  lemma ReachShrinks(g: Graph, id: string, d: string)
    requires Closed(g) && !Cyclic(g) && id in g && d in g[id]
    ensures Reach(g, d) < Reach(g, id)
    ensures |Reach(g, d)| < |Reach(g, id)|
  {
    forall to | to in Reach(g, d) ensures to in Reach(g, id) {
      ReachesStep(g, id, to);
    }
    ReachesSelf(g, id);
    if Reaches(g, d, id) {
      var p :| Walk(g, p) && p[0] == d && p[|p| - 1] == id;
      assert Walk(g, [id] + p);
      assert false;
    }
    SubsetSmaller(Reach(g, d), Reach(g, id), id);
  }

  lemma SubsetSmaller<T>(a: set<T>, b: set<T>, x: T)
    requires a <= b && x in b && x !in a
    ensures |a| < |b|
  {
    SubsetSize(a, b - {x});
  }

  /** `trail` is the chain of calls in progress: a walk over exactly the identifiers being visited. */
  ghost predicate InProgress(g: Graph, trail: seq<string>, visiting: set<string>) {
    && (trail != [] ==> Walk(g, trail))
    && (forall id :: id in trail <==> id in visiting)
  }

  /** Finished identifiers are closed under dependency, and `rank` numbers them below their dependents. */
  ghost predicate Finished(g: Graph, visited: set<string>, rank: map<string, nat>) {
    && rank.Keys == visited <= g.Keys
    && (forall id :: id in visited ==> rank[id] < |visited|)
    && (forall id, d :: id in visited && d in g[id] ==> d in visited && rank[d] < rank[id])
  }

  lemma Descend(g: Graph, trail: seq<string>, visiting: set<string>, id: string)
    requires InProgress(g, trail, visiting) && id in g
    requires trail != [] ==> id in g[trail[|trail| - 1]]
    ensures InProgress(g, trail + [id], visiting + {id})
  {
  }

  lemma BackEdge(g: Graph, trail: seq<string>, visiting: set<string>, id: string)
    requires InProgress(g, trail, visiting) && id in visiting
    requires trail != [] ==> id in g[trail[|trail| - 1]]
    ensures Cyclic(g)
  {
    var k :| 0 <= k < |trail| && trail[k] == id;
    var loop := trail[k..] + [id];
    assert Walk(g, loop) && loop[0] == loop[|loop| - 1];
  }

  lemma Finish(g: Graph, visited: set<string>, rank: map<string, nat>, id: string)
    requires Finished(g, visited, rank) && id in g && id !in visited
    requires forall d :: d in g[id] ==> d in visited
    ensures Finished(g, visited + {id}, rank[id := |visited|])
  {
  }

  /** The two mutable sets of the search; `trail` and `rank` record what they prove. */
  class DependencySearch {
    const g: Graph
    var visiting: set<string>
    var visited: set<string>
    ghost var trail: seq<string>
    ghost var rank: map<string, nat>

    ghost predicate Valid()
      reads this
    {
      && Closed(g)
      && visiting !! visited
      && visiting <= g.Keys
      && InProgress(g, trail, visiting)
      && Finished(g, visited, rank)
    }

    constructor (g: Graph)
      requires Closed(g)
      ensures Valid() && this.g == g && trail == []
    {
      this.g := g;
      visiting, visited := {}, {};
      trail, rank := [], map[];
    }

    /** One recursive call; false stands for the cycle error. */
    method Visit(identifier: string) returns (ok: bool)
      requires Valid() && Expected(identifier)
      modifies this
      ensures ok ==> Valid() && visiting == old(visiting) && trail == old(trail)
      ensures ok ==> old(visited) <= visited && identifier in visited
      ensures !ok ==> Cyclic(g)
      decreases g.Keys - visiting, 0
    {
      hide InProgress, Finished, Cyclic;
      if identifier in visiting {
        BackEdge(g, trail, visiting, identifier);
        return false;
      }
      if identifier in visited {
        return true;
      }
      ghost var before, held := trail, visiting;
      Enter(identifier);
      ok := VisitAll(g[identifier]);
      if ok {
        Leave(identifier, before, held);
      }
    }

    /** `visiting.add` */
    method Enter(identifier: string)
      requires Valid() && Expected(identifier) && identifier !in visiting && identifier !in visited
      modifies this`visiting, this`trail
      ensures Valid() && visiting == old(visiting) + {identifier} && trail == old(trail) + [identifier]
      ensures forall d :: d in g[identifier] ==> Expected(d)
      ensures g.Keys - visiting < g.Keys - old(visiting)
    {
      hide InProgress, Finished;
      assert identifier in g.Keys - visiting;
      Descend(g, trail, visiting, identifier);
      visiting := visiting + {identifier};
      trail := trail + [identifier];
    }

    /** `visiting.remove` and `visited.add` */
    method Leave(identifier: string, ghost before: seq<string>, ghost held: set<string>)
      requires Valid() && identifier in g && visiting == held + {identifier} && identifier !in held
      requires InProgress(g, before, held) && forall d :: d in g[identifier] ==> d in visited
      modifies this
      ensures Valid() && visiting == held && trail == before && visited == old(visited) + {identifier}
    {
      hide InProgress, Finished;
      visiting := visiting - {identifier};
      assert visiting == held;
      trail := before;
      Finish(g, visited, rank, identifier);
      rank := rank[identifier := |visited|];
      visited := visited + {identifier};
    }

    /** The loop shared by the outermost call and by every call over its dependencies. */
    method VisitAll(identifiers: seq<string>) returns (ok: bool)
      requires Valid() && forall id :: id in identifiers ==> Expected(id)
      modifies this
      ensures ok ==> Valid() && visiting == old(visiting) && trail == old(trail)
      ensures ok ==> old(visited) <= visited && forall id :: id in identifiers ==> id in visited
      ensures !ok ==> Cyclic(g)
      decreases g.Keys - visiting, 1
    {
      for i := 0 to |identifiers|
        invariant Valid() && visiting == old(visiting) && trail == old(trail)
        invariant forall id :: id in identifiers ==> Expected(id)
        invariant old(visited) <= visited && forall k :: 0 <= k < i ==> identifiers[k] in visited
      {
        assert Expected(identifiers[i]);
        ok := Visit(identifiers[i]);
        if !ok {
          return;
        }
      }
      return true;
    }

    /** An identifier the search may turn to next: any at the outset, a dependency afterwards. */
    ghost predicate Expected(identifier: string)
      reads this
    {
      identifier in g && (trail != [] ==> trail[|trail| - 1] in g && identifier in g[trail[|trail| - 1]])
    }
  }

  /** Starting from every identifier, the search succeeds exactly on the graphs without cycles. */
  method SearchFromAll(g: Graph, identifiers: seq<string>) returns (acyclic: bool)
    requires Closed(g)
    requires forall id :: id in g <==> id in identifiers
    ensures acyclic <==> !Cyclic(g)
  {
    var search := new DependencySearch(g);
    acyclic := search.VisitAll(identifiers);
    if acyclic {
      RankedIsAcyclic(g, search.rank);
    }
  }
}
