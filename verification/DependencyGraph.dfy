/** scripts/validate_progress.py: the three-colour search for cycles among the remediation slices. */
module DependencyGraph {
  import opened Orders

  /** The slice ids, and the dependencies each names: possibly unknown ids, possibly itself. */
  datatype Graph = Graph(known: set<string>, deps: map<string, seq<string>>) {

    function Deps(id: string): seq<string> {
      if id in deps then deps[id] else []
    }

    predicate Edge(u: string, v: string) {
      u in known && v in known && v in Deps(u)
    }

    ghost predicate Path(p: seq<string>) {
      p != [] && p[0] in known && forall i | 0 <= i < |p| - 1 :: Edge(p[i], p[i + 1])
    }

    ghost predicate Connects(p: seq<string>, u: string, v: string) {
      Path(p) && p[0] == u && p[|p| - 1] == v
    }

    ghost predicate OnCycle(u: string) {
      exists p :: |p| > 1 && Connects(p, u, u)
    }

    ghost predicate HasCycle() {
      exists u :: OnCycle(u)
    }

    /** Every dependency of an id comes before it. */
    ghost predicate Topological(order: seq<string>) {
      && (forall i, j | 0 <= i < j < |order| :: order[i] != order[j])
      && (forall i, v | 0 <= i < |order| && Edge(order[i], v) :: v in order[..i])
    }
  }

  // ----- A topological order excludes cycles -----

  ghost function Position(order: seq<string>, u: string): (i: nat)
    requires u in order
    ensures i < |order| && order[i] == u
  {
    var i :| 0 <= i < |order| && order[i] == u;
    i
  }

  lemma EdgeGoesBack(g: Graph, order: seq<string>, u: string, v: string)
    requires g.Topological(order) && u in order && g.Edge(u, v)
    ensures v in order && Position(order, v) < Position(order, u)
  {
    var i := Position(order, u);
    assert v in order[..i];
    var k :| 0 <= k < i && order[k] == v;
  }

  lemma {:induction false} PathGoesBack(g: Graph, order: seq<string>, p: seq<string>)
    requires g.Topological(order) && g.Path(p) && p[0] in order
    ensures p[|p| - 1] in order
    ensures Position(order, p[|p| - 1]) <= Position(order, p[0])
    ensures |p| > 1 ==> Position(order, p[|p| - 1]) < Position(order, p[0])
  {
    if |p| > 1 {
      assert g.Edge(p[0], p[0 + 1]);
      EdgeGoesBack(g, order, p[0], p[1]);
      forall i | 0 <= i < |p[1..]| - 1 ensures g.Edge(p[1..][i], p[1..][i + 1]) {
        assert g.Edge(p[i + 1], p[i + 1 + 1]);
      }
      PathGoesBack(g, order, p[1..]);
    }
  }

  lemma TopologicalMeansAcyclic(g: Graph, order: seq<string>)
    requires g.Topological(order) && forall u | u in g.known :: u in order
    ensures !g.HasCycle()
  {
    if g.HasCycle() {
      var u :| g.OnCycle(u);
      var p :| |p| > 1 && g.Connects(p, u, u);
      PathGoesBack(g, order, p);
    }
  }

  // ----- A set of ids each depending on another of them needs a cycle -----

  /** A path longer than the graph closes a cycle. */
  lemma LongPathHasCycle(g: Graph, p: seq<string>)
    requires g.Path(p) && |p| > |g.known|
    ensures g.HasCycle()
  {
    DistinctByCount(p);
    forall u | u in p ensures u in g.known {
      var k :| 0 <= k < |p| && p[k] == u;
      if k > 0 { assert g.Edge(p[k - 1], p[k - 1 + 1]); }
    }
    SmallerSet(ToSet(p), g.known);
    var i, j :| 0 <= i < j < |p| && p[i] == p[j];
    var q := p[i..j + 1];
    forall k | 0 <= k < |q| - 1 ensures g.Edge(q[k], q[k + 1]) {
      assert g.Edge(p[i + k], p[i + k + 1]);
    }
    assert g.Connects(q, p[i], p[i]);
    assert g.OnCycle(p[i]);
  }

  lemma PathCons(g: Graph, u: string, q: seq<string>)
    requires g.Path(q) && g.Edge(u, q[0])
    ensures g.Path([u] + q)
  {
    var p := [u] + q;
    forall i | 0 <= i < |p| - 1 ensures g.Edge(p[i], p[i + 1]) {
      if i > 0 { assert g.Edge(q[i - 1], q[i - 1 + 1]); }
    }
  }

  /** The id depends on an id of `w`. */
  ghost predicate LeadsInto(g: Graph, w: set<string>, u: string) {
    exists d :: d in w && g.Edge(u, d)
  }

  lemma {:induction false} EndlessPath(g: Graph, w: set<string>, start: string, n: nat) returns (p: seq<string>)
    requires start in w && forall u {:trigger LeadsInto(g, w, u)} :: u in w ==> LeadsInto(g, w, u)
    ensures g.Path(p) && |p| == n + 1 && p[0] == start
    decreases n
  {
    assert LeadsInto(g, w, start);
    var d :| d in w && g.Edge(start, d);
    if n == 0 {
      p := [start];
    } else {
      var q := EndlessPath(g, w, d, n - 1);
      PathCons(g, start, q);
      p := [start] + q;
    }
  }

  lemma ClosedSetHasCycle(g: Graph, w: set<string>)
    requires w != {} && forall u {:trigger LeadsInto(g, w, u)} :: u in w ==> LeadsInto(g, w, u)
    ensures g.HasCycle()
  {
    var start :| start in w;
    var p := EndlessPath(g, w, start, |g.known|);
    LongPathHasCycle(g, p);
  }

  // ----- The search -----

  /** The ids being visited, outermost first: a path that reaches the id about to be visited. */
  ghost predicate Stack(g: Graph, stack: seq<string>, visiting: set<string>, id: string) {
    && (forall u :: u in visiting <==> u in stack)
    && (stack == [] || g.Path(stack + [id]))
  }

  lemma StackClosesCycle(g: Graph, stack: seq<string>, visiting: set<string>, id: string)
    requires Stack(g, stack, visiting, id) && id in visiting
    ensures g.OnCycle(id)
  {
    var k :| 0 <= k < |stack| && stack[k] == id;
    var whole := stack + [id];
    var p := whole[k..];
    forall i | 0 <= i < |p| - 1 ensures g.Edge(p[i], p[i + 1]) {
      assert g.Edge(whole[k + i], whole[k + i + 1]);
    }
    assert whole[k] in g.known by { if k < |whole| - 1 { assert g.Edge(whole[k], whole[k + 1]); } }
    assert g.Connects(p, id, id);
  }

  lemma StackGrows(g: Graph, trail: seq<string>, visiting: set<string>, dependency: string)
    requires g.Path(trail) && (forall u :: u in visiting <==> u in trail) && g.Edge(trail[|trail| - 1], dependency)
    ensures Stack(g, trail, visiting, dependency)
  {
    var whole := trail + [dependency];
    forall i | 0 <= i < |whole| - 1 ensures g.Edge(whole[i], whole[i + 1]) {
      if i + 1 < |trail| { assert g.Edge(trail[i], trail[i + 1]); }
    }
  }

  lemma StackIsTrail(g: Graph, stack: seq<string>, visiting: set<string>, id: string)
    requires Stack(g, stack, visiting, id) && id in g.known
    ensures g.Path(stack + [id]) && forall u :: u in visiting + {id} <==> u in stack + [id]
  {
  }

  class CycleSearch {
    const g: Graph
    var visiting: set<string>
    var visited: set<string>
    /** The ids reported as lying on a cycle. */
    var errors: seq<string>
    /** The visited ids in the order their visits ended. */
    ghost var finished: seq<string>

    constructor (g: Graph)
      ensures this.g == g && Valid() && visiting == {} && finished == [] && errors == []
    {
      this.g := g;
      visiting, visited, errors, finished := {}, {}, [], [];
    }

    ghost predicate Valid()
      reads this
    {
      && visiting <= g.known && visited <= g.known && visiting !! visited
      && (forall u :: u in visited <==> u in finished)
      && (forall i, j | 0 <= i < j < |finished| :: finished[i] != finished[j])
      && (forall e | e in errors :: g.OnCycle(e))
      && (errors == [] ==> g.Topological(finished))
    }

    /** `visit_remediation`. */
    method Visit(id: string, ghost stack: seq<string>)
      requires Valid() && id in g.known && Stack(g, stack, visiting, id)
      modifies this
      ensures Valid() && visiting == old(visiting)
      ensures old(visited) <= visited && old(errors) <= errors
      ensures errors == old(errors) ==> id in visited
      decreases |g.known - visiting|, 1
    {
      if id in visiting {
        StackClosesCycle(g, stack, visiting, id);
        errors := errors + [id];
      } else if id !in visited {
        Explore(id, stack);
      }
    }

    /** A first visit: the id is being visited while its dependencies are. */
    method Explore(id: string, ghost stack: seq<string>)
      requires Valid() && id in g.known && id !in visiting && id !in visited && Stack(g, stack, visiting, id)
      modifies this
      ensures Valid() && visiting == old(visiting)
      ensures old(visited) <= visited && old(errors) <= errors && id in visited
      decreases |g.known - visiting|, 0
    {
      Remaining(id);
      StackIsTrail(g, stack, visiting, id);
      visiting := visiting + {id};
      VisitDependencies(id, stack + [id]);
      Finish(id);
    }

    lemma Remaining(id: string)
      requires id in g.known && id !in visiting
      ensures |g.known - (visiting + {id})| < |g.known - visiting|
    {
      assert g.known - visiting == g.known - (visiting + {id}) + {id};
    }

    /** The loop of `visit_remediation` over the dependencies of the id being visited. */
    method VisitDependencies(id: string, ghost trail: seq<string>)
      requires Valid() && g.Path(trail) && trail[|trail| - 1] == id && forall u :: u in visiting <==> u in trail
      modifies this
      ensures Valid() && visiting == old(visiting)
      ensures old(visited) <= visited && old(errors) <= errors
      ensures errors == old(errors) ==> forall v | g.Edge(id, v) :: v in visited
      decreases |g.known - visiting|, 2
    {
      var dependencies := g.Deps(id);
      for n := 0 to |dependencies|
        invariant Valid() && visiting == old(visiting)
        invariant old(visited) <= visited && old(errors) <= errors
        invariant errors == old(errors) ==> forall k | 0 <= k < n && dependencies[k] in g.known ::
            dependencies[k] in visited
      {
        if dependencies[n] in g.known {
          assert id in g.known;
          StackGrows(g, trail, visiting, dependencies[n]);
          Visit(dependencies[n], trail);
        }
      }
    }

    /** The end of a visit: the id changes from being visited to visited. */
    method Finish(id: string)
      requires Valid() && id in visiting
      requires errors == [] ==> forall v | g.Edge(id, v) :: v in visited
      modifies this
      ensures Valid() && visiting == old(visiting) - {id} && visited == old(visited) + {id}
      ensures finished == old(finished) + [id] && errors == old(errors)
    {
      visiting := visiting - {id};
      visited := visited + {id};
      finished := finished + [id];
      if errors == [] {
        forall i, v | 0 <= i < |finished| && g.Edge(finished[i], v) ensures v in finished[..i] {
          if i < |finished| - 1 {
            assert finished[..i] == old(finished)[..i];
          } else {
            assert finished[..i] == old(finished);
          }
        }
      }
    }

    /** The search from every slice of the register, in register order. */
    method VisitAll(ids: seq<string>)
      requires Valid() && visiting == {} && finished == [] && errors == []
      requires forall u :: u in g.known <==> u in ids
      modifies this
      ensures Valid() && visiting == {}
      ensures errors == [] <==> !g.HasCycle()
      ensures errors == [] ==> g.Topological(finished) && forall u :: u in finished <==> u in g.known
      ensures forall e | e in errors :: g.OnCycle(e)
    {
      for n := 0 to |ids|
        invariant Valid() && visiting == {}
        invariant errors == [] ==> forall k | 0 <= k < n :: ids[k] in visited
      {
        Visit(ids[n], []);
      }
      if errors == [] {
        TopologicalMeansAcyclic(g, finished);
      } else {
        assert errors[0] in errors;
      }
    }
  }
}
