/**
 * Reachability in an undirected graph given by neighbour sets.
 *
 * Both drafts of the container are viewed through this lens: the dense draft
 * maps each row index to the columns holding a positive weight, the hash draft
 * maps each vertex to the key set of its neighbour map.
 *
 * A vertex v is reachable from s when v lies in every set that contains s and
 * is closed under taking neighbours. This is the least closed set containing
 * s, i.e. the connected component of s.
 */
module Paths {

  type Graph = map<int, set<int>>

  /** S is closed under taking neighbours. */
  ghost predicate Closed(g: Graph, S: set<int>)
  {
    forall u, w :: u in S && u in g && w in g[u] ==> w in S
  }

  ghost predicate Reachable(g: Graph, s: int, v: int)
  {
    forall S: set<int> {:trigger Closed(g, S)} :: s in S && Closed(g, S) ==> v in S
  }

  /** Every neighbour of a vertex of g is itself a vertex of g. */
  ghost predicate WellFormed(g: Graph)
  {
    forall u, w :: u in g && w in g[u] ==> w in g
  }

  ghost predicate Undirected(g: Graph)
  {
    forall u, w :: u in g && w in g[u] ==> w in g && u in g[w]
  }

  /** Every pair of vertices is joined by a path. */
  ghost predicate Connected(g: Graph)
  {
    forall u, v :: u in g && v in g ==> Reachable(g, u, v)
  }

  lemma ReachRefl(g: Graph, s: int)
    ensures Reachable(g, s, s)
  {
  }

  /** One more edge at the end of a walk. */
  lemma ReachStep(g: Graph, s: int, u: int, w: int)
    requires Reachable(g, s, u) && u in g && w in g[u]
    ensures Reachable(g, s, w)
  {
    forall S | s in S && Closed(g, S) ensures w in S {
      assert u in S;
    }
  }

  /** One more edge at the start of a walk. */
  lemma ReachPrepend(g: Graph, s: int, u: int, v: int)
    requires s in g && u in g[s] && Reachable(g, u, v)
    ensures Reachable(g, s, v)
  {
    forall S | s in S && Closed(g, S) ensures v in S {
      assert u in S;
    }
  }

  lemma ReachTrans(g: Graph, a: int, b: int, c: int)
    requires Reachable(g, a, b) && Reachable(g, b, c)
    ensures Reachable(g, a, c)
  {
    forall S | a in S && Closed(g, S) ensures c in S {
      assert b in S;
    }
  }

  /** A closed set containing the start contains everything reachable from it. */
  lemma ReachInClosed(g: Graph, s: int, S: set<int>, v: int)
    requires s in S && Closed(g, S) && Reachable(g, s, v)
    ensures v in S
  {
  }

  /** What is reachable from a vertex of a well-formed graph is a vertex of it. */
  lemma ReachInGraph(g: Graph, s: int, v: int)
    requires WellFormed(g) && s in g && Reachable(g, s, v)
    ensures v in g
  {
    assert Closed(g, g.Keys);
  }

  /** What is reachable from a vertex outside the graph is that vertex alone. */
  lemma ReachOutside(g: Graph, s: int, v: int)
    requires s !in g && Reachable(g, s, v)
    ensures v == s
  {
    assert Closed(g, {s});
  }

  lemma {:induction false} ReachSym(g: Graph, s: int, v: int)
    requires Undirected(g) && s in g && Reachable(g, s, v)
    ensures Reachable(g, v, s)
  {
    var T := set x | x in g && Reachable(g, x, s);
    assert s in T;
    forall u, w | u in T && u in g && w in g[u] ensures w in T {
      ReachPrepend(g, w, u, s);
    }
    assert Closed(g, T);
  }

  /** Connectivity is witnessed by a single vertex that reaches all others. */
  lemma ConnectedFrom(g: Graph, s: int)
    requires Undirected(g) && s in g
    requires forall v :: v in g ==> Reachable(g, s, v)
    ensures Connected(g)
  {
    forall u, v | u in g && v in g ensures Reachable(g, u, v) {
      ReachSym(g, s, u);
      ReachTrans(g, u, s, v);
    }
  }

  /** Adding edges never loses reachability. */
  lemma ReachMono(g: Graph, h: Graph, s: int, v: int)
    requires forall u, w :: u in g && w in g[u] ==> u in h && w in h[u]
    requires Reachable(g, s, v)
    ensures Reachable(h, s, v)
  {
    forall S | s in S && Closed(h, S) ensures v in S {
      assert Closed(g, S);
    }
  }

  /** Dropping the edge x-y loses no reachability when x still reaches y
      without it: h has every other edge of g, and x reaches y in h. */
  lemma ReachDetour(g: Graph, h: Graph, x: int, y: int, a: int, b: int)
    requires Undirected(h) && x in h && a in h && Reachable(h, x, y)
    requires forall c, d :: c in g && d in g[c] && !(c == x && d == y) && !(c == y && d == x) ==> c in h && d in h[c]
    requires Reachable(g, a, b)
    ensures Reachable(h, a, b)
  {
    assert WellFormed(h);
    ReachInGraph(h, x, y);
    var S := set z | z in h && Reachable(h, a, z);
    ReachRefl(h, a);
    forall c, d | c in S && c in g && d in g[c] ensures d in S {
      if c == x && d == y {
        ReachTrans(h, a, x, y);
      } else if c == y && d == x {
        ReachSym(h, x, y);
        ReachTrans(h, a, y, x);
      } else {
        ReachStep(h, a, c, d);
      }
    }
    assert Closed(g, S);
    assert b in S;
  }

  /** A walk from v outside S to u inside S leaves S along an edge c-d of g.
      o holds at least the edges of g between vertices outside S, and in o
      the walk reaches c. */
  lemma LeaveSet(g: Graph, o: Graph, S: set<int>, v: int, u: int) returns (c: int, d: int)
    requires WellFormed(o) && v in o && v !in S && u in S && Reachable(g, v, u)
    requires forall a, b :: a in g && b in g[a] && a !in S && b !in S ==> a in o && b in o[a]
    ensures c in g && d in g[c] && c !in S && d in S && Reachable(o, v, c)
  {
    var D := set z | z in o && z !in S && Reachable(o, v, z);
    ReachRefl(o, v);
    assert v in D && u !in D;
    forall a, b | a in D && a in g && b in g[a] && b !in S ensures b in D {
      ReachStep(o, v, a, b);
    }
    assert !Closed(g, D);
    c, d :| c in D && c in g && d in g[c] && d !in D;
  }

  /** ReachDetour for every pair at once. */
  lemma DetourAll(g: Graph, h: Graph, x: int, y: int)
    requires Undirected(h) && x in h && Reachable(h, x, y)
    requires forall c, d :: c in g && d in g[c] && !(c == x && d == y) && !(c == y && d == x) ==> c in h && d in h[c]
    ensures forall a, b :: a in h && Reachable(g, a, b) ==> Reachable(h, a, b)
  {
    forall a, b | a in h && Reachable(g, a, b) ensures Reachable(h, a, b) {
      ReachDetour(g, h, x, y, a, b);
    }
  }

  /** x reaches y around the edge u-v of h: through f from x to u, across,
      and through o from v to y, when h has the edges of f and of o. */
  lemma Around(f: Graph, o: Graph, h: Graph, x: int, u: int, v: int, y: int)
    requires Undirected(h) && u in h && v in h[u]
    requires forall c, d :: c in f && d in f[c] ==> c in h && d in h[c]
    requires forall c, d :: c in o && d in o[c] ==> c in h && d in h[c]
    requires Reachable(f, u, x) && Reachable(o, v, y)
    ensures Reachable(h, x, y)
  {
    ReachMono(f, h, u, x);
    ReachSym(h, u, x);
    ReachStep(h, x, u, v);
    ReachMono(o, h, v, y);
    ReachTrans(h, x, v, y);
  }

  /** The set of vertices reachable from s inside a finite universe. */
  ghost function ReachSet(g: Graph, s: int): (r: set<int>)
    requires WellFormed(g) && s in g
    ensures forall v :: v in r <==> Reachable(g, s, v)
  {
    var r := set v | v in g && Reachable(g, s, v);
    forall v | Reachable(g, s, v) ensures v in r {
      ReachInGraph(g, s, v);
    }
    r
  }
}
