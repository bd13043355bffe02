/**
 * The disjoint-set forest used by the dense draft's Kruskal: a hash map from
 * each element to its parent, roots being their own parent.
 *
 * Two ghost maps describe the forest: dist justifies the termination of find
 * (a non-root's parent is strictly closer to its root) and root names the
 * root every key reaches (a key and its parent share a root, and a root is
 * its own root). Because dist forbids cycles, root is exactly the root that
 * following parents arrives at. Reading parent[k] for an absent key k inserts
 * the entry k -> 0, exactly as the hash map's subscript operator does.
 */
module UnionFind {

  /** Every key of parent has a distance and a root. */
  ghost predicate Keyed(parent: map<int, int>, dist: map<int, nat>, root: map<int, int>)
  {
    forall k :: k in parent ==> k in dist && k in root
  }

  /** The forest's conditions at key k: k's parent is a key with the same
      root, a root is its own root, and a non-root is farther out than its
      parent. */
  ghost predicate Link(parent: map<int, int>, dist: map<int, nat>, root: map<int, int>, k: int)
  {
    k in parent && k in dist && k in root &&
    parent[k] in parent && parent[k] in dist && parent[k] in root &&
    root[parent[k]] == root[k] && (parent[k] == k ==> root[k] == k) &&
    (parent[k] == k || dist[parent[k]] < dist[k])
  }

  /** The conditions hold at every key. They are used one key at a time, by
      mentioning Link at that key. */
  ghost predicate Forest(parent: map<int, int>, dist: map<int, nat>, root: map<int, int>)
  {
    Keyed(parent, dist, root) &&
    forall k {:trigger Link(parent, dist, root, k)} :: k in parent ==> Link(parent, dist, root, k)
  }

  /** The root recorded for a key is a root: following parents from k
      arrives there. */
  lemma {:induction false} RootIsRoot(parent: map<int, int>, dist: map<int, nat>, root: map<int, int>, k: int)
    requires Forest(parent, dist, root) && k in parent
    ensures root[k] in parent && parent[root[k]] == root[k]
    decreases dist[k]
  {
    assert Link(parent, dist, root, k);
    if parent[k] != k {
      RootIsRoot(parent, dist, root, parent[k]);
    }
  }

  /** An absent key joins the forest as a root of its own. */
  lemma InsertRoot(parent: map<int, int>, dist: map<int, nat>, root: map<int, int>, k: int)
    requires Forest(parent, dist, root) && k !in parent
    ensures Forest(parent[k := k], dist[k := 0], root[k := k])
  {
    var (p', d', r') := (parent[k := k], dist[k := 0], root[k := k]);
    forall z | z in p' ensures Link(p', d', r', z) {
      if z != k {
        assert Link(parent, dist, root, z);
      }
    }
  }

  /** An absent key joins the forest as a child of the key p. */
  lemma InsertLeaf(parent: map<int, int>, dist: map<int, nat>, root: map<int, int>, k: int, p: int)
    requires Forest(parent, dist, root) && k !in parent && p in parent
    ensures Forest(parent[k := p], dist[k := dist[p] + 1], root[k := root[p]])
  {
    assert Link(parent, dist, root, p);
    var (p', d', r') := (parent[k := p], dist[k := dist[p] + 1], root[k := root[p]]);
    forall z | z in p' ensures Link(p', d', r', z) {
      if z != k {
        assert Link(parent, dist, root, z);
      }
    }
  }

  /** The forest after hanging the tree of root rx below root ry. */
  ghost function Linked(parent: map<int, int>, dist: map<int, nat>, root: map<int, int>, rx: int, ry: int)
    : (map<int, int>, map<int, nat>, map<int, int>)
    requires Keyed(parent, dist, root) && ry in parent
  {
    (parent[rx := ry],
     map z | z in parent :: if root[z] == rx then dist[z] + dist[ry] + 1 else dist[z],
     map z | z in parent :: if root[z] == rx then ry else root[z])
  }

  /** Linking two different roots keeps a forest; the elements of rx's tree
      now have root ry and every other root is unchanged. */
  lemma LinkedForest(parent: map<int, int>, dist: map<int, nat>, root: map<int, int>, rx: int, ry: int)
    requires Forest(parent, dist, root) && rx in parent && ry in parent
    requires parent[rx] == rx && parent[ry] == ry && rx != ry
    ensures var (p', d', r') := Linked(parent, dist, root, rx, ry);
      Forest(p', d', r') && (forall z :: z in p' <==> z in parent) &&
      forall z {:trigger r'[z]} :: z in parent ==> r'[z] == if root[z] == rx then ry else root[z]
  {
    var (p', d', r') := Linked(parent, dist, root, rx, ry);
    assert Link(parent, dist, root, rx) && Link(parent, dist, root, ry);
    forall k | k in p' ensures Link(p', d', r', k) {
      assert Link(parent, dist, root, k);
    }
  }

  /** The roots among the keys 0, ..., n - 1. */
  ghost function Roots(parent: map<int, int>, n: nat): (r: set<int>)
    ensures forall x :: x in r <==> 0 <= x < n && x in parent && parent[x] == x
  {
    set x | x in parent.Keys && 0 <= x < n && parent[x] == x
  }

  /** Linking one root below another leaves one root fewer. */
  lemma LinkedRoots(parent: map<int, int>, n: nat, rx: int, ry: int)
    requires rx in parent && ry in parent && parent[rx] == rx && parent[ry] == ry && rx != ry
    requires 0 <= rx < n
    ensures Roots(parent[rx := ry], n) == Roots(parent, n) - {rx}
    ensures |Roots(parent[rx := ry], n)| == |Roots(parent, n)| - 1
  {
    assert Roots(parent[rx := ry], n) == Roots(parent, n) - {rx};
  }

  /** p is p0 after make_set(size): each of 0, ..., size - 1 is its own
      parent and every other key keeps its entry. */
  ghost predicate MadeSets(p: map<int, int>, p0: map<int, int>, size: int)
  {
    (forall k :: k in p <==> k in p0 || 0 <= k < size) &&
    (forall k {:trigger p[k]} :: k in p ==> p[k] == if 0 <= k < size then k else p0[k])
  }

  /** One round of make_set's loop, on an element that is a root or absent. */
  lemma MadeSetsStep(p: map<int, int>, d: map<int, nat>, r: map<int, int>, p0: map<int, int>, i: int)
    requires Forest(p, d, r) && MadeSets(p, p0, i) && 0 <= i
    requires i in p ==> p[i] == i
    ensures Forest(p[i := i], d[i := 0], r[i := i]) && MadeSets(p[i := i], p0, i + 1)
  {
    if i in p {
      assert Link(p, d, r, i);
    }
    var (p', d', r') := (p[i := i], d[i := 0], r[i := i]);
    forall z | z in p' ensures Link(p', d', r', z) {
      if z != i {
        assert Link(p, d, r, z);
      }
    }
  }

  lemma MadeSetsNone(p0: map<int, int>, size: int)
    requires size <= 0
    ensures MadeSets(p0, p0, size)
  {
  }

  /** p and r agree with p0 and r0: the same keys, and the same parent
      and root at each of them. */
  ghost predicate Same(p0: map<int, int>, r0: map<int, int>, p: map<int, int>, r: map<int, int>)
  {
    (forall z :: z in p <==> z in p0) && (forall z :: z in p0 ==> z in r0 && z in r) &&
    (forall z {:trigger p[z]} {:trigger p0[z]} :: z in p0 ==> p[z] == p0[z]) &&
    (forall z {:trigger r[z]} {:trigger r0[z]} :: z in p0 ==> r[z] == r0[z])
  }

  /** p and r are p0 and r0 after evaluating parent[k]: k is present, an
      absent k was inserted with parent 0 and root that of 0 (0 itself being
      inserted as a root when absent), and nothing else changed. */
  ghost predicate Touched(p0: map<int, int>, r0: map<int, int>, k: int, p: map<int, int>, r: map<int, int>)
  {
    k in p && k in r && (forall z :: z in p <==> z in p0 || z == k || (k !in p0 && z == 0)) &&
    (forall z :: z in p0 ==> z in r0 && z in r) &&
    (forall z {:trigger p[z]} {:trigger p0[z]} :: z in p0 ==> p[z] == p0[z]) &&
    (forall z {:trigger r[z]} {:trigger r0[z]} :: z in p0 ==> r[z] == r0[z]) &&
    (k !in p0 ==> p[k] == 0 && r[k] == if 0 in p0 && 0 in r0 then r0[0] else 0) &&
    (k !in p0 && 0 !in p0 ==> 0 in r && p[0] == 0 && r[0] == 0)
  }

  /** p and r are p0 and r0 after make_union(u, v): the root rx of u now has
      parent ry, the root of v; the elements whose root was rx have root ry
      and every other root is unchanged. */
  ghost predicate United(p0: map<int, int>, r0: map<int, int>, u: int, v: int, p: map<int, int>, r: map<int, int>)
    requires u in r0 && v in r0
  {
    var rx, ry := r0[u], r0[v];
    (forall z :: z in p <==> z in p0) && (forall z :: z in p0 ==> z in r0 && z in r) &&
    (forall z {:trigger p[z]} :: z in p0 ==> p[z] == if z == rx then ry else p0[z]) &&
    (forall z {:trigger r[z]} :: z in p0 ==> r[z] == if r0[z] == rx then ry else r0[z])
  }

  /** The two finds of make_union change nothing and return the roots of u
      and v. */
  lemma FoundBoth(p0: map<int, int>, r0: map<int, int>, u: int, v: int,
                  p1: map<int, int>, r1: map<int, int>, p: map<int, int>, r: map<int, int>)
    requires u in p0 && v in p0 && Touched(p0, r0, u, p1, r1) && Touched(p1, r1, v, p, r)
    ensures Same(p0, r0, p, r) && u in r1 && r1[u] == r0[u]
  {
    forall z | z in p0 ensures z in p1 && z in r1 && p[z] == p0[z] && r[z] == r0[z] {
      assert p1[z] == p0[z] && r1[z] == r0[z];
    }
  }

  /** Linking the roots x and y of u and v has the effect United describes. */
  lemma LinkedUnited(p0: map<int, int>, r0: map<int, int>, u: int, v: int,
                     p: map<int, int>, d: map<int, nat>, r: map<int, int>, x: int, y: int)
    requires u in p0 && v in p0 && Keyed(p, d, r) && Same(p0, r0, p, r)
    requires x == r0[u] && y == r0[v] && x in p && y in p && x != y
    ensures var (p', d', r') := Linked(p, d, r, x, y); United(p0, r0, u, v, p', r')
  {
  }

  /** When u and v share a root, make_union's assignment changes nothing. */
  lemma SameUnited(p0: map<int, int>, r0: map<int, int>, u: int, v: int,
                   p: map<int, int>, d: map<int, nat>, r: map<int, int>, x: int)
    requires u in p0 && v in p0 && Forest(p, d, r) && Same(p0, r0, p, r)
    requires x == r0[u] && x == r0[v] && x in p && p[x] == x
    ensures Forest(p[x := x], d, r) && United(p0, r0, u, v, p[x := x], r)
  {
    var p' := p[x := x];
    forall z | z in p' ensures Link(p', d, r, z) {
      assert Link(p, d, r, z);
    }
  }

  class DisjointSet {
    var parent: map<int, int>
    ghost var dist: map<int, nat>
    ghost var root: map<int, int>

    ghost predicate Valid()
      reads this
    {
      Forest(parent, dist, root)
    }

    /** The root k reaches by following parents. */
    ghost function Root(k: int): (r: int)
      reads this
      requires Valid() && k in parent
      ensures r in parent && parent[r] == r
    {
      RootIsRoot(parent, dist, root, k);
      root[k]
    }

    constructor ()
      ensures Valid() && parent == map[]
    {
      parent := map[];
      dist := map[];
      root := map[];
    }

    /** make_set: every element 0, ..., size - 1 becomes a root of its own. */
    method MakeSet(size: int)
      requires Valid()
      requires forall k :: 0 <= k < size && k in parent ==> parent[k] == k
      modifies this
      ensures Valid() && MadeSets(parent, old(parent), size)
    {
      parent, dist, root := AddSingletons(parent, dist, root, size);
    }

    /** The loop of make_set, on the maps' values. */
    static method AddSingletons(p0: map<int, int>, ghost d0: map<int, nat>, ghost r0: map<int, int>, size: int)
      returns (p: map<int, int>, ghost d: map<int, nat>, ghost r: map<int, int>)
      requires Forest(p0, d0, r0)
      requires forall k :: 0 <= k < size && k in p0 ==> p0[k] == k
      ensures Forest(p, d, r) && MadeSets(p, p0, size)
    {
      p, d, r := p0, d0, r0;
      MadeSetsNone(p0, 0);
      var i := 0;
      while i < size
        invariant Forest(p, d, r) && 0 <= i && (i <= size || i == 0)
        invariant MadeSets(p, p0, i)
      {
        MadeSetsStep(p, d, r, p0, i);
        p, d, r := p[i := i], d[i := 0], r[i := i];
        i := i + 1;
      }
      if size <= 0 {
        MadeSetsNone(p0, size);
      }
    }

    /** find: the root of k. An absent k is first inserted with parent 0,
        and following it inserts 0 as a root when 0 is absent too. */
    method Find(k: int) returns (r: int)
      requires Valid()
      modifies this
      ensures Valid() && Touched(old(parent), old(root), k, parent, root)
      ensures r == Root(k)
    {
      r, parent, dist, root := FindIn(parent, dist, root, k);
    }

    /** find, on the maps' values. */
    static method FindIn(p0: map<int, int>, ghost d0: map<int, nat>, ghost r0: map<int, int>, k: int)
      returns (x: int, p: map<int, int>, ghost d: map<int, nat>, ghost r: map<int, int>)
      requires Forest(p0, d0, r0)
      ensures Forest(p, d, r) && Touched(p0, r0, k, p, r) && x == r[k]
    {
      p, d, r := p0, d0, r0;
      if k !in p {
        if k == 0 {
          InsertRoot(p, d, r, 0);
          p, d, r := p[0 := 0], d[0 := 0], r[0 := 0];
        } else {
          if 0 !in p {
            InsertRoot(p, d, r, 0);
            p, d, r := p[0 := 0], d[0 := 0], r[0 := 0];
          }
          InsertLeaf(p, d, r, k, 0);
          p, d, r := p[k := 0], d[k := d[0] + 1], r[k := r[0]];
        }
      }
      x := Climb(p, d, r, k);
    }

    /** The recursion of find on a key that is present: nothing is inserted
        and parents are followed up to the root. */
    static method Climb(parent: map<int, int>, ghost dist: map<int, nat>, ghost root: map<int, int>, k: int)
      returns (r: int)
      requires Forest(parent, dist, root) && k in parent
      ensures r == root[k]
      decreases dist[k]
    {
      assert Link(parent, dist, root, k);
      if parent[k] == k {
        return k;
      }
      r := Climb(parent, dist, root, parent[k]);
    }

    /** make_union: hang the root of u below the root of v. */
    method MakeUnion(u: int, v: int)
      requires Valid() && u in parent && v in parent
      modifies this
      ensures Valid() && United(old(parent), old(root), u, v, parent, root)
      ensures u in parent && v in parent && Root(u) == Root(v)
    {
      parent, dist, root := Unite(parent, dist, root, u, v);
    }

    /** make_union, on the maps' values. */
    static method Unite(p0: map<int, int>, ghost d0: map<int, nat>, ghost r0: map<int, int>, u: int, v: int)
      returns (p: map<int, int>, ghost d: map<int, nat>, ghost r: map<int, int>)
      requires Forest(p0, d0, r0) && u in p0 && v in p0
      ensures Forest(p, d, r) && United(p0, r0, u, v, p, r)
    {
      var x, y, p1;
      ghost var d1, r1;
      x, p1, d1, r1 := FindIn(p0, d0, r0, u);
      y, p, d, r := FindIn(p1, d1, r1, v);
      FoundBoth(p0, r0, u, v, p1, r1, p, r);
      RootIsRoot(p, d, r, u);
      RootIsRoot(p, d, r, v);
      if x == y {
        SameUnited(p0, r0, u, v, p, d, r, x);
      } else {
        LinkedUnited(p0, r0, u, v, p, d, r, x, y);
        LinkedForest(p, d, r, x, y);
        ghost var (_, d', r') := Linked(p, d, r, x, y);
        d, r := d', r';
      }
      p := p[x := y];
    }
  }
}
