/** Reachability in finite directed graphs. */
module Graph {

  type Digraph<V> = map<V, set<V>>

  predicate Edge<V>(g: Digraph<V>, a: V, b: V) {
    a in g && b in g[a]
  }

  predicate IsPath<V>(g: Digraph<V>, p: seq<V>) {
    |p| > 0 && forall i :: 0 <= i < |p| - 1 ==> Edge(g, p[i], p[i + 1])
  }

  /** By zero or more edges. */
  ghost predicate Reaches<V(!new)>(g: Digraph<V>, a: V, b: V) {
    exists p :: IsPath(g, p) && p[0] == a && p[|p| - 1] == b
  }

  /** By one or more edges. */
  ghost predicate Follows<V(!new)>(g: Digraph<V>, a: V, b: V) {
    exists c :: Edge(g, a, c) && Reaches(g, c, b)
  }

  ghost predicate Acyclic<V(!new)>(g: Digraph<V>) {
    forall v :: !Follows(g, v, v)
  }

  lemma {:induction false} ReachesSelf<V(!new)>(g: Digraph<V>, a: V)
    ensures Reaches(g, a, a)
  {
    assert IsPath(g, [a]);
  }

  lemma {:induction false} ReachesTrans<V(!new)>(g: Digraph<V>, a: V, b: V, c: V)
    requires Reaches(g, a, b) && Reaches(g, b, c)
    ensures Reaches(g, a, c)
  {
    var p :| IsPath(g, p) && p[0] == a && p[|p| - 1] == b;
    var q :| IsPath(g, q) && q[0] == b && q[|q| - 1] == c;
    var r := p + q[1..];
    forall i | 0 <= i < |r| - 1 ensures Edge(g, r[i], r[i + 1]) {
      if i < |p| - 1 { assert Edge(g, p[i], p[i + 1]); } else { assert Edge(g, q[i - |p| + 1], q[i - |p| + 2]); }
    }
    assert IsPath(g, r) && r[|r| - 1] == c;
  }

  lemma {:induction false} ReachesEdge<V(!new)>(g: Digraph<V>, a: V, b: V)
    requires Edge(g, a, b)
    ensures Reaches(g, a, b) && Follows(g, a, b)
  {
    assert IsPath(g, [a, b]);
    ReachesSelf(g, b);
  }

  /** A set closed under edges keeps what it reaches. */
  lemma {:induction false} ClosedReaches<V(!new)>(g: Digraph<V>, s: set<V>, a: V, b: V)
    requires a in s && Reaches(g, a, b)
    requires forall v, w :: v in s && Edge(g, v, w) ==> w in s
    ensures b in s
  {
    var p :| IsPath(g, p) && p[0] == a && p[|p| - 1] == b;
    var i := 0;
    while i < |p| - 1
      invariant 0 <= i < |p| && p[i] in s
    {
      assert Edge(g, p[i], p[i + 1]);
      i := i + 1;
    }
  }

  lemma {:induction false} PathExtends<V>(g: Digraph<V>, p: seq<V>, y: V)
    requires IsPath(g, p) && Edge(g, p[|p| - 1], y)
    ensures IsPath(g, p + [y])
  {
  }

  lemma {:induction false} LoopCloses<V(!new)>(g: Digraph<V>, p: seq<V>, i: nat)
    requires IsPath(g, p) && i < |p| && Edge(g, p[|p| - 1], p[i])
    ensures Follows(g, p[|p| - 1], p[|p| - 1])
  {
    var tail := p[i..];
    forall k | 0 <= k < |tail| - 1 ensures Edge(g, tail[k], tail[k + 1]) {
      assert Edge(g, p[i + k], p[i + k + 1]);
    }
    assert IsPath(g, tail) && tail[0] == p[i] && tail[|tail| - 1] == p[|p| - 1];
  }

  predicate HasNext<V>(g: Digraph<V>, s: set<V>, x: V) {
    exists y :: y in s && Edge(g, x, y)
  }

  /** In a finite set where everything has a successor inside, something follows itself. */
  lemma {:induction false} SomethingFollowsItself<V(!new)>(g: Digraph<V>, s: set<V>, p: seq<V>, visited: set<V>)
    returns (v: V)
    requires forall x {:trigger HasNext(g, s, x)} :: x in s ==> HasNext(g, s, x)
    requires IsPath(g, p) && visited <= s && forall x :: x in p <==> x in visited
    ensures v in s && Follows(g, v, v)
    decreases s - visited
  {
    var last := p[|p| - 1];
    assert last in p;
    assert HasNext(g, s, last);
    var y :| y in s && Edge(g, last, y);
    if y in p {
      var i :| 0 <= i < |p| && p[i] == y;
      LoopCloses(g, p, i);
      v := last;
    } else {
      PathExtends(g, p, y);
      v := SomethingFollowsItself(g, s, p + [y], visited + {y});
    }
  }
}
