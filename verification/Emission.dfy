/** Emission order (situc/dissector.py, with `_reaches` and `is_recursive` of situc/traverse.py):
    each struct's functions after those of everything it names, and when all of them come out. */
module Emission {
  import opened Prelude
  import opened Graph

  /** One entry of a struct: its name inside the struct, and the types its placement names. */
  datatype Entry = Entry(local: string, typeName: Option<string>, holds: Option<string>)
  {
    /** Past a bracket the name belongs to the element rather than to this struct. */
    predicate Bracketed() {
      '[' in local
    }

    function Names(): set<string> {
      (if typeName.Some? then {typeName.value} else {}) + (if holds.Some? then {holds.value} else {})
    }
  }

  type Structs = map<string, seq<Entry>>

  /** The structs one struct's own frame names. */
  function FrameTargets(structs: Structs, name: string): set<string>
    requires name in structs
  {
    set e, t | e in structs[name] && !e.Bracketed() && t in e.Names() && t in structs :: t
  }

  function FrameGraph(structs: Structs): Digraph<string> {
    map name | name in structs :: FrameTargets(structs, name)
  }

  /** One struct names another where one of its own entries does, as its type or as what it holds. */
  lemma EdgeIff(structs: Structs, a: string, b: string)
    ensures Edge(FrameGraph(structs), a, b) <==>
            && a in structs && b in structs
            && exists e :: e in structs[a] && '[' !in e.local && (e.typeName == Some(b) || e.holds == Some(b))
  {
    if a in structs && b in structs {
      if e :| e in structs[a] && '[' !in e.local && (e.typeName == Some(b) || e.holds == Some(b)) { assert b in e.Names(); }
      if b in FrameTargets(structs, a) {
        var e :| e in structs[a] && !e.Bracketed() && b in e.Names();
        assert e.typeName == Some(b) || e.holds == Some(b);
      }
    }
  }

  /** Whether a struct can contain itself. */
  ghost predicate Recursive(structs: Structs, name: string) {
    name in structs && Follows(FrameGraph(structs), name, name)
  }

  // ----- reachability, as the code computes it

  /** `_reaches`: every struct reachable from `name` through struct-typed members. */
  method ReachedFrom(structs: Structs, name: string) returns (found: set<string>)
    ensures forall t :: t in found <==> Follows(FrameGraph(structs), name, t)
  {
    hide Follows, FrameTargets;
    ghost var g := FrameGraph(structs);
    found := {};
    var queue := [name];
    while queue != []
      invariant found <= structs.Keys
      invariant forall t :: t in found ==> Follows(g, name, t)
      invariant forall q :: q in queue ==> q == name || q in found
      invariant forall x, t :: (x == name || x in found) && x !in queue && Edge(g, x, t) ==> t in found
      decreases structs.Keys - found, |queue|
    {
      var last := |queue| - 1;
      var here := queue[last];
      assert forall q :: q in queue <==> q == here || q in queue[..last];
      queue := queue[..last];
      if here in structs {
        found, queue := Discover(structs, name, here, found, queue);
      }
    }
    ClosedFollows(g, name, found);
  }

  lemma {:induction false} ClosedFollows(g: Digraph<string>, name: string, found: set<string>)
    requires forall x, t :: (x == name || x in found) && Edge(g, x, t) ==> t in found
    ensures forall t :: Follows(g, name, t) ==> t in found
  {
    forall t | Follows(g, name, t) ensures t in found {
      var c :| Edge(g, name, c) && Reaches(g, c, t);
      ClosedReaches(g, found, c, t);
    }
  }

  /** The entries of one struct, each new name found and queued. */
  method Discover(structs: Structs, ghost name: string, here: string, found: set<string>, queue: seq<string>)
    returns (found': set<string>, queue': seq<string>)
    requires here in structs && found <= structs.Keys
    requires here == name || here in found
    requires forall t :: t in found ==> Follows(FrameGraph(structs), name, t)
    ensures found <= found' <= structs.Keys && FrameTargets(structs, here) <= found'
    ensures forall t :: t in found' ==> Follows(FrameGraph(structs), name, t)
    ensures forall q :: q in queue' <==> q in queue || q in found' - found
    ensures found' == found ==> queue' == queue
  {
    hide Follows, FrameGraph;
    ghost var g := FrameGraph(structs);
    var entries := structs[here];
    found', queue' := found, queue;
    for i := 0 to |entries|
      invariant found <= found' <= structs.Keys
      invariant forall t :: t in found' ==> Follows(g, name, t)
      invariant forall q :: q in queue' <==> q in queue || q in found' - found
      invariant found' == found ==> queue' == queue
      invariant forall j, t ::
        0 <= j < i && !entries[j].Bracketed() && t in entries[j].Names() && t in structs ==> t in found'
    {
      if !entries[i].Bracketed() {
        found', queue' := Add(structs, name, here, entries[i].typeName, found', queue');
        found', queue' := Add(structs, name, here, entries[i].holds, found', queue');
      }
    }
  }

  method Add(structs: Structs, ghost name: string, ghost here: string, target: Option<string>,
             found: set<string>, queue: seq<string>)
    returns (found': set<string>, queue': seq<string>)
    requires here in structs && found <= structs.Keys
    requires target.Some? && target.value in structs ==> target.value in FrameTargets(structs, here)
    requires here == name || Follows(FrameGraph(structs), name, here)
    requires forall t :: t in found ==> Follows(FrameGraph(structs), name, t)
    ensures target.Some? && target.value in structs ==> found' == found + {target.value}
    ensures !(target.Some? && target.value in structs) ==> found' == found
    ensures queue' == if found' == found then queue else queue + [target.value]
    ensures forall t :: t in found' ==> Follows(FrameGraph(structs), name, t)
  {
    found', queue' := found, queue;
    if target.Some? && target.value in structs && target.value !in found {
      found', queue' := found + {target.value}, queue + [target.value];
      FollowsNext(FrameGraph(structs), name, here, target.value);
    }
  }

  lemma {:induction false} FollowsNext(g: Digraph<string>, name: string, here: string, t: string)
    requires here == name || Follows(g, name, here)
    requires Edge(g, here, t)
    ensures Follows(g, name, t)
  {
    ReachesEdge(g, here, t);
    if here != name {
      var c :| Edge(g, name, c) && Reaches(g, c, here);
      ReachesTrans(g, c, here, t);
    }
  }

  /** `is_recursive`. */
  method IsRecursive(structs: Structs, name: string) returns (r: bool)
    ensures r == Recursive(structs, name)
  {
    if name !in structs { return false; }
    var found := ReachedFrom(structs, name);
    return name in found;
  }

  // ----- the order

  ghost predicate AwaitedBy(structs: Structs, e: Entry) {
    e.typeName.Some? && e.typeName.value in structs && !Recursive(structs, e.typeName.value)
  }

  /** The structs whose functions have to come first: those any entry names that cannot contain
      themselves. */
  ghost function Waits(structs: Structs, name: string): set<string>
    requires name in structs
  {
    set e | e in structs[name] && AwaitedBy(structs, e) :: e.typeName.value
  }

  ghost function WaitGraph(structs: Structs): Digraph<string> {
    map name | name in structs :: Waits(structs, name)
  }

  method IsReady(structs: Structs, name: string, done: set<string>) returns (ready: bool)
    requires name in structs
    ensures ready == (Waits(structs, name) <= done)
  {
    var entries := structs[name];
    for i := 0 to |entries|
      invariant forall j ::
        0 <= j < i && AwaitedBy(structs, entries[j]) ==> entries[j].typeName.value in done
    {
      var t := entries[i].typeName;
      if t.Some? && t.value !in done && t.value in structs {
        var recursive := IsRecursive(structs, t.value);
        if !recursive {
          assert t.value in Waits(structs, name);
          return false;
        }
      }
    }
    return true;
  }

  predicate Distinct(order: seq<string>) {
    forall i, j :: 0 <= i < j < |order| ==> order[i] != order[j]
  }

  /** Everything a struct waits for is emitted before it. */
  ghost predicate InOrder(structs: Structs, order: seq<string>) {
    forall i :: 0 <= i < |order| ==>
      order[i] in structs && forall t :: t in Waits(structs, order[i]) ==> t in order[..i]
  }

  function NotIn(structs: Structs, order: seq<string>): set<string> {
    set n | n in structs && n !in order
  }

  /** Everything not emitted waits for something not emitted. */
  ghost predicate Stalled(structs: Structs, order: seq<string>) {
    var g, left := WaitGraph(structs), NotIn(structs, order);
    forall n {:trigger HasNext(g, left, n)} :: n in left ==> HasNext(g, left, n)
  }

  /** `_extent_functions`: wave after wave of the structs that are ready, until none is. */
  method Emit(structs: Structs, sorted: seq<string>) returns (order: seq<string>)
    requires Distinct(sorted) && forall n :: n in sorted <==> n in structs
    ensures Distinct(order) && InOrder(structs, order)
    ensures Stalled(structs, order)
  {
    var pending, done := sorted, {};
    order := [];
    while pending != []
      invariant Distinct(pending) && Distinct(order) && InOrder(structs, order)
      invariant forall n :: n in order <==> n in done
      invariant forall n :: n in pending <==> n in structs && n !in done
      decreases |pending|
    {
      var ready, rest := Wave(structs, pending, done);
      if ready == [] {
        forall n | n in NotIn(structs, order) ensures HasNext(WaitGraph(structs), NotIn(structs, order), n) {
          assert n in rest;
          var t :| t in Waits(structs, n) && t !in done;
          assert Edge(WaitGraph(structs), n, t);
        }
        return;
      }
      Extend(structs, order, ready, done);
      order, pending := order + ready, rest;
      done := done + (set n | n in ready);
    }
  }

  /** The pending structs that are ready, and the others, each in order. */
  method Wave(structs: Structs, pending: seq<string>, done: set<string>) returns (ready: seq<string>, rest: seq<string>)
    requires Distinct(pending) && forall n :: n in pending ==> n in structs
    ensures Distinct(ready) && Distinct(rest)
    ensures forall n :: n in ready <==> n in pending && Waits(structs, n) <= done
    ensures forall n :: n in rest <==> n in pending && !(Waits(structs, n) <= done)
    ensures |ready| + |rest| == |pending|
  {
    ready, rest := [], [];
    for i := 0 to |pending|
      invariant Distinct(ready) && Distinct(rest) && |ready| + |rest| == i
      invariant forall n :: n in ready <==> n in pending[..i] && Waits(structs, n) <= done
      invariant forall n :: n in rest <==> n in pending[..i] && !(Waits(structs, n) <= done)
    {
      assert pending[..i + 1] == pending[..i] + [pending[i]];
      var now := IsReady(structs, pending[i], done);
      if now { ready := ready + [pending[i]]; } else { rest := rest + [pending[i]]; }
    }
    assert pending[..|pending|] == pending;
  }

  lemma {:induction false} Extend(structs: Structs, order: seq<string>, ready: seq<string>, done: set<string>)
    requires Distinct(order) && Distinct(ready) && InOrder(structs, order)
    requires forall n :: n in order <==> n in done
    requires forall n :: n in ready ==> n in structs && n !in done && Waits(structs, n) <= done
    ensures Distinct(order + ready) && InOrder(structs, order + ready)
  {
    var all := order + ready;
    forall i | 0 <= i < |all|
      ensures all[i] in structs && forall t :: t in Waits(structs, all[i]) ==> t in all[..i]
    {
      if i < |order| {
        assert all[..i] == order[..i];
      } else {
        assert all[i] in ready && all[..i] == order + ready[..i - |order|];
      }
    }
    forall i, j | 0 <= i < j < |all| ensures all[i] != all[j] {
      if i < |order| <= j { assert all[i] in order && all[j] in ready; }
    }
  }

  // ----- when everything comes out

  /** No order holds a struct that waits, through others, for itself. */
  lemma {:induction false} OrderIsAcyclic(structs: Structs, order: seq<string>, i: nat, t: string)
    requires InOrder(structs, order) && Distinct(order) && i < |order|
    requires Follows(WaitGraph(structs), order[i], t)
    ensures t in order[..i]
  {
    var g := WaitGraph(structs);
    var c :| Edge(g, order[i], c) && Reaches(g, c, t);
    assert c in order[..i];
    forall v, w | v in order[..i] && Edge(g, v, w) ensures w in order[..i] {
      var k :| 0 <= k < i && order[k] == v;
      assert w in order[..k];
    }
    ClosedReaches(g, (set x | x in order[..i]), c, t);
  }

  /** Every struct is emitted exactly when no struct waits for itself. */
  lemma {:induction false} AllEmittedIff(structs: Structs, order: seq<string>)
    requires Distinct(order) && InOrder(structs, order) && Stalled(structs, order)
    ensures (forall n :: n in structs ==> n in order) <==> Acyclic(WaitGraph(structs))
  {
    var g := WaitGraph(structs);
    if forall n :: n in structs ==> n in order {
      CompleteIsAcyclic(structs, order);
    } else {
      var n :| n in structs && n !in order;
      assert IsPath(g, [n]);
      var v := SomethingFollowsItself(g, NotIn(structs, order), [n], {n});
    }
  }

  lemma {:induction false} CompleteIsAcyclic(structs: Structs, order: seq<string>)
    requires Distinct(order) && InOrder(structs, order) && forall n :: n in structs ==> n in order
    ensures Acyclic(WaitGraph(structs))
  {
    forall v ensures !Follows(WaitGraph(structs), v, v) {
      if Follows(WaitGraph(structs), v, v) {
        assert v in structs;
        var i :| 0 <= i < |order| && order[i] == v;
        OrderIsAcyclic(structs, order, i, v);
      }
    }
  }

  /** What flattening gives: whatever an entry names, bracketed or not, is also reached through
      the members of the frames themselves. */
  ghost predicate Flattened(structs: Structs) {
    forall n, e ::
      n in structs && e in structs[n] && e.typeName.Some? && e.typeName.value in structs ==>
      Follows(FrameGraph(structs), n, e.typeName.value)
  }

  lemma {:induction false} WaitsFollow(structs: Structs, p: seq<string>)
    requires Flattened(structs) && IsPath(WaitGraph(structs), p) && |p| >= 2
    ensures Follows(FrameGraph(structs), p[0], p[|p| - 1])
    ensures !Recursive(structs, p[|p| - 1])
    decreases |p|
  {
    var g, last := FrameGraph(structs), |p| - 1;
    assert Edge(WaitGraph(structs), p[last - 1], p[last]);
    assert Follows(g, p[last - 1], p[last]);
    if last > 1 {
      var q := p[..last];
      assert IsPath(WaitGraph(structs), q) by {
        forall i | 0 <= i < |q| - 1 ensures Edge(WaitGraph(structs), q[i], q[i + 1]) {
          assert Edge(WaitGraph(structs), p[i], p[i + 1]);
        }
      }
      WaitsFollow(structs, q);
      FollowsTrans(g, p[0], p[last - 1], p[last]);
    }
  }

  lemma {:induction false} FollowsTrans(g: Digraph<string>, a: string, b: string, c: string)
    requires Follows(g, a, b) && Follows(g, b, c)
    ensures Follows(g, a, c)
  {
    var x :| Edge(g, a, x) && Reaches(g, x, b);
    var y :| Edge(g, b, y) && Reaches(g, y, c);
    ReachesEdge(g, b, y);
    ReachesTrans(g, b, y, c);
    ReachesTrans(g, x, b, c);
  }

  /** On a resolved schema the loop never stalls: a stall would be a cycle of structs none of
      which can contain itself. */
  lemma {:induction false} FlattenedIsAcyclic(structs: Structs)
    requires Flattened(structs)
    ensures Acyclic(WaitGraph(structs))
  {
    var g := WaitGraph(structs);
    forall v ensures !Follows(g, v, v) {
      if Follows(g, v, v) {
        var c :| Edge(g, v, c) && Reaches(g, c, v);
        var p :| IsPath(g, p) && p[0] == c && p[|p| - 1] == v;
        var loop := [v] + p;
        forall i | 0 <= i < |loop| - 1 ensures Edge(g, loop[i], loop[i + 1]) {
          if i > 0 { assert Edge(g, p[i - 1], p[i]); }
        }
        WaitsFollow(structs, loop);
      }
    }
  }

  /** All of a resolved schema's structs, each once, each after what it names. */
  method EmitAll(structs: Structs, sorted: seq<string>) returns (order: seq<string>)
    requires Distinct(sorted) && forall n :: n in sorted <==> n in structs
    requires Flattened(structs)
    ensures Distinct(order) && forall n :: n in order <==> n in structs
    ensures forall i, e ::
      0 <= i < |order| && e in structs[order[i]] && AwaitedBy(structs, e) ==> e.typeName.value in order[..i]
  {
    order := Emit(structs, sorted);
    AllEmittedIff(structs, order);
    FlattenedIsAcyclic(structs);
  }

  /** Entries that only a bracket names are waited for and never count as containment, so
      without flattening two of them can stall everything. */
  lemma {:induction false} BracketsAloneStall()
    ensures var structs := map["a" := [Entry("x[].b", Some("b"), None)], "b" := [Entry("y[].a", Some("a"), None)]];
            InOrder(structs, []) && !Acyclic(WaitGraph(structs))
  {
    var ea, eb := Entry("x[].b", Some("b"), None), Entry("y[].a", Some("a"), None);
    var structs: Structs := map["a" := [ea], "b" := [eb]];
    assert ea.local[1] == '[' && eb.local[1] == '[';
    forall n ensures !Recursive(structs, n) {
      if n in structs { assert FrameTargets(structs, n) == {}; }
    }
    var g := WaitGraph(structs);
    assert ea in structs["a"] && AwaitedBy(structs, ea) && eb in structs["b"] && AwaitedBy(structs, eb);
    assert Edge(g, "a", "b") && Edge(g, "b", "a");
    ReachesEdge(g, "b", "a");
    assert Follows(g, "a", "a");
  }
}
