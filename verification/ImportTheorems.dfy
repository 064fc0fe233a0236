/** What `expand` leaves behind (situc/imports.py), on any finite graph of files, cycles included:
    exactly the reachable files, each once, each after what it imports. */
module ImportTheorems {
  import opened Prelude
  import opened Graph
  import opened Imports

  /** The directive names a file that can be read. */
  predicate Resolves(w: World, key: string, d: Decl) {
    d.Import? && Target(w, key, d).Ok? && Target(w, key, d).value in w.files
  }

  /** A file every one of whose directives resolves. */
  predicate Good(w: World, key: string) {
    key in w.files && forall d :: d in Directives(w.files[key]) ==> Resolves(w, key, d)
  }

  function Successors(w: World, key: string): set<string>
    requires key in w.files
  {
    set d | d in Directives(w.files[key]) && d.Import? && Target(w, key, d).Ok? :: Target(w, key, d).value
  }

  /** Which file names which. */
  function FileGraph(w: World): Digraph<string> {
    map key | key in w.files :: Successors(w, key)
  }

  /** Every edge out of the order leads to a file already read, to an earlier place in the
      order, or into a cycle. */
  ghost predicate Ordered(g: Digraph<string>, seen: set<string>, order: seq<string>) {
    forall i, t :: 0 <= i < |order| && Edge(g, order[i], t)
      ==> t in seen || t in order[..i] || Reaches(g, t, order[i])
  }

  predicate Distinct(order: seq<string>) {
    forall i, j :: 0 <= i < j < |order| ==> order[i] != order[j]
  }

  /** What holds of the files that arrive below `key`, given those already read. */
  ghost predicate Below(w: World, key: string, seen: set<string>, a: Arrival) {
    var g := FileGraph(w);
    && (forall x :: x in a.seen <==> x in seen || x in a.order)
    && Distinct(a.order)
    && (forall x :: x in a.order ==> x !in seen && Good(w, x) && Reaches(g, key, x))
    && (forall x, t :: x in a.order && Edge(g, x, t) ==> t in a.seen)
    && Ordered(g, seen, a.order)
  }

  lemma {:induction false} JoinOrdered(
    g: Digraph<string>, seen: set<string>, target: string, first: seq<string>, read: set<string>, rest: seq<string>)
    requires Ordered(g, seen + {target}, first)
    requires forall x :: x in first ==> Reaches(g, target, x)
    requires forall t :: Edge(g, target, t) ==> t in seen || t == target || t in first
    requires forall x :: x in read ==> x in seen || x == target || x in first
    requires Ordered(g, read, rest)
    ensures Ordered(g, seen, first + [target] + rest)
  {
    var order := first + [target] + rest;
    forall i, t | 0 <= i < |order| && Edge(g, order[i], t)
      ensures t in seen || t in order[..i] || Reaches(g, t, order[i])
    {
      if i < |first| {
        JoinOrderedFirst(g, seen, target, first, i, t);
        assert order[..i] == first[..i];
      } else if i == |first| {
        assert order[..i] == first;
        ReachesSelf(g, target);
      } else {
        assert order[..i] == first + [target] + rest[..i - |first| - 1];
      }
    }
  }

  lemma {:induction false} JoinOrderedFirst(
    g: Digraph<string>, seen: set<string>, target: string, first: seq<string>, i: nat, t: string)
    requires i < |first| && Edge(g, first[i], t)
    requires Ordered(g, seen + {target}, first)
    requires forall x :: x in first ==> Reaches(g, target, x)
    ensures t in seen || t in first[..i] || Reaches(g, t, first[i])
  {
    assert first[i] in first;
    assert Reaches(g, target, first[i]);
    assert t in seen + {target} || t in first[..i] || Reaches(g, t, first[i]);
    if t in seen + {target} && t !in seen { assert t == target; }
  }

  lemma {:induction false} JoinBelow(w: World, key: string, seen: set<string>, target: string, inner: Arrival, rest: Arrival)
    requires target !in seen && Good(w, target) && Edge(FileGraph(w), key, target)
    requires Below(w, target, seen + {target}, inner) && Below(w, key, inner.seen, rest)
    requires forall t :: Edge(FileGraph(w), target, t) ==> t in inner.seen
    ensures Below(w, key, seen, Arrival(inner.order + [target] + rest.order, rest.seen))
  {
    var g := FileGraph(w);
    var order := inner.order + [target] + rest.order;
    ReachesEdge(g, key, target);
    forall x | x in inner.order ensures Reaches(g, key, x) {
      ReachesTrans(g, key, target, x);
    }
    JoinOrdered(g, seen, target, inner.order, inner.seen, rest.order);
    JoinDistinct(inner.order, target, rest.order);
  }

  lemma JoinDistinct(first: seq<string>, target: string, rest: seq<string>)
    requires Distinct(first) && Distinct(rest) && target !in first && target !in rest
    requires forall x :: x in first ==> x !in rest
    ensures Distinct(first + [target] + rest)
  {
    var order := first + [target] + rest;
    forall i, j | 0 <= i < j < |order| ensures order[i] != order[j] {
      if i < |first| { assert order[i] in first; }
      if j > |first| { assert order[j] in rest; }
    }
  }

  /** The directives `ds` of `key` are among those it declares. */
  predicate DeclaredBy(w: World, key: string, ds: seq<Decl>) {
    key in w.files && AllImports(ds) && forall d :: d in ds ==> d in Directives(w.files[key])
  }

  lemma {:induction false} ArriveBelow(w: World, key: string, ds: seq<Decl>, seen: set<string>)
    requires DeclaredBy(w, key, ds) && seen <= w.files.Keys && Arrive(w, key, ds, seen).Ok?
    ensures Below(w, key, seen, Arrive(w, key, ds, seen).value)
    ensures forall d :: d in ds ==> Resolves(w, key, d) && Target(w, key, d).value in Arrive(w, key, ds, seen).value.seen
    decreases w.files.Keys - seen, 1, |ds|
  {
    if ds != [] {
      var g := FileGraph(w);
      var target := Target(w, key, ds[0]).value;
      assert ds[0] in ds && Edge(g, key, target);
      if target in seen {
        ArriveBelow(w, key, ds[1..], seen);
      } else {
        var inner := ArriveFile(w, target, w.files[target], seen + {target}).value;
        FileBelow(w, target, seen + {target});
        assert inner.seen <= w.files.Keys;
        ArriveBelow(w, key, ds[1..], inner.seen);
        JoinBelow(w, key, seen, target, inner, Arrive(w, key, ds[1..], inner.seen).value);
      }
      forall d | d in ds
        ensures Resolves(w, key, d) && Target(w, key, d).value in Arrive(w, key, ds, seen).value.seen
      {
        if d != ds[0] { assert d in ds[1..]; }
      }
    }
  }

  lemma {:induction false} FileBelow(w: World, key: string, seen: set<string>)
    requires key in w.files && key in seen && seen <= w.files.Keys
    requires ArriveFile(w, key, w.files[key], seen).Ok?
    ensures Below(w, key, seen, ArriveFile(w, key, w.files[key], seen).value)
    ensures Good(w, key)
    ensures forall t :: Edge(FileGraph(w), key, t) ==> t in ArriveFile(w, key, w.files[key], seen).value.seen
    decreases w.files.Keys - seen, 2
  {
    DirectivesImport(w.files[key]);
    ArriveBelow(w, key, Directives(w.files[key]), seen);
  }

  // ----- and what a refusal means

  lemma {:induction false} ArriveRefused(w: World, key: string, ds: seq<Decl>, seen: set<string>) returns (bad: string)
    requires DeclaredBy(w, key, ds) && Arrive(w, key, ds, seen).Err?
    ensures Reaches(FileGraph(w), key, bad) && !Good(w, bad)
    decreases w.files.Keys - seen, 1, |ds|
  {
    var g := FileGraph(w);
    assert ds[0] in ds;
    ReachesSelf(g, key);
    if !Resolves(w, key, ds[0]) { return key; }
    var target := Target(w, key, ds[0]).value;
    if target in seen {
      bad := ArriveRefused(w, key, ds[1..], seen);
    } else {
      var inner := ArriveFile(w, target, w.files[target], seen + {target});
      if inner.Err? {
        bad := FileRefused(w, target, seen + {target});
        ReachesEdge(g, key, target);
        ReachesTrans(g, key, target, bad);
      } else {
        bad := ArriveRefused(w, key, ds[1..], inner.value.seen);
      }
    }
  }

  lemma {:induction false} FileRefused(w: World, key: string, seen: set<string>) returns (bad: string)
    requires key in w.files && ArriveFile(w, key, w.files[key], seen).Err?
    ensures Reaches(FileGraph(w), key, bad) && !Good(w, bad)
    decreases w.files.Keys - seen, 2
  {
    var ds := Directives(w.files[key]);
    DirectivesImport(w.files[key]);
    if NeedsHome(ds) && key !in w.homes {
      var i :| 0 <= i < |ds| && !ds[i].library;
      assert ds[i] in ds && !Resolves(w, key, ds[i]);
      ReachesSelf(FileGraph(w), key);
      return key;
    }
    bad := ArriveRefused(w, key, ds, seen);
  }

  // ----- the whole compilation

  /** What `expand` computes for a schema read from `root`. */
  function Compilation(w: World, root: string): Result<Arrival, ImportError>
    requires root in w.files
  {
    ArriveFile(w, root, w.files[root], {root})
  }

  /** Expansion succeeds exactly when every reachable file's directives resolve. */
  lemma {:induction false} ExpandsIff(w: World, root: string)
    requires root in w.files
    ensures Compilation(w, root).Ok? <==> forall k :: Reaches(FileGraph(w), root, k) ==> Good(w, k)
  {
    var g := FileGraph(w);
    if Compilation(w, root).Ok? {
      FileBelow(w, root, {root});
      forall k | Reaches(g, root, k) ensures Good(w, k) {
        ClosedReaches(g, Compilation(w, root).value.seen, root, k);
      }
    } else {
      var bad := FileRefused(w, root, {root});
    }
  }

  /** The files read are the reachable ones; each is spliced in once, the root last; and a
      file comes after every file it names, cycles aside. */
  lemma {:induction false} ExpandsTo(w: World, root: string)
    requires root in w.files && Compilation(w, root).Ok?
    ensures var a := Compilation(w, root).value;
            var order := a.order + [root];
            && (forall k :: k in a.seen <==> Reaches(FileGraph(w), root, k))
            && (forall k :: k in order <==> k in a.seen)
            && Distinct(order)
            && (forall i, t :: 0 <= i < |order| && Edge(FileGraph(w), order[i], t)
                  ==> t in order[..i] || Reaches(FileGraph(w), t, order[i]))
  {
    var g := FileGraph(w);
    var a := Compilation(w, root).value;
    var order := a.order + [root];
    FileBelow(w, root, {root});
    forall k ensures k in a.seen <==> Reaches(g, root, k) {
      if Reaches(g, root, k) { ClosedReaches(g, a.seen, root, k); }
      if k in a.seen && k !in a.order { ReachesSelf(g, root); }
    }
    JoinDistinct(a.order, root, []);
    assert order + [] == order;
    forall i, t | 0 <= i < |order| && Edge(g, order[i], t)
      ensures t in order[..i] || Reaches(g, t, order[i])
    {
      if i < |a.order| {
        assert order[..i] == a.order[..i];
      } else {
        assert order[..i] == a.order;
        if t == root { ReachesSelf(g, root); }
      }
    }
  }

  /** Where no file follows itself, every file's declarations come after those of all the
      files it names. */
  lemma {:induction false} AcyclicOrder(w: World, root: string, i: nat, t: string)
    requires root in w.files && Compilation(w, root).Ok? && Acyclic(FileGraph(w))
    requires var order := Compilation(w, root).value.order + [root];
             i < |order| && Edge(FileGraph(w), order[i], t)
    ensures var order := Compilation(w, root).value.order + [root];
            t in order[..i]
  {
    ExpandsTo(w, root);
    var order := Compilation(w, root).value.order + [root];
    if Reaches(FileGraph(w), t, order[i]) {
      assert Follows(FileGraph(w), order[i], order[i]);
    }
  }

  /** What arriving at the root comes to, in the terms a caller sees. */
  lemma {:induction false} SchemaIs(w: World, root: string)
    requires root in w.files
    ensures var spec := ArriveFile(w, root, w.files[root], {root});
            && Compilation(w, root) == spec
            && (spec.Ok? <==> forall k :: Reaches(FileGraph(w), root, k) ==> Good(w, k))
            && (spec.Ok? ==> Spliced(w, spec.value.order + [root]) == Spliced(w, spec.value.order) + Own(w.files[root]))
            && (spec.Ok? ==> forall k :: k in spec.value.seen <==> Reaches(FileGraph(w), root, k))
  {
    hide Spliced, Good, FileGraph, Own, ArriveFile;
    ExpandsIff(w, root);
    if Compilation(w, root).Ok? {
      ExpandsTo(w, root);
      RootSpliced(w, Compilation(w, root).value.order, root);
    }
  }

  lemma RootSpliced(w: World, order: seq<string>, root: string)
    requires root in w.files
    ensures Spliced(w, order + [root]) == Spliced(w, order) + Own(w.files[root])
  {
    hide Own;
    SplicedConcat(w, order, [root]);
    assert [root][1..] == [];
  }

  /** `expand` on a schema read from `root`, in the terms a caller sees: the merged schema is
      the own declarations of the reachable files, each file's once. */
  method ExpandSchema(w: World, root: string) returns (r: Result<seq<Decl>, ImportError>, read: set<string>)
    requires root in w.files
    ensures r.Ok? <==> forall k :: Reaches(FileGraph(w), root, k) ==> Good(w, k)
    ensures r.Ok? ==> Compilation(w, root).Ok? && r.value == Spliced(w, Compilation(w, root).value.order + [root])
    ensures r.Ok? ==> forall k :: k in read <==> Reaches(FileGraph(w), root, k)
  {
    hide *;
    SchemaIs(w, root);
    var schema := new Schema(w.files[root]);
    var seen := new Seen({root});
    var done := Expand(w, schema, root, seen);
    read := seen.keys;
    if done.Err? {
      return Err(done.error), read;
    }
    r := Ok(schema.decls);
  }

  // ----- what a file declares and where it looks

  /** A file's own declarations are those that import nothing, in their order: each alone, and so all of them. */
  lemma {:induction false} OwnIs(a: seq<Decl>, b: seq<Decl>)
    ensures Own(a + b) == Own(a) + Own(b)
  {
    if a == [] {
      assert a + b == b;
    } else {
      OwnIs(a[1..], b);
      var first := if a[0].Import? then [] else [a[0]];
      assert (a + b)[0] == a[0] && (a + b)[1..] == a[1..] + b;
      assert first + (Own(a[1..]) + Own(b)) == (first + Own(a[1..])) + Own(b);
    }
  }

  lemma OwnOne(d: Decl)
    ensures Own([d]) == if d.Import? then [] else [d]
  {
    assert [d][1..] == [];
  }

  /** The directory a directive is resolved against: the library's, whoever imports, or the importing file's own. */
  lemma TargetIff(w: World, key: string, d: Decl)
    requires d.Import?
    ensures Target(w, key, d) == Err(NoLibrary) <==> d.library && w.libraryRoot.None?
    ensures Target(w, key, d) == Err(NoHome) <==> !d.library && key !in w.homes
    ensures Target(w, key, d) != Err(Unreadable)
    ensures Target(w, key, d).Ok? ==>
            exists dir :: Target(w, key, d) == Ok(w.join(dir, d.path)) &&
                          if d.library then w.libraryRoot == Some(dir) else key in w.homes && w.homes[key] == dir
  {
  }
}
