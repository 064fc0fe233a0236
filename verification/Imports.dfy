/** `import` expansion (situc/imports.py): a depth-first splice with a shared, growing set of
    the files already read. */
module Imports {
  import opened Prelude
  import opened Graph

  datatype Decl = Import(library: bool, path: string) | Other(text: string)

  /** What the file system answers. `files` gives each readable file's declarations under its
      resolved path; `homes` the directory of each source that came from a file. */
  datatype World = World(
    files: map<string, seq<Decl>>,
    libraryRoot: Option<string>,
    homes: map<string, string>,
    join: (string, string) -> string)

  datatype ImportError = NoLibrary | NoHome | Unreadable

  /** The schema whose `decls` expansion overwrites in place. */
  class Schema {
    var decls: seq<Decl>

    constructor (decls: seq<Decl>)
      ensures this.decls == decls
    {
      this.decls := decls;
    }
  }

  /** The set every recursive call shares. */
  class Seen {
    var keys: set<string>

    constructor (keys: set<string>)
      ensures this.keys == keys
    {
      this.keys := keys;
    }
  }

  function Directives(decls: seq<Decl>): seq<Decl> {
    if decls == [] then []
    else (if decls[0].Import? then [decls[0]] else []) + Directives(decls[1..])
  }

  /** A file's own declarations. */
  function Own(decls: seq<Decl>): seq<Decl> {
    if decls == [] then []
    else (if decls[0].Import? then [] else [decls[0]]) + Own(decls[1..])
  }

  predicate NeedsHome(directives: seq<Decl>) {
    exists i :: 0 <= i < |directives| && directives[i].Import? && !directives[i].library
  }

  /** The resolved path one directive of one file names. */
  function Target(w: World, key: string, d: Decl): Result<string, ImportError>
    requires d.Import?
  {
    if d.library then
      if w.libraryRoot.None? then Err(NoLibrary) else Ok(w.join(w.libraryRoot.value, d.path))
    else if key !in w.homes then Err(NoHome)
    else Ok(w.join(w.homes[key], d.path))
  }

  predicate AllImports(ds: seq<Decl>) {
    forall i :: 0 <= i < |ds| ==> ds[i].Import?
  }

  /** The files spliced in, in order, and every file read so far. */
  datatype Arrival = Arrival(order: seq<string>, seen: set<string>)

  /** The files one list of directives brings in. */
  function Arrive(w: World, key: string, ds: seq<Decl>, seen: set<string>): (r: Result<Arrival, ImportError>)
    requires AllImports(ds)
    ensures r.Ok? ==> seen <= r.value.seen
    decreases w.files.Keys - seen, 1, |ds|
  {
    if ds == [] then Ok(Arrival([], seen))
    else
      var target :- Target(w, key, ds[0]);
      if target in seen then Arrive(w, key, ds[1..], seen)
      else if target !in w.files then Err(Unreadable)
      else
        var inner :- ArriveFile(w, target, w.files[target], seen + {target});
        var rest :- Arrive(w, key, ds[1..], inner.seen);
        Ok(Arrival(inner.order + [target] + rest.order, rest.seen))
  }

  /** The files one file brings in, itself aside. */
  function ArriveFile(w: World, key: string, decls: seq<Decl>, seen: set<string>): (r: Result<Arrival, ImportError>)
    ensures r.Ok? ==> seen <= r.value.seen
    decreases w.files.Keys - seen, 2
  {
    DirectivesImport(decls);
    var ds := Directives(decls);
    if NeedsHome(ds) && key !in w.homes then Err(NoHome) else Arrive(w, key, ds, seen)
  }

  lemma {:induction false} DirectivesImport(decls: seq<Decl>)
    ensures AllImports(Directives(decls))
  {
    if decls != [] { DirectivesImport(decls[1..]); }
  }

  /** The own declarations of each file in turn. */
  function Spliced(w: World, order: seq<string>): seq<Decl> {
    if order == [] then []
    else (if order[0] in w.files then Own(w.files[order[0]]) else []) + Spliced(w, order[1..])
  }

  lemma {:induction false} SplicedConcat(w: World, a: seq<string>, b: seq<string>)
    ensures Spliced(w, a + b) == Spliced(w, a) + Spliced(w, b)
  {
    if a == [] {
      assert a + b == b;
    } else {
      assert (a + b)[1..] == a[1..] + b;
      SplicedConcat(w, a[1..], b);
    }
  }

  /** `expand`: replace every import in `schema` by what the named file declares. */
  method Expand(w: World, schema: Schema, key: string, seen: Seen) returns (r: Result<(), ImportError>)
    modifies schema, seen
    ensures var spec := ArriveFile(w, key, old(schema.decls), old(seen.keys));
            match r
            case Err(why) => spec == Err(why) && schema.decls == old(schema.decls)
            case Ok(_) =>
              && spec.Ok? && seen.keys == spec.value.seen
              && schema.decls == Spliced(w, spec.value.order) + Own(old(schema.decls))
    decreases w.files.Keys - seen.keys
  {
    hide Spliced, Own, Target;
    NothingSpliced(w);
    ghost var before := seen.keys;
    ghost var spec := ArriveFile(w, key, schema.decls, seen.keys);
    var directives := Directives(schema.decls);
    DirectivesImport(schema.decls);
    if directives == [] {
      NoDirectives(schema.decls);
      assert [] + schema.decls == schema.decls;
      return Ok(());
    }
    if NeedsHome(directives) && key !in w.homes {
      return Err(NoHome);
    }
    var arrived: seq<Decl> := [];
    ghost var order: seq<string> := [];
    assert directives[0..] == directives;
    ResumesAtOnce(spec);
    for i := 0 to |directives|
      invariant before <= seen.keys
      invariant schema.decls == old(schema.decls)
      invariant arrived == Spliced(w, order)
      invariant Resumes(spec, order, Arrive(w, key, directives[i..], seen.keys))
      modifies seen
    {
      assert directives[i..][1..] == directives[i + 1..];
      var target := Target(w, key, directives[i]);
      if target.Err? { return Err(target.error); }
      if target.value in seen.keys { continue; }
      if target.value !in w.files { return Err(Unreadable); }
      seen.keys := seen.keys + {target.value};
      ghost var file := ArriveFile(w, target.value, w.files[target.value], seen.keys);
      var inner := new Schema(w.files[target.value]);
      var done := Expand(w, inner, target.value, seen);
      if done.Err? { return Err(done.error); }
      arrived := arrived + inner.decls;
      SplicedFile(w, order, file.value.order, target.value);
      ResumesAfter(spec, order, file.value.order + [target.value], Arrive(w, key, directives[i + 1..], seen.keys));
      order := order + (file.value.order + [target.value]);
    }
    assert directives[|directives|..] == [];
    assert order + [] == order;
    schema.decls := arrived + Own(schema.decls);
    return Ok(());
  }

  lemma NothingSpliced(w: World)
    ensures Spliced(w, []) == []
  {
  }

  /** Is `spec` what is left to arrive, after what has? */
  predicate Resumes(spec: Result<Arrival, ImportError>, order: seq<string>, rest: Result<Arrival, ImportError>) {
    match rest
    case Err(why) => spec == Err(why)
    case Ok(a) => spec == Ok(Arrival(order + a.order, a.seen))
  }

  lemma ResumesAtOnce(spec: Result<Arrival, ImportError>)
    ensures Resumes(spec, [], spec)
  {
    if spec.Ok? { assert [] + spec.value.order == spec.value.order; }
  }

  lemma ResumesAfter(
    spec: Result<Arrival, ImportError>, order: seq<string>, more: seq<string>, rest: Result<Arrival, ImportError>)
    requires match rest
             case Err(why) => spec == Err(why)
             case Ok(a) => spec == Ok(Arrival(order + (more + a.order), a.seen))
    ensures Resumes(spec, order + more, rest)
  {
    if rest.Ok? { assert order + more + rest.value.order == order + (more + rest.value.order); }
  }

  lemma SplicedFile(w: World, order: seq<string>, inner: seq<string>, target: string)
    requires target in w.files
    ensures Spliced(w, order + (inner + [target])) ==
            Spliced(w, order) + (Spliced(w, inner) + Own(w.files[target]))
  {
    SplicedConcat(w, order, inner + [target]);
    SplicedConcat(w, inner, [target]);
    assert [target][1..] == [];
  }

  lemma {:induction false} NoDirectives(decls: seq<Decl>)
    requires Directives(decls) == []
    ensures Own(decls) == decls
  {
    if decls != [] {
      NoDirectives(decls[1..]);
      assert decls == [decls[0]] + decls[1..];
    }
  }
}
