/** What a flattened schema holds (situc/namespaces.py). */
module Flattened {
  import opened Prelude
  import opened Ast
  import opened Namespaces

  /** Struct, enum, token set, varint, endian marker, codec, constant or relation: a declaration of a name. */
  predicate Declares(d: Decl, name: string) {
    match d
    case Struct(n, _, _) => n == name
    case Named(n) => n == name
    case Const(n, _) => n == name
    case Relation(n, _, _) => n == name
    case _ => false
  }

  /** The names a namespace qualifies are those its declarations declare. */
  lemma {:induction false} DeclaredIff(decls: seq<Decl>, name: string)
    ensures name in DeclaredNames(decls) <==> exists d <- decls :: Declares(d, name)
  {
    if decls != [] {
      DeclaredIff(decls[1..], name);
      assert forall d :: d in decls <==> d == decls[0] || d in decls[1..];
      assert name in DeclaredNames(decls) <==> Declares(decls[0], name) || name in DeclaredNames(decls[1..]);
    }
  }

  /** What an item puts into the schema. */
  function Count(item: Item): nat {
    if item.Plain? then 1 else |item.decls|
  }

  function Counted(items: seq<Item>): nat {
    if items == [] then 0 else Counted(items[..|items| - 1]) + Count(items[|items| - 1])
  }

  /** Where each declaration of an item comes out: as it was outside a namespace, and inside one with every
      name its namespace declares behind the namespace's own. */
  ghost predicate Holds(flat: seq<Decl>, from: nat, item: Item) {
    && from + Count(item) <= |flat|
    && (item.Plain? ==> flat[from] == item.decl)
    && (item.Block? ==> forall j :: 0 <= j < |item.decls| ==>
          flat[from + j] == Rewrite(item.decls[j], Qualified(item.namespace, DeclaredNames(item.decls))))
  }

  lemma HoldsGrown(flat: seq<Decl>, more: seq<Decl>, from: nat, item: Item)
    requires Holds(flat, from, item)
    ensures Holds(flat + more, from, item)
  {
  }

  /** Does one of the declarations declare a name? */
  ghost predicate Scopes(decls: seq<Decl>) {
    exists d <- decls, name :: Declares(d, name)
  }

  lemma {:induction false} ScopesIff(decls: seq<Decl>)
    ensures Scopes(decls) <==> DeclaredNames(decls) != {}
  {
    if Scopes(decls) {
      var d, name :| d in decls && Declares(d, name);
      DeclaredIff(decls, name);
    }
    if DeclaredNames(decls) != {} {
      var name :| name in DeclaredNames(decls);
      DeclaredIff(decls, name);
      var d :| d in decls && Declares(d, name);
    }
  }

  /** An item flattens exactly when it is no namespace that declares nothing, into its own declarations. */
  lemma {:induction false} OneIs(item: Item)
    ensures FlattenOne(item).Ok? <==> (item.Block? ==> Scopes(item.decls))
    ensures FlattenOne(item).Ok? ==> |FlattenOne(item).value| == Count(item) && Holds(FlattenOne(item).value, 0, item)
  {
    if item.Block? { ScopesIff(item.decls); }
  }

  /** A schema flattens exactly when each of its namespaces declares a name, and then holds every item's
      declarations, in order, and nothing else. */
  lemma {:induction false} FlattenedIff(items: seq<Item>)
    ensures FlattenSpec(items).Ok? <==> forall item <- items :: item.Block? ==> Scopes(item.decls)
    ensures FlattenSpec(items).Ok? ==>
              var flat := FlattenSpec(items).value;
              |flat| == Counted(items) && forall k :: 0 <= k < |items| ==> Holds(flat, Counted(items[..k]), items[k])
  {
    if items != [] {
      var k := |items| - 1;
      var init, last := items[..k], items[k];
      hide FlattenOne, Scopes, Count;
      FlattenedIff(init);
      OneIs(last);
      assert items == init + [last];
      if FlattenSpec(items).Ok? {
        var before, own := FlattenSpec(init).value, FlattenOne(last).value;
        assert FlattenSpec(items).value == before + own;
        HoldsShifted(before, own, last);
        hide Holds, FlattenSpec;
        forall i | 0 <= i < k ensures Holds(before + own, Counted(items[..i]), items[i]) {
          assert init[..i] == items[..i];
          HoldsGrown(before, own, Counted(init[..i]), init[i]);
        }
      }
    }
  }

  lemma HoldsShifted(before: seq<Decl>, own: seq<Decl>, item: Item)
    requires Holds(own, 0, item)
    ensures Holds(before + own, |before|, item)
  {
    var all := before + own;
    if item.Block? {
      forall j | 0 <= j < |item.decls|
        ensures all[|before| + j] == Rewrite(item.decls[j], Qualified(item.namespace, DeclaredNames(item.decls)))
      {
        assert own[0 + j] == Rewrite(item.decls[j], Qualified(item.namespace, DeclaredNames(item.decls)));
      }
    }
  }
}
