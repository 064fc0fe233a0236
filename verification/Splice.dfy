/** Setting constants from outside (situc/cli.py, `apply_defines`): edits to a source, made back to
    front at the spans of the values they replace. */
module Splice {
  import opened Prelude

  /** `text[start..end]` is to become `with`. */
  datatype Edit = Edit(start: nat, end: nat, put: string)

  datatype Refusal = NotADefine | Elsewhere | NotDeclared | NotAnInteger

  /** What the schema says of a constant: where its value is written, or that another file holds it. */
  datatype Declared = Here(start: nat, end: nat) | InAnotherFile

  // ----- the flags

  /** `str.partition("=")`, or None where there is no `=`. */
  function Partition(entry: string): Option<(string, string)> {
    if entry == "" then None
    else if entry[0] == '=' then Some(("", entry[1..]))
    else match Partition(entry[1..])
      case None => None
      case Some((name, value)) => Some(([entry[0]] + name, value))
  }

  lemma {:induction false} PartitionIs(entry: string)
    ensures Partition(entry).None? <==> '=' !in entry
    ensures Partition(entry).Some? ==>
              entry == Partition(entry).value.0 + "=" + Partition(entry).value.1 && '=' !in Partition(entry).value.0
  {
    if entry != "" {
      assert entry == [entry[0]] + entry[1..];
      PartitionIs(entry[1..]);
    }
  }

  function Digits(n: nat): string {
    if n < 10 then [('0' as int + n) as char] else Digits(n / 10) + [('0' as int + n % 10) as char]
  }

  /** `str(value)` */
  function Written(v: int): string {
    if v < 0 then "-" + Digits(-v) else Digits(v)
  }

  /** One flag. `read` is `int(text, 0)`. */
  function EditFor(entry: string, declared: map<string, Declared>, read: string -> Option<int>): Result<Edit, Refusal> {
    match Partition(entry)
    case None => Err(NotADefine)
    case Some((name, text)) =>
      if name == "" then Err(NotADefine)
      else if name !in declared then Err(NotDeclared)
      else
        match declared[name]
        case InAnotherFile => Err(Elsewhere)
        case Here(start, end) =>
          match read(text)
          case None => Err(NotAnInteger)
          case Some(v) => Ok(Edit(start, end, Written(v)))
  }

  function EditsFor(entries: seq<string>, declared: map<string, Declared>,
                    read: string -> Option<int>): Result<seq<Edit>, Refusal> {
    if entries == [] then Ok([])
    else
      var before :- EditsFor(entries[..|entries| - 1], declared, read);
      var e :- EditFor(entries[|entries| - 1], declared, read);
      Ok(before + [e])
  }

  // ----- sorted, from the back

  /** The order of Python's strings. */
  predicate Below(a: string, b: string) {
    if b == "" then false
    else if a == "" then true
    else a[0] < b[0] || (a[0] == b[0] && Below(a[1..], b[1..]))
  }

  /** `a < b` on the tuples. */
  predicate Less(a: Edit, b: Edit) {
    a.start < b.start || (a.start == b.start && (a.end < b.end || (a.end == b.end && Below(a.put, b.put))))
  }

  function Insert(e: Edit, edits: seq<Edit>): seq<Edit> {
    if edits == [] || Less(edits[0], e) then [e] + edits else [edits[0]] + Insert(e, edits[1..])
  }

  /** `sorted(edits, reverse=True)` */
  function Descending(edits: seq<Edit>): seq<Edit> {
    if edits == [] then [] else Insert(edits[0], Descending(edits[1..]))
  }

  // ----- the splice

  predicate Within(edits: seq<Edit>, text: string) {
    forall i :: 0 <= i < |edits| ==> edits[i].start <= edits[i].end <= |text|
  }

  /** `s[start:]` and `s[:start]`, which Python clips. */
  function From(s: string, start: nat): string {
    if start <= |s| then s[start..] else ""
  }

  function UpTo(s: string, end: nat): string {
    if end <= |s| then s[..end] else s
  }

  function Make(text: string, e: Edit): string {
    UpTo(text, e.start) + e.put + From(text, e.end)
  }

  function MakeAll(text: string, edits: seq<Edit>): string {
    if edits == [] then text else Make(MakeAll(text, edits[..|edits| - 1]), edits[|edits| - 1])
  }

  /** A flag that is refused refuses the ones after it too. */
  lemma {:induction false} RefusedEarly(entries: seq<string>, k: nat, declared: map<string, Declared>,
                                        read: string -> Option<int>)
    requires k <= |entries| && EditsFor(entries[..k], declared, read).Err?
    ensures EditsFor(entries, declared, read) == EditsFor(entries[..k], declared, read)
  {
    if k == |entries| {
      assert entries[..k] == entries;
    } else {
      assert entries[..|entries| - 1][..k] == entries[..k];
      RefusedEarly(entries[..|entries| - 1], k, declared, read);
    }
  }

  /** What the flags make of a source. */
  function Applied(text: string, entries: seq<string>, declared: map<string, Declared>, read: string -> Option<int>)
      : Result<string, Refusal>
  {
    var edits :- EditsFor(entries, declared, read);
    Ok(MakeAll(text, Descending(edits)))
  }

  /** `apply_defines` */
  method ApplyDefines(text: string, entries: seq<string>, declared: map<string, Declared>, read: string -> Option<int>)
      returns (r: Result<string, Refusal>)
    ensures r == Applied(text, entries, declared, read)
  {
    hide EditFor, Descending, Make;
    var edits: seq<Edit> := [];
    for i := 0 to |entries|
      invariant EditsFor(entries[..i], declared, read) == Ok(edits)
    {
      assert entries[..i + 1][..i] == entries[..i];
      var made := EditFor(entries[i], declared, read);
      if made.Err? {
        RefusedEarly(entries, i + 1, declared, read);
        return Err(made.error);
      }
      edits := edits + [made.value];
    }
    assert entries[..|entries|] == entries;
    var sorted := Descending(edits);
    var rewritten := text;
    for i := 0 to |sorted|
      invariant rewritten == MakeAll(text, sorted[..i])
    {
      assert sorted[..i + 1][..i] == sorted[..i];
      rewritten := Make(rewritten, sorted[i]);
    }
    assert sorted[..|sorted|] == sorted;
    return Ok(rewritten);
  }

  // ----- simultaneous substitution

  /** From the back: each edit's span ends before the one before it starts. */
  predicate Falling(edits: seq<Edit>) {
    forall i, j :: 0 <= i < j < |edits| ==> edits[j].end <= edits[i].start
  }

  lemma RestWithin(text: string, edits: seq<Edit>)
    requires Within(edits, text) && Falling(edits) && edits != []
    ensures Within(edits[1..], text[..edits[0].start]) && Falling(edits[1..])
  {
  }

  /** Every span of the original replaced at once. */
  function Substituted(text: string, edits: seq<Edit>): string
    requires Within(edits, text) && Falling(edits)
    decreases |edits|
  {
    if edits == [] then text
    else
      RestWithin(text, edits);
      Substituted(text[..edits[0].start], edits[1..]) + edits[0].put + text[edits[0].end..]
  }

  /** Positions of the original move by what the edits before them added. */
  function Shift(edits: seq<Edit>, p: nat): int
    decreases |edits|
  {
    if edits == [] then 0
    else Shift(edits[1..], p) + (if edits[0].end <= p then |edits[0].put| - (edits[0].end - edits[0].start) else 0)
  }

  lemma {:induction false} ShiftPast(edits: seq<Edit>, p: nat, q: nat)
    requires forall i :: 0 <= i < |edits| ==> edits[i].end <= p && edits[i].end <= q
    ensures Shift(edits, p) == Shift(edits, q)
    decreases |edits|
  {
    if edits != [] { ShiftPast(edits[1..], p, q); }
  }

  predicate Outside(edits: seq<Edit>, p: nat) {
    forall i :: 0 <= i < |edits| ==> p < edits[i].start || edits[i].end <= p
  }

  lemma {:induction false} SubstitutedLength(text: string, edits: seq<Edit>)
    requires Within(edits, text) && Falling(edits)
    ensures |Substituted(text, edits)| == |text| + Shift(edits, |text|)
    decreases |edits|
  {
    if edits != [] {
      RestWithin(text, edits);
      SubstitutedLength(text[..edits[0].start], edits[1..]);
      ShiftPast(edits[1..], |text|, edits[0].start);
    }
  }

  /** Every character outside the spans is kept, as far along as the edits before it put it. */
  lemma {:induction false} KeepsOutside(text: string, edits: seq<Edit>, p: nat)
    requires Within(edits, text) && Falling(edits) && p < |text| && Outside(edits, p)
    ensures var s := Substituted(text, edits); 0 <= p + Shift(edits, p) < |s| && s[p + Shift(edits, p)] == text[p]
    decreases |edits|
  {
    if edits != [] {
      RestWithin(text, edits);
      var head, rest := text[..edits[0].start], edits[1..];
      SubstitutedLength(head, rest);
      assert forall i :: 0 <= i < |rest| ==> rest[i] == edits[i + 1];
      if p < edits[0].start { KeepsOutside(head, rest, p); } else { ShiftPast(rest, p, |head|); }
    }
  }

  predicate StandsAt(s: string, at: int, put: string) {
    0 <= at && at + |put| <= |s| && s[at..at + |put|] == put
  }

  lemma StillStands(s: string, more: string, at: int, put: string)
    requires StandsAt(s, at, put)
    ensures StandsAt(s + more, at, put)
  {
  }

  lemma StandsBetween(before: string, put: string, after: string)
    ensures StandsAt(before + put + after, |before|, put)
  {
  }

  /** Each replacement stands where its span was. */
  lemma {:induction false} PutsInside(text: string, edits: seq<Edit>, i: nat)
    requires Within(edits, text) && Falling(edits) && i < |edits|
    ensures StandsAt(Substituted(text, edits), edits[i].start + Shift(edits[i + 1..], edits[i].start), edits[i].put)
    decreases |edits|
  {
    hide StandsAt, Shift;
    RestWithin(text, edits);
    var head, rest := text[..edits[0].start], edits[1..];
    var made, tail := Substituted(head, rest), text[edits[0].end..];
    if i > 0 {
      PutsInside(head, rest, i - 1);
      assert rest[i..] == edits[i + 1..] && rest[i - 1] == edits[i];
      StillStands(made, edits[0].put + tail, edits[i].start + Shift(edits[i + 1..], edits[i].start), edits[i].put);
      assert made + edits[0].put + tail == made + (edits[0].put + tail);
    } else {
      SubstitutedLength(head, rest);
      StandsBetween(made, edits[0].put, tail);
    }
  }

  // ----- back to front is at once

  lemma {:induction false} MakeAllFirst(text: string, edits: seq<Edit>)
    requires edits != []
    ensures MakeAll(text, edits) == MakeAll(Make(text, edits[0]), edits[1..])
    decreases |edits|
  {
    hide Make;
    var init := edits[..|edits| - 1];
    if init == [] {
      assert MakeAll(text, init) == text && MakeAll(Make(text, edits[0]), edits[1..]) == Make(text, edits[0]);
    } else {
      MakeAllFirst(text, init);
      var rest := edits[1..];
      assert rest[..|rest| - 1] == init[1..] && rest[|rest| - 1] == edits[|edits| - 1];
      assert MakeAll(Make(text, edits[0]), rest) == Make(MakeAll(Make(text, edits[0]), init[1..]), edits[|edits| - 1]);
    }
  }

  /** Edits to the head of a text leave its tail alone, and all of the head before the last of them. */
  lemma {:induction false} TailKept(head: string, tail: string, edits: seq<Edit>)
    requires Within(edits, head) && Falling(edits)
    ensures MakeAll(head + tail, edits) == MakeAll(head, edits) + tail
    ensures edits != [] ==> |MakeAll(head, edits)| >= edits[|edits| - 1].start
    decreases |edits|
  {
    if edits != [] {
      var init, last := edits[..|edits| - 1], edits[|edits| - 1];
      TailKept(head, tail, init);
      var made := MakeAll(head, init);
      assert last.end <= |made|;
      assert (made + tail)[..last.start] == made[..last.start];
      assert (made + tail)[last.end..] == made[last.end..] + tail;
    }
  }

  lemma MakeSplits(text: string, e: Edit)
    requires e.start <= e.end <= |text|
    ensures Make(text, e) == text[..e.start] + (e.put + text[e.end..])
  {
  }

  /** Made from the back, disjoint edits do what replacing every span of the original at once does. */
  lemma {:induction false} BackToFrontIsAtOnce(text: string, edits: seq<Edit>)
    requires Within(edits, text) && Falling(edits)
    ensures MakeAll(text, edits) == Substituted(text, edits)
    decreases |edits|
  {
    hide Make, Falling;
    if edits != [] {
      RestWithin(text, edits);
      var head, rest, put, tail := text[..edits[0].start], edits[1..], edits[0].put, text[edits[0].end..];
      MakeSplits(text, edits[0]);
      MakeAllFirst(text, edits);
      TailKept(head, put + tail, rest);
      BackToFrontIsAtOnce(head, rest);
      assert Substituted(head, rest) + put + tail == Substituted(head, rest) + (put + tail);
    }
  }

  // ----- the order of the flags

  predicate Apart(x: Edit, y: Edit) {
    x.end <= y.start || y.end <= x.start
  }

  /** No two edits share a character, none is empty and none is there twice. */
  ghost predicate Disjoint(edits: seq<Edit>) {
    && (forall x :: multiset(edits)[x] <= 1)
    && (forall x :: x in edits ==> x.start < x.end)
    && (forall x, y :: x in edits && y in edits && x != y ==> Apart(x, y))
  }

  lemma {:induction false} InsertKeeps(e: Edit, edits: seq<Edit>)
    ensures multiset(Insert(e, edits)) == multiset(edits) + multiset{e}
    ensures |Insert(e, edits)| == |edits| + 1
    ensures forall x :: x in Insert(e, edits) <==> x == e || x in edits
    decreases |edits|
  {
    if edits != [] && !Less(edits[0], e) {
      InsertKeeps(e, edits[1..]);
      assert edits == [edits[0]] + edits[1..];
    }
  }

  lemma PrependFalls(x: Edit, edits: seq<Edit>)
    requires Falling(edits) && forall y :: y in edits ==> y.end <= x.start
    ensures Falling([x] + edits)
  {
    assert forall k :: 0 <= k < |edits| ==> edits[k] in edits;
  }

  /** All that follows the first of edits that run from the back ends before it starts. */
  lemma FollowsFirst(edits: seq<Edit>, y: Edit)
    requires Falling(edits) && edits != [] && y in edits
    ensures y == edits[0] || y.end <= edits[0].start
    ensures Falling(edits[1..]) && (y in edits[1..] ==> y.end <= edits[0].start)
  {
  }

  lemma {:induction false} InsertFalls(e: Edit, edits: seq<Edit>)
    requires Falling(edits) && e.start < e.end
    requires forall x :: x in edits ==> x.start < x.end && Apart(x, e)
    ensures Falling(Insert(e, edits))
    decreases |edits|
  {
    hide Falling;
    if edits == [] {
      NoneFall();
      PrependFalls(e, []);
    } else {
      assert edits[0] in edits && forall y :: y in edits[1..] ==> y in edits;
      FollowsFirst(edits, edits[0]);
      if Less(edits[0], e) {
        forall y | y in edits ensures y.end <= e.start { FollowsFirst(edits, y); }
        PrependFalls(e, edits);
      } else {
        InsertFalls(e, edits[1..]);
        InsertKeeps(e, edits[1..]);
        forall y | y in Insert(e, edits[1..]) ensures y.end <= edits[0].start {
          if y != e { FollowsFirst(edits, y); }
        }
        PrependFalls(edits[0], Insert(e, edits[1..]));
      }
    }
  }

  lemma {:induction false} DisjointRest(edits: seq<Edit>)
    requires edits != [] && Disjoint(edits)
    ensures Disjoint(edits[1..]) && edits[0].start < edits[0].end
    ensures forall x :: x in edits[1..] ==> x.start < x.end && Apart(x, edits[0])
  {
    hide Apart;
    var e, rest := edits[0], edits[1..];
    assert edits == [e] + rest && e in edits;
    assert multiset(edits) == multiset{e} + multiset(rest);
    assert forall x :: multiset(rest)[x] <= multiset(edits)[x];
    assert multiset(edits)[e] == 1 + multiset(rest)[e];
    assert e !in multiset(rest);
    forall x | x in rest ensures x in edits && x != e {
      assert x in multiset(rest);
    }
  }

  /** Sorted in reverse, disjoint edits run from the back. */
  lemma {:induction false} DescendingFalls(edits: seq<Edit>)
    requires Disjoint(edits)
    ensures Falling(Descending(edits)) && multiset(Descending(edits)) == multiset(edits)
    decreases |edits|
  {
    hide Apart, Disjoint, Falling, Insert;
    if edits == [] {
      assert Falling(Descending(edits)) by { NoneFall(); }
    } else {
      var rest := edits[1..];
      assert edits == [edits[0]] + rest;
      DisjointRest(edits);
      DescendingFalls(rest);
      InsertKeeps(edits[0], Descending(rest));
      forall x | x in Descending(rest) ensures x in rest {
        assert x in multiset(Descending(rest));
      }
      InsertFalls(edits[0], Descending(rest));
    }
  }

  lemma NoneFall()
    ensures Falling([])
  {
  }

  /** The first of edits that run from the back ends last. */
  lemma {:induction false} FirstEndsLast(edits: seq<Edit>, x: Edit)
    requires Falling(edits) && x in edits && edits[0].start < edits[0].end
    ensures x == edits[0] || x.end < edits[0].end
  {
  }

  lemma {:induction false} FallingUnique(a: seq<Edit>, b: seq<Edit>)
    requires Falling(a) && Falling(b) && multiset(a) == multiset(b)
    requires forall x :: x in a ==> x.start < x.end
    ensures a == b
    decreases |a|
  {
    hide Falling;
    SameLength(a, b);
    if a != [] {
      FirstsAgree(a, b);
      RestFalls(a);
      RestFalls(b);
      FallingUnique(a[1..], b[1..]);
      assert a == [a[0]] + a[1..] && b == [b[0]] + b[1..];
    }
  }

  lemma SameLength(a: seq<Edit>, b: seq<Edit>)
    requires multiset(a) == multiset(b)
    ensures |a| == |b|
  {
    assert |a| == |multiset(a)| && |b| == |multiset(b)|;
  }

  lemma FirstsAgree(a: seq<Edit>, b: seq<Edit>)
    requires a != [] && b != [] && Falling(a) && Falling(b) && multiset(a) == multiset(b)
    requires forall x :: x in a ==> x.start < x.end
    ensures a[0] == b[0]
  {
    hide Falling;
    assert a[0] in multiset(b) && b[0] in multiset(a);
    assert a[0] in b && b[0] in a;
    FirstEndsLast(a, b[0]);
    FirstEndsLast(b, a[0]);
  }

  lemma {:induction false} RestFalls(a: seq<Edit>)
    requires Falling(a) && a != []
    ensures Falling(a[1..]) && multiset(a[1..]) == multiset(a) - multiset{a[0]} && forall x :: x in a[1..] ==> x in a
  {
    assert a == [a[0]] + a[1..];
  }

  /** Edits apart: made from the back they replace every span at once, whatever order they came in. */
  lemma {:induction false} EditsCommute(text: string, edits: seq<Edit>, others: seq<Edit>)
    requires Within(edits, text) && Disjoint(edits) && multiset(edits) == multiset(others)
    ensures var falling := Descending(edits);
            && Falling(falling) && Within(falling, text) && multiset(falling) == multiset(edits)
            && MakeAll(text, falling) == MakeAll(text, Descending(others)) == Substituted(text, falling)
  {
    hide Falling, MakeAll, Substituted, Descending;
    SameMembers(edits, others);
    DescendingFalls(edits);
    DescendingFalls(others);
    var falling := Descending(edits);
    SameMembers(edits, falling);
    FallingUnique(falling, Descending(others));
    forall i | 0 <= i < |falling| ensures falling[i].start <= falling[i].end <= |text| {
      assert falling[i] in edits;
    }
    BackToFrontIsAtOnce(text, falling);
  }

  lemma {:induction false} SameMembers(a: seq<Edit>, b: seq<Edit>)
    requires multiset(a) == multiset(b) && Disjoint(a)
    ensures Disjoint(b) && forall x :: x in b <==> x in a
  {
    hide Apart;
    forall x ensures x in b <==> x in a {
      assert x in multiset(a) <==> x in multiset(b);
    }
  }

  // ----- flags for different constants

  /** No constant is set twice. */
  ghost predicate SetOnce(entries: seq<string>) {
    && (forall e :: multiset(entries)[e] <= 1)
    && forall d, e :: d in entries && e in entries && d != e && Partition(d).Some? && Partition(e).Some? ==>
         Partition(d).value.0 != Partition(e).value.0
  }

  /** The values of this file's constants are written in the text, none of them empty and no two sharing
      a character. */
  predicate WrittenApart(declared: map<string, Declared>, text: string) {
    && (forall n <- declared :: declared[n].Here? ==> declared[n].start < declared[n].end <= |text|)
    && forall m <- declared, n <- declared :: m != n && declared[m].Here? && declared[n].Here? ==>
         declared[m].end <= declared[n].start || declared[n].end <= declared[m].start
  }

  lemma {:induction false} EditIs(entry: string, declared: map<string, Declared>, read: string -> Option<int>)
    requires EditFor(entry, declared, read).Ok?
    ensures Partition(entry).Some? && Partition(entry).value.0 in declared && declared[Partition(entry).value.0].Here?
    ensures var at, e := declared[Partition(entry).value.0], EditFor(entry, declared, read).value;
            e.start == at.start && e.end == at.end
  {
  }

  lemma {:induction false} EditsAre(entries: seq<string>, declared: map<string, Declared>, read: string -> Option<int>)
    ensures var edits := EditsFor(entries, declared, read);
            && (edits.Ok? <==> forall e <- entries :: EditFor(e, declared, read).Ok?)
            && (edits.Ok? ==> forall x :: x in edits.value <==> exists e <- entries :: EditFor(e, declared, read) == Ok(x))
  {
    hide EditFor;
    if entries != [] {
      var init, last := entries[..|entries| - 1], entries[|entries| - 1];
      assert entries == init + [last];
      EditsAre(init, declared, read);
      assert forall e :: e in entries <==> e in init || e == last;
    }
  }

  lemma SetOnceInit(init: seq<string>, last: string)
    requires SetOnce(init + [last])
    ensures SetOnce(init) && last !in init
  {
    var entries := init + [last];
    assert multiset(entries) == multiset(init) + multiset{last};
    assert forall e :: multiset(init)[e] <= multiset(entries)[e];
    assert multiset(entries)[last] == multiset(init)[last] + 1;
    assert forall e :: e in init ==> e in entries;
  }

  /** Two flags' edits are apart. */
  lemma {:induction false} TwoApart(d: string, e: string, text: string, declared: map<string, Declared>,
                                    read: string -> Option<int>)
    requires WrittenApart(declared, text) && EditFor(d, declared, read).Ok? && EditFor(e, declared, read).Ok?
    requires Partition(d).Some? && Partition(e).Some? ==> Partition(d).value.0 != Partition(e).value.0
    ensures var x, y := EditFor(d, declared, read).value, EditFor(e, declared, read).value;
            x != y && Apart(x, y)
  {
    hide EditFor, Partition;
    EditIs(d, declared, read);
    EditIs(e, declared, read);
  }

  lemma {:induction false} EditsDisjoint(text: string, entries: seq<string>, declared: map<string, Declared>,
                                         read: string -> Option<int>)
    requires SetOnce(entries) && WrittenApart(declared, text) && EditsFor(entries, declared, read).Ok?
    ensures Disjoint(EditsFor(entries, declared, read).value) && Within(EditsFor(entries, declared, read).value, text)
  {
    hide EditFor, WrittenApart, Apart, SetOnce, Partition;
    if entries != [] {
      var init, last := entries[..|entries| - 1], entries[|entries| - 1];
      assert entries == init + [last];
      SetOnceInit(init, last);
      EditsDisjoint(text, init, declared, read);
      EditsAre(init, declared, read);
      var before, x := EditsFor(init, declared, read).value, EditFor(last, declared, read).value;
      assert EditsFor(entries, declared, read).value == before + [x];
      hide EditsFor, Disjoint, Within;
      forall y | y in before ensures y != x && Apart(x, y) && Apart(y, x) {
        var e :| e in init && EditFor(e, declared, read) == Ok(y);
        OtherName(init, last, e);
        TwoApart(last, e, text, declared, read);
        TwoApart(e, last, text, declared, read);
      }
      EditInside(last, text, declared, read);
      DisjointJoin(before, x);
    }
  }

  lemma OtherName(init: seq<string>, last: string, e: string)
    requires SetOnce(init + [last]) && e in init
    ensures Partition(last).Some? && Partition(e).Some? ==> Partition(last).value.0 != Partition(e).value.0
  {
    SetOnceInit(init, last);
    var entries := init + [last];
    assert e in entries && last in entries && e != last;
  }

  lemma EditInside(entry: string, text: string, declared: map<string, Declared>, read: string -> Option<int>)
    requires WrittenApart(declared, text) && EditFor(entry, declared, read).Ok?
    ensures var e := EditFor(entry, declared, read).value; e.start < e.end <= |text|
  {
    hide EditFor, Partition;
    EditIs(entry, declared, read);
  }

  lemma DisjointJoin(before: seq<Edit>, x: Edit)
    requires Disjoint(before) && x.start < x.end && forall y :: y in before ==> y != x && Apart(x, y) && Apart(y, x)
    ensures Disjoint(before + [x])
  {
    hide Apart;
    assert multiset(before + [x]) == multiset(before) + multiset{x};
    assert x !in before;
    assert multiset(before)[x] == 0 by { assert x !in multiset(before); }
  }

  /** Flags for different constants replace every constant's value at once. */
  lemma {:induction false} FlagsSubstitute(text: string, entries: seq<string>, declared: map<string, Declared>,
                                           read: string -> Option<int>)
    requires SetOnce(entries) && WrittenApart(declared, text) && EditsFor(entries, declared, read).Ok?
    ensures var edits := EditsFor(entries, declared, read).value;
            var falling := Descending(edits);
            && Falling(falling) && Within(falling, text) && multiset(falling) == multiset(edits)
            && Applied(text, entries, declared, read) == Ok(Substituted(text, falling))
  {
    hide *;
    EditsDisjoint(text, entries, declared, read);
    var edits := EditsFor(entries, declared, read).value;
    EditsCommute(text, edits, edits);
    AppliedIs(text, entries, declared, read);
  }

  lemma AppliedIs(text: string, entries: seq<string>, declared: map<string, Declared>, read: string -> Option<int>)
    requires EditsFor(entries, declared, read).Ok?
    ensures Applied(text, entries, declared, read) == Ok(MakeAll(text, Descending(EditsFor(entries, declared, read).value)))
  {
  }

  /** Flags for different constants do the same whatever order they are given in: all orders are refused,
      or none is and the source comes out the same. */
  lemma {:induction false} OrderDoesNotMatter(text: string, entries: seq<string>, others: seq<string>,
                                              declared: map<string, Declared>, read: string -> Option<int>)
    requires SetOnce(entries) && WrittenApart(declared, text) && multiset(entries) == multiset(others)
    ensures Applied(text, entries, declared, read).Ok? <==> Applied(text, others, declared, read).Ok?
    ensures Applied(text, entries, declared, read).Ok? ==>
              Applied(text, others, declared, read) == Applied(text, entries, declared, read)
  {
    hide EditFor, Descending, MakeAll, Disjoint, WrittenApart, Within, Partition;
    SameFlags(entries, others);
    EditsAre(entries, declared, read);
    EditsAre(others, declared, read);
    if Applied(text, entries, declared, read).Ok? {
      EditsDisjoint(text, entries, declared, read);
      EditsDisjoint(text, others, declared, read);
      var a, b := EditsFor(entries, declared, read).value, EditsFor(others, declared, read).value;
      SameEdits(a, b);
      EditsCommute(text, a, b);
    }
  }

  lemma SameFlags(entries: seq<string>, others: seq<string>)
    requires SetOnce(entries) && multiset(entries) == multiset(others)
    ensures SetOnce(others) && forall e :: e in entries <==> e in others
  {
    hide Partition;
    forall e ensures e in entries <==> e in others { assert e in multiset(entries) <==> e in multiset(others); }
  }

  lemma SameEdits(a: seq<Edit>, b: seq<Edit>)
    requires Disjoint(a) && Disjoint(b) && forall x :: x in a <==> x in b
    ensures multiset(a) == multiset(b)
  {
    hide Apart;
    forall x ensures multiset(a)[x] == multiset(b)[x] {
      assert x in a <==> x in multiset(a);
      assert x in b <==> x in multiset(b);
    }
    assert multiset(a) == multiset(b);
  }

  // ----- the same constant twice

  lemma {:induction false} PairDescends(l: Edit, h: Edit)
    requires !Less(h, l) && (l == h || Less(l, h))
    ensures Descending([l, h]) == Descending([h, l]) == [h, l]
  {
    hide Less;
    assert [l, h][1..] == [h] && [h, l][1..] == [l] && [l][1..] == [] && [h][1..] == [];
    assert Insert(l, []) == [l] && Insert(h, []) == [h];
    assert Insert(l, [h]) == [h] + Insert(l, []);
    assert Insert(h, [l]) == if l == h then [l] + Insert(h, []) else [h] + [l];
    assert Descending([l, h]) == Insert(l, Descending([h]));
    assert Descending([h, l]) == Insert(h, Descending([l]));
  }

  /** The same constant set twice, to the same value or to two: the value that does not sort higher is
      kept, and the rest of the source is as it was exactly when the other is as long as what it
      replaced, or the file ends there and the other is shorter. */
  lemma {:induction false} DuplicateIff(text: string, start: nat, end: nat, low: string, high: string)
    requires start < end <= |text| && !Below(high, low)
    ensures var once := MakeAll(text, [Edit(start, end, low)]);
            var twice := MakeAll(text, Descending([Edit(start, end, low), Edit(start, end, high)]));
            && twice == MakeAll(text, Descending([Edit(start, end, high), Edit(start, end, low)]))
            && (twice == once <==> |high| == end - start || (end == |text| && |high| < end - start))
  {
    var l, h := Edit(start, end, low), Edit(start, end, high);
    BelowIsTotal(low, high);
    PairDescends(l, h);
    TwoMade(text, start, end, low, high);
    assert Make(text, h) == text[..start] + high + text[end..];
    var first, kept := Make(text, h), text[..start] + low;
    assert first[..start] == text[..start];
    SameTail(kept, From(first, end), text[end..]);
    if |high| == end - start { assert first[end..] == text[end..]; }
  }

  lemma TwoMade(text: string, start: nat, end: nat, low: string, high: string)
    ensures var l, h := Edit(start, end, low), Edit(start, end, high);
            MakeAll(text, [l]) == Make(text, l) && MakeAll(text, [h, l]) == Make(Make(text, h), l)
  {
    hide Make;
    var l, h := Edit(start, end, low), Edit(start, end, high);
    assert [h, l][..1] == [h] && [h][..0] == [] && [l][..0] == [];
    assert MakeAll(text, [h]) == Make(text, h);
  }

  lemma SameTail(kept: string, a: string, b: string)
    ensures kept + a == kept + b <==> a == b
  {
    if kept + a == kept + b {
      assert a == (kept + a)[|kept|..] && b == (kept + b)[|kept|..];
    }
  }

  lemma {:induction false} BelowIsTotal(a: string, b: string)
    requires !Below(b, a)
    ensures a == b || Below(a, b)
    decreases |a|
  {
    if a != "" && b != "" && a[0] == b[0] {
      BelowIsTotal(a[1..], b[1..]);
      assert a == [a[0]] + a[1..] && b == [b[0]] + b[1..];
    }
  }

  /** Two flags for one constant, in either order, are refused or leave the source as those two edits do. */
  lemma {:induction false} DuplicateFlags(text: string, entry: string, again: string, declared: map<string, Declared>,
                                          read: string -> Option<int>)
    requires EditFor(entry, declared, read).Ok? && EditFor(again, declared, read).Ok?
    requires Partition(entry).Some? && Partition(again).Some? ==> Partition(entry).value.0 == Partition(again).value.0
    ensures var a, b := EditFor(entry, declared, read).value, EditFor(again, declared, read).value;
            && a.start == b.start && a.end == b.end
            && Applied(text, [entry, again], declared, read) == Ok(MakeAll(text, Descending([a, b])))
            && Applied(text, [entry], declared, read) == Ok(MakeAll(text, [a]))
  {
    hide EditFor, Partition, MakeAll;
    EditIs(entry, declared, read);
    EditIs(again, declared, read);
    var a, b := EditFor(entry, declared, read).value, EditFor(again, declared, read).value;
    assert [entry, again][..1] == [entry] && [entry][..0] == [];
    NoFlags(declared, read);
    OneMore([], entry, declared, read);
    OneMore([entry], again, declared, read);
    assert [] + [entry] == [entry] && [entry] + [again] == [entry, again] && [] + [a] == [a] && [a] + [b] == [a, b];
    assert Descending([a]) == [a];
  }

  lemma NoFlags(declared: map<string, Declared>, read: string -> Option<int>)
    ensures EditsFor([], declared, read) == Ok([])
  {
  }

  lemma OneMore(init: seq<string>, entry: string, declared: map<string, Declared>, read: string -> Option<int>)
    requires EditsFor(init, declared, read).Ok? && EditFor(entry, declared, read).Ok?
    ensures EditsFor(init + [entry], declared, read) ==
            Ok(EditsFor(init, declared, read).value + [EditFor(entry, declared, read).value])
  {
    hide EditFor;
    assert (init + [entry])[..|init|] == init;
  }

  // ----- what one flag is

  /** What a number's digits are worth. */
  function Worth(s: string): int {
    if s == [] then 0 else 10 * Worth(s[..|s| - 1]) + (s[|s| - 1] as int - '0' as int)
  }

  lemma {:induction false} DigitsAre(n: nat)
    ensures Worth(Digits(n)) == n && Digits(n) != [] && forall i :: 0 <= i < |Digits(n)| ==> '0' <= Digits(n)[i] <= '9'
  {
    if n >= 10 {
      DigitsAre(n / 10);
      assert Digits(n)[..|Digits(n)| - 1] == Digits(n / 10);
    } else {
      assert Digits(n)[..0] == [];
    }
  }

  /** A value is written in decimal digits, behind a sign where it is negative. */
  lemma WrittenIs(v: int)
    ensures var s := Written(v);
            if v >= 0 then Worth(s) == v && '-' !in s else s[0] == '-' && Worth(s[1..]) == -v && '-' !in s[1..]
  {
    hide Digits, Worth;
    DigitsAre(if v < 0 then -v else v);
  }

  lemma {:induction false} PartitionFirst(name: string, value: string)
    requires '=' !in name
    ensures Partition(name + "=" + value) == Some((name, value))
  {
    var entry := name + "=" + value;
    if name == "" {
      assert entry == "=" + value && entry[1..] == value;
    } else {
      assert entry[0] == name[0] && entry[1..] == name[1..] + "=" + value;
      PartitionFirst(name[1..], value);
      assert [name[0]] + name[1..] == name;
    }
  }

  /** A flag is refused exactly for having no name, for naming a constant that another file declares or none does, or
      for a value that is no integer, in that order; accepted, it puts the value where that constant's is written. */
  lemma {:induction false} FlagIff(name: string, value: string, declared: map<string, Declared>, read: string -> Option<int>)
    requires '=' !in name
    ensures var r := EditFor(name + "=" + value, declared, read);
            && (r == Err(NotADefine) <==> name == "")
            && (r == Err(Elsewhere) <==> name != "" && name in declared && declared[name] == InAnotherFile)
            && (r == Err(NotDeclared) <==> name != "" && name !in declared)
            && (r == Err(NotAnInteger) <==> name != "" && name in declared && declared[name].Here? && read(value).None?)
            && (r.Ok? ==> declared[name] == Here(r.value.start, r.value.end) && read(value).Some? && r.value.put == Written(read(value).value))
    ensures EditFor(name, declared, read) == Err(NotADefine)
  {
    hide Written;
    PartitionFirst(name, value);
    PartitionIs(name);
  }

  /** Python's order of strings: a proper beginning comes first, and otherwise the first character that differs
      decides. */
  lemma {:induction false} BelowIs(p: string, a: string, b: string)
    ensures Below(p + a, p + b) <==> Below(a, b)
    ensures (Below("", b) <==> b != "") && !Below(a, "")
    ensures a != "" && b != "" && a[0] != b[0] ==> (Below(a, b) <==> a[0] < b[0])
  {
    if p == "" {
      assert p + a == a && p + b == b;
    } else {
      assert (p + a)[0] == p[0] == (p + b)[0] && (p + a)[1..] == p[1..] + a && (p + b)[1..] == p[1..] + b;
      BelowIs(p[1..], a, b);
    }
  }
}
