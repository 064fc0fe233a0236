/** What counts as a call, an argument and a pair of parentheses in a rendered text (situc/names.py). */
module BuiltinTexts {
  import opened Prelude
  import opened Builtins

  // ----- blanks

  predicate AllBlank(x: Text) {
    forall i :: 0 <= i < |x| ==> Blank(x[i])
  }

  lemma {:induction false} PastBlanksIs(t: Text, i: nat, j: nat)
    requires i <= j <= |t| && AllBlank(t[i..j]) && (j < |t| ==> !Blank(t[j]))
    ensures PastBlanks(t, i) == j
    decreases j - i
  {
    if i < j {
      assert t[i..j][0] == t[i];
      assert t[i + 1..j] == t[i..j][1..];
      PastBlanksIs(t, i + 1, j);
    }
  }

  lemma {:induction false} PastBlanksSkips(t: Text, i: nat)
    requires i <= |t|
    ensures var j := PastBlanks(t, i); AllBlank(t[i..j]) && (j < |t| ==> !Blank(t[j]))
    decreases |t| - i
  {
    if i < |t| && Blank(t[i]) {
      PastBlanksSkips(t, i + 1);
      assert t[i..PastBlanks(t, i)] == [t[i]] + t[i + 1..PastBlanks(t, i)];
    }
  }

  /** A call is a builtin's name that nothing reaches, with its parenthesis behind it or behind blanks. */
  lemma {:induction false} CallAtIff(t: Text, i: nat, name: string)
    requires i < |t|
    ensures CallAt(t, i, name) <==>
            && t[i] == Word(name)
            && (i > 0 ==> t[i - 1].Mark? && t[i - 1].c !in {'.', '>', ':'})
            && exists j :: i < j < |t| && t[j] == Mark('(') && AllBlank(t[i + 1..j])
  {
    PastBlanksSkips(t, i + 1);
    if j :| i < j < |t| && t[j] == Mark('(') && AllBlank(t[i + 1..j]) { PastBlanksIs(t, i + 1, j); }
  }

  lemma {:induction false} DropBlanksIs(a: Text, x: Text)
    requires AllBlank(a) && (x != [] ==> !Blank(x[0]))
    ensures DropBlanks(a + x) == x
    decreases |a|
  {
    if a == [] {
      assert a + x == x;
    } else {
      assert (a + x)[0] == a[0] && (a + x)[1..] == a[1..] + x;
      DropBlanksIs(a[1..], x);
    }
  }

  lemma {:induction false} StripEndIs(x: Text, b: Text)
    requires AllBlank(b) && (x != [] ==> !Blank(x[|x| - 1]))
    ensures StripEnd(x + b) == x
    decreases |b|
  {
    if b == [] {
      assert x + b == x;
    } else {
      assert (x + b)[|x + b| - 1] == b[|b| - 1] && (x + b)[..|x + b| - 1] == x + b[..|b| - 1];
      StripEndIs(x, b[..|b| - 1]);
    }
  }

  /** Stripping takes the blanks at both ends, and no more. */
  lemma {:induction false} StripIs(a: Text, x: Text, b: Text)
    requires AllBlank(a) && AllBlank(b) && Trimmed(x)
    ensures Strip(a + x + b) == x
  {
    hide DropBlanks, StripEnd;
    assert a + x + b == a + (x + b);
    DropBlanksIs(a, x + b);
    StripEndIs(x, b);
    if b != [] { assert (x + b)[|x + b| - 1] == b[|b| - 1]; } else { assert x + b == x; }
  }

  // ----- one layer of parentheses

  lemma {:induction false} NetJoin(a: Text, b: Text)
    ensures Net(a + b) == Net(a) + Net(b)
  {
    if b == [] {
      assert a + b == a;
    } else {
      assert (a + b)[..|a + b| - 1] == a + b[..|b| - 1];
      NetJoin(a, b[..|b| - 1]);
    }
  }

  /** Reading on with `open` parentheses open, is none closed that is not? */
  predicate NeverOverCloses(x: Text, open: nat) {
    if x == [] then true
    else if x[0] == Mark('(') then NeverOverCloses(x[1..], open + 1)
    else if x[0] == Mark(')') then open > 0 && NeverOverCloses(x[1..], open - 1)
    else NeverOverCloses(x[1..], open)
  }

  lemma {:induction false} OverClosesIff(x: Text, open: nat)
    ensures NeverOverCloses(x, open) <==> forall k :: 0 <= k <= |x| ==> open + Net(x[..k]) >= 0
    decreases |x|
  {
    assert x[..0] == [];
    if x != [] {
      var step := if x[0] == Mark('(') then 1 else if x[0] == Mark(')') then -1 else 0;
      assert [x[0]][..0] == [] && Net([x[0]]) == step;
      forall k | 0 <= k <= |x[1..]| ensures Net(x[..k + 1]) == step + Net(x[1..][..k]) {
        assert x[..k + 1] == [x[0]] + x[1..][..k];
        NetJoin([x[0]], x[1..][..k]);
      }
      assert Net(x[..1]) == step by { assert x[1..][..0] == []; }
      if open + step >= 0 { OverClosesIff(x[1..], open + step); }
      if NeverOverCloses(x, open) {
        forall k | 0 <= k <= |x| ensures open + Net(x[..k]) >= 0 {
          if k > 0 { assert Net(x[..k]) == step + Net(x[1..][..k - 1]); }
        }
      }
      if forall k :: 0 <= k <= |x| ==> open + Net(x[..k]) >= 0 {
        assert open + Net(x[..1]) >= 0;
        forall k | 0 <= k <= |x[1..]| ensures open + step + Net(x[1..][..k]) >= 0 { assert Net(x[..k + 1]) == step + Net(x[1..][..k]); }
      }
    }
  }

  lemma {:induction false} NetSteps(x: Text, k: nat)
    requires k < |x|
    ensures Net(x[..k + 1]) >= Net(x[..k]) - 1
  {
    assert x[..k + 1][..k] == x[..k];
  }

  lemma {:induction false} FirstBelow(x: Text, k: nat)
    requires k <= |x| && Net(x[..k]) < 0
    ensures exists j :: 0 <= j <= k && Net(x[..j]) == -1
  {
    assert x[..0] == [];
    if k > 0 {
      if Net(x[..k - 1]) < 0 { FirstBelow(x, k - 1); } else { NetSteps(x, k - 1); }
    }
  }

  /** A text is unwrapped exactly where it is parentheses around text that never closes more than it has opened. */
  lemma {:induction false} WrappedIff(t: Text)
    ensures Wrapped(t) <==> |t| >= 2 && t == InParens(t[1..|t| - 1]) && NeverOverCloses(t[1..|t| - 1], 0)
  {
    if |t| >= 2 && t[0] == Mark('(') && t[|t| - 1] == Mark(')') {
      var x := t[1..|t| - 1];
      assert t == InParens(x);
      forall k | 0 <= k <= |x| ensures Net(t[..k + 1]) == 1 + Net(x[..k]) {
        assert t[..k + 1] == OPEN + x[..k];
        assert OPEN[..0] == [];
        NetJoin(OPEN, x[..k]);
      }
      OverClosesIff(x, 0);
      if !NeverOverCloses(x, 0) {
        var k :| 0 <= k <= |x| && Net(x[..k]) < 0;
        FirstBelow(x, k);
        var j :| 0 <= j <= k && Net(x[..j]) == -1;
        assert Net(t[..j + 1]) == 0;
      }
      if NeverOverCloses(x, 0) {
        forall k | 0 < k < |t| ensures Net(t[..k]) != 0 { assert Net(t[..k]) == 1 + Net(x[..k - 1]); }
      }
    }
  }

  // ----- calls that are not closed

  /** A text in which no call of the builtin is ever closed is left as it is. */
  lemma {:induction false} UnclosedKept(fuel: nat, name: string, whole: Text -> Text, t: Text, i: nat)
    requires i <= |t|
    requires forall k :: i <= k < |t| && CallAt(t, k, name) ==> Args(t, PastBlanks(t, k + 1) + 1, 1, PastBlanks(t, k + 1) + 1, []).None?
    ensures Pass(fuel, name, whole, t, i) == Some(t[i..])
    decreases |t| - i
  {
    hide CallAt, Args, ExpandEach, Spell;
    if i < |t| && CallAt(t, i, name) {
      assert Pass(fuel, name, whole, t, i) == Some(t[i..]);
    } else if i < |t| {
      UnclosedKept(fuel, name, whole, t, i + 1);
      assert [t[i]] + t[i + 1..] == t[i..];
    } else {
      assert t[i..] == [];
    }
  }
}
