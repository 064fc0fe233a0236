/** `situ_scan` (situc/dissector.py): where a delimited member stops, under quotes, escapes and
    several delimiters of which the longest wins. */
module DelimiterScan {
  import opened Prelude

  /** One past the content, whether a delimiter was found, and how wide the one that matched is. */
  datatype Found = Found(length: int, found: bool, width: nat)

  /** Where the walk is, relative to `at`, and whether inside quotes. */
  datatype State = State(i: nat, quoted: bool)

  datatype Scanner = Scanner(
    tvb: seq<int>, at: nat, delims: seq<seq<int>>, limit: int, quote: Option<int>, escape: Option<int>)
  {
    /** The caller caps the limit at the length of the buffer. */
    predicate Valid() {
      limit <= |tvb|
    }

    predicate Inside(s: State) {
      at + s.i < limit
    }

    function ByteAt(s: State): int
      requires Valid() && Inside(s)
    {
      tvb[at + s.i]
    }

    // ----- what the walk visits, delimiters aside

    /** An escape covers the byte after it, whatever it is; a quote opens or closes. */
    function Next(s: State): State
      requires Valid() && Inside(s)
    {
      if escape == Some(ByteAt(s)) then State(s.i + 2, s.quoted)
      else if quote == Some(ByteAt(s)) then State(s.i + 1, !s.quoted)
      else State(s.i + 1, s.quoted)
    }

    /** The state after `n` steps, or None where the walk has left the range before. */
    function Walk(n: nat): Option<State>
      requires Valid()
    {
      if n == 0 then Some(State(0, false))
      else
        match Walk(n - 1)
        case None => None
        case Some(s) => if Inside(s) then Some(Next(s)) else None
    }

    /** A delimiter is looked for outside quotes, at a byte that is neither escape nor quote. */
    predicate Looks(s: State)
      requires Valid()
    {
      Inside(s) && !s.quoted && escape != Some(ByteAt(s)) && quote != Some(ByteAt(s))
    }

    /** The alternative matches here, and ends before the limit. */
    predicate Matches(s: State, one: seq<int>)
      requires Valid()
    {
      one != [] && at + s.i + |one| <= limit && tvb[at + s.i..at + s.i + |one|] == one
    }

    predicate Hit(s: State)
      requires Valid()
    {
      Looks(s) && exists d :: 0 <= d < |delims| && Matches(s, delims[d])
    }

    /** `width` is the length of the longest alternative that matches here. */
    predicate IsLongest(s: State, width: nat)
      requires Valid()
    {
      && (exists d :: 0 <= d < |delims| && Matches(s, delims[d]) && |delims[d]| == width)
      && (forall d :: 0 <= d < |delims| && Matches(s, delims[d]) ==> |delims[d]| <= width)
    }

    predicate MissesBefore(n: nat)
      requires Valid()
    {
      forall m: nat :: m < n && Walk(m).Some? ==> !Hit(Walk(m).value)
    }

    /** The first hit of the walk, with its longest match; or the whole range, without one. */
    ghost predicate IsScan(r: Found)
      requires Valid()
    {
      if r.found then
        exists n: nat ::
          Walk(n).Some? && Hit(Walk(n).value) && MissesBefore(n)
          && r.length == Walk(n).value.i && IsLongest(Walk(n).value, r.width)
      else
        r == Found(limit - at, false, 0) && forall n: nat :: MissesBefore(n)
    }

    // ----- the code

    method Scan() returns (r: Found)
      requires Valid()
      ensures IsScan(r)
    {
      hide Matches, IsLongest, IsScan;
      var quoted, i := false, 0;
      ghost var n := 0;
      while at + i < limit
        invariant Walk(n) == Some(State(i, quoted)) && MissesBefore(n)
        decreases limit - at - i
      {
        ghost var here := State(i, quoted);
        var byte := tvb[at + i];
        if escape == Some(byte) {
          i := i + 2;
        } else if quote == Some(byte) {
          quoted := !quoted;
          i := i + 1;
        } else {
          var best := 0;
          if !quoted {
            best := Longest(i);
          }
          if best > 0 {
            FoundIsScan(n, best);
            return Found(i, true, best);
          }
          i := i + 1;
        }
        assert !Hit(here);
        n := n + 1;
      }
      WalkEnds(n);
      return Found(limit - at, false, 0);
    }

    /** The width of the longest alternative that matches at `i`, or 0. */
    method Longest(i: nat) returns (best: nat)
      requires Valid() && at + i < limit
      ensures best > 0 ==> IsLongest(State(i, false), best)
      ensures best == 0 ==> forall d :: 0 <= d < |delims| ==> !Matches(State(i, false), delims[d])
    {
      best := 0;
      ghost var here := State(i, false);
      for d := 0 to |delims|
        invariant best > 0 ==> exists e :: 0 <= e < d && Matches(here, delims[e]) && |delims[e]| == best
        invariant forall e :: 0 <= e < d && Matches(here, delims[e]) ==> |delims[e]| <= best
      {
        var one := delims[d];
        if |one| > best && at + i + |one| <= limit {
          var match_ := true;
          for j := 0 to |one|
            invariant match_ && tvb[at + i..at + i + j] == one[..j]
          {
            if tvb[at + i + j] != one[j] {
              match_ := false;
              break;
            }
            assert tvb[at + i..at + i + (j + 1)] == tvb[at + i..at + i + j] + [tvb[at + i + j]];
          }
          if match_ { best := |one|; }
        }
      }
    }

    lemma {:induction false} FoundIsScan(n: nat, width: nat)
      requires Valid() && Walk(n).Some? && Looks(Walk(n).value) && MissesBefore(n)
      requires IsLongest(Walk(n).value, width)
      ensures IsScan(Found(Walk(n).value.i, true, width))
    {
      assert Hit(Walk(n).value);
    }

    /** Past the end the walk visits nothing, so nothing there is missed. */
    lemma {:induction false} WalkEnds(n: nat)
      requires Valid() && Walk(n).Some? && !Inside(Walk(n).value) && MissesBefore(n)
      ensures IsScan(Found(limit - at, false, 0))
    {
      forall k: nat | Walk(k).Some? ensures !Hit(Walk(k).value) {
        if k > n { WalkStops(n, k); }
      }
    }

    lemma {:induction false} WalkStops(n: nat, k: nat)
      requires Valid() && Walk(n).Some? && !Inside(Walk(n).value) && n < k
      ensures Walk(k).None?
    {
      if n + 1 < k { WalkStops(n, k - 1); }
    }

    // ----- the answer is determined

    /** A delimiter that was found lies inside the range. */
    lemma {:induction false} FoundInside(r: Found)
      requires Valid() && IsScan(r) && r.found
      ensures 0 <= r.length && r.width > 0 && at + r.length + r.width <= limit
    {
    }

    /** The first hit of the walk is what every scan finds. */
    lemma {:induction false} FirstHit(n: nat, r: Found)
      requires Valid() && IsScan(r)
      requires Walk(n).Some? && Hit(Walk(n).value) && MissesBefore(n)
      ensures r.found && r.length == Walk(n).value.i && IsLongest(Walk(n).value, r.width)
    {
      assert !MissesBefore(n + 1);
      assert r.found;
      var m: nat :| Walk(m).Some? && Hit(Walk(m).value) && MissesBefore(m)
        && r.length == Walk(m).value.i && IsLongest(Walk(m).value, r.width);
      assert n == m;
    }

    lemma {:induction false} ScanUnique(r: Found, r': Found)
      requires Valid() && IsScan(r) && IsScan(r')
      ensures r == r'
    {
      if r.found {
        var n: nat :| Walk(n).Some? && Hit(Walk(n).value) && MissesBefore(n)
          && r.length == Walk(n).value.i && IsLongest(Walk(n).value, r.width);
        FirstHit(n, r');
      } else if r'.found {
        var m: nat :| Walk(m).Some? && Hit(Walk(m).value) && MissesBefore(m)
          && r'.length == Walk(m).value.i && IsLongest(Walk(m).value, r'.width);
        FirstHit(m, r);
      }
    }

    // ----- escaped content scans back to itself

    /** The bytes content may not hold bare: the escape, the quote, and whatever starts a delimiter. */
    predicate Special(byte: int) {
      escape == Some(byte) || quote == Some(byte) || exists d :: 0 <= d < |delims| && delims[d] != [] && delims[d][0] == byte
    }

    /** Content with each special byte escaped. */
    function Encode(content: seq<int>): seq<int>
      requires escape.Some?
    {
      if content == [] then []
      else
        var last := content[|content| - 1];
        Encode(content[..|content| - 1]) + (if Special(last) then [escape.value, last] else [last])
    }

    /** A byte that is not special starts no delimiter. */
    lemma PlainIsNoHit(s: State)
      requires Valid() && Inside(s) && !Special(ByteAt(s))
      ensures !Hit(s)
    {
      forall d | 0 <= d < |delims| ensures !Matches(s, delims[d]) {
        if delims[d] != [] && at + s.i + |delims[d]| <= limit {
          assert tvb[at + s.i..at + s.i + |delims[d]|][0] == ByteAt(s);
        }
      }
    }

    lemma {:induction false} EncodeWalks(content: seq<int>)
      requires Valid() && escape.Some? && at + |Encode(content)| <= limit
      requires tvb[at..at + |Encode(content)|] == Encode(content)
      ensures Walk(|content|) == Some(State(|Encode(content)|, false))
      ensures MissesBefore(|content|)
    {
      hide Hit, Special, Looks;
      if content != [] {
        var n := |content| - 1;
        var most, last := content[..n], content[n];
        var k := |Encode(most)|;
        var held := tvb[at..at + |Encode(content)|];
        assert tvb[at..at + k] == held[..k];
        EncodeWalks(most);
        var s := State(k, false);
        assert ByteAt(s) == held[k];
        if Special(last) {
          EscapeIsNoHit(s);
        } else {
          PlainIsNoHit(s);
          PlainSteps(s);
        }
      }
    }

    lemma EscapeIsNoHit(s: State)
      requires Valid() && Inside(s) && escape == Some(ByteAt(s))
      ensures !Hit(s)
    {
    }

    lemma PlainSteps(s: State)
      requires Valid() && Inside(s) && !Special(ByteAt(s))
      ensures Next(s) == State(s.i + 1, s.quoted)
    {
    }

    /** Content with its special bytes escaped, then a delimiter: the scan stops exactly where the
        content does, on an alternative at least as long. */
    lemma {:induction false} EncodedScans(content: seq<int>, d: nat, r: Found)
      requires Valid() && escape.Some? && IsScan(r)
      requires d < |delims| && delims[d] != []
      requires escape != Some(delims[d][0]) && quote != Some(delims[d][0])
      requires at + |Encode(content)| + |delims[d]| <= limit
      requires tvb[at..at + |Encode(content)| + |delims[d]|] == Encode(content) + delims[d]
      ensures r.found && r.length == |Encode(content)| && r.width >= |delims[d]|
    {
      hide Special, Encode, Walk;
      var k := |Encode(content)|;
      SplitAt(at, Encode(content), delims[d]);
      EncodeWalks(content);
      var s := State(k, false);
      assert Matches(s, delims[d]);
      assert ByteAt(s) == tvb[at + k..at + k + |delims[d]|][0];
      assert Hit(s);
      FirstHit(|content|, r);
    }

    function Quoted(b: int): (q: seq<int>)
      requires escape.Some?
      ensures q != []
    {
      if escape == Some(b) || quote == Some(b) then [escape.value, b] else [b]
    }

    /** Content between quotes, with only the escape and the quote escaped: a delimiter may stand in it bare. */
    function Quoting(content: seq<int>): seq<int>
      requires escape.Some?
    {
      if content == [] then []
      else
        var last := content[|content| - 1];
        Quoting(content[..|content| - 1]) + Quoted(last)
    }

    lemma {:induction false} QuotingWalks(content: seq<int>)
      requires Valid() && escape.Some? && quote.Some? && quote != escape && at + 1 + |Quoting(content)| <= limit
      requires tvb[at..at + 1 + |Quoting(content)|] == [quote.value] + Quoting(content)
      ensures Walk(1 + |content|) == Some(State(1 + |Quoting(content)|, true)) && MissesBefore(1 + |content|)
    {
      assert at <= limit <= |tvb|;
      hide *;
      if content == [] {
        NothingQuoted(content);
        assert tvb[at] == tvb[at..at + 1][0];
        QuotingStarts();
      } else {
        var n := |content| - 1;
        var body, tail := [quote.value] + Quoting(content[..n]), Quoted(content[n]);
        LastQuoted(content);
        SplitAt(at, body, tail);
        QuotingWalks(content[..n]);
        assert tvb[at + |body|] == tvb[at + |body|..at + |body| + |tail|][0];
        QuotedNext(State(|body|, true), content[n]);
        OneMiss(1 + n, State(|body|, true));
      }
    }

    lemma NothingQuoted(content: seq<int>)
      requires escape.Some? && content == []
      ensures Quoting(content) == []
    {
    }

    lemma LastQuoted(content: seq<int>)
      requires escape.Some? && quote.Some? && content != []
      ensures var body, tail := [quote.value] + Quoting(content[..|content| - 1]), Quoted(content[|content| - 1]);
              1 + |Quoting(content)| == |body| + |tail| && [quote.value] + Quoting(content) == body + tail
    {
    }

    /** Over one of the bytes written between quotes, with what covers it. */
    lemma QuotedNext(s: State, b: int)
      requires Valid() && escape.Some? && quote.Some? && quote != escape && s.quoted
      requires at + s.i < limit && tvb[at + s.i] == Quoted(b)[0]
      ensures Inside(s) && Next(s) == State(s.i + |Quoted(b)|, true)
    {
    }

    lemma QuotingStarts()
      requires Valid() && at < limit && quote == Some(tvb[at]) && quote != escape
      ensures Walk(1) == Some(State(1, true)) && MissesBefore(1)
    {
      hide Hit;
      assert Walk(0) == Some(State(0, false)) && Walk(1) == Some(Next(State(0, false)));
      QuoteIsNoHit(State(0, false));
    }

    /** Between quotes the walk goes on. */
    lemma OneMiss(n: nat, s: State)
      requires Valid() && Inside(s) && s.quoted && Walk(n) == Some(s) && MissesBefore(n)
      ensures Walk(n + 1) == Some(Next(s)) && MissesBefore(n + 1)
    {
      hide Hit, Next;
      QuotedIsNoHit(s);
    }

    lemma QuoteIsNoHit(s: State)
      requires Valid() && Inside(s) && quote == Some(ByteAt(s))
      ensures !Hit(s)
    {
    }

    lemma QuotedIsNoHit(s: State)
      requires Valid() && s.quoted
      ensures !Hit(s)
    {
    }

    /** Content in quotes, then a delimiter: the scan stops behind the closing quote, whatever delimiters the content
        holds. */
    lemma {:induction false} QuotedScans(content: seq<int>, d: nat, r: Found)
      requires Valid() && escape.Some? && quote.Some? && quote != escape && IsScan(r)
      requires d < |delims| && delims[d] != [] && escape != Some(delims[d][0]) && quote != Some(delims[d][0])
      requires at + 2 + |Quoting(content)| + |delims[d]| <= limit
      requires tvb[at..at + 2 + |Quoting(content)| + |delims[d]|] == ([quote.value] + Quoting(content) + [quote.value]) + delims[d]
      ensures r.found && r.length == 2 + |Quoting(content)| && r.width >= |delims[d]|
    {
      hide Quoting, Hit, IsLongest;
      var k, n := |Quoting(content)|, |content|;
      var body := [quote.value] + Quoting(content);
      SplitAt(at, body + [quote.value], delims[d]);
      SplitAt(at, body, [quote.value]);
      QuotingWalks(content);
      var s := State(1 + k, true);
      assert ByteAt(s) == tvb[at + 1 + k..at + 2 + k][0];
      OneMiss(n + 1, s);
      var t := State(2 + k, false);
      assert Matches(t, delims[d]);
      assert ByteAt(t) == tvb[at + 2 + k..at + 2 + k + |delims[d]|][0];
      assert Hit(t) by { HitIs(t, d); }
      FirstHit(n + 2, r);
      LongestIs(t, d, r.width);
    }

    lemma HitIs(s: State, d: nat)
      requires Valid() && Looks(s) && d < |delims| && Matches(s, delims[d])
      ensures Hit(s)
    {
    }

    lemma LongestIs(s: State, d: nat, width: nat)
      requires Valid() && IsLongest(s, width) && d < |delims| && Matches(s, delims[d])
      ensures width >= |delims[d]|
    {
    }

    lemma SplitAt(from: nat, a: seq<int>, b: seq<int>)
      requires from + |a| + |b| <= |tvb| && tvb[from..from + |a| + |b|] == a + b
      ensures tvb[from..from + |a|] == a && tvb[from + |a|..from + |a| + |b|] == b
    {
      var held := tvb[from..from + |a| + |b|];
      assert held[..|a|] == tvb[from..from + |a|] && held[|a|..] == tvb[from + |a|..from + |a| + |b|];
    }
  }
}
