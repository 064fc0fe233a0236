/** What tokenising keeps (situc/lexer.py): where tokens lie, what lies between them, and that
    the tokens written out with blanks between them are the same tokens again. */
module LexicalTheorems {
  import opened Prelude
  import opened Bits
  import opened Lexical

  // ----- a token depends on its own text and on what follows not continuing it

  /** Text a token can be followed by without growing. */
  predicate Stops(r: string) {
    r == [] || r[0] == ' '
  }

  lemma {:induction false} RunLocal(x: string, r: string, r': string, p: char -> bool)
    requires Run(x + r, p) == |x| && (r' == [] || !p(r'[0]))
    ensures Run(x + r', p) == |x|
  {
    if x == [] {
      assert x + r' == r';
    } else {
      assert (x + r)[0] == x[0];
      assert (x + r)[1..] == x[1..] + r && (x + r')[1..] == x[1..] + r';
      RunLocal(x[1..], r, r', p);
    }
  }

  /** A literal is at least its marker and one digit wide, so what follows does not change its radix. */
  lemma {:induction false} RadixLocal(x: string, r: string, r': string)
    requires x != [] && IsDigit(x[0]) && Stops(r')
    requires IntegerToken(x + r).Ok? && IntegerToken(x + r).value.width == |x|
    ensures Radix(x + r') == Radix(x + r) && (Radix(x + r) != 10 ==> |x| > 2)
  {
    hide NumberOf, OnlyUnderscores;
    var s := x + r;
    if Radix(s) != 10 {
      assert s[2..][0] == s[2];
      assert Run(s[2..], IsBody(Radix(s))) > 0;
    }
    assert |x| > 1 ==> s[1] == x[1] == (x + r')[1];
  }

  lemma {:induction false} IntegerLocal(x: string, r: string, r': string)
    requires x != [] && IsDigit(x[0]) && Stops(r')
    requires IntegerToken(x + r).Ok? && IntegerToken(x + r).value.width == |x|
    ensures IntegerToken(x + r') == IntegerToken(x + r)
  {
    hide NumberOf, OnlyUnderscores, Radix;
    RadixLocal(x, r, r');
    var s, s' := x + r, x + r';
    var radix := Radix(s);
    var skip := if radix == 10 then 0 else 2;
    assert skip == 2 ==> s[2] == x[2] == s'[2];
    assert s[skip..] == x[skip..] + r && s'[skip..] == x[skip..] + r';
    RunLocal(x[skip..], r, r', IsBody(radix));
    assert s[..|x|] == x == s'[..|x|];
    assert s[skip..|x|] == x[skip..] == s'[skip..|x|];
  }

  lemma {:induction false} UnitLocal(x: string, r: string, r': string, quote: char)
    requires x != [] && Unit(x + r, quote).Ok? && Unit(x + r, quote).value.1 <= |x|
    ensures Unit(x + r', quote) == Unit(x + r, quote)
  {
    var s, s' := x + r, x + r';
    var k := Unit(s, quote).value.1;
    assert s[0] == x[0] == s'[0];
    assert k >= 2 ==> s[1] == x[1] == s'[1];
    assert k == 4 ==> s[2] == x[2] == s'[2] && s[3] == x[3] == s'[3];
  }

  lemma {:induction false} QuotedLocal(x: string, r: string, r': string, quote: char)
    requires Quoted(x + r, quote).Ok? && Quoted(x + r, quote).value.1 == |x|
    ensures Quoted(x + r', quote) == Quoted(x + r, quote)
    decreases |x|
  {
    hide Unit;
    var s, s' := x + r, x + r';
    assert s[0] == x[0] == s'[0];
    if s[0] != quote {
      var k := Unit(s, quote).value.1;
      assert k + Quoted(s[k..], quote).value.1 == |x|;
      UnitLocal(x, r, r', quote);
      assert s[k..] == x[k..] + r && s'[k..] == x[k..] + r';
      QuotedLocal(x[k..], r, r', quote);
    }
  }

  /** What starts a token's text and what follows it, and holds no blank, starts the text. */
  lemma {:induction false} PrefixLocal(e: string, x: string, r: string)
    requires ' ' !in e && Stops(r) && e <= x + r
    ensures e <= x
  {
    if e != [] {
      assert e[0] == (x + r)[0] && e[0] in e;
      if x != [] {
        assert (x + r)[1..] == x[1..] + r;
        PrefixLocal(e[1..], x[1..], r);
      }
    }
  }

  lemma {:induction false} SymbolLocal(x: string, r: string, r': string, symbols: seq<string>)
    requires Visible(symbols) && Stops(r') && FirstSymbol(x + r, symbols) == Some(x)
    ensures FirstSymbol(x + r', symbols) == Some(x)
  {
    if symbols[0] <= x + r {
    } else {
      if symbols[0] <= x + r' { PrefixLocal(symbols[0], x, r'); }
      SymbolLocal(x, r, r', symbols[1..]);
    }
  }

  lemma {:induction false} ScanLocal(x: string, r: string, r': string)
    requires x != [] && Stops(r') && Scan(x + r).Ok? && Scan(x + r).value.width == |x|
    ensures Scan(x + r') == Scan(x + r)
  {
    hide Quoted, IntegerToken, FirstSymbol;
    var s, s' := x + r, x + r';
    assert s[0] == x[0] == s'[0];
    if IsIdentStart(x[0]) {
      RunLocal(x, r, r', IsIdentBody);
      assert s[..|x|] == x == s'[..|x|];
    } else if IsDigit(x[0]) {
      IntegerLocal(x, r, r');
    } else if x[0] == '"' || x[0] == '\'' {
      assert s[1..] == x[1..] + r && s'[1..] == x[1..] + r';
      QuotedLocal(x[1..], r, r', x[0]);
    } else {
      SymbolsVisible();
      SymbolFits(s, SYMBOLS);
      var symbol := FirstSymbol(s, SYMBOLS).value;
      assert symbol == s[..|x|] == x;
      SymbolLocal(x, r, r', SYMBOLS);
    }
  }

  /** Nothing that starts a token starts trivia. */
  lemma {:induction false} TriviaLocal(x: string, r: string, r': string)
    requires x != [] && Stops(r') && Piece(x + r) == Ok(0)
    ensures Trivia(x + r') == Ok(0)
  {
    var s, s' := x + r, x + r';
    assert s[0] == x[0] == s'[0];
    BlockFits(s, 0);
    if "//" <= s' { PrefixLocal("//", x, r'); }
    if "/*" <= s' { PrefixLocal("/*", x, r'); }
  }

  /** Trivia is skipped to its end. */
  lemma {:induction false} TriviaEnds(s: string)
    requires Trivia(s).Ok?
    ensures Piece(s[Trivia(s).value..]) == Ok(0)
    decreases |s|
  {
    var n, k := Trivia(s).value, Piece(s).value;
    if k > 0 {
      TriviaEnds(s[k..]);
      assert s[k..][n - k..] == s[n..];
    }
  }

  // ----- characters

  const LOWER: set<char> := {'a', 'b', 'c', 'd', 'e', 'f', 'g', 'h', 'i', 'j', 'k', 'l', 'm', 'n', 'o', 'p', 'q', 'r', 's', 't', 'u', 'v', 'w', 'x', 'y', 'z'}
  const UPPER: set<char> := {'A', 'B', 'C', 'D', 'E', 'F', 'G', 'H', 'I', 'J', 'K', 'L', 'M', 'N', 'O', 'P', 'Q', 'R', 'S', 'T', 'U', 'V', 'W', 'X', 'Y', 'Z'}
  const DIGITS: set<char> := {'0', '1', '2', '3', '4', '5', '6', '7', '8', '9'}
  const HEX := "0123456789abcdef"
  const UPPER_HEX := "0123456789ABCDEF"

  /** The characters of identifiers, white space and numbers are the ones listed. */
  lemma CharacterClasses(c: char)
    ensures IsIdentStart(c) <==> c in LOWER || c in UPPER || c == '_'
    ensures IsIdentBody(c) <==> IsIdentStart(c) || c in DIGITS
    ensures IsSpace(c) <==> c in {' ', '\t', '\r', '\n'}
    ensures IsDigitOf(c, 10) <==> c in DIGITS
    ensures IsDigitOf(c, 2) <==> c in {'0', '1'}
    ensures IsDigitOf(c, 16) <==> c in DIGITS || c in {'a', 'b', 'c', 'd', 'e', 'f', 'A', 'B', 'C', 'D', 'E', 'F'}
  {
  }

  /** A digit is worth its place. */
  lemma DigitsInPlace(i: nat)
    requires i < 16
    ensures IsDigitOf(HEX[i], 16) && DigitValue(HEX[i]) == i && IsDigitOf(UPPER_HEX[i], 16) && DigitValue(UPPER_HEX[i]) == i
  {
  }

  /** After trivia neither white space nor a comment is next. */
  lemma {:induction false} NothingSkippable(s: string)
    requires Trivia(s).Ok?
    ensures var r := s[Trivia(s).value..]; r == [] || (r[0] !in {' ', '\t', '\r', '\n'} && !("//" <= r) && !("/*" <= r))
  {
    hide Trivia, BlockLength, LineLength;
    TriviaEnds(s);
    var r := s[Trivia(s).value..];
    BlockFits(r, 0);
    LineFits(r);
    if r != [] && "//" <= r { CommentTakes(r); }
  }

  lemma CommentTakes(r: string)
    requires r != [] && "//" <= r
    ensures LineLength(r) > 0
  {
    assert r[0] == '/';
  }

  // ----- maximal munch

  /** No symbol of the table comes before a longer one. */
  predicate LongestFirst(symbols: seq<string>) {
    forall i, j :: 0 <= i < j < |symbols| ==> |symbols[i]| >= |symbols[j]|
  }

  lemma SymbolsLongestFirst()
    ensures LongestFirst(SYMBOLS)
  {
    assert forall i :: 0 <= i < 10 ==> |SYMBOLS[i]| == 2;
    assert forall i :: 10 <= i < |SYMBOLS| ==> |SYMBOLS[i]| == 1;
  }

  lemma {:induction false} FirstIsLongest(s: string, symbols: seq<string>)
    requires LongestFirst(symbols)
    ensures match FirstSymbol(s, symbols)
            case Some(symbol) =>
              symbol in symbols && symbol <= s && forall other :: other in symbols && other <= s ==> |other| <= |symbol|
            case None => forall other :: other in symbols ==> !(other <= s)
  {
    if symbols != [] && !(symbols[0] <= s) {
      FirstIsLongest(s, symbols[1..]);
      assert forall other :: other in symbols ==> other == symbols[0] || other in symbols[1..];
    }
  }

  /** The longest symbol the text starts with. */
  predicate LongestSymbol(s: string, text: string) {
    text in SYMBOLS && text <= s && forall symbol :: symbol in SYMBOLS && symbol <= s ==> |symbol| <= |text|
  }

  /** All of an identifier, or of a number's characters. */
  predicate WholeWord(s: string, n: nat) {
    n <= |s| && (forall i :: 0 <= i < n ==> IsIdentBody(s[i])) && (n < |s| ==> !IsIdentBody(s[n]))
  }

  /** A token takes all it can: no symbol the text starts with is longer than the one read, and no character
      of an identifier follows one, or a number. Text is refused as no token only where no symbol starts it. */
  lemma {:induction false} MaximalMunch(s: string)
    requires s != [] && Scan(s).Ok?
    ensures var t := Scan(s).value;
            && (t.kind == Symbol ==> t.width == |t.text| && LongestSymbol(s, t.text))
            && (t.kind == Ident ==> t.text == s[..t.width] && IsIdentStart(s[0]) && WholeWord(s, t.width))
            && (t.kind != Integer ==> t.value == 0)
            && (t.kind == Integer ==> t.text == s[..t.width] && IsDigit(s[0]) && WholeWord(s, t.width))
  {
    hide Quoted, FirstSymbol, IntegerToken, WholeWord, LongestSymbol;
    if IsIdentStart(s[0]) {
      assert WholeWord(s, Run(s, IsIdentBody)) by { WholeRun(s); }
    } else if IsDigit(s[0]) {
      NumberIsWord(s);
    } else if s[0] != '"' && s[0] != '\'' {
      SymbolsLongestFirst();
      FirstIsLongest(s, SYMBOLS);
      assert LongestSymbol(s, Scan(s).value.text) by { SymbolIsLongest(s); }
    }
  }

  lemma WholeRun(s: string)
    ensures WholeWord(s, Run(s, IsIdentBody))
  {
  }

  lemma SymbolIsLongest(s: string)
    requires FirstSymbol(s, SYMBOLS).Some?
    ensures LongestSymbol(s, FirstSymbol(s, SYMBOLS).value)
  {
    SymbolsLongestFirst();
    FirstIsLongest(s, SYMBOLS);
  }

  lemma {:induction false} NumberIsWord(s: string)
    requires s != [] && IsDigit(s[0]) && IntegerToken(s).Ok?
    ensures var t := IntegerToken(s).value; t.kind == Integer && t.text == s[..t.width] && WholeWord(s, t.width)
  {
    hide NumberOf, OnlyUnderscores, Run;
    var radix := Radix(s);
    var skip := if radix == 10 then 0 else 2;
    var n := skip + Run(s[skip..], IsBody(radix));
    forall i | 0 <= i < n ensures IsIdentBody(s[i]) {
      if i >= skip { assert IsBody(radix)(s[skip..][i - skip]); BodyIsIdent(s[i], radix); }
    }
  }

  lemma {:induction false} UnreadableIff(s: string)
    requires s != []
    ensures Scan(s) == Err(UnexpectedCharacter) || Scan(s) == Err(NonAscii) <==>
            !IsIdentBody(s[0]) && s[0] != '"' && s[0] != '\'' && forall symbol :: symbol in SYMBOLS ==> !(symbol <= s)
    ensures Scan(s).Err? && Scan(s).error in {UnexpectedCharacter, NonAscii} ==> (Scan(s) == Err(NonAscii) <==> s[0] as int >= 128)
    ensures s[0] == '"' && Scan(s).Err? ==> Scan(s).error !in {UnterminatedChar, NotOneCharacter}
    ensures s[0] == '\'' && Scan(s).Err? ==> Scan(s).error != UnterminatedString
  {
    hide Quoted, FirstSymbol, IntegerToken;
    if IsDigit(s[0]) {
      NumberRefusals(s);
    } else if s[0] == '"' || s[0] == '\'' {
      QuotedRefusals(s[1..], s[0]);
    } else {
      SymbolsLongestFirst();
      FirstIsLongest(s, SYMBOLS);
    }
  }

  lemma NumberRefusals(s: string)
    requires s != [] && IsDigit(s[0])
    ensures IntegerToken(s).Err? ==> IntegerToken(s).error != UnexpectedCharacter && IntegerToken(s).error != NonAscii
  {
    hide NumberOf, OnlyUnderscores, Run;
  }

  /** What a literal can be refused for: its own lack of an end, or an escape. */
  lemma {:induction false} QuotedRefusals(s: string, quote: char)
    requires quote == '"' || quote == '\''
    ensures Quoted(s, quote).Err? ==>
            Quoted(s, quote).error in {if quote == '"' then UnterminatedString else UnterminatedChar,
                                       UnterminatedEscape, UnknownEscape, BadHexEscape}
    decreases |s|
  {
    if s != [] && s[0] != quote && s[0] != '\n' && Unit(s, quote).Ok? { QuotedRefusals(s[Unit(s, quote).value.1..], quote); }
  }

  // ----- numbers and escapes, accepted and refused

  /** The marker a number starts with. */
  predicate Marked(s: string) {
    "0x" <= s || "0b" <= s
  }

  /** Are these the digits of a number, and underscores? */
  predicate DigitsOf(body: string, radix: nat) {
    forall i :: 0 <= i < |body| ==> IsDigitOf(body[i], radix) || body[i] == '_'
  }

  /** The whole word that starts here is read as a number exactly when all of it is digits and underscores of the
      radix its marker gives, a digit first; without a digit after the marker it is refused as having none, and in any
      other case for a digit that is not one. */
  lemma {:induction false} NumberAcceptedIff(s: string)
    requires s != [] && IsDigit(s[0])
    ensures var word := s[..Run(s, IsIdentBody)];
            var radix := if "0x" <= s then 16 else if "0b" <= s then 2 else 10;
            && (IntegerToken(s) == Err(NoDigits) <==> Marked(s) && (|s| == 2 || !IsDigitOf(s[2], radix)))
            && (IntegerToken(s).Err? ==> IntegerToken(s).error == NoDigits || IntegerToken(s).error == InvalidDigit)
            && (IntegerToken(s).Ok? <==>
                if Marked(s) then |word| > 2 && IsDigitOf(word[2], radix) && DigitsOf(word[2..], radix) else DigitsOf(word, radix))
  {
    hide NumberOf, IsDigitOf, Run;
    var radix := Radix(s);
    RadixIs(s);
    if !Marked(s) {
      TenDigit(s[0]);
      BodyAcceptedIff(s, 10, 0);
      assert s[0..] == s;
    } else if |s| > 2 && IsDigitOf(s[2], radix) {
      BodyAcceptedIff(s, radix, 2);
    }
    if |s| > 1 { assert IsIdentBody(s[0]); }
  }

  lemma TenDigit(c: char)
    requires IsDigit(c)
    ensures IsDigitOf(c, 10)
  {
  }

  lemma RadixIs(s: string)
    ensures Radix(s) == if "0x" <= s then 16 else if "0b" <= s then 2 else 10
    ensures Marked(s) ==> |s| >= 2 && IsIdentBody(s[0]) && IsIdentBody(s[1])
  {
    if "0x" <= s { assert s[0] == '0' && s[1] == 'x'; }
    if "0b" <= s { assert s[0] == '0' && s[1] == 'b'; }
  }

  lemma {:induction false} BodyAcceptedIff(s: string, radix: nat, skip: nat)
    requires skip < |s| && radix <= 16 && IsDigitOf(s[skip], radix) && forall i :: 0 <= i < skip ==> IsIdentBody(s[i])
    ensures Run(s, IsIdentBody) > skip
    ensures IntegerBody(s, radix, skip).Ok? <==> DigitsOf(s[skip..Run(s, IsIdentBody)], radix)
    ensures IntegerBody(s, radix, skip).Err? ==> IntegerBody(s, radix, skip).error == InvalidDigit
  {
    hide NumberOf, IsDigitOf, Run;
    var n, k := skip + Run(s[skip..], IsBody(radix)), Run(s, IsIdentBody);
    assert s[skip..][0] == s[skip] && IsBody(radix)(s[skip]);
    BodyIsIdent(s[skip], radix);
    DigitIsNoUnderscore(radix);
    forall i | skip <= i < n ensures IsIdentBody(s[i]) && IsBody(radix)(s[i]) {
      assert s[skip..][i - skip] == s[i];
      BodyIsIdent(s[i], radix);
    }
    assert s[skip..n][0] == s[skip];
    assert n <= k;
    if n < |s| {
      assert s[skip..][n - skip] == s[n] && !IsBody(radix)(s[n]);
      if n < k { assert s[skip..k][n - skip] == s[n]; }
    }
    forall i | 0 <= i < n - skip ensures s[skip..n][i] == s[skip + i] {}
  }

  lemma DigitIsNoUnderscore(radix: nat)
    requires radix <= 16
    ensures !IsDigitOf('_', radix)
  {
  }

  /** The digits without the underscores between them. */
  function Digits(body: string): string {
    if body == [] then [] else Digits(body[..|body| - 1]) + (if body[|body| - 1] == '_' then [] else [body[|body| - 1]])
  }

  /** Underscores say nothing. */
  lemma {:induction false} UnderscoresDropped(body: string, radix: nat)
    ensures NumberOf(body, radix) == NumberOf(Digits(body), radix)
    ensures '_' !in Digits(body)
  {
    hide DigitValue;
    if body != [] {
      var init, last := body[..|body| - 1], body[|body| - 1];
      UnderscoresDropped(init, radix);
      if last == '_' {
        assert Digits(body) == Digits(init);
      } else {
        assert Digits(body)[..|Digits(init)|] == Digits(init);
      }
    }
  }

  const ESCAPES: map<char, char> := map['n' := '\n', 't' := '\t', 'r' := '\r', '0' := '\0', '\\' := '\\']

  /** The escapes are the five of the table, the quote, and `x` with two hexadecimal digits. */
  lemma {:induction false} EscapesIff(s: string, quote: char)
    requires |s| > 1 && quote in {'"', '\''}
    ensures s[1] in ESCAPES ==> Escape(s, quote) == Ok((ESCAPES[s[1]], 2))
    ensures s[1] == quote ==> Escape(s, quote) == Ok((quote, 2))
    ensures s[1] == 'x' ==>
            if |s| >= 4 && IsDigitOf(s[2], 16) && IsDigitOf(s[3], 16)
            then Escape(s, quote).Ok? && Escape(s, quote).value.0 as int == 16 * DigitValue(s[2]) + DigitValue(s[3]) && Escape(s, quote).value.1 == 4
            else Escape(s, quote) == Err(BadHexEscape)
    ensures s[1] !in ESCAPES && s[1] != quote && s[1] != 'x' ==> Escape(s, quote) == Err(UnknownEscape)
  {
  }

  // ----- the round trip

  function Slice(text: string, t: Token): string {
    if t.start <= t.end <= |text| then text[t.start..t.end] else ""
  }

  /** The source of each token but the end of file, one blank between them. */
  function Joined(text: string, ts: seq<Token>): string {
    if |ts| <= 1 then ""
    else Slice(text, ts[0]) + (if |ts| == 2 then "" else " " + Joined(text, ts[1..]))
  }

  /** The same tokens, wherever they lie. */
  predicate Same(ts: seq<Token>, us: seq<Token>) {
    |ts| == |us| && forall i :: 0 <= i < |ts| ==>
      ts[i].kind == us[i].kind && ts[i].text == us[i].text && ts[i].value == us[i].value
  }

  lemma LexNothing(at: nat)
    ensures Lex("", at) == Ok([Token(Eof, "", 0, at, at)])
  {
  }

  /** A source always has its end of file, and where it has nothing else it is as good as empty. */
  lemma {:induction false} LexLast(s: string, at: nat, b: nat)
    requires Lex(s, at).Ok?
    ensures Lex(s, at).value != []
    ensures |Lex(s, at).value| == 1 ==> Lex("", b).Ok? && Same(Lex(s, at).value, Lex("", b).value)
    decreases |s|
  {
    hide Scan, Piece;
    LexNothing(b);
    var n := Trivia(s).value;
    if n < |s| {
      var w := Scan(s[n..]).value.width;
      LexLast(s[n..][w..], at + n + w, b);
    }
  }

  lemma {:induction false} LexBlank(s: string, at: nat)
    ensures Lex(" " + s, at) == Lex(s, at + 1)
  {
    hide Scan, LexToken, BlockLength, LineLength;
    var b := " " + s;
    assert b[1..] == s && Piece(b) == Ok(1);
    if Trivia(s).Ok? { assert b[Trivia(s).value + 1..] == s[Trivia(s).value..]; }
  }

  lemma {:induction false} JoinedLexes(text: string, at: nat, b: nat)
    requires at <= |text| && Lex(text[at..], at).Ok?
    ensures Lex(Joined(text, Lex(text[at..], at).value), b).Ok?
    ensures Same(Lex(text[at..], at).value, Lex(Joined(text, Lex(text[at..], at).value), b).value)
    decreases |text| - at, 1
  {
    hide Scan, Piece, LexToken, Joined, Trivia;
    var n := Trivia(text[at..]).value;
    TriviaEnds(text[at..]);
    assert text[at..][n..] == text[at + n..];
    JoinedToken(text, at + n, b);
  }

  lemma SameCons(t: Token, u: Token, ts: seq<Token>, us: seq<Token>)
    requires Same(ts, us) && t.kind == u.kind && t.text == u.text && t.value == u.value
    ensures Same([t] + ts, [u] + us)
  {
  }

  lemma {:induction false} JoinedToken(text: string, at: nat, b: nat)
    requires at <= |text| && Piece(text[at..]) == Ok(0) && LexToken(text[at..], at).Ok?
    ensures Lex(Joined(text, LexToken(text[at..], at).value), b).Ok?
    ensures Same(LexToken(text[at..], at).value, Lex(Joined(text, LexToken(text[at..], at).value), b).value)
    decreases |text| - at, 0
  {
    hide Scan, Piece, Trivia, Lex, Same, Joined;
    var s := text[at..];
    if s == [] {
      JoinedNothing(text, at, b);
    } else {
      var t := Scan(s).value;
      var next := at + t.width;
      var x := s[..t.width];
      assert s == x + text[next..] && s[t.width..] == text[next..];
      var rest := Lex(text[next..], next).value;
      var first := Token(t.kind, t.text, t.value, at, next);
      assert LexToken(s, at) == Ok([first] + rest);
      var tail := JoinedTail(text, next, b + t.width);
      JoinedFirst(text, first, rest);
      TriviaLocal(x, text[next..], tail);
      ScanLocal(x, text[next..], tail);
      LexFirst(x, tail, t, b);
      SameCons(first, Token(t.kind, t.text, t.value, b, b + t.width), rest, Lex(tail, b + t.width).value);
      assert x + tail == Joined(text, [first] + rest);
    }
  }

  lemma JoinedNothing(text: string, at: nat, b: nat)
    requires at == |text|
    ensures LexToken(text[at..], at) == Ok([Token(Eof, "", 0, at, at)])
    ensures Lex(Joined(text, [Token(Eof, "", 0, at, at)]), b).Ok?
    ensures Same([Token(Eof, "", 0, at, at)], Lex(Joined(text, [Token(Eof, "", 0, at, at)]), b).value)
  {
    LexNothing(b);
  }

  /** What a token's source is followed by in the joined text. */
  function Tail(text: string, rest: seq<Token>): string {
    if |rest| <= 1 then "" else " " + Joined(text, rest)
  }

  lemma JoinedFirst(text: string, first: Token, rest: seq<Token>)
    requires rest != []
    ensures Joined(text, [first] + rest) == Slice(text, first) + Tail(text, rest)
  {
    assert ([first] + rest)[1..] == rest;
  }

  lemma {:induction false} JoinedTail(text: string, next: nat, b: nat) returns (tail: string)
    requires next <= |text| && Lex(text[next..], next).Ok?
    ensures Lex(text[next..], next).value != []
    ensures tail == Tail(text, Lex(text[next..], next).value) && Stops(tail)
    ensures Lex(tail, b).Ok? && Same(Lex(text[next..], next).value, Lex(tail, b).value)
    decreases |text| - next, 2
  {
    hide Scan, Piece, Trivia, Lex, Same, Joined;
    var rest := Lex(text[next..], next).value;
    tail := Tail(text, rest);
    LexLast(text[next..], next, b);
    JoinedLexes(text, next, b + 1);
    LexBlank(Joined(text, rest), b);
  }

  lemma {:induction false} LexFirst(x: string, tail: string, t: Lexeme, b: nat)
    requires x != [] && t.width == |x| && Trivia(x + tail) == Ok(0) && Scan(x + tail) == Ok(t)
    requires Lex(tail, b + t.width).Ok?
    ensures Lex(x + tail, b)
         == Ok([Token(t.kind, t.text, t.value, b, b + t.width)] + Lex(tail, b + t.width).value)
  {
    assert (x + tail)[0..] == x + tail && (x + tail)[t.width..] == tail;
  }

  /** Every source that tokenises is told back by its tokens: their source slices, with one
      blank between them, tokenise to the same kinds, texts and values. */
  lemma {:induction false} RoundTrip(text: string)
    requires Lex(text, 0).Ok?
    ensures Lex(Joined(text, Lex(text, 0).value), 0).Ok?
    ensures Same(Lex(text, 0).value, Lex(Joined(text, Lex(text, 0).value), 0).value)
  {
    assert text[0..] == text;
    JoinedLexes(text, 0, 0);
  }

  // ----- where tokens lie, and what lies between them

  /** What each character, or pair, of a comment's text does to the number of comments open. */
  function Marks(c: string): seq<int>
    decreases |c|
  {
    if c == [] then []
    else if "/*" <= c then [1] + Marks(c[2..])
    else if "*/" <= c then [-1] + Marks(c[2..])
    else [0] + Marks(c[1..])
  }

  function Total(marks: seq<int>): int {
    if marks == [] then 0 else marks[0] + Total(marks[1..])
  }

  /** `depth` comments stay open over every proper prefix of the marks, and close at its end. */
  predicate Closes(marks: seq<int>, depth: int) {
    marks != [] && Total(marks) == -depth && forall i :: 0 <= i < |marks| ==> depth + Total(marks[..i]) > 0
  }

  /** A block comment: it opens, and its nested comments balance exactly at its end. */
  predicate IsBlockComment(c: string) {
    "/*" <= c && Closes(Marks(c)[1..], 1)
  }

  predicate IsLineComment(c: string) {
    "//" <= c && '\n' !in c
  }

  /** White space, line comments each up to a newline, and balanced block comments. */
  ghost predicate IsTrivia(g: string, atEnd: bool)
    decreases |g|
  {
    || g == ""
    || (IsSpace(g[0]) && IsTrivia(g[1..], atEnd))
    || (exists k :: 2 <= k <= |g| && IsLineComment(g[..k])
          && (if k == |g| then atEnd else g[k] == '\n') && IsTrivia(g[k..], atEnd))
    || (exists k :: 4 <= k <= |g| && IsBlockComment(g[..k]) && IsTrivia(g[k..], atEnd))
  }

  /** Token after token, each after the last and with nothing but trivia between, up to the end
      of file at the end of the text. */
  ghost predicate Laid(text: string, at: nat, ts: seq<Token>)
    decreases |ts|
  {
    && ts != [] && at <= ts[0].start <= |text|
    && IsTrivia(text[at..ts[0].start], ts[0].kind == Eof)
    && if |ts| == 1 then ts[0].kind == Eof && ts[0].start == ts[0].end == |text|
       else ts[0].kind != Eof && ts[0].start < ts[0].end <= |text| && Laid(text, ts[0].end, ts[1..])
  }

  lemma {:induction false} MarksCons(m: int, rest: seq<int>, depth: int)
    requires depth > 0
    requires (rest == [] && m == -depth) || Closes(rest, depth + m)
    ensures Closes([m] + rest, depth)
  {
    var marks := [m] + rest;
    assert marks[1..] == rest;
    forall i | 0 <= i < |marks| ensures depth + Total(marks[..i]) > 0 {
      if i > 0 { assert marks[..i][1..] == rest[..i - 1] && marks[..i][0] == m; }
    }
  }

  lemma {:induction false} BlockCloses(s: string, depth: int)
    requires depth > 0 && BlockLength(s, depth).Ok?
    ensures BlockLength(s, depth).value <= |s|
    ensures Closes(Marks(s[..BlockLength(s, depth).value]), depth)
    decreases |s|
  {
    hide Closes, Marks;
    BlockFits(s, depth);
    var n := BlockLength(s, depth).value;
    var c := s[..n];
    var m := if "/*" <= s then 1 else if "*/" <= s then -1 else 0;
    var k := if m == 0 then 1 else 2;
    MarksPrefix(s, n, m, k);
    assert s[k..][..n - k] == c[k..];
    if m == -1 && depth == 1 {
      MarksCons(m, [], depth);
      assert Marks(c) == [-1] + [];
    } else {
      BlockCloses(s[k..], depth + m);
      MarksCons(m, Marks(c[k..]), depth);
    }
  }

  /** The first mark of a prefix is the first mark of the text. */
  lemma {:induction false} MarksPrefix(s: string, n: nat, m: int, k: nat)
    requires 2 <= n <= |s|
    requires m == (if "/*" <= s then 1 else if "*/" <= s then -1 else 0) && k == (if m == 0 then 1 else 2)
    ensures Marks(s[..n]) == [m] + Marks(s[..n][k..])
    ensures n == 2 && k == 2 ==> Marks(s[..n][k..]) == []
  {
    assert s[..n][0] == s[0] && s[..n][1] == s[1];
  }

  lemma AddSpace(s: string, g: string, atEnd: bool)
    requires s != "" && IsSpace(s[0]) && g != "" && g[0] == s[0] && IsTrivia(g[1..], atEnd)
    ensures Piece(s) == Ok(1) && IsTrivia(g, atEnd)
  {
  }

  lemma AddLine(g: string, k: nat, atEnd: bool)
    requires 2 <= k <= |g| && IsLineComment(g[..k]) && IsTrivia(g[k..], atEnd)
    requires if k == |g| then atEnd else g[k] == '\n'
    ensures IsTrivia(g, atEnd)
  {
  }

  lemma AddBlock(g: string, k: nat, atEnd: bool)
    requires 4 <= k <= |g| && IsBlockComment(g[..k]) && IsTrivia(g[k..], atEnd)
    ensures IsTrivia(g, atEnd)
  {
  }

  lemma {:induction false} TriviaIsTrivia(s: string)
    requires Trivia(s).Ok?
    ensures IsTrivia(s[..Trivia(s).value], Trivia(s).value == |s|)
    decreases |s|
  {
    hide IsTrivia, Trivia, Piece, IsLineComment, IsBlockComment;
    TriviaStep(s);
    var n, k := Trivia(s).value, Piece(s).value;
    var g, atEnd := s[..n], n == |s|;
    if k == 0 {
      NoTrivia(atEnd);
      assert g == "";
    } else {
      PieceKinds(s);
      TriviaIsTrivia(s[k..]);
      assert s[k..][..n - k] == g[k..] && g[..k] == s[..k];
      if IsSpace(s[0]) {
        AddSpace(s, g, atEnd);
      } else if "//" <= s {
        if k < |s| { NewlineIsTrivia(s[k..]); }
        AddLine(g, k, atEnd);
      } else {
        AddBlock(g, k, atEnd);
      }
    }
  }

  lemma {:induction false} TriviaStep(s: string)
    requires Trivia(s).Ok?
    ensures Piece(s).Ok?
    ensures var n, k := Trivia(s).value, Piece(s).value;
            && k <= n <= |s|
            && if k == 0 then n == 0 else Trivia(s[k..]) == Ok(n - k)
  {
    hide Piece;
  }

  lemma NewlineIsTrivia(s: string)
    requires s != "" && s[0] == '\n' && Trivia(s).Ok?
    ensures Trivia(s).value >= 1
  {
    assert Piece(s) == Ok(1);
  }

  /** What a piece of trivia is, by how it starts. */
  lemma {:induction false} PieceKinds(s: string)
    requires Piece(s).Ok? && Piece(s).value > 0
    ensures var k := Piece(s).value;
            && s != "" && k <= |s|
            && if IsSpace(s[0]) then k == 1
               else if "//" <= s then k >= 2 && IsLineComment(s[..k]) && (k < |s| ==> s[k] == '\n')
               else k >= 4 && IsBlockComment(s[..k])
  {
    hide IsLineComment, IsBlockComment;
    if IsSpace(s[0]) {
    } else if "//" <= s {
      LineIsComment(s);
    } else {
      BlockIsComment(s);
    }
  }

  lemma NoTrivia(atEnd: bool)
    ensures IsTrivia("", atEnd)
  {
  }

  lemma {:induction false} LineIsComment(s: string)
    requires "//" <= s
    ensures 2 <= LineLength(s) <= |s| && IsLineComment(s[..LineLength(s)])
    ensures LineLength(s) < |s| ==> s[LineLength(s)] == '\n'
  {
    LineStops(s);
    assert s[0] == '/' && s[1] == '/' && s[1..] != [] && LineLength(s[1..]) > 0;
    assert s[..LineLength(s)][..2] == s[..2];
  }

  lemma {:induction false} LineStops(s: string)
    ensures LineLength(s) <= |s| && '\n' !in s[..LineLength(s)]
    ensures LineLength(s) < |s| ==> s[LineLength(s)] == '\n'
  {
    if s != [] && s[0] != '\n' {
      LineStops(s[1..]);
      assert s[..LineLength(s)] == [s[0]] + s[1..][..LineLength(s[1..])];
    }
  }

  lemma {:induction false} BlockIsComment(s: string)
    requires "/*" <= s && BlockLength(s, 0).Ok?
    ensures 4 <= BlockLength(s, 0).value <= |s| && IsBlockComment(s[..BlockLength(s, 0).value])
  {
    hide Closes;
    BlockFits(s[2..], 1);
    BlockCloses(s[2..], 1);
    var n := BlockLength(s, 0).value;
    assert s[2..][..n - 2] == s[..n][2..];
    assert s[..n][..2] == s[..2];
  }

  lemma {:induction false} LexLaid(text: string, at: nat)
    requires at <= |text| && Lex(text[at..], at).Ok?
    ensures Laid(text, at, Lex(text[at..], at).value)
    decreases |text| - at
  {
    hide Scan, Piece, Trivia, IsTrivia;
    var s := text[at..];
    var n := Trivia(s).value;
    TriviaIsTrivia(s);
    assert s[..n] == text[at..at + n];
    if n < |s| {
      var t := Scan(s[n..]).value;
      ScanIsToken(s[n..]);
      var next := at + n + t.width;
      assert s[n..][t.width..] == text[next..];
      LexLaid(text, next);
      var ts := Lex(s, at).value;
      assert ts[1..] == Lex(text[next..], next).value;
      LexLast(text[next..], next, 0);
    }
  }

  lemma {:induction false} ScanIsToken(s: string)
    requires s != [] && Scan(s).Ok?
    ensures Scan(s).value.kind != Eof
  {
  }

  /** The tokens of a source lie in order and apart, with only trivia around them. */
  lemma {:induction false} SpansAreApart(text: string)
    requires Lex(text, 0).Ok?
    ensures Laid(text, 0, Lex(text, 0).value)
  {
    assert text[0..] == text;
    LexLaid(text, 0);
  }

  // ----- literals read back what they were written for

  function DigitChar(d: nat): char
    requires d < 16
  {
    if d < 10 then '0' + d as char else 'a' + (d - 10) as char
  }

  function Quo(n: nat, radix: nat): (q: nat)
    requires radix >= 2
    ensures n > 0 ==> q < n
  {
    if n == 0 then 0 else QuotientLess(n, radix); n / radix
  }

  function Rem(n: nat, radix: nat): (d: nat)
    requires radix >= 2
    ensures d < radix
  {
    n % radix
  }

  function Horner(q: nat, radix: nat, d: nat): nat {
    q * radix + d
  }

  /** A number in a radix, most significant digit first. */
  function Written(n: nat, radix: nat): (s: string)
    requires 2 <= radix <= 16
    ensures s != []
  {
    if n < radix then [DigitChar(n)] else Written(Quo(n, radix), radix) + [DigitChar(Rem(n, radix))]
  }

  function Marker(radix: nat): string {
    if radix == 16 then "0x" else if radix == 2 then "0b" else ""
  }

  lemma DigitCharIs(d: nat)
    requires d < 16
    ensures DigitValue(DigitChar(d)) == d && DigitChar(d) != '_'
    ensures d < 10 ==> IsDigit(DigitChar(d))
  {
  }

  lemma Recompose(n: nat, radix: nat)
    requires radix >= 2
    ensures Horner(Quo(n, radix), radix, Rem(n, radix)) == n
  {
  }

  lemma {:induction false} NumberAppends(most: string, c: char, radix: nat)
    requires c != '_'
    ensures NumberOf(most + [c], radix) == Horner(NumberOf(most, radix), radix, DigitValue(c))
  {
    assert (most + [c])[..|most|] == most;
  }

  lemma {:induction false} WrittenDigits(n: nat, radix: nat)
    requires 2 <= radix <= 16
    ensures forall i :: 0 <= i < |Written(n, radix)| ==>
      IsDigitOf(Written(n, radix)[i], radix) && Written(n, radix)[i] != '_'
  {
    hide DigitValue, DigitChar, Quo, Rem;
    if n < radix {
      DigitCharIs(n);
    } else {
      DigitCharIs(Rem(n, radix));
      WrittenDigits(Quo(n, radix), radix);
    }
  }

  lemma {:induction false} WrittenNumber(n: nat, radix: nat)
    requires 2 <= radix <= 16
    ensures NumberOf(Written(n, radix), radix) == n
  {
    hide DigitValue, DigitChar, NumberOf, Quo, Rem, Horner;
    if n < radix {
      DigitCharIs(n);
      NumberAppends([], DigitChar(n), radix);
      NothingIsZero(radix, DigitValue(DigitChar(n)));
      assert [] + [DigitChar(n)] == [DigitChar(n)];
    } else {
      var q, d := Quo(n, radix), Rem(n, radix);
      Recompose(n, radix);
      DigitCharIs(d);
      WrittenNumber(q, radix);
      NumberAppends(Written(q, radix), DigitChar(d), radix);
    }
  }

  lemma NothingIsZero(radix: nat, d: nat)
    ensures Horner(NumberOf([], radix), radix, d) == d
  {
  }

  lemma BodyIsIdent(c: char, radix: nat)
    requires radix <= 16 && IsBody(radix)(c)
    ensures IsIdentBody(c)
  {
  }

  lemma {:induction false} RunAll(x: string, r: string, p: char -> bool)
    requires forall i :: 0 <= i < |x| ==> p(x[i])
    requires r == [] || !p(r[0])
    ensures Run(x + r, p) == |x|
  {
    if x == [] {
      assert x + r == r;
    } else {
      assert (x + r)[0] == x[0] && (x + r)[1..] == x[1..] + r;
      RunAll(x[1..], r, p);
    }
  }

  /** A written number starts with a digit and announces its own radix. */
  lemma {:induction false} WrittenStarts(body: string, radix: nat, r: string)
    requires radix in {2, 10, 16} && body != [] && (r == [] || !IsIdentBody(r[0]))
    requires forall i :: 0 <= i < |body| ==> IsDigitOf(body[i], radix) && body[i] != '_'
    ensures var s := Marker(radix) + body + r;
            s[0] == (Marker(radix) + body)[0] && IsDigit(s[0]) && Radix(s) == radix
  {
    var s := Marker(radix) + body + r;
    if radix == 10 {
      assert s[0] == body[0];
      if |s| > 1 { assert s[1] == if |body| > 1 then body[1] else r[0]; }
    } else {
      assert s[0] == Marker(radix)[0] && s[1] == Marker(radix)[1];
    }
  }

  lemma ScanDigit(s: string)
    requires s != [] && IsDigit(s[0])
    ensures Scan(s) == IntegerToken(s)
  {
  }

  lemma SomeDigit(body: string)
    requires body != [] && body[0] != '_'
    ensures !OnlyUnderscores(body)
  {
  }

  /** Every number, in any of the three radixes, is read back as itself. */
  lemma {:induction false} NumberReads(n: nat, radix: nat, r: string)
    requires radix in {2, 10, 16} && (r == [] || !IsIdentBody(r[0]))
    ensures var literal := Marker(radix) + Written(n, radix);
            Scan(literal + r) == Ok(Lexeme(Integer, literal, n, |literal|))
  {
    hide NumberOf, Written, Radix, DigitValue, Scan, IntegerBody;
    var body := Written(n, radix);
    var s, skip := Marker(radix) + body + r, |Marker(radix)|;
    WrittenDigits(n, radix);
    WrittenNumber(n, radix);
    WrittenStarts(body, radix, r);
    ScanDigit(s);
    assert s[skip] == body[0];
    BodyReads(Marker(radix), body, r, radix);
  }

  /** A literal's digits are read up to what follows them. */
  lemma {:induction false} BodyReads(marker: string, body: string, r: string, radix: nat)
    requires radix <= 16 && body != [] && (r == [] || !IsIdentBody(r[0]))
    requires forall i :: 0 <= i < |body| ==> IsDigitOf(body[i], radix) && body[i] != '_'
    ensures IntegerBody(marker + body + r, radix, |marker|) ==
            Ok(Lexeme(Integer, marker + body, NumberOf(body, radix), |marker + body|))
  {
    hide NumberOf, DigitValue, OnlyUnderscores, Run, IsIdentBody;
    var s, skip, end := marker + body + r, |marker|, |marker + body|;
    SomeDigit(body);
    assert s[skip..] == body + r;
    if r != [] && IsBody(radix)(r[0]) { BodyIsIdent(r[0], radix); }
    RunAll(body, r, IsBody(radix));
    assert s[skip..end] == body && s[..end] == marker + body;
    assert end < |s| ==> s[end] == r[0];
  }

  /** A character as a literal holds it: the quote, the backslash and the newline escaped. */
  function EscapedChar(c: char, quote: char): string {
    if c == '\n' then "\\n" else if c == quote || c == '\\' then ['\\', c] else [c]
  }

  function Escaped(v: string, quote: char): string {
    if v == [] then "" else EscapedChar(v[0], quote) + Escaped(v[1..], quote)
  }

  /** One character of a literal, as it is or escaped, and then the rest. */
  lemma {:induction false} QuotedCharacter(c: char, quote: char, rest: string)
    requires quote == '"' || quote == '\''
    requires Quoted(rest, quote).Ok?
    ensures var one := EscapedChar(c, quote);
            Quoted(one + rest, quote)
            == Ok(([c] + Quoted(rest, quote).value.0, |one| + Quoted(rest, quote).value.1))
  {
    hide Quoted;
    var one := EscapedChar(c, quote);
    var s := one + rest;
    assert s[|one|..] == rest && s[0] == one[0];
    if |one| == 2 { assert s[1] == one[1]; }
    assert Unit(s, quote) == Ok((c, |one|));
    QuotedUnit(s, quote);
  }

  lemma QuotedUnit(s: string, quote: char)
    requires s != [] && s[0] != quote && s[0] != '\n' && Unit(s, quote).Ok?
    ensures var (c, k) := Unit(s, quote).value;
            Quoted(s, quote) == match Quoted(s[k..], quote)
                                case Err(why) => Err(why)
                                case Ok((body, n)) => Ok(([c] + body, k + n))
  {
    hide Unit;
  }

  lemma {:induction false} QuotedReads(v: string, quote: char, r: string)
    requires quote == '"' || quote == '\''
    ensures Quoted(Escaped(v, quote) + [quote] + r, quote) == Ok((v, |Escaped(v, quote)| + 1))
  {
    hide EscapedChar, Unit;
    if v == [] {
      assert [quote] + r == "" + [quote] + r && ([quote] + r)[0] == quote;
    } else {
      hide Quoted;
      var rest := Escaped(v[1..], quote) + [quote] + r;
      QuotedReads(v[1..], quote, r);
      QuotedCharacter(v[0], quote, rest);
      assert v == [v[0]] + v[1..];
      assert Escaped(v, quote) + [quote] + r == EscapedChar(v[0], quote) + rest;
    }
  }

  /** Every string, and every single character, is read back as itself. */
  lemma {:induction false} TextReads(v: string, r: string)
    ensures var literal := "\"" + Escaped(v, '"') + "\"";
            Scan(literal + r) == Ok(Lexeme(Str, v, 0, |literal|))
    ensures var literal := "'" + Escaped(v, '\'') + "'";
            Scan(literal + r) == if |v| == 1 then Ok(Lexeme(Character, v, 0, |literal|)) else Err(NotOneCharacter)
  {
    hide Quoted, Escaped, FirstSymbol, IntegerToken;
    QuotedReads(v, '"', r);
    QuotedReads(v, '\'', r);
    assert ("\"" + Escaped(v, '"') + "\"" + r)[1..] == Escaped(v, '"') + ['"'] + r;
    assert ("'" + Escaped(v, '\'') + "'" + r)[1..] == Escaped(v, '\'') + ['\''] + r;
  }

  /** `\xNN` names every byte by its two hexadecimal digits. */
  lemma {:induction false} HexEscapeReads(b: nat, quote: char, r: string)
    requires b < 256 && (quote == '"' || quote == '\'')
    ensures Escape("\\x" + [DigitChar(b / 16), DigitChar(b % 16)] + r, quote) == Ok((b as char, 4))
  {
    assert 16 * (b / 16) + b % 16 == b;
  }
}
