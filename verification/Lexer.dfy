/** `Lexer` (situc/lexer.py): one position that every scan advances through one source. */
module Lexers {
  import opened Prelude
  import opened Lexical

  class Lexer {
    const text: string
    var pos: nat

    ghost predicate Valid()
      reads this
    {
      pos <= |text|
    }

    /** The source still to be read. */
    ghost function Left(): string
      reads this
      requires Valid()
    {
      text[pos..]
    }

    constructor (text: string)
      ensures Valid() && this.text == text && pos == 0
    {
      this.text := text;
      pos := 0;
    }

    predicate StartsWith(mark: string)
      reads this
      requires Valid()
      ensures StartsWith(mark) == (mark <= Left())
    {
      mark <= text[pos..]
    }

    /** What is known of the whole, once `tokens` have been read. */
    static function Prepend(tokens: seq<Token>, rest: Lexed<seq<Token>>): Lexed<seq<Token>> {
      match rest
      case Err(why) => Err(why)
      case Ok(ts) => Ok(tokens + ts)
    }

    static lemma {:induction false} LexStep(s: string, at: nat, n: nat, t: Lexed<Lexeme>, tokens: seq<Token>)
      requires Trivia(s) == Ok(n) && n < |s| && Scan(s[n..]) == t
      ensures match t
              case Err(why) => Lex(s, at) == Err(why)
              case Ok(l) =>
                Prepend(tokens, Lex(s, at)) ==
                Prepend(tokens + [Token(l.kind, l.text, l.value, at + n, at + n + l.width)],
                        Lex(s[n..][l.width..], at + n + l.width))
    {
      hide Trivia, Scan, Lex;
      LexUnfold(s, at, n);
      if t.Ok? && Lex(s, at).Ok? {
        var l := t.value;
        var rest := Lex(s[n..][l.width..], at + n + l.width).value;
        var token := Token(l.kind, l.text, l.value, at + n, at + n + l.width);
        assert tokens + ([token] + rest) == tokens + [token] + rest;
      }
    }

    static lemma {:induction false} LexUnfold(s: string, at: nat, n: nat)
      requires Trivia(s) == Ok(n)
      ensures Lex(s, at) == LexToken(s[n..], at + n)
    {
      hide Trivia, LexToken;
    }

    method Tokenize() returns (r: Lexed<seq<Token>>)
      requires Valid()
      modifies this
      ensures Valid() && r == Lex(old(Left()), old(pos))
    {
      hide Trivia, Scan, Lex;
      ghost var spec := Lex(Left(), pos);
      var tokens: seq<Token> := [];
      assert Prepend([], spec) == spec by { if spec.Ok? { assert [] + spec.value == spec.value; } }
      while true
        invariant Valid() && spec == Prepend(tokens, Lex(Left(), pos))
        decreases |text| - pos
      {
        ghost var here, at := Left(), pos;
        var skipped := SkipTrivia();
        if skipped.Err? {
          TriviaRefused(here, at);
          return Err(skipped.error);
        }
        ghost var n := pos - at;
        assert here[n..] == Left();
        if pos == |text| {
          LexUnfold(here, at, n);
          break;
        }
        ghost var t := Scan(Left());
        LexStep(here, at, n, t, tokens);
        var token := ScanToken();
        if token.Err? { return Err(token.error); }
        assert here[n..][t.value.width..] == Left();
        tokens := tokens + [token.value];
      }
      return Ok(tokens + [Token(Eof, "", 0, |text|, |text|)]);
    }

    static lemma TriviaRefused(s: string, at: nat)
      requires Trivia(s).Err?
      ensures Lex(s, at) == Err(Trivia(s).error)
    {
    }

    /** Past white space and comments. */
    method SkipTrivia() returns (r: Lexed<()>)
      requires Valid()
      modifies this
      ensures Valid()
      ensures match r
              case Err(why) => Trivia(old(Left())) == Err(why)
              case Ok(_) => old(pos) <= pos && Trivia(old(Left())) == Ok(pos - old(pos))
    {
      hide Trivia, BlockLength, LineLength;
      ghost var start := pos;
      ghost var spec := Trivia(Left());
      assert AddTo(0, spec) == spec;
      while pos < |text|
        invariant Valid() && start <= pos && spec == AddTo(pos - start, Trivia(Left()))
        decreases |text| - pos
      {
        ghost var here, at := Left(), pos;
        LineFits(here);
        BlockFits(here, 0);
        TriviaUnfold(here);
        if IsSpace(text[pos]) {
          pos := pos + 1;
        } else if StartsWith("//") {
          LineStarts(here);
          SkipLine();
        } else if StartsWith("/*") {
          var done := SkipBlockComment();
          if done.Err? { return Err(done.error); }
        } else {
          return Ok(());
        }
        assert here[pos - at..] == Left();
      }
      TriviaUnfold(Left());
      return Ok(());
    }

    static lemma {:induction false} TriviaUnfold(s: string)
      ensures match Piece(s)
              case Err(why) => Trivia(s) == Err(why)
              case Ok(k) => Trivia(s) == if k == 0 then Ok(0) else AddTo(k, Trivia(s[k..]))
    {
      hide Piece;
    }

    static lemma LineStarts(s: string)
      requires "//" <= s
      ensures LineLength(s) > 0
    {
      assert s[0] == '/';
    }

    /** `text.find("\n", pos)`, or the end. */
    method SkipLine()
      requires Valid()
      modifies this
      ensures Valid() && pos == old(pos) + LineLength(old(Left()))
    {
      ghost var start := pos;
      ghost var length := LineLength(Left());
      while pos < |text| && text[pos] != '\n'
        invariant Valid() && start <= pos && length == pos - start + LineLength(Left())
        decreases |text| - pos
      {
        assert Left()[1..] == text[pos + 1..];
        pos := pos + 1;
      }
    }

    /** Block comments nest. */
    method SkipBlockComment() returns (r: Lexed<()>)
      requires Valid()
      modifies this
      ensures Valid()
      ensures match r
              case Err(why) => BlockLength(old(Left()), 0) == Err(why)
              case Ok(_) => old(pos) <= pos && BlockLength(old(Left()), 0) == Ok(pos - old(pos))
    {
      ghost var start := pos;
      hide BlockLength;
      ghost var spec := BlockLength(Left(), 0);
      var depth := 0;
      assert AddTo(0, spec) == spec;
      while pos < |text|
        invariant Valid() && start <= pos && spec == AddTo(pos - start, BlockLength(Left(), depth))
        decreases |text| - pos
      {
        ghost var here, at := Left(), pos;
        BlockUnfold(here, depth);
        if StartsWith("/*") {
          depth, pos := depth + 1, pos + 2;
        } else if StartsWith("*/") {
          depth, pos := depth - 1, pos + 2;
          if depth == 0 { return Ok(()); }
        } else {
          pos := pos + 1;
        }
        assert here[pos - at..] == Left();
      }
      BlockUnfold(Left(), depth);
      return Err(UnterminatedComment);
    }

    static lemma {:induction false} BlockUnfold(s: string, depth: int)
      ensures BlockLength(s, depth) ==
        if s == [] then Err(UnterminatedComment)
        else if "/*" <= s then AddTo(2, BlockLength(s[2..], depth + 1))
        else if "*/" <= s then if depth == 1 then Ok(2) else AddTo(2, BlockLength(s[2..], depth - 1))
        else AddTo(1, BlockLength(s[1..], depth))
    {
    }

    method ScanToken() returns (r: Lexed<Token>)
      requires Valid() && pos < |text|
      modifies this
      ensures Valid()
      ensures match Scan(old(Left()))
              case Err(why) => r == Err(why)
              case Ok(t) => pos == old(pos) + t.width && r == Ok(Token(t.kind, t.text, t.value, old(pos), pos))
    {
      var start, c := pos, text[pos];
      ghost var here := Left();
      if IsIdentStart(c) {
        r := ScanIdent();
      } else if IsDigit(c) {
        r := ScanInt();
      } else if c == '"' {
        r := ScanString();
      } else if c == '\'' {
        r := ScanChar();
      } else {
        SymbolsVisible();
        SymbolFits(here, SYMBOLS);
        var symbol := MatchSymbol(SYMBOLS);
        if symbol.Some? {
          pos := pos + |symbol.value|;
          return Ok(Token(Symbol, symbol.value, 0, start, pos));
        }
        pos := pos + 1;
        return Err(if c < 128 as char then UnexpectedCharacter else NonAscii);
      }
    }

    /** The first symbol of the table that comes next. */
    method MatchSymbol(symbols: seq<string>) returns (r: Option<string>)
      requires Valid()
      ensures r == FirstSymbol(Left(), symbols)
    {
      for i := 0 to |symbols|
        invariant FirstSymbol(Left(), symbols[i..]) == FirstSymbol(Left(), symbols)
      {
        assert symbols[i..][1..] == symbols[i + 1..];
        if StartsWith(symbols[i]) { return Some(symbols[i]); }
      }
      return None;
    }

    /** While `p` holds of what comes next. */
    method Advance(p: char -> bool)
      requires Valid()
      modifies this
      ensures Valid() && pos == old(pos) + Run(old(Left()), p)
    {
      ghost var start := pos;
      ghost var length := Run(Left(), p);
      while pos < |text| && p(text[pos])
        invariant Valid() && start <= pos && length == pos - start + Run(Left(), p)
        decreases |text| - pos
      {
        assert Left()[1..] == text[pos + 1..];
        pos := pos + 1;
      }
    }

    method ScanIdent() returns (r: Lexed<Token>)
      requires Valid() && pos < |text| && IsIdentStart(text[pos])
      modifies this
      ensures Valid()
      ensures match Scan(old(Left()))
              case Err(why) => r == Err(why)
              case Ok(t) => pos == old(pos) + t.width && r == Ok(Token(t.kind, t.text, t.value, old(pos), pos))
    {
      var start := pos;
      Advance(IsIdentBody);
      assert text[start..pos] == text[start..][..pos - start];
      return Ok(Token(Ident, text[start..pos], 0, start, pos));
    }

    method ScanInt() returns (r: Lexed<Token>)
      requires Valid() && pos < |text| && IsDigit(text[pos])
      modifies this
      ensures Valid()
      ensures match IntegerToken(old(Left()))
              case Err(why) => r == Err(why)
              case Ok(t) => pos == old(pos) + t.width && r == Ok(Token(t.kind, t.text, t.value, old(pos), pos))
    {
      hide IntegerBody;
      ghost var here := Left();
      var start, radix := pos, 10;
      if text[pos] == '0' && pos + 1 < |text| {
        var marker := text[pos + 1];
        assert marker == here[1];
        if marker == 'x' || marker == 'b' {
          radix := if marker == 'x' then 16 else 2;
          pos := pos + 2;
          if pos == |text| || !IsDigitOf(text[pos], radix) {
            return Err(NoDigits);
          }
        }
      }
      r := ScanDigits(start, radix);
    }

    /** The specification of a literal's digits, by where they stand in the whole text. */
    static lemma {:induction false} DigitsRead(text: string, start: nat, from: nat, end: nat, radix: nat)
      requires start <= from <= end <= |text| && end - from == Run(text[from..], IsBody(radix))
      ensures IntegerBody(text[start..], radix, from - start) ==
              if OnlyUnderscores(text[from..end]) then Err(MalformedInteger)
              else if end < |text| && IsIdentBody(text[end]) then Err(InvalidDigit)
              else Ok(Lexeme(Integer, text[start..end], NumberOf(text[from..end], radix), end - start))
    {
      hide NumberOf, OnlyUnderscores, Run;
      var here := text[start..];
      assert here[from - start..] == text[from..];
      assert here[from - start..end - start] == text[from..end] && here[..end - start] == text[start..end];
    }

    /** The digits of the literal that starts at `start`. */
    method ScanDigits(start: nat, radix: nat) returns (r: Lexed<Token>)
      requires Valid() && start <= pos
      modifies this
      ensures Valid()
      ensures match IntegerBody(text[start..], radix, old(pos) - start)
              case Err(why) => r == Err(why)
              case Ok(t) => pos == start + t.width && r == Ok(Token(t.kind, t.text, t.value, start, pos))
    {
      hide NumberOf, OnlyUnderscores, IntegerBody, Run;
      var bodyStart := pos;
      Advance(IsBody(radix));
      DigitsRead(text, start, bodyStart, pos, radix);
      var body := text[bodyStart..pos];
      if OnlyUnderscores(body) {
        return Err(MalformedInteger);
      }
      if pos < |text| && IsIdentBody(text[pos]) {
        return Err(InvalidDigit);
      }
      return Ok(Token(Integer, text[start..pos], NumberOf(body, radix), start, pos));
    }

    /** A literal's characters up to its closing quote; what both kinds of literal share. */
    method ScanBody(quote: char) returns (r: Lexed<string>)
      requires Valid()
      modifies this
      ensures Valid()
      ensures match Quoted(old(Left()), quote)
              case Err(why) => r == Err(why)
              case Ok((body, n)) => r == Ok(body) && pos == old(pos) + n
    {
      hide Quoted, Escape;
      ghost var start := pos;
      ghost var spec := Quoted(Left(), quote);
      var chunks: string := "";
      assert Chunked("", 0, spec) == spec by {
        if spec.Ok? { assert "" + spec.value.0 == spec.value.0; }
      }
      while pos < |text|
        invariant Valid() && start <= pos && spec == Chunked(chunks, pos - start, Quoted(Left(), quote))
        decreases |text| - pos
      {
        ghost var here, at, held := Left(), pos, chunks;
        QuotedUnfold(here, quote, held, at - start);
        var c := text[pos];
        if c == quote {
          pos := pos + 1;
          return Ok(chunks);
        }
        if c == '\n' { return Err(Unterminated(quote)); }
        if c == '\\' {
          var escaped := ScanEscape(quote);
          if escaped.Err? { return Err(escaped.error); }
          chunks := chunks + [escaped.value];
        } else {
          chunks := chunks + [c];
          pos := pos + 1;
        }
        assert here[pos - at..] == Left();
      }
      QuotedUnfold(Left(), quote, chunks, pos - start);
      return Err(Unterminated(quote));
    }

    /** What is known of the whole literal, once `chunks` have been read in `k` characters. */
    static function Chunked(chunks: string, k: nat, rest: Lexed<(string, nat)>): Lexed<(string, nat)> {
      match rest
      case Err(why) => Err(why)
      case Ok((body, n)) => Ok((chunks + body, k + n))
    }

    static lemma {:induction false} QuotedUnfold(s: string, quote: char, chunks: string, k: nat)
      ensures Chunked(chunks, k, Quoted(s, quote)) ==
        if s == [] || (s[0] != quote && s[0] == '\n') then Err(Unterminated(quote))
        else if s[0] == quote then Ok((chunks, k + 1))
        else match Unit(s, quote)
             case Err(why) => Err(why)
             case Ok((c, n)) =>
               Chunked(chunks + [c], k + n, Quoted(s[n..], quote))
    {
      hide Unit;
      if s != [] && s[0] == quote {
        assert chunks + "" == chunks;
      } else if s != [] && s[0] != '\n' && Unit(s, quote).Ok? {
        var (c, n) := Unit(s, quote).value;
        if Quoted(s[n..], quote).Ok? {
          assert chunks + ([c] + Quoted(s[n..], quote).value.0) == chunks + [c] + Quoted(s[n..], quote).value.0;
        }
      }
    }

    method ScanString() returns (r: Lexed<Token>)
      requires Valid() && pos < |text| && text[pos] == '"'
      modifies this
      ensures Valid()
      ensures match Scan(old(Left()))
              case Err(why) => r == Err(why)
              case Ok(t) => pos == old(pos) + t.width && r == Ok(Token(t.kind, t.text, t.value, old(pos), pos))
    {
      hide Quoted;
      var start := pos;
      assert Left()[1..] == text[pos + 1..];
      pos := pos + 1;
      var body := ScanBody('"');
      if body.Err? { return Err(body.error); }
      return Ok(Token(Str, body.value, 0, start, pos));
    }

    method ScanChar() returns (r: Lexed<Token>)
      requires Valid() && pos < |text| && text[pos] == '\''
      modifies this
      ensures Valid()
      ensures match Scan(old(Left()))
              case Err(why) => r == Err(why)
              case Ok(t) => pos == old(pos) + t.width && r == Ok(Token(t.kind, t.text, t.value, old(pos), pos))
    {
      hide Quoted;
      var start := pos;
      assert Left()[1..] == text[pos + 1..];
      pos := pos + 1;
      var body := ScanBody('\'');
      if body.Err? { return Err(body.error); }
      if |body.value| != 1 { return Err(NotOneCharacter); }
      return Ok(Token(Character, body.value, 0, start, pos));
    }

    method ScanEscape(quote: char) returns (r: Lexed<char>)
      requires Valid() && pos < |text|
      modifies this
      ensures Valid()
      ensures match Escape(old(Left()), quote)
              case Err(why) => r == Err(why)
              case Ok((c, n)) => r == Ok(c) && pos == old(pos) + n
    {
      ghost var here := Left();
      pos := pos + 1;
      if pos == |text| { return Err(UnterminatedEscape); }
      var c := text[pos];
      assert c == here[1];
      pos := pos + 1;
      if c == 'n' { return Ok('\n'); }
      if c == 't' { return Ok('\t'); }
      if c == 'r' { return Ok('\r'); }
      if c == '0' { return Ok('\0'); }
      if c == '\\' { return Ok('\\'); }
      if c == quote { return Ok(quote); }
      if c != 'x' { return Err(UnknownEscape); }
      r := ScanHexEscape();
    }

    /** Exactly two hexadecimal digits. */
    method ScanHexEscape() returns (r: Lexed<char>)
      requires Valid()
      modifies this
      ensures Valid()
      ensures if old(pos) + 2 > |text| || !IsDigitOf(text[old(pos)], 16) || !IsDigitOf(text[old(pos) + 1], 16)
              then r == Err(BadHexEscape)
              else (r == Ok((16 * DigitValue(text[old(pos)]) + DigitValue(text[old(pos) + 1])) as char)
                    && pos == old(pos) + 2)
    {
      if pos + 2 > |text| || !IsDigitOf(text[pos], 16) || !IsDigitOf(text[pos + 1], 16) {
        return Err(BadHexEscape);
      }
      pos := pos + 2;
      return Ok((16 * DigitValue(text[pos - 2]) + DigitValue(text[pos - 1])) as char);
    }
  }
}
