/** The lexical grammar of situc/lexer.py, as functions from the text that remains to how much
    of it one token or one run of trivia takes. */
module Lexical {
  import opened Prelude

  datatype Kind = Ident | Integer | Str | Character | Symbol | Eof

  datatype LexError =
    | UnterminatedComment | UnterminatedString | UnterminatedChar | UnterminatedEscape
    | UnknownEscape | BadHexEscape | NoDigits | MalformedInteger | InvalidDigit
    | NotOneCharacter | NonAscii | UnexpectedCharacter

  /** A token without its place: `width` characters of source, read as `text` and `value`. */
  datatype Lexeme = Lexeme(kind: Kind, text: string, value: nat, width: nat)

  type Lexed<T> = Result<T, LexError>

  /** Longest first: the first match is taken. */
  const SYMBOLS: seq<string> := [
    "<<", ">>", "==", "!=", "<=", ">=", "&&", "||", "|>", "::",
    ";", ",", ":", ".", "@", "=", "+", "-", "*", "/", "%",
    "&", "|", "^", "~", "<", ">", "!", "(", ")", "[", "]", "{", "}"]

  predicate IsSpace(c: char) {
    c == ' ' || c == '\t' || c == '\r' || c == '\n'
  }

  predicate IsDigit(c: char) {
    '0' <= c <= '9'
  }

  predicate IsIdentStart(c: char) {
    'a' <= c <= 'z' || 'A' <= c <= 'Z' || c == '_'
  }

  predicate IsIdentBody(c: char) {
    IsIdentStart(c) || IsDigit(c)
  }

  /** What a digit is worth in any radix the language has, or 16 for no digit. */
  function DigitValue(c: char): nat {
    if IsDigit(c) then (c - '0') as nat
    else if 'a' <= c <= 'f' then (c - 'a') as nat + 10
    else if 'A' <= c <= 'F' then (c - 'A') as nat + 10
    else 16
  }

  predicate IsDigitOf(c: char, radix: nat) {
    DigitValue(c) < radix
  }

  /** `k` characters more than the rest takes. */
  function AddTo(k: nat, rest: Lexed<nat>): Lexed<nat> {
    match rest
    case Err(why) => Err(why)
    case Ok(n) => Ok(k + n)
  }

  // ----- trivia

  /** How far the line goes on, its newline aside. */
  function LineLength(s: string): nat {
    if s == [] || s[0] == '\n' then 0 else 1 + LineLength(s[1..])
  }

  /** `skip_block_comment` with `depth` comments open: what it takes to close them all. */
  function BlockLength(s: string, depth: int): Lexed<nat>
    decreases |s|
  {
    if s == [] then Err(UnterminatedComment)
    else if "/*" <= s then AddTo(2, BlockLength(s[2..], depth + 1))
    else if "*/" <= s then if depth == 1 then Ok(2) else AddTo(2, BlockLength(s[2..], depth - 1))
    else AddTo(1, BlockLength(s[1..], depth))
  }

  lemma {:induction false} LineFits(s: string)
    ensures LineLength(s) <= |s|
  {
    if s != [] && s[0] != '\n' { LineFits(s[1..]); }
  }

  lemma {:induction false} BlockFits(s: string, depth: int)
    ensures BlockLength(s, depth).Ok? ==> 2 <= BlockLength(s, depth).value <= |s|
    decreases |s|
  {
    if s == [] {
    } else if "/*" <= s {
      BlockFits(s[2..], depth + 1);
    } else if "*/" <= s {
      BlockFits(s[2..], depth - 1);
    } else {
      BlockFits(s[1..], depth);
    }
  }

  /** One blank, one line comment or one block comment; 0 where a token starts. */
  function Piece(s: string): (r: Lexed<nat>)
    ensures r.Ok? ==> r.value <= |s|
  {
    LineFits(s);
    BlockFits(s, 0);
    if s == [] then Ok(0)
    else if IsSpace(s[0]) then Ok(1)
    else if "//" <= s then Ok(LineLength(s))
    else if "/*" <= s then BlockLength(s, 0)
    else Ok(0)
  }

  /** `skip_trivia`: how much white space and comment comes first. */
  function Trivia(s: string): (r: Lexed<nat>)
    ensures r.Ok? ==> r.value <= |s|
    decreases |s|
  {
    var k :- Piece(s);
    if k == 0 then Ok(0) else AddTo(k, Trivia(s[k..]))
  }

  // ----- tokens

  /** The longest prefix whose characters all satisfy `p`. */
  function Run(s: string, p: char -> bool): (n: nat)
    ensures n <= |s|
    ensures forall i :: 0 <= i < n ==> p(s[i])
    ensures n < |s| ==> !p(s[n])
  {
    if s == [] || !p(s[0]) then 0 else 1 + Run(s[1..], p)
  }

  /** The digits of a literal, its underscores dropped, as a number. */
  function NumberOf(body: string, radix: nat): nat {
    if body == [] then 0
    else
      var last := body[|body| - 1];
      var most := NumberOf(body[..|body| - 1], radix);
      if last == '_' then most else most * radix + DigitValue(last)
  }

  /** `0x` and `0b` announce a radix; anything else is decimal. */
  function Radix(s: string): (r: nat)
    ensures r == 2 || r == 10 || r == 16
  {
    if |s| > 1 && s[0] == '0' && s[1] == 'x' then 16
    else if |s| > 1 && s[0] == '0' && s[1] == 'b' then 2
    else 10
  }

  function IsBody(radix: nat): char -> bool {
    c => IsDigitOf(c, radix) || c == '_'
  }

  predicate OnlyUnderscores(body: string) {
    forall i :: 0 <= i < |body| ==> body[i] == '_'
  }

  /** `scan_int`, on text that starts with a digit. */
  function IntegerToken(s: string): Lexed<Lexeme>
    requires s != [] && IsDigit(s[0])
  {
    var radix := Radix(s);
    if radix == 10 then IntegerBody(s, radix, 0)
    else if |s| == 2 || !IsDigitOf(s[2], radix) then Err(NoDigits)
    else IntegerBody(s, radix, 2)
  }

  /** The digits of a literal, after the `skip` characters that announce its radix. */
  function IntegerBody(s: string, radix: nat, skip: nat): Lexed<Lexeme>
    requires skip <= |s|
  {
    var n := skip + Run(s[skip..], IsBody(radix));
    if OnlyUnderscores(s[skip..n]) then Err(MalformedInteger)
    else if n < |s| && IsIdentBody(s[n]) then Err(InvalidDigit)
    else Ok(Lexeme(Integer, s[..n], NumberOf(s[skip..n], radix), n))
  }

  /** `scan_escape`, on text that starts with the backslash: the character named, and the width. */
  function Escape(s: string, quote: char): Lexed<(char, nat)>
    requires s != []
  {
    if |s| == 1 then Err(UnterminatedEscape)
    else if s[1] == 'n' then Ok(('\n', 2))
    else if s[1] == 't' then Ok(('\t', 2))
    else if s[1] == 'r' then Ok(('\r', 2))
    else if s[1] == '0' then Ok(('\0', 2))
    else if s[1] == '\\' then Ok(('\\', 2))
    else if s[1] == quote then Ok((quote, 2))
    else if s[1] != 'x' then Err(UnknownEscape)
    else if |s| < 4 || !IsDigitOf(s[2], 16) || !IsDigitOf(s[3], 16) then Err(BadHexEscape)
    else Ok(((16 * DigitValue(s[2]) + DigitValue(s[3])) as char, 4))
  }

  /** One character of a quoted literal, escaped or as it is. */
  function Unit(s: string, quote: char): (r: Lexed<(char, nat)>)
    requires s != []
    ensures r.Ok? ==> 1 <= r.value.1 <= |s|
  {
    if s[0] == '\\' then Escape(s, quote) else Ok((s[0], 1))
  }

  function Unterminated(quote: char): LexError {
    if quote == '"' then UnterminatedString else UnterminatedChar
  }

  /** A quoted literal after its opening quote: what it holds, and its width with the closing one. */
  function Quoted(s: string, quote: char): (r: Lexed<(string, nat)>)
    ensures r.Ok? ==> 1 <= r.value.1 <= |s|
    decreases |s|
  {
    if s == [] || (s[0] != quote && s[0] == '\n') then
      Err(Unterminated(quote))
    else if s[0] == quote then Ok(("", 1))
    else
      var (c, k) :- Unit(s, quote);
      var (body, n) :- Quoted(s[k..], quote);
      Ok(([c] + body, k + n))
  }

  /** The first symbol of the list that the text starts with. */
  function FirstSymbol(s: string, symbols: seq<string>): Option<string> {
    if symbols == [] then None
    else if symbols[0] <= s then Some(symbols[0])
    else FirstSymbol(s, symbols[1..])
  }

  /** `scan_token`. */
  function Scan(s: string): (r: Lexed<Lexeme>)
    requires s != []
    ensures r.Ok? ==> 1 <= r.value.width <= |s|
  {
    if IsIdentStart(s[0]) then
      var n := Run(s, IsIdentBody);
      Ok(Lexeme(Ident, s[..n], 0, n))
    else if IsDigit(s[0]) then IntegerToken(s)
    else if s[0] == '"' then
      var (body, n) :- Quoted(s[1..], '"');
      Ok(Lexeme(Str, body, 0, 1 + n))
    else if s[0] == '\'' then
      var (body, n) :- Quoted(s[1..], '\'');
      if |body| != 1 then Err(NotOneCharacter) else Ok(Lexeme(Character, body, 0, 1 + n))
    else
      SymbolsVisible();
      SymbolFits(s, SYMBOLS);
      match FirstSymbol(s, SYMBOLS)
      case Some(symbol) => Ok(Lexeme(Symbol, symbol, 0, |symbol|))
      case None => Err(if s[0] < 128 as char then UnexpectedCharacter else NonAscii)
  }

  /** No symbol is empty or holds a blank. */
  predicate Visible(symbols: seq<string>) {
    forall i :: 0 <= i < |symbols| ==> symbols[i] != [] && ' ' !in symbols[i]
  }

  lemma SymbolsVisible()
    ensures Visible(SYMBOLS)
  {
  }

  lemma {:induction false} SymbolFits(s: string, symbols: seq<string>)
    requires Visible(symbols)
    ensures match FirstSymbol(s, symbols)
            case Some(symbol) => symbol != [] && symbol <= s && ' ' !in symbol
            case None => true
  {
    if symbols != [] { SymbolFits(s, symbols[1..]); }
  }

  /** A token and the half-open range of the source it was read from. */
  datatype Token = Token(kind: Kind, text: string, value: nat, start: nat, end: nat)

  /** `tokenize`, on the text that remains from position `at`. */
  function Lex(s: string, at: nat): Lexed<seq<Token>>
    decreases |s|, 1
  {
    var n :- Trivia(s);
    LexToken(s[n..], at + n)
  }

  /** The same, where no trivia comes first. */
  function LexToken(s: string, at: nat): Lexed<seq<Token>>
    decreases |s|, 0
  {
    if s == [] then Ok([Token(Eof, "", 0, at, at)])
    else
      var t :- Scan(s);
      var rest :- Lex(s[t.width..], at + t.width);
      Ok([Token(t.kind, t.text, t.value, at, at + t.width)] + rest)
  }
}
