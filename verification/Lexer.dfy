/** What src/jes_tokenizer.c recognises, as functions on the text still to be read. */
module Lexer {
  import opened Codes

  datatype TokenKind =
    | EofToken | OpeningBrace | ClosingBrace | OpeningBracket | ClosingBracket | Colon | Comma
    | StringToken | NumberToken | TrueToken | FalseToken | NullToken | InvalidToken

  datatype Token = Token(kind: TokenKind, text: string)

  type Error = s: Status | s != NoError witness UnexpectedSymbol

  /** The length a scanner accepts, or the error it reports. */
  datatype Scan = Ok(len: nat) | Fail(status: Error)
  {
    function Shift(k: nat): Scan { if Ok? then Ok(k + len) else this }
  }

  const BACKSPACE: char := '\U{8}'
  const FORM_FEED: char := '\U{C}'

  /** Reading past the end yields NUL. */
  function Get(s: string, i: nat): char { if i < |s| then s[i] else NUL }

  predicate IsSpace(c: char) { c == ' ' || c == '\t' || c == '\r' || c == '\n' || c == FORM_FEED }

  predicate IsDigit(c: char) { '0' <= c <= '9' }

  predicate IsE(c: char) { c == 'e' || c == 'E' }

  /** How many spaces start at position `p`. */
  function Spaces(s: string, p: nat): (n: nat)
    ensures p <= |s| ==> p + n <= |s|
    ensures !IsSpace(Get(s, p + n))
    decreases |s| - p
  {
    if p < |s| && IsSpace(s[p]) then 1 + Spaces(s, p + 1) else 0
  }

  // ----- numbers -----

  /** How many digits start at position `p`. */
  function DigitRun(s: string, p: nat): nat
    decreases |s| - p
  {
    if p < |s| && IsDigit(s[p]) then 1 + DigitRun(s, p + 1) else 0
  }

  /** What follows an `e`. */
  function ScanExponent(s: string, p: nat): Scan {
    var sign := if Get(s, p) == '+' || Get(s, p) == '-' then 1 else 0;
    var n := DigitRun(s, p + sign);
    if n == 0 then Fail(InvalidNumber) else Ok(sign + n)
  }

  /** What follows a decimal point. */
  function ScanFraction(s: string, p: nat): Scan {
    var n := DigitRun(s, p);
    if IsE(Get(s, p + n)) then ScanExponent(s, p + n + 1).Shift(n + 1)
    else if n == 0 then Fail(UnexpectedSymbol)
    else Ok(n)
  }

  /** What follows the `n` characters of an integer part that starts at `p`. */
  function ScanTail(s: string, p: nat, n: nat): Scan {
    if Get(s, p + n) == '.' then ScanFraction(s, p + n + 1).Shift(n + 1)
    else if IsE(Get(s, p + n)) then ScanExponent(s, p + n + 1).Shift(n + 1)
    else Ok(n)
  }

  function ScanNumber(s: string, p: nat): Scan {
    if Get(s, p) == '-' then
      if DigitRun(s, p + 1) == 0 then Fail(UnexpectedSymbol) else ScanTail(s, p, 1 + DigitRun(s, p + 1))
    else if Get(s, p) == '0' && IsDigit(Get(s, p + 1)) then Fail(InvalidNumber)
    else ScanTail(s, p, DigitRun(s, p))
  }

  lemma RunBound(s: string, p: nat)
    requires p <= |s|
    ensures p + DigitRun(s, p) <= |s| && !IsDigit(Get(s, p + DigitRun(s, p)))
    decreases |s| - p
  {
    if p < |s| && IsDigit(s[p]) { RunBound(s, p + 1); }
  }

  lemma ExponentBound(s: string, p: nat)
    requires p <= |s|
    ensures var r := ScanExponent(s, p); r.Ok? ==> 0 < r.len && p + r.len <= |s|
  {
    RunBound(s, p);
    if p < |s| { RunBound(s, p + 1); }
  }

  lemma FractionBound(s: string, p: nat)
    requires p <= |s|
    ensures var r := ScanFraction(s, p); r.Ok? ==> 0 < r.len && p + r.len <= |s|
  {
    RunBound(s, p);
    if p + DigitRun(s, p) < |s| { ExponentBound(s, p + DigitRun(s, p) + 1); }
  }

  lemma TailBound(s: string, p: nat, n: nat)
    requires p + n <= |s|
    ensures var r := ScanTail(s, p, n); r.Ok? ==> n <= r.len && p + r.len <= |s|
  {
    if p + n < |s| {
      ExponentBound(s, p + n + 1);
      FractionBound(s, p + n + 1);
    }
  }

  lemma NumberBound(s: string, p: nat)
    requires p < |s| && (IsDigit(s[p]) || s[p] == '-')
    ensures var r := ScanNumber(s, p); r.Ok? ==> 0 < r.len && p + r.len <= |s|
  {
    RunBound(s, p);
    RunBound(s, p + 1);
    if s[p] == '-' {
      TailBound(s, p, 1 + DigitRun(s, p + 1));
    } else {
      TailBound(s, p, DigitRun(s, p));
    }
  }

  // ----- strings -----

  predicate IsHex(c: char) { IsDigit(c) || 'A' <= c <= 'F' || 'a' <= c <= 'f' }

  function HexDigit(c: char): (v: nat)
    requires IsHex(c)
    ensures v < 16
  {
    if IsDigit(c) then c as int - '0' as int
    else if 'A' <= c <= 'F' then c as int - 'A' as int + 10
    else c as int - 'a' as int + 10
  }

  predicate Hex4At(s: string, i: nat) {
    IsHex(Get(s, i)) && IsHex(Get(s, i + 1)) && IsHex(Get(s, i + 2)) && IsHex(Get(s, i + 3))
  }

  /** The 16-bit value of four hexadecimal digits. */
  function CodeUnit(s: string, i: nat): nat
    requires Hex4At(s, i)
  {
    4096 * HexDigit(Get(s, i)) + 256 * HexDigit(Get(s, i + 1)) + 16 * HexDigit(Get(s, i + 2)) + HexDigit(Get(s, i + 3))
  }

  predicate IsControl(c: char) { c == BACKSPACE || c == FORM_FEED || c == '\n' || c == '\r' || c == '\t' }

  predicate Surrogate(v: nat) { 0xD800 <= v <= 0xDFFF }

  predicate LowSurrogate(v: nat) { 0xDC00 <= v <= 0xDFFF }

  /** No quote and no refused control character among positions `i` up to `j`. */
  predicate Clean(s: string, i: nat, j: nat) {
    forall k :: i <= k < j ==> Get(s, k) != '"' && !IsControl(Get(s, k))
  }

  /** What follows `\u`: four hex digits, or ten characters when they start in D800-DFFF. */
  function ScanUnicode(s: string, p: nat): (r: Scan)
    ensures r.Ok? ==> (r.len == 4 || r.len == 10) && p + r.len <= |s|
  {
    if !Clean(s, p, p + 4) then Fail(UnexpectedSymbol)
    else if !Hex4At(s, p) then Fail(InvalidUnicode)
    else if !Surrogate(CodeUnit(s, p)) then Ok(4)
    else if !Clean(s, p + 4, p + 10) then Fail(UnexpectedSymbol)
    else if Get(s, p + 4) == '\\' && Get(s, p + 5) == 'u' && Hex4At(s, p + 6)
        && LowSurrogate(CodeUnit(s, p + 6)) then Ok(10)
    else Fail(InvalidUnicode)
  }

  predicate ShortEscape(c: char) {
    c == '"' || c == '\\' || c == '/' || c == 'b' || c == 'f' || c == 'n' || c == 'r' || c == 't'
  }

  /** The text up to the closing quote; `p` is behind the opening quote. */
  function ScanBody(s: string, p: nat): (r: Scan)
    ensures r.Ok? ==> p + r.len < |s| && s[p + r.len] == '"'
    decreases |s| - p
  {
    var c := Get(s, p);
    if c == NUL then Fail(UnexpectedEof)
    else if c == '"' then Ok(0)
    else if c == '\\' then
      if ShortEscape(Get(s, p + 1)) then ScanBody(s, p + 2).Shift(2)
      else if Get(s, p + 1) == 'u' then
        var u := ScanUnicode(s, p + 2);
        if u.Fail? then u else ScanBody(s, p + 2 + u.len).Shift(2 + u.len)
      else Fail(InvalidEscapedSymbol)
    else if IsControl(c) then Fail(UnexpectedSymbol)
    else ScanBody(s, p + 1).Shift(1)
  }

  // ----- tokens -----

  function Literal(c: char): (string, TokenKind) {
    if c == 'f' then ("false", FalseToken)
    else if c == 'n' then ("null", NullToken)
    else ("true", TrueToken)
  }

  predicate StartsLiteral(c: char) { c == 'f' || c == 'n' || c == 't' }

  predicate WordAt(s: string, p: nat, w: string) { p + |w| <= |s| && s[p..p + |w|] == w }

  function Delimiter(c: char): TokenKind {
    if c == NUL then EofToken
    else if c == '{' then OpeningBrace
    else if c == '}' then ClosingBrace
    else if c == '[' then OpeningBracket
    else if c == ']' then ClosingBracket
    else if c == ':' then Colon
    else if c == ',' then Comma
    else InvalidToken
  }

  /** A finished token and the position behind it, or an error. */
  datatype Lexed = Lexed(token: Token, end: nat) | Failed(status: Error)

  /** jes_tokenizer_get_token at a position that holds no space */
  function LexWord(s: string, p: nat): (r: Lexed)
    ensures r.Lexed? && r.token.kind != EofToken && p <= |s| ==> p < r.end <= |s|
  {
    var c := Get(s, p);
    if Delimiter(c) != InvalidToken then Lexed(Token(Delimiter(c), if c == NUL then "" else [c]), p + 1)
    else if c == '"' then
      var r := ScanBody(s, p + 1);
      if r.Fail? then Failed(r.status) else Lexed(Token(StringToken, s[p + 1..p + 1 + r.len]), p + r.len + 2)
    else if IsDigit(c) || c == '-' then
      NumberBound(s, p);
      var r := ScanNumber(s, p);
      if r.Fail? then Failed(r.status) else Lexed(Token(NumberToken, s[p..p + r.len]), p + r.len)
    else if StartsLiteral(c) then
      var word := Literal(c).0;
      if WordAt(s, p, word) then Lexed(Token(Literal(c).1, word), p + |word|) else Failed(UnexpectedSymbol)
    else Failed(UnexpectedSymbol)
  }

  /** jes_tokenizer_get_token with the cursor at `p` */
  function Lex(s: string, p: nat): (r: Lexed)
    ensures r.Lexed? && r.token.kind != EofToken && p <= |s| ==> p < r.end <= |s|
  {
    LexWord(s, p + Spaces(s, p))
  }

  lemma LexSkips(s: string, p: nat, k: nat)
    requires Spaces(s, p) == k + Spaces(s, p + k)
    ensures Lex(s, p) == Lex(s, p + k)
  {
    hide LexWord;
  }

  lemma LexHere(s: string, p: nat)
    requires !IsSpace(Get(s, p))
    ensures Lex(s, p) == LexWord(s, p)
  {
    hide LexWord;
    assert Spaces(s, p) == 0;
  }

  lemma LexQuote(s: string, p: nat, n: nat)
    requires Get(s, p) == '"' && ScanBody(s, p + 1) == Ok(n)
    ensures LexWord(s, p) == Lexed(Token(StringToken, s[p + 1..p + 1 + n]), p + n + 2)
  {
    hide ScanBody, ScanNumber, WordAt, Literal, StartsLiteral, IsDigit;
  }

  lemma LexBadQuote(s: string, p: nat)
    requires Get(s, p) == '"' && ScanBody(s, p + 1).Fail?
    ensures LexWord(s, p) == Failed(ScanBody(s, p + 1).status)
  {
    hide ScanBody, ScanNumber, WordAt, Literal, StartsLiteral, IsDigit;
  }

  lemma BodyEnds(s: string, p: nat)
    ensures ScanBody(s, p).Ok? ==> p + ScanBody(s, p).len < |s| && s[p + ScanBody(s, p).len] == '"'
  {
  }
}
