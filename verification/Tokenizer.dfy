/** The scanners of src/jes_tokenizer.c: loops that move a cursor and grow a token. */
module Tokenizer {
  import opened Codes
  import opened Lexer

  /** Where the digits of the integer part stop, the rest of the number is scanned. */
  lemma IntegerEnds(s: string, p: nat, last: nat)
    requires p <= last < |s| && (IsDigit(s[p]) || s[p] == '-')
    requires s[p] == '-' ==> IsDigit(Get(s, p + 1))
    requires s[p] == '0' ==> last == p
    requires var q := if s[p] == '-' then p + 1 else p; DigitRun(s, q) == last + 1 - q + DigitRun(s, last + 1)
    ensures !IsDigit(Get(s, last + 1)) ==> ScanNumber(s, p) == ScanTail(s, p, last + 1 - p)
  {
  }

  /** Numbers that end before they begin, and integers that nothing follows. */
  lemma NumberCases(s: string, p: nat, n: nat)
    requires p < |s| && (IsDigit(s[p]) || s[p] == '-')
    ensures s[p] == '-' && !IsDigit(Get(s, p + 1)) ==> ScanNumber(s, p) == Fail(UnexpectedSymbol)
    ensures s[p] == '0' && IsDigit(Get(s, p + 1)) ==> ScanNumber(s, p) == Fail(InvalidNumber)
    ensures Get(s, p + n) != '.' && !IsE(Get(s, p + n)) ==> ScanTail(s, p, n) == Ok(n)
  {
  }

  /** A quote or a control character among the characters of an escape. */
  lemma UnicodeUnclean(s: string, p: nat, n: nat)
    requires n < 10 && Clean(s, p, p + n) && (Get(s, p + n) == '"' || IsControl(Get(s, p + n)))
    requires n >= 4 ==> Hex4At(s, p) && Surrogate(CodeUnit(s, p))
    ensures ScanUnicode(s, p) == Fail(UnexpectedSymbol)
  {
  }

  /** Four characters are there. */
  lemma UnicodeUnit(s: string, p: nat)
    requires Clean(s, p, p + 4)
    ensures !Hex4At(s, p) ==> ScanUnicode(s, p) == Fail(InvalidUnicode)
    ensures Hex4At(s, p) && !Surrogate(CodeUnit(s, p)) ==> ScanUnicode(s, p) == Ok(4)
  {
  }

  /** Ten characters are there. */
  lemma UnicodePair(s: string, p: nat)
    requires Clean(s, p, p + 10) && Hex4At(s, p) && Surrogate(CodeUnit(s, p))
    ensures var low := Get(s, p + 4) == '\\' && Get(s, p + 5) == 'u' && Hex4At(s, p + 6)
        && LowSurrogate(CodeUnit(s, p + 6));
            ScanUnicode(s, p) == if low then Ok(10) else Fail(InvalidUnicode)
  {
  }

  /** What the cursor holds behind a token: its kind, where its text stands, and where it ends. */
  predicate Delivers(s: string, w: Lexed, status: Status, kind: TokenKind, start: nat, length: nat, end: nat) {
    if w.Failed? then status == w.status
    else status == NoError && w == Lexed(Token(kind, Extent(s, kind, start, length)), end)
  }

  function Extent(s: string, kind: TokenKind, start: nat, length: nat): string {
    if kind == EofToken || start + length > |s| then "" else s[start..start + length]
  }

  lemma DelimiterDelivers(s: string, p: nat)
    requires p <= |s| && Delimiter(Get(s, p)) != InvalidToken
    ensures Delivers(s, LexWord(s, p), NoError, Delimiter(Get(s, p)), p, 1, p + 1)
  {
    if Get(s, p) != NUL { assert s[p..p + 1] == [s[p]]; }
  }

  lemma StringDelivers(s: string, p: nat, status: Status, start: nat, length: nat, end: nat)
    requires p < |s| && s[p] == '"'
    requires var r := ScanBody(s, p + 1);
      if r.Ok? then status == NoError && start == p + 1 && length == r.len && end == p + 2 + r.len
      else status == r.status
    ensures Delivers(s, LexWord(s, p), status, StringToken, start, length, end)
  {
    hide LexWord, ScanBody;
    BodyEnds(s, p + 1);
    if ScanBody(s, p + 1).Ok? { LexQuote(s, p, length); } else { LexBadQuote(s, p); }
  }

  lemma EndDelimits(s: string, p: nat)
    requires p == |s|
    ensures Delimiter(Get(s, p)) != InvalidToken
  {
  }

  lemma NumberDelivers(s: string, p: nat, status: Status, length: nat, end: nat)
    requires p < |s| && (IsDigit(s[p]) || s[p] == '-')
    requires var r := ScanNumber(s, p);
      if r.Ok? then status == NoError && length == r.len && end == p + r.len else status == r.status
    ensures Delivers(s, LexWord(s, p), status, NumberToken, p, length, end)
  {
    NumberBound(s, p);
    hide ScanBody, ScanNumber;
  }

  lemma LiteralDelivers(s: string, p: nat, status: Status, length: nat, end: nat)
    requires p < |s| && StartsLiteral(s[p])
    requires var word := Literal(s[p]).0;
      if WordAt(s, p, word) then status == NoError && length == |word| && end == p + |word|
      else status == UnexpectedSymbol
    ensures Delivers(s, LexWord(s, p), status, Literal(s[p]).1, p, length, end)
  {
    hide ScanBody, ScanNumber;
  }

  lemma NothingDelivers(s: string, p: nat)
    requires Delimiter(Get(s, p)) == InvalidToken && Get(s, p) != '"' && Get(s, p) != '-'
    requires !IsDigit(Get(s, p)) && !StartsLiteral(Get(s, p))
    ensures LexWord(s, p) == Failed(UnexpectedSymbol)
  {
  }

  /** The scanner of string bodies, case by case. */
  lemma BodyCases(s: string, p: nat)
    requires p < |s| && s[p] != '"' && s[p] != NUL
    ensures s[p] != '\\' ==>
      ScanBody(s, p) == if IsControl(s[p]) then Fail(UnexpectedSymbol) else ScanBody(s, p + 1).Shift(1)
    ensures s[p] == '\\' && ShortEscape(Get(s, p + 1)) ==> ScanBody(s, p) == ScanBody(s, p + 2).Shift(2)
    ensures s[p] == '\\' && Get(s, p + 1) == 'u' ==>
      var u := ScanUnicode(s, p + 2);
      ScanBody(s, p) == if u.Fail? then u else ScanBody(s, p + 2 + u.len).Shift(2 + u.len)
    ensures s[p] == '\\' && !ShortEscape(Get(s, p + 1)) && Get(s, p + 1) != 'u' ==>
      ScanBody(s, p) == Fail(InvalidEscapedSymbol)
  {
    hide ScanUnicode;
  }

  class TokenizerContext {
    var text: string
    /** the cursor */
    var pos: nat
    /** the token under construction */
    var kind: TokenKind
    var start: nat
    var length: nat

    constructor ()
      ensures text == "" && pos == 0
    {
      text, pos, kind, start, length := "", 0, InvalidToken, 0, 0;
    }

    function GetChar(): char
      reads this
    {
      Get(text, pos)
    }

    function LookAhead(): char
      reads this
    {
      Get(text, pos + 1)
    }

    /** jes_tokenizer_process_spaces */
    method ProcessSpaces()
      requires pos <= |text|
      modifies this`pos
      ensures pos == old(pos) + Spaces(text, old(pos))
    {
      ghost var p := pos;
      while IsSpace(GetChar())
        invariant p <= pos <= |text|
        invariant Spaces(text, p) == pos - p + Spaces(text, pos)
        decreases |text| - pos
      {
        pos := pos + 1;
      }
    }

    /** jes_tokenizer_process_exponent_token: the cursor ends on the last character of the number */
    method ProcessExponent() returns (status: Status)
      requires pos <= |text|
      modifies this`pos, this`length
      ensures var r := ScanExponent(text, old(pos));
              if r.Ok? then status == NoError && pos + 1 == old(pos) + r.len && length == old(length) + r.len
              else status == r.status
    {
      ghost var p, len := pos, length;
      ghost var q := if Get(text, p) == '+' || Get(text, p) == '-' then p + 1 else p;
      status := NoError;
      while true
        invariant p <= pos <= |text| && length == len + (pos - p) && status == NoError
        invariant pos > p ==> IsDigit(Get(text, pos)) && q <= pos && DigitRun(text, q) == pos - q + DigitRun(text, pos)
        decreases |text| - pos
      {
        var ch := GetChar();
        if IsDigit(ch) {
          length := length + 1;
          if !IsDigit(LookAhead()) { break; }
        } else if ch == '+' || ch == '-' {
          length := length + 1;
          if !IsDigit(LookAhead()) {
            status := InvalidNumber;
            break;
          }
        } else {
          status := InvalidNumber;
          break;
        }
        pos := pos + 1;
      }
    }

    /** jes_tokenizer_process_decimal_fraction_token */
    method ProcessFraction() returns (status: Status)
      requires pos <= |text|
      modifies this`pos, this`length
      ensures var r := ScanFraction(text, old(pos));
              if r.Ok? then status == NoError && pos + 1 == old(pos) + r.len && length == old(length) + r.len
              else status == r.status
    {
      ghost var p, len := pos, length;
      status := NoError;
      while true
        invariant p <= pos <= |text| && length == len + (pos - p) && status == NoError
        invariant DigitRun(text, p) == pos - p + DigitRun(text, pos)
        invariant pos > p ==> IsDigit(Get(text, pos)) || IsE(Get(text, pos))
        decreases |text| - pos
      {
        var ch := GetChar();
        if IsDigit(ch) {
          length := length + 1;
        } else if IsE(ch) {
          length := length + 1;
          pos := pos + 1;
          status := ProcessExponent();
          break;
        } else {
          status := UnexpectedSymbol;
          break;
        }
        var next := LookAhead();
        if !IsDigit(next) && !IsE(next) {
          break;
        }
        pos := pos + 1;
      }
    }

    /** The non-digit branch of jes_tokenizer_process_integer_token, behind `n` characters that
        start at `p`; that the token is a lone minus cannot happen there */
    method ProcessPointOrExponent(ghost p: nat, ghost n: nat) returns (status: Status)
      requires pos + 1 < |text| && pos + 1 == p + n && length == n
      requires text[pos + 1] == '.' || IsE(text[pos + 1])
      modifies this`pos, this`length
      ensures var r := ScanTail(text, p, n);
              if r.Ok? then status == NoError && pos + 1 == p + r.len && length == r.len else status == r.status
    {
      pos := pos + 1;
      var ch := GetChar();
      length := length + 1;
      pos := pos + 1;
      if ch == '.' {
        status := ProcessFraction();
      } else {
        status := ProcessExponent();
      }
    }

    /** jes_tokenizer_process_integer_token on a character that starts a number */
    method ProcessInteger() returns (status: Status)
      requires pos < |text| && (IsDigit(text[pos]) || text[pos] == '-')
      modifies this`pos, this`length, this`start, this`kind
      ensures kind == NumberToken && start == old(pos)
      ensures var r := ScanNumber(text, old(pos));
              if r.Ok? then status == NoError && pos + 1 == old(pos) + r.len && length == r.len
              else status == r.status
    {
      hide ScanNumber, ScanTail;
      ghost var p := pos;
      ghost var q := if text[p] == '-' then p + 1 else p;
      var ch := GetChar();
      kind, length, start := NumberToken, 1, pos;
      status := NoError;
      NumberCases(text, p, 1);
      if ch == '-' && !IsDigit(LookAhead()) {
        status := UnexpectedSymbol;
        return;
      }
      while true
        invariant p <= pos < |text| && length == pos - p + 1 && status == NoError && start == p && kind == NumberToken
        invariant DigitRun(text, q) == pos + 1 - q + DigitRun(text, pos + 1)
        invariant text[p] == '0' ==> pos == p
        invariant text[p] == '-' ==> IsDigit(Get(text, p + 1))
        decreases |text| - pos
      {
        var next := LookAhead();
        if !IsDigit(next) {
          IntegerEnds(text, p, pos);
          NumberCases(text, p, pos + 1 - p);
          if next == '.' || IsE(next) {
            status := ProcessPointOrExponent(p, pos + 1 - p);
          }
          break;
        }
        pos := pos + 1;
        length := length + 1;
        if length == 2 && text[start] == '0' {
          status := InvalidNumber;
          break;
        }
      }
    }

    /** jes_tokenizer_utf_16_str2hex */
    method StringToHex(at: nat) returns (valid: bool, result: nat)
      ensures valid == Hex4At(text, at)
      ensures valid ==> result == CodeUnit(text, at)
    {
      var index := 0;
      valid, result := true, 0;
      while index < 4
        invariant 0 <= index <= 4 && valid
        invariant index == 0 ==> result == 0
        invariant index > 0 ==> IsHex(Get(text, at)) && (index == 1 ==> result == HexDigit(Get(text, at)))
        invariant index > 1 ==> IsHex(Get(text, at + 1))
        invariant index == 2 ==> result == 16 * HexDigit(Get(text, at)) + HexDigit(Get(text, at + 1))
        invariant index > 2 ==> IsHex(Get(text, at + 2))
        invariant index == 3 ==>
          result == 256 * HexDigit(Get(text, at)) + 16 * HexDigit(Get(text, at + 1)) + HexDigit(Get(text, at + 2))
        invariant index > 3 ==> Hex4At(text, at) && result == CodeUnit(text, at)
      {
        var c := Get(text, at + index);
        if !IsHex(c) {
          valid := false;
          break;
        }
        result := 16 * result + HexDigit(c);
        index := index + 1;
      }
    }

    /** jes_tokenizer_process_escaped_utf_16_token: the cursor ends on the last hex digit */
    method ProcessUnicode() returns (status: Status)
      requires pos <= |text|
      modifies this`pos, this`length
      ensures var r := ScanUnicode(text, old(pos));
              if r.Ok? then status == NoError && pos + 1 == old(pos) + r.len && length == old(length) + r.len
              else status == r.status
    {
      hide ScanUnicode, Hex4At, CodeUnit;
      ghost var p, len := pos, length;
      var escaped, n := pos, 0;
      status := NoError;
      while status == NoError
        invariant 0 <= n <= 10 && length == len + n && pos == p + n && escaped == p
        invariant status == NoError ==> n < 10 && Clean(text, p, p + n)
        invariant status == NoError && n >= 4 ==> Hex4At(text, p) && Surrogate(CodeUnit(text, p))
        invariant status != NoError ==> ScanUnicode(text, p) == Fail(status)
        decreases 10 - n, if status == NoError then 1 else 0
      {
        var ch := GetChar();
        if ch == '"' || IsControl(ch) {
          UnicodeUnclean(text, p, n);
          status := UnexpectedSymbol;
          break;
        }
        length := length + 1;
        n := n + 1;
        if n == 4 {
          UnicodeUnit(text, p);
          var valid, unit := StringToHex(escaped);
          if valid {
            if unit < 0xD800 || unit > 0xDFFF {
              break;
            }
            pos := pos + 1;
            continue;
          }
          status := InvalidUnicode;
        } else if n == 10 {
          UnicodePair(text, p);
          if Get(text, escaped + 4) == '\\' && Get(text, escaped + 5) == 'u' {
            var valid, low := StringToHex(escaped + 6);
            if valid && low >= 0xDC00 && low <= 0xDFFF {
              break;
            }
          }
          status := InvalidUnicode;
        }
        pos := pos + 1;
      }
    }

    /** One round of jes_tokenizer_process_string_token on anything but the closing quote:
        a plain character or an escape */
    method ProcessCharacter() returns (status: Status)
      requires pos < |text| && text[pos] != '"' && text[pos] != NUL
      modifies this`pos, this`length
      ensures status == NoError ==> (
                && old(pos) < pos <= |text| && length == old(length) + (pos - old(pos))
                && ScanBody(text, old(pos)) == ScanBody(text, pos).Shift(pos - old(pos)))
      ensures status != NoError ==> ScanBody(text, old(pos)) == Fail(status)
    {
      BodyCases(text, pos);
      hide ScanBody, ScanUnicode;
      var ch := GetChar();
      status := NoError;
      if ch == '\\' {
        status := ProcessEscape();
        if status != NoError { return; }
      } else if IsControl(ch) {
        status := UnexpectedSymbol;
        return;
      } else {
        length := length + 1;
      }
      pos := pos + 1;
    }

    /** Its case of a backslash; the cursor stops at the last character of the escape */
    method ProcessEscape() returns (status: Status)
      requires pos < |text| && text[pos] == '\\'
      modifies this`pos, this`length
      ensures status == NoError ==> (
                && old(pos) < pos < |text| && length == old(length) + (pos + 1 - old(pos))
                && ScanBody(text, old(pos)) == ScanBody(text, pos + 1).Shift(pos + 1 - old(pos)))
      ensures status != NoError ==> ScanBody(text, old(pos)) == Fail(status)
    {
      BodyCases(text, pos);
      hide ScanBody, ScanUnicode;
      status := NoError;
      length := length + 1;
      pos := pos + 1;
      var ch := GetChar();
      if ShortEscape(ch) {
        length := length + 1;
      } else if ch == 'u' {
        length := length + 1;
        pos := pos + 1;
        status := ProcessUnicode();
      } else {
        status := InvalidEscapedSymbol;
      }
    }

    /** jes_tokenizer_process_string_token on an opening quote: the cursor ends on the closing one */
    method ProcessString() returns (status: Status)
      requires pos < |text| && text[pos] == '"'
      modifies this`pos, this`length, this`start, this`kind
      ensures kind == StringToken
      ensures var r := ScanBody(text, old(pos) + 1);
              if r.Ok? then status == NoError && start == old(pos) + 1 && length == r.len && pos == old(pos) + 1 + r.len
              else status == r.status
    {
      ghost var b, s := pos + 1, text;
      kind, length, start := StringToken, 0, pos;
      pos := pos + 1;
      status := NoError;
      while status == NoError
        invariant kind == StringToken && text == s
        invariant status == NoError ==> b <= pos <= |text| && length == pos - b && (length > 0 ==> start == b)
        invariant ScanBody(s, b) == if status == NoError then ScanBody(s, pos).Shift(pos - b) else Fail(status)
        decreases if status == NoError then |text| - pos + 1 else 0
      {
        var ch := GetChar();
        if ch == NUL {
          status := UnexpectedEof;
          break;
        }
        if length == 0 { start := pos; }
        if ch == '"' {
          break;
        }
        status := ProcessCharacter();
      }
    }

    /** jes_tokenizer_process_literal_token on f, n or t */
    method ProcessLiteral() returns (status: Status)
      requires pos < |text| && StartsLiteral(text[pos])
      modifies this`pos, this`length, this`start, this`kind
      ensures kind == Literal(text[old(pos)]).1 && start == old(pos)
      ensures var word := Literal(text[old(pos)]).0;
              if WordAt(text, old(pos), word) then status == NoError && pos + 1 == old(pos) + |word| && length == |word|
              else status == UnexpectedSymbol
    {
      var (word, k) := Literal(GetChar());
      kind, length, start := k, 0, pos;
      if pos + |word| <= |text| && text[pos..pos + |word|] == word {
        pos := pos + |word| - 1;
        length := length + |word|;
        status := NoError;
      } else {
        status := UnexpectedSymbol;
      }
    }

    /** the text of the finished token */
    function TokenText(): string
      reads this
    {
      Extent(text, kind, start, length)
    }

    /** The finished token and the cursor agree with the specification `w`. */
    ghost predicate Finished(status: Status, w: Lexed)
      reads this
    {
      if w.Failed? then status == w.status
      else status == NoError && Token(kind, TokenText()) == w.token && pos == w.end
    }

    /** jes_tokenizer_get_token once the spaces are skipped, up to and with the last advance */
    method ProcessWord() returns (status: Status)
      requires pos <= |text| && !IsSpace(Get(text, pos))
      modifies this`pos, this`length, this`start, this`kind
      ensures Finished(status, LexWord(text, old(pos)))
    {
      hide LexWord, ScanBody, ScanNumber, Delimiter, IsDigit, StartsLiteral, WordAt, Literal, Extent;
      ghost var p := pos;
      var ch := GetChar();
      if pos == |text| { EndDelimits(text, pos); }
      status := NoError;
      if Delimiter(ch) != InvalidToken {
        kind, length, start := Delimiter(ch), 1, pos;
        DelimiterDelivers(text, p);
      } else if ch == '"' {
        status := ProcessString();
        StringDelivers(text, p, status, start, length, pos + 1);
      } else if IsDigit(ch) || ch == '-' {
        status := ProcessInteger();
        NumberDelivers(text, p, status, length, pos + 1);
      } else if StartsLiteral(ch) {
        status := ProcessLiteral();
        LiteralDelivers(text, p, status, length, pos + 1);
      } else {
        kind, length, start := InvalidToken, 0, pos;
        status := UnexpectedSymbol;
        NothingDelivers(text, p);
      }
      if status == NoError {
        pos := pos + 1;
      }
    }

    /** jes_tokenizer_get_token; its separate test for the end of the text is ProcessWord's
        delimiter case with no space before */
    method GetToken() returns (status: Status)
      requires pos <= |text|
      modifies this`pos, this`length, this`start, this`kind
      ensures Finished(status, Lex(text, old(pos)))
    {
      ProcessSpaces();
      status := ProcessWord();
    }
  }
}
