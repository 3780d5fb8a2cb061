/** What is wrong with a text that the tokenizer refuses, and which error it reports for it. */
module Faults {
  import opened Codes
  import opened Lexer
  import opened Words

  // ----- strings -----

  predicate StartsUnicode(s: string, j: nat) { Get(s, j) == '\\' && Get(s, j + 1) == 'u' }

  /** What is wrong at position `j` of a string: the text ends, an escape is none of the eight, a
      control character or the closing quote comes too early, or an escaped code unit is not four
      hex digits or a surrogate without its partner. */
  predicate StringFault(s: string, j: nat, e: Status) {
    match e
    case UnexpectedEof => Get(s, j) == NUL
    case InvalidEscapedSymbol => Get(s, j) == '\\' && !ShortEscape(Get(s, j + 1)) && Get(s, j + 1) != 'u'
    case UnexpectedSymbol =>
      || IsControl(Get(s, j))
      || (StartsUnicode(s, j)
          && (!Clean(s, j + 2, j + 6) || (UnicodeEscape(s, j, true) && !Clean(s, j + 6, j + 12))))
    case InvalidUnicode =>
      && StartsUnicode(s, j) && Clean(s, j + 2, j + 6)
      && (!Hex4At(s, j + 2) || (UnicodeEscape(s, j, true) && Clean(s, j + 6, j + 12) && !SurrogatePair(s, j)))
    case _ => false
  }

  /** The string is in order up to `j`, where something is wrong. */
  predicate StringCut(s: string, p: nat, j: nat, e: Status) {
    p <= j <= |s| && StringAt(s, p, j) && StringFault(s, j, e)
  }

  ghost predicate BadString(s: string, p: nat, e: Status) { exists j :: StringCut(s, p, j, e) }

  lemma FaultHere(s: string, j: nat, e: Status)
    requires StringFault(s, j, e)
    ensures e != NoError && ScanBody(s, j) == Fail(e)
  {
    hide Hex4At, CodeUnit;
  }

  /** The first fault is the one that is reported. */
  lemma {:induction false} FaultReported(s: string, p: nat, j: nat, e: Status)
    requires StringCut(s, p, j, e)
    ensures e != NoError && ScanBody(s, p) == Fail(e)
    decreases j - p
  {
    StringStart(s, p, j);
    if p == j {
      FaultHere(s, j, e);
    } else {
      EscapeScanned(s, p);
      StringGoesOn(s, p);
      hide StringAt, StringFault, ScanBody, UnicodeEscape, SurrogatePair, PlainChar, ShortEscape;
      if PlainChar(Get(s, p)) && StringAt(s, p + 1, j) {
        FaultReported(s, p + 1, j, e);
      } else if p + 2 <= j && Get(s, p) == '\\' && ShortEscape(Get(s, p + 1)) && StringAt(s, p + 2, j) {
        FaultReported(s, p + 2, j, e);
      } else if p + 6 <= j && UnicodeEscape(s, p, false) && StringAt(s, p + 6, j) {
        FaultReported(s, p + 6, j, e);
      } else {
        FaultReported(s, p + 12, j, e);
      }
    }
  }

  /** A character or escape that is in order is passed. */
  lemma StringGoesOn(s: string, p: nat)
    ensures PlainChar(Get(s, p)) ==> ScanBody(s, p) == ScanBody(s, p + 1).Shift(1)
    ensures Get(s, p) == '\\' && ShortEscape(Get(s, p + 1)) ==> ScanBody(s, p) == ScanBody(s, p + 2).Shift(2)
    ensures UnicodeEscape(s, p, false) && ScanUnicode(s, p + 2) == Ok(4) ==>
        ScanBody(s, p) == ScanBody(s, p + 6).Shift(6)
    ensures SurrogatePair(s, p) && ScanUnicode(s, p + 2) == Ok(10) ==> ScanBody(s, p) == ScanBody(s, p + 12).Shift(12)
  {
    hide Hex4At, CodeUnit, ScanUnicode;
  }

  /** And every refusal has one. */
  lemma {:induction false} FaultFound(s: string, p: nat) returns (j: nat)
    requires p <= |s| && ScanBody(s, p).Fail?
    ensures StringCut(s, p, j, ScanBody(s, p).status)
    decreases |s| - p
  {
    var c, e := Get(s, p), ScanBody(s, p).status;
    StringStart(s, p, p);
    if PlainChar(c) {
      StringGoesOn(s, p);
      j := FaultFound(s, p + 1);
      StringStart(s, p, j);
    } else if c == '\\' && ShortEscape(Get(s, p + 1)) && p + 2 <= |s| {
      StringGoesOn(s, p);
      j := FaultFound(s, p + 2);
      StringStart(s, p, j);
    } else if StartsUnicode(s, p) && ScanUnicode(s, p + 2).Ok? {
      var n := ScanUnicode(s, p + 2).len;
      UnicodeRead(s, p);
      StringGoesOn(s, p);
      j := FaultFound(s, p + 2 + n);
      StringStart(s, p, j);
    } else {
      j := p;
      FaultAt(s, p);
    }
  }

  lemma UnicodeRead(s: string, p: nat)
    requires StartsUnicode(s, p) && ScanUnicode(s, p + 2).Ok?
    ensures ScanUnicode(s, p + 2).len == 4 ==> UnicodeEscape(s, p, false)
    ensures ScanUnicode(s, p + 2).len == 10 ==> SurrogatePair(s, p)
  {
    hide CodeUnit;
  }

  lemma FaultAt(s: string, p: nat)
    requires p <= |s| && ScanBody(s, p).Fail? && !PlainChar(Get(s, p))
    requires !(Get(s, p) == '\\' && ShortEscape(Get(s, p + 1))) && !(StartsUnicode(s, p) && ScanUnicode(s, p + 2).Ok?)
    ensures StringFault(s, p, ScanBody(s, p).status)
  {
    hide CodeUnit;
  }

  /** A string is refused with the error of the first thing that is wrong with it. */
  lemma StringRefused(s: string, p: nat, e: Status)
    requires p <= |s|
    ensures (e != NoError && ScanBody(s, p) == Fail(e)) <==> BadString(s, p, e)
  {
    if e != NoError && ScanBody(s, p) == Fail(e) {
      var j := FaultFound(s, p);
    }
    if j :| StringCut(s, p, j, e) {
      FaultReported(s, p, j, e);
    }
  }

  // ----- numbers -----

  /** An exponent without digits behind the integer at `p` or its fraction. */
  predicate ExponentCut(s: string, p: nat, i: nat, x: nat) {
    && IntegerAt(s, p, i) && (x == i || (Get(s, i) == '.' && (x == i + 1 || DigitsAt(s, i + 1, x))))
    && IsE(Get(s, x)) && !IsDigit(Get(s, x + 1))
    && !((Get(s, x + 1) == '+' || Get(s, x + 1) == '-') && IsDigit(Get(s, x + 2)))
  }

  /** A point with neither a digit nor an exponent behind it. */
  predicate PointCut(s: string, p: nat, i: nat) {
    IntegerAt(s, p, i) && Get(s, i) == '.' && !IsDigit(Get(s, i + 1)) && !IsE(Get(s, i + 1))
  }

  ghost predicate NumberFault(s: string, p: nat, e: Status) {
    match e
    case InvalidNumber => (Get(s, p) == '0' && IsDigit(Get(s, p + 1))) || exists i, x :: ExponentCut(s, p, i, x)
    case UnexpectedSymbol => (Get(s, p) == '-' && !IsDigit(Get(s, p + 1))) || exists i :: PointCut(s, p, i)
    case _ => false
  }

  /** Where the digits behind `p` end. */
  lemma RunTo(s: string, i: nat, j: nat)
    requires i <= j && (i == j || DigitsAt(s, i, j)) && !IsDigit(Get(s, j))
    ensures DigitRun(s, i) == j - i
  {
    if i < j { DigitRunIs(s, i, j); }
  }

  lemma ExponentRefused(s: string, x: nat)
    ensures ScanExponent(s, x + 1).Fail? ==> ScanExponent(s, x + 1) == Fail(InvalidNumber)
    ensures ScanExponent(s, x + 1).Fail? <==>
      !IsDigit(Get(s, x + 1)) && !((Get(s, x + 1) == '+' || Get(s, x + 1) == '-') && IsDigit(Get(s, x + 2)))
  {
  }

  /** Where the integer of a number that is refused for what follows it ends. */
  lemma IntegerRead(s: string, p: nat) returns (i: nat)
    requires p < |s| && (IsDigit(s[p]) || s[p] == '-')
    requires !(s[p] == '-' && !IsDigit(Get(s, p + 1))) && !(s[p] == '0' && IsDigit(Get(s, p + 1)))
    ensures IntegerAt(s, p, i) && !IsDigit(Get(s, i)) && ScanNumber(s, p) == ScanTail(s, p, i - p)
  {
    var q := if s[p] == '-' then p + 1 else p;
    i := q + DigitRun(s, q);
    RunBound(s, q);
    RunIsDigits(s, q);
  }

  lemma IntegerUnique(s: string, p: nat, i: nat)
    requires p < |s| && IntegerAt(s, p, i) && !IsDigit(Get(s, i))
    ensures ScanNumber(s, p) == ScanTail(s, p, i - p) && (IsDigit(s[p]) || s[p] == '-')
    ensures !(s[p] == '-' && !IsDigit(Get(s, p + 1))) && !(s[p] == '0' && IsDigit(Get(s, p + 1)))
  {
    if s[p] == '-' { RunTo(s, p + 1, i); } else { RunTo(s, p, i); }
  }

  /** What is wrong behind the integer. */
  lemma TailRefused(s: string, p: nat, i: nat, e: Status)
    requires p < i <= |s| && IntegerAt(s, p, i) && !IsDigit(Get(s, i))
    ensures (e != NoError && ScanTail(s, p, i - p) == Fail(e)) <==>
      || (e == InvalidNumber && exists x :: ExponentCut(s, p, i, x))
      || (e == UnexpectedSymbol && PointCut(s, p, i))
  {
    ExponentRefused(s, i);
    if Get(s, i) == '.' {
      var k := i + 1 + DigitRun(s, i + 1);
      RunIsDigits(s, i + 1);
      RunBound(s, i + 1);
      ExponentRefused(s, k);
      hide ScanExponent, DigitRun;
      if e == InvalidNumber && ScanTail(s, p, i - p) == Fail(e) { assert ExponentCut(s, p, i, k); }
      if x :| ExponentCut(s, p, i, x) { RunTo(s, i + 1, x); }
    } else {
      hide ScanExponent;
      if e == InvalidNumber && ScanTail(s, p, i - p) == Fail(e) { assert ExponentCut(s, p, i, i); }
    }
  }

  /** A number is refused for a leading zero, for a minus, a point or an exponent without digits. */
  lemma NumberRefused(s: string, p: nat, e: Status)
    requires p < |s| && (IsDigit(s[p]) || s[p] == '-')
    ensures (e != NoError && ScanNumber(s, p) == Fail(e)) <==> NumberFault(s, p, e)
  {
    if s[p] == '-' && !IsDigit(Get(s, p + 1)) {
      RunBound(s, p + 1);
      NoInteger(s, p);
    } else if s[p] == '0' && IsDigit(Get(s, p + 1)) {
      NoInteger(s, p);
    } else {
      var i := IntegerRead(s, p);
      TailRefused(s, p, i, e);
      IntegerOnly(s, p, i);
      hide ScanNumber, ScanTail, IntegerAt;
    }
  }

  /** Then nothing can be wrong behind the integer. */
  lemma NoInteger(s: string, p: nat)
    requires p < |s| && ((s[p] == '-' && !IsDigit(Get(s, p + 1))) || (s[p] == '0' && IsDigit(Get(s, p + 1))))
    ensures forall i, x :: !ExponentCut(s, p, i, x)
    ensures forall i :: !PointCut(s, p, i)
  {
  }

  lemma IntegerOnly(s: string, p: nat, i: nat)
    requires p < |s| && IntegerAt(s, p, i) && !IsDigit(Get(s, i))
    ensures forall j, x :: ExponentCut(s, p, j, x) ==> j == i
    ensures forall j :: PointCut(s, p, j) ==> j == i
  {
    forall j, x | ExponentCut(s, p, j, x) ensures j == i { IntegerSame(s, p, i, j); }
    forall j | PointCut(s, p, j) ensures j == i { IntegerSame(s, p, i, j); }
  }

  lemma IntegerSame(s: string, p: nat, i: nat, j: nat)
    requires p < |s| && IntegerAt(s, p, i) && IntegerAt(s, p, j) && !IsDigit(Get(s, i)) && !IsDigit(Get(s, j))
    ensures i == j
  {
    if s[p] == '-' {
      RunTo(s, p + 1, i);
      RunTo(s, p + 1, j);
    } else {
      RunTo(s, p, i);
      RunTo(s, p, j);
    }
  }

  // ----- what starts with a number -----

  predicate HasPoint(w: string) { exists i :: 0 <= i < |w| && w[i] == '.' }

  predicate HasExponent(w: string) { exists i :: 0 <= i < |w| && IsE(w[i]) }

  /** With this character the number word `w` would go on. */
  predicate GoesOn(w: string, c: char) {
    IsDigit(c) || (IsE(c) && !HasExponent(w)) || (c == '.' && !HasPoint(w) && !HasExponent(w))
  }

  /** The first `n` characters are a number word, and the next one does not go on with it. */
  predicate NumberEnds(s: string, n: nat) {
    0 < n <= |s| && NumberWord(s[..n]) && (n < |s| ==> !GoesOn(s[..n], s[n]))
  }

  /** A number starts the text, whatever follows it. */
  predicate NumberStarts(s: string) { exists n :: 0 < n <= |s| && NumberEnds(s, n) }

  lemma NumberPrefix(s: string, n: nat)
    requires n <= |s|
    ensures NumberWord(s[..n]) <==> NumberAt(s, 0, n)
  {
    assert s[0..0 + n] == s[..n];
    NumberMoves(s, 0, s[..n]);
  }

  /** What has been scanned shows what may follow. */
  lemma ScanEnds(s: string, i: nat, n: nat)
    requires IntegerAt(s, 0, i) && !IsDigit(Get(s, i)) && i <= n <= |s| && ScanTail(s, 0, i) == Ok(n)
    ensures n < |s| ==> !GoesOn(s[..n], s[n])
  {
    if n < |s| {
      if Get(s, i) == '.' {
        var k := i + 1 + DigitRun(s, i + 1);
        RunBound(s, i + 1);
        assert s[..n][i] == '.';
        if IsE(Get(s, k)) {
          assert k < n && s[..n][k] == s[k];
          ExponentEnds(s, k, n);
        }
      } else if IsE(Get(s, i)) {
        assert i < n && s[..n][i] == s[i];
        ExponentEnds(s, i, n);
      }
    }
  }

  lemma ExponentEnds(s: string, x: nat, n: nat)
    requires x < |s| && x + 1 <= n && ScanExponent(s, x + 1) == Ok(n - x - 1)
    ensures !IsDigit(Get(s, n))
  {
    RunBound(s, x + 1);
    if x + 1 < |s| { RunBound(s, x + 2); }
  }

  /** An integer alone has neither point nor exponent, a fraction without an exponent has none. */
  lemma PlainWord(s: string, i: nat, n: nat)
    requires IntegerAt(s, 0, i) && i <= n <= |s|
    ensures i == n ==> !HasPoint(s[..n]) && !HasExponent(s[..n])
    ensures i < n && s[i] == '.' && DigitsAt(s, i + 1, n) ==> !HasExponent(s[..n])
  {
    forall j | 0 <= j < i ensures IsDigit(s[j]) || s[j] == '-' { }
  }

  /** jes_tokenizer_validate_number accepts a text if and only if a number starts it. */
  lemma ScanStarts(s: string)
    requires s != "" && (IsDigit(s[0]) || s[0] == '-')
    ensures ScanNumber(s, 0).Ok? <==> NumberStarts(s)
  {
    if ScanNumber(s, 0).Ok? {
      var n := ScanNumber(s, 0).len;
      NumberBound(s, 0);
      ScannedIsNumber(s, 0, n);
      NumberPrefix(s, n);
      var i := IntegerRead(s, 0);
      ScanEnds(s, i, n);
      assert NumberEnds(s, n);
    }
    if n :| 0 < n <= |s| && NumberEnds(s, n) { EndsScanned(s, n); }
  }

  lemma EndsScanned(s: string, n: nat)
    requires NumberEnds(s, n)
    ensures (IsDigit(s[0]) || s[0] == '-') && ScanNumber(s, 0) == Ok(n)
  {
    NumberPrefix(s, n);
    var i :| 0 <= i <= n && IntegerAt(s, 0, i) && TailAt(s, i, n);
    PlainWord(s, i, n);
    assert !IsDigit(Get(s, n));
    IntegerUnique(s, 0, i);
    TailEnds(s, i, n);
  }

  lemma TailEnds(s: string, i: nat, n: nat)
    requires IntegerAt(s, 0, i) && TailAt(s, i, n) && i <= n <= |s| && !IsDigit(Get(s, n))
    requires n < |s| ==> !GoesOn(s[..n], s[n])
    ensures ScanTail(s, 0, i) == Ok(n)
  {
    PlainWord(s, i, n);
    if i == n {
    } else if s[i] == '.' {
      FractionEnds(s, i, n);
    } else {
      ExponentScan(s, i, n);
    }
  }

  lemma FractionEnds(s: string, i: nat, n: nat)
    requires FractionAt(s, i, n) && !IsDigit(Get(s, n)) && (DigitsAt(s, i + 1, n) ==> !IsE(Get(s, n)))
    ensures ScanFraction(s, i + 1) == Ok(n - i - 1)
  {
    if DigitsAt(s, i + 1, n) {
      RunTo(s, i + 1, n);
    } else {
      var m :| i < m < n && DigitsThenExponent(s, i, m, n);
      RunTo(s, i + 1, m);
      ExponentScan(s, m, n);
    }
  }

  /** Characters behind the number are not looked at, and no shorter number is tried. */
  lemma NumberTrails()
    ensures NumberStarts("1-") && !NumberWord("1-") && NumberWord("1") && !NumberStarts("1.")
  {
    ScanStarts("1-");
    ScanStarts("1.");
    ScanStarts("1");
    assert ScanNumber("1", 0) == Ok(1);
    ScannedIsNumber("1", 0, 1);
    assert ScanNumber("1-", 0) == Ok(1);
    NumberScanner("1-", 0, "1-");
  }

  // ----- tokens -----

  /** What is wrong with the token at `p`: its string or its number, or it is no token. */
  ghost predicate WordFault(s: string, p: nat, e: Status) {
    var c := Get(s, p);
    && Delimiter(c) == InvalidToken
    && if c == '"' then BadString(s, p + 1, e)
       else if IsDigit(c) || c == '-' then NumberFault(s, p, e)
       else e == UnexpectedSymbol && !(StartsLiteral(c) && WordAt(s, p, Literal(c).0))
  }

  /** The tokenizer refuses a token with the error of what is wrong with it. */
  lemma WordRefused(s: string, p: nat, e: Error)
    requires p <= |s|
    ensures LexWord(s, p) == Failed(e) <==> WordFault(s, p, e)
  {
    var c := Get(s, p);
    if Delimiter(c) == InvalidToken && c == '"' {
      StringRefused(s, p + 1, e);
      QuoteRefused(s, p, e);
    } else if Delimiter(c) == InvalidToken && (IsDigit(c) || c == '-') {
      NumberRefused(s, p, e);
      hide NumberFault, ScanBody;
    }
  }

  lemma QuoteRefused(s: string, p: nat, e: Error)
    requires Get(s, p) == '"' && p < |s|
    ensures LexWord(s, p) == Failed(e) <==> ScanBody(s, p + 1) == Fail(e)
  {
    BodyEnds(s, p + 1);
    if ScanBody(s, p + 1).Ok? { LexQuote(s, p, ScanBody(s, p + 1).len); } else { LexBadQuote(s, p); }
    hide LexWord, ScanBody;
  }
}
