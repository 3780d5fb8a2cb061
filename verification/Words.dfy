/** The words that the number and string scanners accept, written as grammars. */
module Words {
  import opened Codes
  import opened Lexer

  // ----- numbers -----

  /** One or more digits between positions `i` and `j`. */
  predicate DigitsAt(s: string, i: nat, j: nat) {
    i < j <= |s| && forall k :: i <= k < j ==> IsDigit(s[k])
  }

  /** "0", or digits that do not start with 0, or "-" and any digits. */
  predicate IntegerAt(s: string, p: nat, j: nat) {
    && p < j <= |s|
    && ((j == p + 1 && s[p] == '0') || (DigitsAt(s, p, j) && s[p] != '0') || (s[p] == '-' && DigitsAt(s, p + 1, j)))
  }

  predicate ExponentAt(s: string, i: nat, j: nat) {
    && i < j <= |s| && IsE(s[i])
    && (DigitsAt(s, i + 1, j) || (i + 1 < j && (s[i + 1] == '+' || s[i + 1] == '-') && DigitsAt(s, i + 2, j)))
  }

  /** A point, then digits with or without an exponent, or an exponent at once. */
  predicate FractionAt(s: string, i: nat, j: nat) {
    && i < j <= |s| && s[i] == '.'
    && (DigitsAt(s, i + 1, j) || exists k :: i < k < j && DigitsThenExponent(s, i, k, j))
  }

  predicate DigitsThenExponent(s: string, i: nat, k: nat, j: nat) {
    (k == i + 1 || DigitsAt(s, i + 1, k)) && ExponentAt(s, k, j)
  }

  predicate TailAt(s: string, i: nat, j: nat) { i == j || ExponentAt(s, i, j) || FractionAt(s, i, j) }

  /** A number word stands between positions `p` and `j`. */
  predicate NumberAt(s: string, p: nat, j: nat) {
    j <= |s| && exists i :: p <= i <= j && IntegerAt(s, p, i) && TailAt(s, i, j)
  }

  predicate NumberWord(w: string) { NumberAt(w, 0, |w|) }

  predicate NumberChar(c: char) { IsDigit(c) || c == '.' || IsE(c) || c == '+' || c == '-' }

  /** number = [ "-" ] int [ frac ] [ exp ], section 6 of RFC 8259 */
  predicate RfcNumber(w: string) {
    exists i, j, k :: 0 <= i <= j <= k <= |w|
      && (i == 0 || (i == 1 && w[0] == '-'))
      && RfcInteger(w, i, j) && RfcFraction(w, j, k) && RfcExponent(w, k)
  }

  predicate RfcInteger(w: string, i: nat, j: nat) {
    DigitsAt(w, i, j) && (w[i] == '0' ==> j == i + 1)
  }

  predicate RfcFraction(w: string, j: nat, k: nat) {
    j == k || (j < |w| && w[j] == '.' && DigitsAt(w, j + 1, k))
  }

  predicate RfcExponent(w: string, k: nat) { k == |w| || ExponentAt(w, k, |w|) }

  /** Every JSON number is a number word; the scanner's language is larger. */
  lemma RfcNumbersAccepted(w: string)
    requires RfcNumber(w)
    ensures NumberWord(w)
  {
    var i, j, k :| 0 <= i <= j <= k <= |w| && (i == 0 || (i == 1 && w[0] == '-'))
      && RfcInteger(w, i, j) && RfcFraction(w, j, k) && RfcExponent(w, k);
    assert IntegerAt(w, 0, j);
    if j < k < |w| { assert DigitsThenExponent(w, j, k, |w|); }
    assert TailAt(w, j, |w|);
  }

  /** A zero and more digits behind a minus. */
  predicate LeadingZero(w: string) { |w| >= 3 && w[0] == '-' && w[1] == '0' && IsDigit(w[2]) }

  /** A point with no digit in front of the exponent. */
  predicate BarePoint(w: string) { exists p :: 0 <= p < |w| - 1 && w[p] == '.' && IsE(w[p + 1]) }

  /** In an exponent there is no point. */
  lemma NoPointBehind(w: string, k: nat, p: nat)
    requires RfcExponent(w, k) && k <= p < |w|
    ensures w[p] != '.'
  {
  }

  /** A JSON number has digits behind its point, and its zero stands alone. */
  lemma RfcStrict(w: string)
    requires RfcNumber(w)
    ensures !LeadingZero(w) && !BarePoint(w)
  {
    var i, j, k :| 0 <= i <= j <= k <= |w| && (i == 0 || (i == 1 && w[0] == '-'))
      && RfcInteger(w, i, j) && RfcFraction(w, j, k) && RfcExponent(w, k);
    forall p | 0 <= p < |w| - 1 && w[p] == '.' ensures !IsE(w[p + 1]) {
      if p >= k { NoPointBehind(w, k, p); }
      assert p == j < k;
    }
  }

  /** A number word without the two deviations is a JSON number. */
  lemma StrictRfc(w: string)
    requires NumberWord(w) && !LeadingZero(w) && !BarePoint(w)
    ensures RfcNumber(w)
  {
    var n := |w|;
    var j :| 0 <= j <= n && IntegerAt(w, 0, j) && TailAt(w, j, n);
    var i := if w[0] == '-' then 1 else 0;
    assert RfcInteger(w, i, j);
    if FractionAt(w, j, n) && !DigitsAt(w, j + 1, n) {
      var k :| j < k < n && DigitsThenExponent(w, j, k, n);
      assert k != j + 1;
      assert RfcFraction(w, j, k) && RfcExponent(w, k);
    } else if FractionAt(w, j, n) {
      assert RfcFraction(w, j, n) && RfcExponent(w, n);
    } else {
      assert RfcFraction(w, j, j) && RfcExponent(w, j);
    }
  }

  /** Which of the numbers that the scanner accepts are JSON numbers. */
  lemma NumbersOfJson(w: string)
    ensures RfcNumber(w) <==> NumberWord(w) && !LeadingZero(w) && !BarePoint(w)
  {
    if RfcNumber(w) {
      RfcNumbersAccepted(w);
      RfcStrict(w);
    } else if NumberWord(w) && !LeadingZero(w) && !BarePoint(w) {
      StrictRfc(w);
    }
  }

  /** "-007" and "1.e5" are number words, and no JSON numbers. */
  lemma LaxNumbers()
    ensures NumberWord("-007") && !RfcNumber("-007")
    ensures NumberWord("1.e5") && !RfcNumber("1.e5")
  {
    assert IntegerAt("-007", 0, 4) && TailAt("-007", 4, 4);
    assert IntegerAt("1.e5", 0, 1);
    assert DigitsThenExponent("1.e5", 1, 2, 4);
    assert TailAt("1.e5", 1, 4);
  }

  /** The same characters form the same words wherever they stand. */
  lemma NumberMoves(s: string, p: nat, w: string)
    requires WordAt(s, p, w)
    ensures NumberAt(s, p, p + |w|) <==> NumberWord(w)
  {
    var n := |w|;
    assert forall k :: 0 <= k < n ==> s[p + k] == w[k];
    forall i, j | 0 <= i <= j <= n ensures DigitsAt(w, i, j) == DigitsAt(s, p + i, p + j) {
      DigitsMove(s, p, w, i, j);
    }
    if i :| 0 <= i <= n && IntegerAt(w, 0, i) && TailAt(w, i, n) {
      TailMoves(s, p, w, i);
      assert IntegerAt(s, p, p + i) && TailAt(s, p + i, p + n);
    }
    if i :| p <= i <= p + n && IntegerAt(s, p, i) && TailAt(s, i, p + n) {
      TailMoves(s, p, w, i - p);
      assert IntegerAt(w, 0, i - p) && TailAt(w, i - p, n);
    }
  }

  lemma DigitsMove(s: string, p: nat, w: string, i: nat, j: nat)
    requires WordAt(s, p, w) && i <= j <= |w|
    ensures DigitsAt(w, i, j) == DigitsAt(s, p + i, p + j)
  {
    if DigitsAt(w, i, j) {
      forall k | p + i <= k < p + j ensures IsDigit(s[k]) {
        assert s[p..p + |w|][k - p] == w[k - p];
      }
    }
    if DigitsAt(s, p + i, p + j) {
      forall k | i <= k < j ensures IsDigit(w[k]) {
        assert s[p..p + |w|][k] == s[p + k];
      }
    }
  }

  lemma ExponentMoves(s: string, p: nat, w: string, i: nat)
    requires WordAt(s, p, w) && i <= |w|
    ensures ExponentAt(w, i, |w|) == ExponentAt(s, p + i, p + |w|)
  {
    if i + 1 < |w| {
      assert s[p..p + |w|][i] == s[p + i] && s[p..p + |w|][i + 1] == s[p + i + 1];
      DigitsMove(s, p, w, i + 1, |w|);
      DigitsMove(s, p, w, i + 2, |w|);
    }
  }

  lemma TailMoves(s: string, p: nat, w: string, i: nat)
    requires WordAt(s, p, w) && i <= |w|
    ensures TailAt(w, i, |w|) == TailAt(s, p + i, p + |w|)
  {
    ExponentMoves(s, p, w, i);
    if i < |w| {
      assert s[p..p + |w|][i] == s[p + i];
      DigitsMove(s, p, w, i + 1, |w|);
      if k :| i < k < |w| && DigitsThenExponent(w, i, k, |w|) {
        DigitsMove(s, p, w, i + 1, k);
        ExponentMoves(s, p, w, k);
        assert DigitsThenExponent(s, p + i, p + k, p + |w|);
      }
      var pi, pw := p + i, p + |w|;
      if k :| pi < k < pw && DigitsThenExponent(s, pi, k, pw) {
        DigitsMove(s, p, w, i + 1, k - p);
        ExponentMoves(s, p, w, k - p);
        assert DigitsThenExponent(w, i, k - p, |w|);
      }
    }
  }

  /** The length of a run of digits is where the digits stop. */
  lemma {:induction false} DigitRunIs(s: string, i: nat, j: nat)
    requires i <= j <= |s| && (i == j || DigitsAt(s, i, j)) && !IsDigit(Get(s, j))
    ensures DigitRun(s, i) == j - i
    decreases j - i
  {
    if i < j { DigitRunIs(s, i + 1, j); }
  }

  lemma {:induction false} RunIsDigits(s: string, i: nat)
    requires i <= |s|
    ensures DigitRun(s, i) == 0 || DigitsAt(s, i, i + DigitRun(s, i))
    decreases |s| - i
  {
    if i < |s| && IsDigit(s[i]) { RunIsDigits(s, i + 1); }
  }

  lemma ExponentScan(s: string, i: nat, j: nat)
    requires i < |s| && IsE(s[i]) && i < j
    ensures ScanExponent(s, i + 1) == Ok(j - i - 1) ==> ExponentAt(s, i, j)
    ensures ExponentAt(s, i, j) && !IsDigit(Get(s, j)) ==> ScanExponent(s, i + 1) == Ok(j - i - 1)
  {
    RunIsDigits(s, i + 1);
    if i + 1 < |s| { RunIsDigits(s, i + 2); }
    if ExponentAt(s, i, j) && !IsDigit(Get(s, j)) {
      if DigitsAt(s, i + 1, j) { DigitRunIs(s, i + 1, j); } else { DigitRunIs(s, i + 2, j); }
    }
  }

  lemma FractionScan(s: string, i: nat, j: nat)
    requires i < |s| && s[i] == '.' && i < j
    ensures ScanFraction(s, i + 1) == Ok(j - i - 1) ==> FractionAt(s, i, j)
    ensures FractionAt(s, i, j) && !NumberChar(Get(s, j)) ==> ScanFraction(s, i + 1) == Ok(j - i - 1)
  {
    hide FractionAt, ScanFraction;
    if ScanFraction(s, i + 1) == Ok(j - i - 1) { ScannedFraction(s, i, j); }
    if FractionAt(s, i, j) && !NumberChar(Get(s, j)) { FractionScanned(s, i, j); }
  }

  lemma ScannedFraction(s: string, i: nat, j: nat)
    requires i < |s| && s[i] == '.' && i < j && ScanFraction(s, i + 1) == Ok(j - i - 1)
    ensures FractionAt(s, i, j)
  {
    hide ScanExponent, ExponentAt;
    var k := i + 1 + DigitRun(s, i + 1);
    RunIsDigits(s, i + 1);
    RunBound(s, i + 1);
    if IsE(Get(s, k)) {
      ExponentBound(s, k + 1);
      ExponentScan(s, k, j);
      assert DigitsThenExponent(s, i, k, j);
    }
  }

  lemma FractionScanned(s: string, i: nat, j: nat)
    requires FractionAt(s, i, j) && !NumberChar(Get(s, j))
    ensures ScanFraction(s, i + 1) == Ok(j - i - 1)
  {
    hide DigitRun, ScanExponent;
    if DigitsAt(s, i + 1, j) {
      DigitRunIs(s, i + 1, j);
    } else {
      var m :| i < m < j && DigitsThenExponent(s, i, m, j);
      DigitRunIs(s, i + 1, m);
      ExponentScan(s, m, j);
    }
  }

  lemma TailScan(s: string, p: nat, i: nat, j: nat)
    requires p <= i <= j && i <= |s|
    ensures ScanTail(s, p, i - p) == Ok(j - p) ==> TailAt(s, i, j)
    ensures TailAt(s, i, j) && !NumberChar(Get(s, j)) ==> ScanTail(s, p, i - p) == Ok(j - p)
  {
    if i < j && Get(s, i) == '.' {
      FractionScan(s, i, j);
    } else if i < j && IsE(Get(s, i)) {
      ExponentScan(s, i, j);
    }
  }

  lemma ScannedIsNumber(s: string, p: nat, j: nat)
    requires p < j <= |s| && (IsDigit(s[p]) || s[p] == '-') && ScanNumber(s, p) == Ok(j - p)
    ensures NumberAt(s, p, j)
  {
    var q := if s[p] == '-' then p + 1 else p;
    var e := q + DigitRun(s, q);
    RunIsDigits(s, q);
    TailScan(s, p, e, j);
    assert IntegerAt(s, p, e);
  }

  lemma NumberIsScanned(s: string, p: nat, j: nat)
    requires p < j <= |s| && (IsDigit(s[p]) || s[p] == '-') && NumberAt(s, p, j) && !NumberChar(Get(s, j))
    ensures ScanNumber(s, p) == Ok(j - p)
  {
    var q := if s[p] == '-' then p + 1 else p;
    var i :| p <= i <= j && IntegerAt(s, p, i) && TailAt(s, i, j);
    assert !IsDigit(Get(s, i));
    DigitRunIs(s, q, i);
    TailScan(s, p, i, j);
  }

  /** The number scanner accepts exactly the number words that are not followed by a character
      that could continue them, and its token is the whole word. */
  lemma NumberScanner(s: string, p: nat, w: string)
    requires p < |s| && (IsDigit(s[p]) || s[p] == '-')
    requires w != "" && WordAt(s, p, w) && !NumberChar(Get(s, p + |w|))
    ensures ScanNumber(s, p) == Ok(|w|) <==> NumberWord(w)
  {
    NumberMoves(s, p, w);
    if ScanNumber(s, p) == Ok(|w|) { ScannedIsNumber(s, p, p + |w|); }
    if NumberAt(s, p, p + |w|) { NumberIsScanned(s, p, p + |w|); }
  }

  lemma NumberStart(w: string)
    requires NumberWord(w)
    ensures w != "" && (IsDigit(w[0]) || w[0] == '-')
  {
  }

  // ----- strings -----

  predicate PlainChar(c: char) { c != '"' && c != '\\' && c != NUL && !IsControl(c) }

  /** An escaped code unit in, or outside, the surrogate range. */
  predicate UnicodeEscape(s: string, p: nat, surrogate: bool) {
    Get(s, p) == '\\' && Get(s, p + 1) == 'u' && Hex4At(s, p + 2) && Surrogate(CodeUnit(s, p + 2)) == surrogate
  }

  predicate SurrogatePair(s: string, p: nat) {
    && UnicodeEscape(s, p, true)
    && Get(s, p + 6) == '\\' && Get(s, p + 7) == 'u' && Hex4At(s, p + 8) && LowSurrogate(CodeUnit(s, p + 8))
  }

  /** Plain characters, the eight short escapes, escaped code units outside the surrogates,
      and escaped surrogates followed by an escaped low surrogate, between positions `p` and `j`. */
  predicate StringAt(s: string, p: nat, j: nat)
    decreases j - p
  {
    || p == j
    || (p < j && PlainChar(Get(s, p)) && StringAt(s, p + 1, j))
    || (p + 2 <= j && Get(s, p) == '\\' && ShortEscape(Get(s, p + 1)) && StringAt(s, p + 2, j))
    || (p + 6 <= j && UnicodeEscape(s, p, false) && StringAt(s, p + 6, j))
    || (p + 12 <= j && SurrogatePair(s, p) && StringAt(s, p + 12, j))
  }

  predicate StringWord(w: string) { StringAt(w, 0, |w|) }

  /** The same characters form the same string wherever they stand. */
  lemma {:induction false} StringMoves(s: string, p: nat, w: string, i: nat)
    requires WordAt(s, p, w) && i <= |w|
    ensures StringAt(s, p + i, p + |w|) == StringAt(w, i, |w|)
    decreases |w| - i
  {
    EscapesMove(s, p, w, i);
    StringStart(s, p + i, p + |w|);
    StringStart(w, i, |w|);
    hide StringAt, WordAt, UnicodeEscape, SurrogatePair, PlainChar, ShortEscape;
    if i + 1 <= |w| { StringMoves(s, p, w, i + 1); }
    if i + 2 <= |w| { StringMoves(s, p, w, i + 2); }
    if i + 6 <= |w| { StringMoves(s, p, w, i + 6); }
    if i + 12 <= |w| { StringMoves(s, p, w, i + 12); }
  }

  /** What a string may start with, and what follows then. */
  lemma StringStart(s: string, p: nat, j: nat)
    ensures StringAt(s, p, j) <==>
      || p == j
      || (p < j && PlainChar(Get(s, p)) && StringAt(s, p + 1, j))
      || (p + 2 <= j && Get(s, p) == '\\' && ShortEscape(Get(s, p + 1)) && StringAt(s, p + 2, j))
      || (p + 6 <= j && UnicodeEscape(s, p, false) && StringAt(s, p + 6, j))
      || (p + 12 <= j && SurrogatePair(s, p) && StringAt(s, p + 12, j))
  {
  }

  lemma EscapesMove(s: string, p: nat, w: string, i: nat)
    requires WordAt(s, p, w)
    ensures i < |w| ==> Get(s, p + i) == Get(w, i)
    ensures i + 2 <= |w| ==> Get(s, p + i + 1) == Get(w, i + 1)
    ensures i + 6 <= |w| ==> forall b :: UnicodeEscape(s, p + i, b) == UnicodeEscape(w, i, b)
    ensures i + 12 <= |w| ==> SurrogatePair(s, p + i) == SurrogatePair(w, i)
  {
    forall k: nat | k < |w| ensures Get(s, p + k) == Get(w, k) {
      assert s[p..p + |w|][k] == w[k];
    }
  }

  lemma {:induction false} BodyIsString(s: string, p: nat)
    requires p <= |s| && ScanBody(s, p).Ok?
    ensures StringAt(s, p, p + ScanBody(s, p).len)
    decreases |s| - p
  {
    var c := Get(s, p);
    if c == '"' {
    } else if c == '\\' {
      if ShortEscape(Get(s, p + 1)) {
        BodyIsString(s, p + 2);
      } else {
        BodyIsString(s, p + 2 + ScanUnicode(s, p + 2).len);
      }
    } else {
      BodyIsString(s, p + 1);
    }
  }

  lemma EscapeScanned(s: string, p: nat)
    ensures UnicodeEscape(s, p, false) ==> ScanUnicode(s, p + 2) == Ok(4)
    ensures SurrogatePair(s, p) ==> ScanUnicode(s, p + 2) == Ok(10)
  {
  }

  lemma {:induction false} StringAccepted(s: string, p: nat, j: nat)
    requires p <= j < |s| && s[j] == '"' && StringAt(s, p, j)
    ensures ScanBody(s, p) == Ok(j - p)
    decreases j - p
  {
    if p == j {
    } else if PlainChar(Get(s, p)) && StringAt(s, p + 1, j) {
      StringAccepted(s, p + 1, j);
    } else if p + 2 <= j && Get(s, p) == '\\' && ShortEscape(Get(s, p + 1)) && StringAt(s, p + 2, j) {
      StringAccepted(s, p + 2, j);
    } else if p + 6 <= j && UnicodeEscape(s, p, false) && StringAt(s, p + 6, j) {
      EscapeScanned(s, p);
      StringAccepted(s, p + 6, j);
    } else {
      EscapeScanned(s, p);
      StringAccepted(s, p + 12, j);
    }
  }

  /** The string scanner succeeds exactly on string words that end in a quote, and its token is
      the text between the quotes. */
  lemma StringScanner(s: string, p: nat, n: nat)
    requires p <= |s|
    ensures ScanBody(s, p) == Ok(n) <==> p + n < |s| && s[p + n] == '"' && StringWord(s[p..p + n])
  {
    BodyEnds(s, p);
    hide ScanBody, StringAt;
    if ScanBody(s, p) == Ok(n) {
      BodyIsString(s, p);
      StringMoves(s, p, s[p..p + n], 0);
    } else if p + n < |s| && s[p + n] == '"' && StringWord(s[p..p + n]) {
      StringMoves(s, p, s[p..p + n], 0);
      StringAccepted(s, p, p + n);
    }
  }

  /** The characters that stand for themselves in a JSON string, section 7 of RFC 8259. */
  predicate RfcUnescaped(c: char) { c >= ' ' && c != '"' && c != '\\' }

  predicate AnyUnicodeEscape(s: string, p: nat) { Get(s, p) == '\\' && Get(s, p + 1) == 'u' && Hex4At(s, p + 2) }

  /** *char between positions `p` and `j`, section 7 of RFC 8259 */
  predicate RfcStringAt(s: string, p: nat, j: nat)
    decreases j - p
  {
    || p == j
    || (p < j && RfcUnescaped(Get(s, p)) && RfcStringAt(s, p + 1, j))
    || (p + 2 <= j && Get(s, p) == '\\' && ShortEscape(Get(s, p + 1)) && RfcStringAt(s, p + 2, j))
    || (p + 6 <= j && AnyUnicodeEscape(s, p) && RfcStringAt(s, p + 6, j))
  }

  predicate RfcString(w: string) { RfcStringAt(w, 0, |w|) }

  predicate NoControls(w: string, p: nat) { forall i :: p <= i < |w| ==> w[i] >= ' ' }

  /** Reading escape by escape from `p` on, a surrogate is always followed by a low surrogate. */
  predicate Paired(w: string, p: nat)
    decreases |w| - p
  {
    if p >= |w| then true
    else if AnyUnicodeEscape(w, p) && p + 6 <= |w| then
      if Surrogate(CodeUnit(w, p + 2)) then SurrogatePair(w, p) && p + 12 <= |w| && Paired(w, p + 12)
      else Paired(w, p + 6)
    else if w[p] == '\\' && p + 2 <= |w| then Paired(w, p + 2)
    else Paired(w, p + 1)
  }

  lemma NoControlsSplit(w: string, p: nat, n: nat)
    requires p + n <= |w|
    ensures NoControls(w, p) <==> NoControls(w, p + n) && forall i :: p <= i < p + n ==> w[i] >= ' '
  {
  }

  lemma EscapePrintable(w: string, p: nat)
    requires p + 6 <= |w| && AnyUnicodeEscape(w, p)
    ensures forall i :: p <= i < p + 6 ==> w[i] >= ' '
  {
    assert IsHex(Get(w, p + 2)) && IsHex(Get(w, p + 3)) && IsHex(Get(w, p + 4)) && IsHex(Get(w, p + 5));
  }

  lemma {:induction false} AcceptedOfJson(w: string, p: nat)
    requires p <= |w| && StringAt(w, p, |w|)
    ensures RfcStringAt(w, p, |w|) <==> NoControls(w, p)
    decreases |w| - p
  {
    if p < |w| && w[p] != '\\' {
      AcceptedOfJson(w, p + 1);
      NoControlsSplit(w, p, 1);
    } else if p < |w| && ShortEscape(Get(w, p + 1)) {
      AcceptedOfJson(w, p + 2);
      NoControlsSplit(w, p, 2);
    } else if p < |w| && UnicodeEscape(w, p, false) {
      AcceptedOfJson(w, p + 6);
      EscapePrintable(w, p);
      NoControlsSplit(w, p, 6);
    } else if p < |w| {
      AcceptedOfJson(w, p + 12);
      EscapePrintable(w, p);
      EscapePrintable(w, p + 6);
      NoControlsSplit(w, p, 6);
      NoControlsSplit(w, p + 6, 6);
    }
  }

  lemma {:induction false} JsonAccepted(w: string, p: nat)
    requires p <= |w| && RfcStringAt(w, p, |w|)
    ensures StringAt(w, p, |w|) <==> Paired(w, p)
    decreases |w| - p
  {
    if p < |w| && w[p] != '\\' {
      JsonAccepted(w, p + 1);
    } else if p < |w| && ShortEscape(Get(w, p + 1)) {
      JsonAccepted(w, p + 2);
    } else if p < |w| && !Surrogate(CodeUnit(w, p + 2)) {
      JsonAccepted(w, p + 6);
    } else if p < |w| && SurrogatePair(w, p) && p + 12 <= |w| {
      assert RfcStringAt(w, p + 6, |w|);
      JsonAccepted(w, p + 12);
    }
  }

  /** Which of the strings that the scanner accepts are JSON strings, and which JSON strings it
      accepts. */
  lemma StringsOfJson(w: string)
    ensures StringWord(w) ==> (RfcString(w) <==> NoControls(w, 0))
    ensures RfcString(w) ==> (StringWord(w) <==> Paired(w, 0))
  {
    if StringWord(w) { AcceptedOfJson(w, 0); }
    if RfcString(w) { JsonAccepted(w, 0); }
  }

  /** A control character other than the refused ones is accepted, and a lone surrogate is not. */
  lemma LaxStrings()
    ensures StringWord("\U{1}") && !RfcString("\U{1}")
    ensures RfcString("\\uD800") && !StringWord("\\uD800")
  {
    var c, u := "\U{1}", "\\uD800";
    assert PlainChar(Get(c, 0)) && StringAt(c, 1, 1);
    assert AnyUnicodeEscape(u, 0) && RfcStringAt(u, 6, 6);
    assert CodeUnit(u, 2) == 0xD800;
    assert !SurrogatePair(u, 0);
  }

  // ----- white space -----

  /** ws, section 2 of RFC 8259 */
  predicate RfcSpace(c: char) { c == ' ' || c == '\t' || c == '\n' || c == '\r' }

  /** The scanner skips exactly what JSON skips, as long as the next character that is not JSON
      white space is no form feed. */
  lemma {:induction false} SpacesOfJson(s: string, p: nat, q: nat)
    requires p <= q <= |s| && (forall i :: p <= i < q ==> RfcSpace(s[i])) && (q < |s| ==> !RfcSpace(s[q]))
    ensures p + Spaces(s, p) == q <==> Get(s, q) != FORM_FEED
    decreases q - p
  {
    if p < q { SpacesOfJson(s, p + 1, q); }
  }

  /** Form feeds are skipped. */
  lemma FormFeedSkipped()
    ensures !RfcSpace(FORM_FEED) && Lex([FORM_FEED] + "1", 0) == Lexed(Token(NumberToken, "1"), 2)
  {
    var s := [FORM_FEED] + "1";
    assert Spaces(s, 0) == 1 + Spaces(s, 1) == 1;
    assert DigitRun(s, 2) == 0;
    assert DigitRun(s, 1) == 1;
    assert s[1..2] == "1";
  }
}
