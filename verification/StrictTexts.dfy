/** Which of the accepted texts are JSON texts of RFC 8259: those that make no use of what the
    tokenizer takes beyond it. */
module StrictTexts {
  import opened Codes
  import opened Forests
  import opened Shapes
  import opened Lexer
  import opened Words
  import opened Printer
  import opened Machine
  import opened Grammar
  import opened RoundTrip
  import opened Texts
  import opened Sentences
  import opened RfcTexts

  predicate StrictToken(t: Token) {
    && (t.kind == NumberToken ==> !LeadingZero(t.text) && !BarePoint(t.text))
    && (t.kind == StringToken ==> NoControls(t.text, 0))
  }

  /** No zero in front of digits behind a minus, no point in front of an exponent, no control
      character in a string, and no form feed anywhere. (A NUL would end the text.) */
  predicate Strict(text: string) {
    && FORM_FEED !in text && NUL !in text && Read(text, 0).Readout?
    && forall t :: t in Read(text, 0).ts ==> StrictToken(t)
  }

  // ----- from the text to its pieces -----

  lemma LegibleStrict(t: Token)
    requires Legible(t)
    ensures StrictToken(t) <==> RfcToken(t)
  {
    if t.kind == StringToken { StringsOfJson(t.text); }
    if t.kind == NumberToken { NumbersOfJson(t.text); }
  }

  /** A token that was read is legible, and its source stands in the text. */
  lemma WordSource(s: string, p: nat)
    requires p <= |s| && LexWord(s, p).Lexed? && LexWord(s, p).token.kind != EofToken
    ensures var w := LexWord(s, p);
      && Legible(w.token) && WordAt(s, p, Source(w.token)) && w.end == p + |Source(w.token)| && Genuine(w.token)
  {
    var c := Get(s, p);
    if Delimiter(c) != InvalidToken {
      assert s[p..p + 1] == [c];
    } else if c == '"' {
      QuotedSource(s, p);
    } else if IsDigit(c) || c == '-' {
      NumberSource(s, p);
    }
  }

  lemma QuotedHere(s: string, p: nat, n: nat)
    requires p + n + 2 <= |s| && s[p] == s[p + 1 + n] == '"'
    ensures WordAt(s, p, Quoted(s[p + 1..p + 1 + n])) && |Quoted(s[p + 1..p + 1 + n])| == n + 2
  {
    var text := s[p + 1..p + 1 + n];
    assert s[p..p + n + 2] == ['"'] + text + ['"'];
    assert "\"" == ['"'];
  }

  lemma QuotedSource(s: string, p: nat)
    requires p < |s| && s[p] == '"' && ScanBody(s, p + 1).Ok?
    ensures var n := ScanBody(s, p + 1).len; var text := s[p + 1..p + 1 + n];
      p + n + 2 <= |s| && StringWord(text) && WordAt(s, p, Quoted(text)) && |Quoted(text)| == n + 2
  {
    hide StringWord, ScanBody;
    var n := ScanBody(s, p + 1).len;
    StringScanner(s, p + 1, n);
    QuotedHere(s, p, n);
  }

  lemma NumberSource(s: string, p: nat)
    requires p < |s| && (IsDigit(s[p]) || s[p] == '-') && ScanNumber(s, p).Ok?
    ensures var n := ScanNumber(s, p).len; p + n <= |s| && NumberWord(s[p..p + n])
  {
    hide ScanNumber, NumberAt;
    NumberBound(s, p);
    var n := ScanNumber(s, p).len;
    ScannedIsNumber(s, p, p + n);
    NumberMoves(s, p, s[p..p + n]);
  }

  lemma {:induction false} SpacesBlank(s: string, p: nat)
    requires p <= |s| && FORM_FEED !in s
    ensures p + Spaces(s, p) <= |s| && RfcBlank(s[p..p + Spaces(s, p)])
    decreases |s| - p
  {
    if p < |s| && IsSpace(s[p]) {
      SpacesBlank(s, p + 1);
      assert s[p] in s && s[p..p + Spaces(s, p)] == [s[p]] + s[p + 1..p + Spaces(s, p)];
    }
  }

  /** The piece that starts at `p`. */
  lemma PieceSource(s: string, p: nat)
    requires p <= |s| && FORM_FEED !in s && Lex(s, p).Lexed? && Lex(s, p).token.kind != EofToken
    ensures var w, gap := Lex(s, p), s[p..p + Spaces(s, p)];
      && RfcBlank(gap) && Legible(w.token) && Genuine(w.token) && p < w.end <= |s|
      && s[p..w.end] == gap + Source(w.token)
  {
    hide LexWord, Legible, Source, RfcBlank;
    SpacesBlank(s, p);
    var q := p + Spaces(s, p);
    WordSource(s, q);
    var w := LexWord(s, q);
    assert s[p..w.end] == s[p..q] + s[q..w.end];
  }

  ghost predicate PiecesOf(text: string, ts: seq<Token>, ps: seq<Piece>, trail: string) {
    && text == Trailed(ps, trail) && Tokens(ps) == ts && RfcBlank(trail)
    && forall p :: p in ps ==> RfcBlank(p.gap) && Legible(p.token) && Genuine(p.token)
  }

  lemma PiecesFirst(text: string, t: Token, gap: string, rest: string, ts: seq<Token>, ps: seq<Piece>, trail: string)
    requires PiecesOf(rest, ts, ps, trail) && RfcBlank(gap) && Legible(t) && Genuine(t)
    requires text == (gap + Source(t)) + rest
    ensures PiecesOf(text, [t] + ts, [Piece(gap, t)] + ps, trail)
  {
    hide Source, RfcBlank, Legible, Genuine;
    var all := [Piece(gap, t)] + ps;
    assert all[1..] == ps;
    assert Flatten(all) == gap + Source(t) + Flatten(ps);
    assert (gap + Source(t)) + (Flatten(ps) + trail) == (gap + Source(t) + Flatten(ps)) + trail;
  }

  /** A text that can be read is its tokens with white space between them. */
  lemma {:induction false} ReadPieces(s: string, p: nat) returns (ps: seq<Piece>, trail: string)
    requires p <= |s| && FORM_FEED !in s && NUL !in s && Read(s, p).Readout?
    ensures PiecesOf(s[p..], Read(s, p).ts, ps, trail)
    decreases |s| - p
  {
    ReadOn(s, p);
    hide PiecesOf, Legible, Genuine, RfcBlank, Lex, Read, Gap;
    var w := Lex(s, p);
    if w.token.kind == EofToken {
      NoPieces(s, p);
      ps, trail := [], s[p..];
    } else {
      ps, trail := ReadPieces(s, w.end);
      OnePiece(s, p, Read(s, w.end).ts, ps, trail);
      ps := [Piece(Gap(s, p), w.token)] + ps;
    }
  }

  /** The white space from `p` on. */
  function Gap(s: string, p: nat): string
    requires p <= |s|
  {
    s[p..p + Spaces(s, p)]
  }

  lemma OnePiece(s: string, p: nat, ts: seq<Token>, ps: seq<Piece>, trail: string)
    requires p <= |s| && FORM_FEED !in s && Lex(s, p).Lexed? && Lex(s, p).token.kind != EofToken
    requires Lex(s, p).end <= |s| && PiecesOf(s[Lex(s, p).end..], ts, ps, trail)
    ensures PiecesOf(s[p..], [Lex(s, p).token] + ts, [Piece(Gap(s, p), Lex(s, p).token)] + ps, trail)
  {
    hide PiecesOf, Source, Legible, Genuine, RfcBlank, Lex, Spaces;
    PieceSource(s, p);
    var w := Lex(s, p);
    assert s[p..] == s[p..w.end] + s[w.end..];
    PiecesFirst(s[p..], w.token, Gap(s, p), s[w.end..], ts, ps, trail);
  }

  lemma ReadOn(s: string, p: nat)
    requires p <= |s| && Read(s, p).Readout?
    ensures var w := Lex(s, p);
      w.Lexed? &&
      if w.token.kind == EofToken then Read(s, p).ts == []
      else p < w.end <= |s| && Read(s, w.end).Readout? && Read(s, p).ts == [w.token] + Read(s, w.end).ts
  {
  }

  lemma NoPieces(s: string, p: nat)
    requires p <= |s| && FORM_FEED !in s && NUL !in s && Lex(s, p).Lexed? && Lex(s, p).token.kind == EofToken
    ensures PiecesOf(s[p..], [], [], s[p..])
  {
    SpacesBlank(s, p);
    assert p + Spaces(s, p) == |s|;
    assert s[p..] == s[p..p + Spaces(s, p)];
  }

  lemma PiecesTokens(text: string, ts: seq<Token>, ps: seq<Piece>, trail: string)
    requires PiecesOf(text, ts, ps, trail)
    ensures forall i :: 0 <= i < |ps| ==> |ts| == |ps| && ts[i] == ps[i].token
    ensures AllGenuine(ts)
  {
    TokensAt(ps);
    forall t | t in ts ensures Genuine(t) {
      var i :| 0 <= i < |ts| && ts[i] == t;
      assert ps[i] in ps;
    }
  }

  /** An accepted text with matching brackets that makes no use of the extensions is a JSON text. */
  lemma StrictIsJson(text: string, cap: nat) returns (t: Forest, ps: seq<Piece>, trail: string)
    requires cap <= NONE && Accepted(Drive(INITIAL, text, 0, cap)) && Strict(text)
    requires Balanced(Read(text, 0).ts, Outside)
    ensures JsonText(text, t, ps, trail)
  {
    var ts := Read(text, 0).ts;
    TextTheorem(text, cap);
    var t' :| ParseOf(t', AllClipped(ts), cap);
    ps, trail := ReadPieces(text, 0);
    assert text[0..] == text;
    PiecesTokens(text, ts, ps, trail);
    ShapedSplits(t', Unknown);
    ClippedKinds(ts);
    t := Retexted(t', Unknown, ts);
    forall p | p in ps ensures RfcToken(p.token) {
      var i :| 0 <= i < |ps| && ps[i] == p;
      assert ts[i] in ts;
      LegibleStrict(p.token);
    }
  }

  // ----- from the pieces to the text -----

  predicate Sober(w: string) { FORM_FEED !in w && NUL !in w }

  lemma NumberSober(w: string)
    requires NumberWord(w)
    ensures Sober(w)
  {
    var i :| 0 <= i <= |w| && IntegerAt(w, 0, i) && TailAt(w, i, |w|);
    forall k | 0 <= k < |w| ensures NumberChar(w[k]) { }
  }

  lemma TokenSober(t: Token)
    requires RfcToken(t)
    ensures Sober(Source(t))
  {
    if t.kind == NumberToken {
      RfcNumbersAccepted(t.text);
      NumberSober(t.text);
    } else if t.kind == StringToken {
      RfcPrintable(t.text, 0);
    }
  }

  /** A string of section 7 holds no control character. */
  lemma {:induction false} RfcPrintable(w: string, p: nat)
    requires p <= |w| && RfcStringAt(w, p, |w|)
    ensures NoControls(w, p)
    decreases |w| - p
  {
    if p < |w| {
      if RfcUnescaped(Get(w, p)) && RfcStringAt(w, p + 1, |w|) {
        RfcPrintable(w, p + 1);
        NoControlsSplit(w, p, 1);
      } else if p + 2 <= |w| && Get(w, p) == '\\' && ShortEscape(Get(w, p + 1)) && RfcStringAt(w, p + 2, |w|) {
        RfcPrintable(w, p + 2);
        NoControlsSplit(w, p, 2);
      } else {
        RfcPrintable(w, p + 6);
        EscapePrintable(w, p);
        NoControlsSplit(w, p, 6);
      }
    }
  }

  lemma {:induction false} FlattenSober(ps: seq<Piece>)
    requires forall p :: p in ps ==> RfcBlank(p.gap) && RfcToken(p.token)
    ensures Sober(Flatten(ps))
    decreases |ps|
  {
    if ps != [] {
      assert ps[0] in ps && forall p :: p in ps[1..] ==> p in ps;
      TokenSober(ps[0].token);
      hide RfcToken, Source;
      FlattenSober(ps[1..]);
    }
  }

  lemma StrictRfcToken(t: Token)
    requires RfcToken(t)
    ensures StrictToken(t)
  {
    if t.kind == NumberToken { NumbersOfJson(t.text); }
    if t.kind == StringToken { RfcPrintable(t.text, 0); }
  }

  lemma JsonIsStrict(text: string, t: Forest, ps: seq<Piece>, trail: string)
    requires JsonText(text, t, ps, trail) && AllPaired(Toks(t))
    ensures Strict(text)
  {
    JsonRead(text, t, ps, trail);
    FlattenSober(ps);
    TokensAt(ps);
    forall x | x in Toks(t) ensures StrictToken(x) {
      var i :| 0 <= i < |ps| && Toks(t)[i] == x;
      assert ps[i] in ps;
      StrictRfcToken(x);
    }
  }

  /** Among the accepted texts, the JSON texts are those whose brackets match and that make no use
      of the extensions of the tokenizer. */
  lemma AcceptedJson(text: string, cap: nat)
    requires cap <= NONE && Accepted(Drive(INITIAL, text, 0, cap))
    ensures var r := Read(text, 0);
      r.Readout? &&
      ((exists t, ps, trail :: JsonText(text, t, ps, trail)) <==> Balanced(r.ts, Outside) && Strict(text))
  {
    TextTheorem(text, cap);
    hide JsonText, Strict, Accepted;
    if Balanced(Read(text, 0).ts, Outside) && Strict(text) {
      var t, ps, trail := StrictIsJson(text, cap);
    }
    if t, ps, trail :| JsonText(text, t, ps, trail) {
      JsonAcceptedAsText(text, t, ps, trail, cap);
      JsonRead(text, t, ps, trail);
      JsonIsStrict(text, t, ps, trail);
      ToksBalanced(t, Outside, []);
      assert Toks(t) + [] == Toks(t);
    }
  }
}
