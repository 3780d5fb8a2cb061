/** JSON texts of RFC 8259, whatever their white space: which of them are accepted, and as what. */
module RfcTexts {
  import opened Forests
  import opened Shapes
  import opened Lexer
  import opened Words
  import opened Printer
  import opened Machine
  import opened Grammar
  import opened RoundTrip
  import opened Texts
  import opened Sentences

  predicate RfcBlank(w: string) { forall k :: 0 <= k < |w| ==> RfcSpace(w[k]) }

  /** A token of sections 2, 3, 6 and 7 of RFC 8259 */
  predicate RfcToken(t: Token) {
    match t.kind
    case StringToken => RfcString(t.text)
    case NumberToken => RfcNumber(t.text)
    case TrueToken => t.text == "true"
    case FalseToken => t.text == "false"
    case NullToken => t.text == "null"
    case EofToken | InvalidToken => false
    case _ => |t.text| == 1 && Delimiter(t.text[0]) == t.kind
  }

  /** Every surrogate escape in a string is followed by a low one. */
  predicate PairedToken(t: Token) { t.kind == StringToken ==> Paired(t.text, 0) }

  predicate AllPaired(ts: seq<Token>) { forall t :: t in ts ==> PairedToken(t) }

  lemma RfcLegible(t: Token)
    requires RfcToken(t)
    ensures PairedToken(t) <==> Legible(t)
  {
    if t.kind == StringToken { StringsOfJson(t.text); }
    if t.kind == NumberToken { RfcNumbersAccepted(t.text); }
  }

  /** A JSON text: the tokens of the value `t`, with white space in front of each and behind the last. */
  ghost predicate JsonText(text: string, t: Forest, ps: seq<Piece>, trail: string) {
    && text == Trailed(ps, trail) && OneValue(t) && Tokens(ps) == Toks(t) && RfcBlank(trail)
    && forall p :: p in ps ==> RfcBlank(p.gap) && RfcToken(p.token)
  }

  // ----- what follows a number -----

  /** Behind a number comes a comma or a closer, or nothing. */
  predicate NumbersEnd(ts: seq<Token>) {
    forall i :: 0 <= i < |ts| - 1 && ts[i].kind == NumberToken ==> Closes(ts[i + 1])
  }

  lemma NumbersEndConcat(a: seq<Token>, b: seq<Token>)
    requires NumbersEnd(a) && NumbersEnd(b)
    requires a == [] || b == [] || a[|a| - 1].kind != NumberToken || Closes(b[0])
    ensures NumbersEnd(a + b)
  {
  }

  lemma {:induction false} ItemNumbersEnd(f: Forest, k: Kind)
    requires f.Cons? && Nested(f, k) && Full(f)
    ensures NumbersEnd(ItemToks(f)) && ItemToks(f) != []
    decreases f, 0
  {
    if IsContainer(f.kind) {
      var open, close := Begin(f.kind, f.text), if f.kind == Object then CLOSE_BRACE else CLOSE_BRACKET;
      ToksNumbersEnd(f.kids, f.kind);
      NumbersEndConcat([open], Toks(f.kids));
      NumbersEndConcat([open] + Toks(f.kids), [close]);
    } else if f.kind == Key {
      ToksNumbersEnd(f.kids, Key);
      NumbersEndConcat([Token(StringToken, f.text), COLON], Toks(f.kids));
    }
  }

  lemma {:induction false} ToksNumbersEnd(f: Forest, k: Kind)
    requires Nested(f, k) && Full(f)
    ensures NumbersEnd(Toks(f))
    decreases f, 1
  {
    if f.Cons? {
      ItemNumbersEnd(f, k);
      if f.sibs.Cons? {
        ToksNumbersEnd(f.sibs, k);
        NumbersEndConcat([COMMA], Toks(f.sibs));
      }
      NumbersEndConcat(ItemToks(f), TailToks(f.sibs));
    }
  }

  // ----- reading the text -----

  lemma {:induction false} TokensAt(ps: seq<Piece>)
    ensures |Tokens(ps)| == |ps| && forall i :: 0 <= i < |ps| ==> Tokens(ps)[i] == ps[i].token
  {
    if ps != [] { TokensAt(ps[1..]); }
  }

  lemma {:induction false} RfcReadable(ok: TokenTest, ps: seq<Piece>)
    requires (forall t :: RfcToken(t) ==> ok(t)) && NumbersEnd(Tokens(ps))
    requires forall p :: p in ps ==> RfcBlank(p.gap) && RfcToken(p.token)
    ensures Readable(ok, ps)
    decreases |ps|
  {
    if ps != [] {
      TokensAt(ps);
      TokensAt(ps[1..]);
      assert ps[0] in ps;
      if |ps| > 1 { assert ps[1] in ps && Tokens(ps)[0] == ps[0].token && Tokens(ps)[1] == ps[1].token; }
      assert forall p :: p in ps[1..] ==> p in ps;
      assert Tokens(ps) == [ps[0].token] + Tokens(ps[1..]);
      forall i | 0 <= i < |Tokens(ps[1..])| - 1 && Tokens(ps[1..])[i].kind == NumberToken
          ensures Closes(Tokens(ps[1..])[i + 1]) {
        assert Tokens(ps)[i + 1] == Tokens(ps[1..])[i];
      }
      RfcReadable(ok, ps[1..]);
    }
  }

  /** Behind the last token only white space is left. */
  lemma EndBehind(s: string, trail: string)
    requires Blank(trail) && |trail| <= |s| && s[|s| - |trail|..] == trail
    ensures Lex(s, |s| - |trail|) == Lexed(EOF, |s| + 1)
  {
    var p := |s| - |trail|;
    assert s[p..p + |trail|] == trail;
    SkipBlank(s, p, trail);
    EndOfText(s);
    LexSkips(s, p, |trail|);
  }

  /** A string of section 7 between quotes is scanned up to its closing quote or not at all. */
  lemma {:induction false} RfcBody(s: string, p: nat, j: nat)
    requires p <= j < |s| && s[j] == '"' && RfcStringAt(s, p, j)
    ensures ScanBody(s, p).Ok? ==> ScanBody(s, p) == Ok(j - p)
    decreases j - p
  {
    if p < j {
      if RfcUnescaped(Get(s, p)) && RfcStringAt(s, p + 1, j) {
        RfcBody(s, p + 1, j);
      } else if Get(s, p) == '\\' && p + 2 <= j && ShortEscape(Get(s, p + 1)) && RfcStringAt(s, p + 2, j) {
        RfcBody(s, p + 2, j);
      } else {
        RfcBody(s, p + 6, j);
        if p + 12 <= j && SurrogatePair(s, p) && RfcStringAt(s, p + 12, j) { RfcBody(s, p + 12, j); }
      }
    }
  }

  lemma {:induction false} RfcStringMoves(s: string, p: nat, w: string, i: nat)
    requires WordAt(s, p, w) && i <= |w| && RfcStringAt(w, i, |w|)
    ensures RfcStringAt(s, p + i, p + |w|)
    decreases |w| - i
  {
    forall k: nat | k < |w| ensures Get(s, p + k) == Get(w, k) {
      assert s[p..p + |w|][k] == w[k];
    }
    if i + 1 <= |w| && RfcStringAt(w, i + 1, |w|) { RfcStringMoves(s, p, w, i + 1); }
    if i + 2 <= |w| && RfcStringAt(w, i + 2, |w|) { RfcStringMoves(s, p, w, i + 2); }
    if i + 6 <= |w| && RfcStringAt(w, i + 6, |w|) { RfcStringMoves(s, p, w, i + 6); }
  }

  /** Between quotes it is read as it is or not at all. */
  lemma BodyPaired(s: string, p: nat, text: string)
    requires WordAt(s, p, text) && p + |text| < |s| && s[p + |text|] == '"' && RfcString(text) && !Paired(text, 0)
    ensures ScanBody(s, p).Fail?
  {
    hide RfcStringAt, Paired, StringAt, ScanBody;
    assert p + 0 == p;
    RfcStringMoves(s, p, text, 0);
    RfcBody(s, p, p + |text|);
    StringsOfJson(text);
    StringScanner(s, p, |text|);
    assert s[p..p + |text|] == text;
  }

  /** A string with a lone surrogate cannot be read. */
  lemma LexLone(s: string, p: nat, text: string)
    requires WordAt(s, p, Quoted(text)) && RfcString(text) && !Paired(text, 0)
    ensures Lex(s, p).Failed?
  {
    hide RfcString, Paired, ScanBody, LexWord;
    WordHead(s, p, Quoted(text), 0);
    assert Quoted(text) == "\"" + (text + "\"");
    WordSplit(s, p, "\"", text + "\"");
    WordSplit(s, p + 1, text, "\"");
    WordHead(s, p + 1 + |text|, "\"", 0);
    BodyPaired(s, p + 1, text);
    LexHere(s, p);
    LexBadQuote(s, p);
  }

  /** The next token of a JSON text is read if and only if its surrogates are paired. */
  lemma LexNext(ok: TokenTest, s: string, p: nat, gap: string, t: Token, rest: string)
    requires Stands(ok, s, p, gap, t, rest) && RfcToken(t)
    ensures PairedToken(t) ==> Lex(s, p) == Lexed(t, p + |gap| + |Source(t)|)
    ensures !PairedToken(t) ==> Lex(s, p).Failed?
  {
    RfcLegible(t);
    hide Stands, Lex, Legible, Paired;
    if PairedToken(t) {
      LexBehind(ok, s, p, gap, t, rest);
    } else {
      StandApart(ok, s, p, gap, t, rest);
      LexLone(s, p + |gap|, t.text);
      SkipBlank(s, p, gap);
      LexSkips(s, p, |gap|);
    }
  }

  /** The tokens of a JSON text are read as they are, unless a surrogate stands alone. */
  lemma {:induction false} RfcRead(ok: TokenTest, s: string, p: nat, ps: seq<Piece>, trail: string)
    requires (forall t :: ok(t) ==> RfcToken(t)) && Readable(ok, ps) && Blank(trail)
    requires WordAt(s, p, Trailed(ps, trail)) && p + |Trailed(ps, trail)| == |s|
    ensures AllPaired(Tokens(ps)) ==> Read(s, p) == Readout(Tokens(ps))
    ensures !AllPaired(Tokens(ps)) ==> Read(s, p).Unreadable?
    decreases |ps|
  {
    hide Readable, Trailed, Stands, WordAt, Source, RfcToken, Lex, PairedToken, Read;
    if ps == [] {
      NothingRead(s, p, trail);
    } else {
      var t, q := ps[0].token, p + |ps[0].gap| + |Source(ps[0].token)|;
      PieceStands(ok, s, p, ps, trail);
      StandsOk(ok, s, p, ps[0].gap, t, Trailed(ps[1..], trail));
      StandApart(ok, s, p, ps[0].gap, t, Trailed(ps[1..], trail));
      NextPiece(ok, s, p, ps, trail);
      PairedSplits(t, Tokens(ps[1..]));
      if PairedToken(t) { RfcRead(ok, s, q, ps[1..], trail); }
    }
  }

  lemma NothingRead(s: string, p: nat, trail: string)
    requires Blank(trail) && WordAt(s, p, Trailed([], trail)) && p + |Trailed([], trail)| == |s|
    ensures Read(s, p) == Readout([])
  {
    assert Trailed([], trail) == trail;
    EndBehind(s, trail);
  }

  lemma StandsOk(ok: TokenTest, s: string, p: nat, gap: string, t: Token, rest: string)
    requires Stands(ok, s, p, gap, t, rest)
    ensures ok(t) && |s| == p + |gap| + |Source(t)| + |rest|
  {
  }

  lemma NextPiece(ok: TokenTest, s: string, p: nat, ps: seq<Piece>, trail: string)
    requires ps != [] && Stands(ok, s, p, ps[0].gap, ps[0].token, Trailed(ps[1..], trail)) && RfcToken(ps[0].token)
    ensures var t, q := ps[0].token, p + |ps[0].gap| + |Source(ps[0].token)|;
      if PairedToken(t) then
        && p <= |s| && q <= |s|
        && Read(s, p) == (if Read(s, q).Unreadable? then Read(s, q) else Readout([t] + Read(s, q).ts))
      else Read(s, p).Unreadable?
  {
    hide Trailed, Lex;
    LexNext(ok, s, p, ps[0].gap, ps[0].token, Trailed(ps[1..], trail));
  }

  lemma PairedSplits(t: Token, ts: seq<Token>)
    ensures AllPaired([t] + ts) <==> PairedToken(t) && AllPaired(ts)
  {
    if AllPaired([t] + ts) {
      assert t in [t] + ts;
      forall x | x in ts ensures PairedToken(x) { assert x in [t] + ts; }
    }
  }

  lemma JsonRead(text: string, t: Forest, ps: seq<Piece>, trail: string)
    requires JsonText(text, t, ps, trail)
    ensures AllPaired(Toks(t)) ==> Read(text, 0) == Readout(Toks(t))
    ensures !AllPaired(Toks(t)) ==> Read(text, 0).Unreadable?
  {
    var ok: TokenTest := x => RfcToken(x);
    ToksNumbersEnd(t, Unknown);
    hide RfcToken, Toks, PairedToken, Read;
    RfcReadable(ok, ps);
    assert text[0..|text|] == text;
    RfcRead(ok, text, 0, ps, trail);
  }

  /** The value of a JSON text, as far as the length field reaches, is a parse of what is read. */
  lemma LoadedParse(t: Forest, cap: nat)
    requires OneValue(t) && Size(t) <= cap <= NONE && NamesDistinct(Loaded(t))
    ensures ParseOf(Loaded(t), AllClipped(Toks(t)), cap)
  {
    TrimmedNest(t, Unknown);
    TrimmedToks(t);
    FreshToks(Trimmed(t), 0);
    FreshSize(Trimmed(t), 0);
    FreshNested(Trimmed(t), Unknown, 0);
    FreshFull(Trimmed(t), 0);
    FreshIds(Trimmed(t), 0);
    ShapedSplits(Loaded(t), Unknown);
  }

  /** It is the only one, up to slot numbers. */
  lemma ParseLoaded(t: Forest, t': Forest, cap: nat)
    requires OneValue(t) && ParseOf(t', AllClipped(Toks(t)), cap) && cap <= NONE
    ensures Fresh(t', 0) == Loaded(t) && NamesDistinct(Loaded(t)) && Size(t) <= cap
  {
    TrimmedNest(t, Unknown);
    TrimmedToks(t);
    ShapedSplits(t', Unknown);
    SentenceUnique(t', Trimmed(t));
    FreshShaped(t', Unknown, 0);
    ShapedSplits(Loaded(t), Unknown);
    FreshSize(t', 0);
    FreshSize(Trimmed(t), 0);
  }

  /** A JSON text is accepted if and only if surrogates are paired, names are distinct, as far as
      the length field reaches, and there are enough nodes; and then the tree is its value. */
  lemma JsonAcceptedAsText(text: string, t: Forest, ps: seq<Piece>, trail: string, cap: nat)
    requires JsonText(text, t, ps, trail) && cap <= NONE
    ensures var r := Drive(INITIAL, text, 0, cap);
      && (Accepted(r) <==> AllPaired(Toks(t)) && NamesDistinct(Loaded(t)) && Size(t) <= cap)
      && (Accepted(r) ==> Plug(r.spine) == Loaded(t))
    ensures ShortTexts(t) ==> Loaded(t) == Fresh(t, 0)
  {
    if ShortTexts(t) { ShortTrimmed(t, 0); }
    JsonRead(text, t, ps, trail);
    TextTheorem(text, cap);
    ToksBalanced(t, Outside, []);
    assert Toks(t) + [] == Toks(t) && Balanced(Toks(t), Outside);
    hide JsonText, Toks, Accepted, Drive, Plug, NamesDistinct, AllClipped, Read, Balanced;
    ParsesLoaded(t, cap);
  }

  lemma ParsesLoaded(t: Forest, cap: nat)
    requires OneValue(t) && cap <= NONE
    ensures var ts := AllClipped(Toks(t));
      && ((exists t' :: ParseOf(t', ts, cap)) <==> NamesDistinct(Loaded(t)) && Size(t) <= cap)
      && (NamesDistinct(Loaded(t)) && Size(t) <= cap ==> ParseOf(Loaded(t), ts, cap))
      && Fresh(Loaded(t), 0) == Loaded(t)
  {
    hide OneValue, Toks, ParseOf, Fresh, Loaded, NamesDistinct, AllClipped;
    LoadedAgain(t);
    if NamesDistinct(Loaded(t)) && Size(t) <= cap {
      LoadedParse(t, cap);
      assert ParseOf(Loaded(t), AllClipped(Toks(t)), cap);
    }
    if t' :| ParseOf(t', AllClipped(Toks(t)), cap) { ParseLoaded(t, t', cap); }
  }

  lemma LoadedAgain(t: Forest)
    ensures Fresh(Loaded(t), 0) == Loaded(t)
  {
    FreshTwice(Trimmed(t), 0);
  }

  lemma OwnClipped(f: Forest)
    requires f.Cons? && ShortTexts(f)
    ensures OwnText(f.kind, Clip(f.text)) == OwnText(f.kind, f.text)
  {
    if !IsContainer(f.kind) { assert Clip(f.text) == f.text; }
  }

  /** For names and values of less than 65536 characters the tree is the value itself. */
  lemma {:induction false} ShortTrimmed(f: Forest, n: nat)
    requires ShortTexts(f)
    ensures Fresh(Trimmed(f), n) == Fresh(f, n)
  {
    hide OwnText, Clip;
    if f.Cons? {
      OwnClipped(f);
      ShortTrimmed(f.kids, n + 1);
      ShortTrimmed(f.sibs, n + 1 + Size(f.kids));
      TrimmedNest(f.kids, Unknown);
    }
  }
}
