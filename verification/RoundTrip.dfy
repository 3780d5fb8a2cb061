/** Printing a tree and reading it back: the tokenizer finds in the printed text exactly the
    tokens of the tree, so the parser rebuilds it. */
module RoundTrip {
  import opened Forests
  import opened Shapes
  import opened Lexer
  import opened Words
  import opened Printer
  import opened Machine
  import opened Grammar

  /** A tokenizer at work on a fixed text: from a position to a token and the position behind it. */
  type Scanner = nat -> Lexed

  /** From position `p` the tokenizer delivers the tokens `ts` and ends at position `q`. */
  predicate LexesTo(lex: Scanner, p: nat, ts: seq<Token>, q: nat)
    decreases |ts|
  {
    if ts == [] then p == q
    else lex(p).Lexed? && lex(p).token == ts[0] && LexesTo(lex, lex(p).end, ts[1..], q)
  }

  // ----- a printed text as a sequence of pieces -----

  /** A token and the blanks printed in front of it. */
  datatype Piece = Piece(gap: string, token: Token)

  function Source(t: Token): string { if t.kind == StringToken then Quoted(t.text) else t.text }

  function Flatten(ps: seq<Piece>): string {
    if ps == [] then "" else ps[0].gap + Source(ps[0].token) + Flatten(ps[1..])
  }

  function Tokens(ps: seq<Piece>): seq<Token> {
    if ps == [] then [] else [ps[0].token] + Tokens(ps[1..])
  }

  /** The pieces of a chain, the first of them behind `gap`. */
  function Pieces(f: Forest, gap: string, indent: nat, compact: bool): seq<Piece>
    decreases f, 1
  {
    if f.Nil? then []
    else if f.sibs.Nil? then ItemPieces(f, gap, indent, compact)
    else
      ItemPieces(f, gap, indent, compact)
      + ([Piece("", COMMA)] + Pieces(f.sibs, NewLine(indent, compact), indent, compact))
  }

  function ItemPieces(f: Forest, gap: string, indent: nat, compact: bool): seq<Piece>
    requires f.Cons?
    decreases f, 0
  {
    var t := Begin(f.kind, f.text);
    if IsContainer(f.kind) then
      var close := if f.kind == Object then CLOSE_BRACE else CLOSE_BRACKET;
      if f.kids.Nil? then [Piece(gap, t), Piece("", close)]
      else
        var inner := Pieces(f.kids, NewLine(indent + TAB, compact), indent + TAB, compact);
        [Piece(gap, t)] + (inner + [Piece(NewLine(indent, compact), close)])
    else if f.kind == Key then
      [Piece(gap, t), Piece("", COLON)] + Pieces(f.kids, if compact then "" else " ", indent, compact)
    else [Piece(gap, t)]
  }

  lemma {:induction false} FlattenConcat(a: seq<Piece>, b: seq<Piece>)
    ensures Flatten(a + b) == Flatten(a) + Flatten(b)
    ensures Tokens(a + b) == Tokens(a) + Tokens(b)
  {
    if a == [] {
      assert a + b == b;
    } else {
      assert (a + b)[1..] == a[1..] + b;
      FlattenConcat(a[1..], b);
    }
  }

  lemma FlattenOne(p: Piece)
    ensures Flatten([p]) == p.gap + Source(p.token) && Tokens([p]) == [p.token]
  {
    assert [p][1..] == [];
  }

  lemma FlattenTwo(p: Piece, q: Piece)
    ensures Flatten([p, q]) == p.gap + Source(p.token) + (q.gap + Source(q.token))
    ensures Tokens([p, q]) == [p.token, q.token]
  {
    assert [p, q] == [p] + [q];
    FlattenConcat([p], [q]);
    FlattenOne(p);
    FlattenOne(q);
  }

  /** The pieces are the tokens of the tree, in order. */
  lemma {:induction false} PiecesTokens(f: Forest, gap: string, indent: nat, compact: bool)
    ensures Tokens(Pieces(f, gap, indent, compact)) == Toks(f)
    decreases f, 1
  {
    if f.Cons? {
      ItemTokens(f, gap, indent, compact);
      if f.sibs.Cons? {
        var rest := Pieces(f.sibs, NewLine(indent, compact), indent, compact);
        FlattenConcat(ItemPieces(f, gap, indent, compact), [Piece("", COMMA)] + rest);
        FlattenConcat([Piece("", COMMA)], rest);
        FlattenOne(Piece("", COMMA));
        PiecesTokens(f.sibs, NewLine(indent, compact), indent, compact);
      } else {
        assert Toks(f) == ItemToks(f) + [] == ItemToks(f);
      }
    }
  }

  lemma {:induction false} ItemTokens(f: Forest, gap: string, indent: nat, compact: bool)
    requires f.Cons?
    ensures Tokens(ItemPieces(f, gap, indent, compact)) == ItemToks(f)
    decreases f, 0
  {
    hide Flatten, Blanks, NewLine;
    var t := Begin(f.kind, f.text);
    FlattenOne(Piece(gap, t));
    if IsContainer(f.kind) {
      var close := if f.kind == Object then CLOSE_BRACE else CLOSE_BRACKET;
      if f.kids.Nil? {
        FlattenTwo(Piece(gap, t), Piece("", close));
        assert ItemToks(f) == [t] + [] + [close] == [t, close];
      } else {
        var kids, last := Pieces(f.kids, NewLine(indent + TAB, compact), indent + TAB, compact),
            Piece(NewLine(indent, compact), close);
        FlattenConcat([Piece(gap, t)], kids + [last]);
        FlattenConcat(kids, [last]);
        FlattenOne(last);
        PiecesTokens(f.kids, NewLine(indent + TAB, compact), indent + TAB, compact);
        assert [t] + (Toks(f.kids) + [close]) == [t] + Toks(f.kids) + [close];
      }
    } else if f.kind == Key {
      var space := if compact then "" else " ";
      FlattenConcat([Piece(gap, t), Piece("", COLON)], Pieces(f.kids, space, indent, compact));
      FlattenTwo(Piece(gap, t), Piece("", COLON));
      PiecesTokens(f.kids, space, indent, compact);
    }
  }

  /** The pieces, one behind the other, are the printed text. */
  lemma {:induction false} PiecesText(f: Forest, k: Kind, gap: string, indent: nat, compact: bool)
    requires f.Cons? && Shaped(f, k) && Full(f)
    ensures Flatten(Pieces(f, gap, indent, compact)) == gap + Print(f, indent, compact)
    decreases f, 1
  {
    ItemText(f, k, gap, indent, compact);
    var item := Item(f, indent, compact);
    if f.sibs.Nil? {
      assert Print(f, indent, compact) == item + "" == item;
    } else {
      var line := NewLine(indent, compact);
      var rest := Pieces(f.sibs, line, indent, compact);
      FlattenConcat(ItemPieces(f, gap, indent, compact), [Piece("", COMMA)] + rest);
      FlattenConcat([Piece("", COMMA)], rest);
      FlattenOne(Piece("", COMMA));
      PiecesText(f.sibs, k, line, indent, compact);
      ChainText(gap, item, line, Print(f.sibs, indent, compact));
    }
  }

  lemma ChainText(gap: string, item: string, line: string, rest: string)
    ensures (gap + item) + (("" + ",") + (line + rest)) == gap + (item + ("," + line + rest))
  {
  }

  lemma {:induction false} ItemText(f: Forest, k: Kind, gap: string, indent: nat, compact: bool)
    requires f.Cons? && Shaped(f, k) && Full(f)
    ensures Flatten(ItemPieces(f, gap, indent, compact)) == gap + Item(f, indent, compact)
    decreases f, 0
  {
    if f.kids.Cons? {
      PiecesText(f.kids, f.kind, KidGap(f.kind, indent, compact), KidIndent(f.kind, indent), compact);
      if f.kind == Key { NamedText(f, gap, indent, compact); } else { FilledText(f, gap, indent, compact); }
    } else {
      var t := Begin(f.kind, f.text);
      FlattenOne(Piece(gap, t));
      if IsContainer(f.kind) {
        var close := if f.kind == Object then CLOSE_BRACE else CLOSE_BRACKET;
        FlattenTwo(Piece(gap, t), Piece("", close));
        EmptyText(gap, t.text, close.text);
      }
    }
  }

  /** What is printed in front of the first child of a node. */
  function KidGap(k: Kind, indent: nat, compact: bool): string {
    if IsContainer(k) then NewLine(indent + TAB, compact) else if compact then "" else " "
  }

  lemma FilledText(f: Forest, gap: string, indent: nat, compact: bool)
    requires f.Cons? && IsContainer(f.kind) && f.kids.Cons?
    requires var inner := NewLine(indent + TAB, compact);
      Flatten(Pieces(f.kids, inner, indent + TAB, compact)) == inner + Print(f.kids, indent + TAB, compact)
    ensures Flatten(ItemPieces(f, gap, indent, compact)) == gap + Item(f, indent, compact)
  {
    var t := Begin(f.kind, f.text);
    var close := if f.kind == Object then CLOSE_BRACE else CLOSE_BRACKET;
    var inner, outer := NewLine(indent + TAB, compact), NewLine(indent, compact);
    var kids, last := Pieces(f.kids, inner, indent + TAB, compact), Piece(outer, close);
    FlattenConcat([Piece(gap, t)], kids + [last]);
    FlattenConcat(kids, [last]);
    FlattenOne(Piece(gap, t));
    FlattenOne(last);
    ContainerText(gap, t.text, inner, Print(f.kids, indent + TAB, compact), outer, close.text);
  }

  lemma NamedText(f: Forest, gap: string, indent: nat, compact: bool)
    requires f.Cons? && f.kind == Key && f.kids.Cons?
    requires var space := if compact then "" else " ";
      Flatten(Pieces(f.kids, space, indent, compact)) == space + Print(f.kids, indent, compact)
    ensures Flatten(ItemPieces(f, gap, indent, compact)) == gap + Item(f, indent, compact)
  {
    var name := Piece(gap, Begin(Key, f.text));
    FlattenConcat([name, Piece("", COLON)], Pieces(f.kids, if compact then "" else " ", indent, compact));
    FlattenTwo(name, Piece("", COLON));
    MemberText(gap, f.text, compact, Print(f.kids, indent, compact));
  }

  lemma EmptyText(gap: string, open: string, close: string)
    ensures gap + open + ("" + close) == gap + (open + close)
  {
  }

  lemma ContainerText(gap: string, open: string, inner: string, body: string, outer: string, close: string)
    ensures (gap + open) + ((inner + body) + (outer + close)) == gap + ((open + inner) + body + (outer + close))
  {
  }

  lemma MemberText(gap: string, name: string, compact: bool, body: string)
    ensures (gap + Quoted(name) + ("" + ":")) + ((if compact then "" else " ") + body)
        == gap + (KeyText(name, compact) + body + "")
  {
    assert KeyText(name, compact) == Quoted(name) + (":" + if compact then "" else " ");
  }

  // ----- reading the pieces -----

  lemma WordSplit(s: string, p: nat, a: string, b: string)
    requires WordAt(s, p, a + b)
    ensures WordAt(s, p, a) && WordAt(s, p + |a|, b)
  {
    assert s[p..p + |a|] == s[p..p + |a + b|][..|a|] == (a + b)[..|a|] == a;
    assert s[p + |a|..p + |a + b|] == s[p..p + |a + b|][|a|..] == (a + b)[|a|..] == b;
  }

  lemma WordHead(s: string, p: nat, w: string, k: nat)
    requires WordAt(s, p, w) && k < |w|
    ensures Get(s, p + k) == w[k]
  {
    assert s[p..p + |w|][k] == s[p + k];
  }

  predicate Blank(w: string) { forall k :: 0 <= k < |w| ==> IsSpace(w[k]) }

  lemma {:induction false} SkipBlank(s: string, p: nat, w: string)
    requires WordAt(s, p, w) && Blank(w)
    ensures Spaces(s, p) == |w| + Spaces(s, p + |w|)
    decreases |w|
  {
    if w != "" {
      WordHead(s, p, w, 0);
      assert w == [w[0]] + w[1..];
      WordSplit(s, p, [w[0]], w[1..]);
      SkipBlank(s, p + 1, w[1..]);
    }
  }

  /** A token whose printed text the tokenizer reads back. */
  predicate Legible(t: Token) {
    match t.kind
    case EofToken | InvalidToken => false
    case StringToken => StringWord(t.text)
    case NumberToken => NumberWord(t.text)
    case TrueToken => t.text == "true"
    case FalseToken => t.text == "false"
    case NullToken => t.text == "null"
    case _ => |t.text| == 1 && Delimiter(t.text[0]) == t.kind
  }

  lemma LexString(s: string, p: nat, text: string)
    requires WordAt(s, p, Quoted(text)) && StringWord(text)
    ensures Lex(s, p) == Lexed(Token(StringToken, text), p + |text| + 2)
  {
    hide LexWord, StringWord;
    WordHead(s, p, Quoted(text), 0);
    assert Quoted(text) == "\"" + (text + "\"");
    WordSplit(s, p, "\"", text + "\"");
    WordSplit(s, p + 1, text, "\"");
    WordHead(s, p + 1 + |text|, "\"", 0);
    assert s[p + 1..p + 1 + |text|] == text;
    StringScanner(s, p + 1, |text|);
    LexHere(s, p);
    LexQuote(s, p, |text|);
  }

  lemma LexNumber(s: string, p: nat, text: string)
    requires WordAt(s, p, text) && NumberWord(text) && !NumberChar(Get(s, p + |text|))
    ensures Lex(s, p) == Lexed(Token(NumberToken, text), p + |text|)
  {
    NumberStart(text);
    WordHead(s, p, text, 0);
    NumberScanner(s, p, text);
  }

  lemma LexPlain(s: string, p: nat, t: Token)
    requires Legible(t) && t.kind != StringToken && t.kind != NumberToken && WordAt(s, p, t.text)
    ensures Lex(s, p) == Lexed(t, p + |t.text|)
  {
    hide ScanBody, ScanNumber, StringWord, NumberWord;
    WordHead(s, p, t.text, 0);
    LexHere(s, p);
    assert |t.text| == 1 ==> [t.text[0]] == t.text;
  }

  /** The tokenizer reads a legible token; a number must not run on. */
  lemma LexSource(s: string, p: nat, t: Token)
    requires Legible(t) && WordAt(s, p, Source(t))
    requires t.kind == NumberToken ==> !NumberChar(Get(s, p + |t.text|))
    ensures Lex(s, p) == Lexed(t, p + |Source(t)|)
  {
    hide Lex, WordAt, StringWord, NumberWord;
    if t.kind == StringToken {
      LexString(s, p, t.text);
    } else if t.kind == NumberToken {
      LexNumber(s, p, t.text);
    } else {
      LexPlain(s, p, t);
    }
  }

  predicate Closes(t: Token) { t == COMMA || t == CLOSE_BRACE || t == CLOSE_BRACKET }

  /** Which tokens can be read. */
  type TokenTest = Token -> bool

  /** The rest of the text `s` from `p` on is a readable token between blanks and `rest`, and a
      number does not run on. */
  predicate Stands(ok: TokenTest, s: string, p: nat, gap: string, t: Token, rest: string) {
    && WordAt(s, p, gap + (Source(t) + rest)) && p + |gap| + |Source(t)| + |rest| == |s|
    && Blank(gap) && ok(t) && (t.kind == NumberToken && rest != "" ==> !NumberChar(rest[0]))
  }

  /** The pieces of such a text, one by one. */
  lemma StandApart(ok: TokenTest, s: string, p: nat, gap: string, t: Token, rest: string)
    requires Stands(ok, s, p, gap, t, rest)
    ensures WordAt(s, p, gap) && Blank(gap) && WordAt(s, p + |gap|, Source(t))
    ensures WordAt(s, p + |gap| + |Source(t)|, rest)
  {
    hide Blank;
    WordSplit(s, p, gap, Source(t) + rest);
    WordSplit(s, p + |gap|, Source(t), rest);
  }

  lemma NumberStops(ok: TokenTest, s: string, p: nat, gap: string, t: Token, rest: string)
    requires Stands(ok, s, p, gap, t, rest) && t.kind == NumberToken
    ensures !NumberChar(Get(s, p + |gap| + |t.text|))
  {
    StandApart(ok, s, p, gap, t, rest);
    if rest != "" { WordHead(s, p + |gap| + |t.text|, rest, 0); }
  }

  /** The tokenizer reads such a token back. */
  lemma LexBehind(ok: TokenTest, s: string, p: nat, gap: string, t: Token, rest: string)
    requires Stands(ok, s, p, gap, t, rest) && Legible(t)
    ensures Lex(s, p) == Lexed(t, p + |gap| + |Source(t)|)
  {
    hide Lex, Legible, Stands, WordAt, Blank;
    StandApart(ok, s, p, gap, t, rest);
    if t.kind == NumberToken { NumberStops(ok, s, p, gap, t, rest); }
    LexSource(s, p + |gap|, t);
    SkipBlank(s, p, gap);
    LexSkips(s, p, |gap|);
  }

  ghost predicate ReadsBack(ok: TokenTest, lex: Scanner, s: string) {
    forall p: nat, gap, t, rest | Stands(ok, s, p, gap, t, rest) :: lex(p) == Lexed(t, p + |gap| + |Source(t)|)
  }

  lemma TokenizerReadsBack(ok: TokenTest, lex: Scanner, s: string)
    requires (forall t :: ok(t) ==> Legible(t)) && forall p :: lex(p) == Lex(s, p)
    ensures ReadsBack(ok, lex, s)
  {
    forall p: nat, gap, t, rest | Stands(ok, s, p, gap, t, rest) ensures lex(p) == Lexed(t, p + |gap| + |Source(t)|) {
      LexBehind(ok, s, p, gap, t, rest);
    }
  }

  /** Every piece can be read, and what follows a number ends it. */
  predicate Readable(ok: TokenTest, ps: seq<Piece>) {
    ps != [] ==>
      && Blank(ps[0].gap) && ok(ps[0].token) && Readable(ok, ps[1..])
      && (ps[0].token.kind == NumberToken ==> |ps| == 1 || EndsNumber(ps[1]))
  }

  predicate EndsNumber(p: Piece) { Blank(p.gap) && Closes(p.token) }

  lemma NoNumberChar(ps: seq<Piece>)
    requires ps != [] && EndsNumber(ps[0])
    ensures Flatten(ps) != "" && !NumberChar(Flatten(ps)[0])
  {
  }

  lemma FlattenFirst(ps: seq<Piece>)
    requires ps != []
    ensures Flatten(ps) == ps[0].gap + (Source(ps[0].token) + Flatten(ps[1..]))
  {
    hide Source;
  }

  /** The text of the pieces, with blanks behind. */
  function Trailed(ps: seq<Piece>, trail: string): string { Flatten(ps) + trail }

  lemma FirstPiece(ok: TokenTest, ps: seq<Piece>, trail: string)
    requires ps != [] && Readable(ok, ps) && Blank(trail)
    ensures Blank(ps[0].gap) && ok(ps[0].token) && Readable(ok, ps[1..])
    ensures var rest := Trailed(ps[1..], trail); ps[0].token.kind == NumberToken && rest != "" ==> !NumberChar(rest[0])
  {
    hide Source, Flatten;
    if |ps| > 1 && ps[0].token.kind == NumberToken {
      NoNumberChar(ps[1..]);
    } else if |ps| == 1 {
      FlattenNone(ps[1..]);
    }
  }

  lemma FlattenNone(ps: seq<Piece>)
    requires ps == []
    ensures Flatten(ps) == ""
  {
  }

  lemma PieceStands(ok: TokenTest, s: string, p: nat, ps: seq<Piece>, trail: string)
    requires ps != [] && Readable(ok, ps) && Blank(trail)
    requires WordAt(s, p, Trailed(ps, trail)) && p + |Trailed(ps, trail)| == |s|
    ensures Stands(ok, s, p, ps[0].gap, ps[0].token, Trailed(ps[1..], trail)) && Readable(ok, ps[1..])
    ensures |Trailed(ps, trail)| == |ps[0].gap| + |Source(ps[0].token)| + |Trailed(ps[1..], trail)|
  {
    hide Readable, Flatten, Blank, Source;
    FirstPiece(ok, ps, trail);
    FlattenFirst(ps);
    var a, b, c := ps[0].gap, Source(ps[0].token), Flatten(ps[1..]);
    assert (a + (b + c)) + trail == a + (b + (c + trail));
  }

  lemma ReadFirst(ok: TokenTest, lex: Scanner, s: string, p: nat, ps: seq<Piece>, trail: string)
    requires ReadsBack(ok, lex, s) && ps != [] && Readable(ok, ps) && Blank(trail)
    requires WordAt(s, p, Trailed(ps, trail)) && p + |Trailed(ps, trail)| == |s|
    ensures var q, rest := p + |ps[0].gap| + |Source(ps[0].token)|, ps[1..];
      && lex(p) == Lexed(ps[0].token, q)
      && Readable(ok, rest) && WordAt(s, q, Trailed(rest, trail)) && q + |Trailed(rest, trail)| == |s|
  {
    hide Readable, Trailed, Stands, WordAt, Source;
    PieceStands(ok, s, p, ps, trail);
    StandApart(ok, s, p, ps[0].gap, ps[0].token, Trailed(ps[1..], trail));
  }

  lemma LexStep(lex: Scanner, p: nat, t: Token, q: nat, ts: seq<Token>, end: nat)
    requires lex(p) == Lexed(t, q) && LexesTo(lex, q, ts, end)
    ensures LexesTo(lex, p, [t] + ts, end)
  {
    assert ([t] + ts)[1..] == ts;
  }

  /** Reading the pieces yields their tokens. */
  lemma {:induction false} LexPieces(ok: TokenTest, lex: Scanner, s: string, p: nat, ps: seq<Piece>, trail: string)
    requires ReadsBack(ok, lex, s) && Readable(ok, ps) && Blank(trail)
    requires WordAt(s, p, Trailed(ps, trail)) && p + |Trailed(ps, trail)| == |s|
    ensures LexesTo(lex, p, Tokens(ps), |s| - |trail|)
    decreases |ps|
  {
    if ps == [] {
      FlattenNone(ps);
    } else {
      hide Readable, Trailed, WordAt, Source, ReadsBack, LexesTo, Flatten;
      var q := p + |ps[0].gap| + |Source(ps[0].token)|;
      ReadFirst(ok, lex, s, p, ps, trail);
      TrailFits(s, q, ps[1..], trail);
      LexPieces(ok, lex, s, q, ps[1..], trail);
      LexStep(lex, p, ps[0].token, q, Tokens(ps[1..]), |s| - |trail|);
    }
  }

  lemma TrailFits(s: string, q: nat, ps: seq<Piece>, trail: string)
    requires q + |Trailed(ps, trail)| == |s|
    ensures |trail| <= |s|
  {
  }

  lemma {:induction false} ReadableConcat(ok: TokenTest, a: seq<Piece>, b: seq<Piece>)
    requires Readable(ok, a) && Readable(ok, b)
    requires a == [] || b == [] || a[|a| - 1].token.kind != NumberToken || EndsNumber(b[0])
    ensures Readable(ok, a + b)
    decreases |a|
  {
    if a == [] {
      assert a + b == b;
    } else {
      assert (a + b)[1..] == a[1..] + b;
      if |a| == 1 { assert a[1..] == [] && a[1..] + b == b; }
      ReadableConcat(ok, a[1..], b);
    }
  }

  lemma ReadableOne(ok: TokenTest, p: Piece)
    requires Blank(p.gap) && ok(p.token)
    ensures Readable(ok, [p])
  {
  }

  /** Names and values are words that the scanners accept. */
  predicate Scannable(f: Forest) {
    f.Cons? ==> (f.kind == Unknown || Legible(Begin(f.kind, f.text))) && Scannable(f.kids) && Scannable(f.sibs)
  }

  /** The pieces of a printed tree can be read. */
  lemma {:induction false} PiecesReadable(ok: TokenTest, f: Forest, k: Kind, gap: string, indent: nat, compact: bool)
    requires Shaped(f, k) && Full(f) && Readables(ok, f) && Blank(gap)
    ensures Readable(ok, Pieces(f, gap, indent, compact))
    decreases f, 1
  {
    if f.Cons? {
      ItemReadable(ok, f, k, gap, indent, compact);
      if f.sibs.Cons? {
        var line := NewLine(indent, compact);
        var rest := Pieces(f.sibs, line, indent, compact);
        PiecesReadable(ok, f.sibs, k, line, indent, compact);
        ReadableOne(ok, Piece("", COMMA));
        ReadableConcat(ok, [Piece("", COMMA)], rest);
        ReadableConcat(ok, ItemPieces(f, gap, indent, compact), [Piece("", COMMA)] + rest);
      }
    }
  }

  /** The test accepts the delimiters and all tokens of the tree. */
  predicate Readables(ok: TokenTest, f: Forest) {
    && ok(OPEN_BRACE) && ok(CLOSE_BRACE) && ok(OPEN_BRACKET) && ok(CLOSE_BRACKET) && ok(COLON) && ok(COMMA)
    && (f.Cons? ==> ok(Begin(f.kind, f.text)) && Readables(ok, f.kids) && Readables(ok, f.sibs))
  }

  /** Pieces between an opening and a closing piece. */
  lemma WrappedReadable(ok: TokenTest, t: Piece, kids: seq<Piece>, last: Piece)
    requires Blank(t.gap) && ok(t.token) && t.token.kind != NumberToken
    requires Readable(ok, kids) && EndsNumber(last) && ok(last.token)
    ensures Readable(ok, [t] + (kids + [last]))
  {
    ReadableOne(ok, last);
    ReadableConcat(ok, kids, [last]);
    ReadableOne(ok, t);
    ReadableConcat(ok, [t], kids + [last]);
  }

  /** Pieces behind a name and its colon. */
  lemma NamedReadable(ok: TokenTest, t: Piece, colon: Piece, kids: seq<Piece>)
    requires Blank(t.gap) && ok(t.token) && t.token.kind != NumberToken && Readable(ok, kids)
    requires Blank(colon.gap) && ok(colon.token) && colon.token.kind != NumberToken
    ensures Readable(ok, [t, colon] + kids)
  {
    ReadableOne(ok, colon);
    ReadableConcat(ok, [colon], kids);
    ReadableOne(ok, t);
    ReadableConcat(ok, [t], [colon] + kids);
    assert [t, colon] + kids == [t] + ([colon] + kids);
  }

  lemma {:induction false} ItemReadable(ok: TokenTest, f: Forest, k: Kind, gap: string, indent: nat, compact: bool)
    requires f.Cons? && Shaped(f, k) && Full(f) && Readables(ok, f) && Blank(gap)
    ensures Readable(ok, ItemPieces(f, gap, indent, compact))
    decreases f, 0
  {
    var t := Piece(gap, Begin(f.kind, f.text));
    if IsContainer(f.kind) {
      var close := if f.kind == Object then CLOSE_BRACE else CLOSE_BRACKET;
      if f.kids.Nil? {
        WrappedReadable(ok, t, [], Piece("", close));
        assert [t] + ([] + [Piece("", close)]) == [t, Piece("", close)];
      } else {
        var inner := NewLine(indent + TAB, compact);
        PiecesReadable(ok, f.kids, f.kind, inner, indent + TAB, compact);
        WrappedReadable(ok, t, Pieces(f.kids, inner, indent + TAB, compact), Piece(NewLine(indent, compact), close));
      }
    } else if f.kind == Key {
      var space := if compact then "" else " ";
      PiecesReadable(ok, f.kids, Key, space, indent, compact);
      NamedReadable(ok, t, Piece("", COLON), Pieces(f.kids, space, indent, compact));
    } else {
      ReadableOne(ok, t);
    }
  }

  lemma {:induction false} ScannableReadables(ok: TokenTest, f: Forest, k: Kind)
    requires Scannable(f) && Shaped(f, k) && forall t :: Legible(t) ==> ok(t)
    ensures Readables(ok, f)
  {
    assert Legible(OPEN_BRACE) && Legible(CLOSE_BRACE) && Legible(OPEN_BRACKET) && Legible(CLOSE_BRACKET)
        && Legible(COLON) && Legible(COMMA);
    if f.Cons? {
      assert Legible(Begin(f.kind, f.text));
      ScannableReadables(ok, f.kids, f.kind);
      ScannableReadables(ok, f.sibs, k);
    }
  }

  /** The tokenizer finds in the printed text of a complete tree the tokens of its sentence. */
  lemma PrintedTokens(lex: Scanner, f: Forest, compact: bool)
    requires f.Cons? && Shaped(f, Unknown) && Full(f) && Scannable(f)
    requires forall p :: lex(p) == Lex(Print(f, 0, compact), p)
    ensures LexesTo(lex, 0, Toks(f), |Print(f, 0, compact)|)
  {
    hide Legible, Readable, Readables, Flatten, Lex, LexesTo, ReadsBack, Print, Pieces, Scannable, Toks, Shaped, Full;
    var ok: TokenTest := t => Legible(t);
    var s, ps := Print(f, 0, compact), Pieces(f, "", 0, compact);
    ScannableReadables(ok, f, Unknown);
    PiecesReadable(ok, f, Unknown, "", 0, compact);
    PiecesText(f, Unknown, "", 0, compact);
    PiecesTokens(f, "", 0, compact);
    assert "" + s == s && s[0..|s|] == s && s + "" == s;
    TokenizerReadsBack(ok, lex, s);
    LexPieces(ok, lex, s, 0, ps, "");
  }

  // ----- the parser on a printed text -----

  lemma EndOfText(s: string)
    ensures Lex(s, |s|) == Lexed(EOF, |s| + 1)
  {
  }

  /** Taking tokens from the text is running on the sequence of its tokens. */
  lemma {:induction false} DriveRun(lex: Scanner, c: Config, s: string, p: nat, ts: seq<Token>, cap: nat)
    requires (forall q :: lex(q) == Lex(s, q)) && LexesTo(lex, p, ts, |s|) && AllProper(ts) && p <= |s| && !Stopped(c)
    ensures Drive(c, s, p, cap) == Run(c, ts + [EOF], cap)
    decreases |ts|
  {
    if ts == [] {
      EndOfText(s);
      assert ts + [EOF] == [EOF];
      RunOne(c, EOF, cap);
    } else {
      assert ts + [EOF] == [ts[0]] + (ts[1..] + [EOF]);
      RunFirst(c, ts[0], ts[1..] + [EOF], cap);
      assert lex(p).token == ts[0];
      var c' := Step(c, ts[0], cap);
      if !Stopped(c') { DriveRun(lex, c', s, lex(p).end, ts[1..], cap); }
    }
  }

  /** A complete document, as the serializer and the parser both understand it. */
  ghost predicate CompleteDocument(t: Forest) {
    && t.Cons? && t.sibs.Nil? && Shaped(t, Unknown) && Full(t) && NONE !in Ids(t)
    && Scannable(t) && ShortTexts(t)
  }

  /** The round trip: the printed text of every complete tree that fits the pool, compact or
      pretty, is accepted, and the tree left in the pool is that tree again. */
  lemma PrintThenParse(t: Forest, compact: bool, cap: nat)
    requires CompleteDocument(t) && Size(t) <= cap <= NONE
    ensures var r := Drive(INITIAL, Print(t, 0, compact), 0, cap);
      Accepted(r) && Plug(r.spine) == Fresh(t, 0) && r.next == Size(t)
    ensures Print(t, 0, compact) != ""
  {
    var s := Print(t, 0, compact);
    var lex: Scanner := (p: nat) => Lex(s, p);
    PrintedTokens(lex, t, compact);
    ToksProper(t, Unknown);
    assert Toks(t) != [] && Lex(s, 0) == lex(0);
    assert Toks(t)[0] in Toks(t);
    DriveRun(lex, INITIAL, s, 0, Toks(t), cap);
    SentenceAccepted(t, Toks(t), cap);
  }

  /** Slot numbers do not show in the printed text. */
  lemma {:induction false} PrintFresh(f: Forest, n: nat, indent: nat, compact: bool)
    ensures Print(Fresh(f, n), indent, compact) == Print(f, indent, compact)
    ensures f.Cons? ==> Item(Fresh(f, n), indent, compact) == Item(f, indent, compact)
  {
    if f.Cons? {
      PrintFresh(f.kids, n + 1, KidIndent(f.kind, indent), compact);
      PrintFresh(f.sibs, n + 1 + Size(f.kids), indent, compact);
    }
  }

  lemma {:induction false} FreshFull(f: Forest, n: nat)
    ensures Full(Fresh(f, n)) == Full(f) && Fresh(f, n).Cons? == f.Cons?
  {
    if f.Cons? {
      FreshFull(f.kids, n + 1);
      FreshFull(f.sibs, n + 1 + Size(f.kids));
    }
  }
}
