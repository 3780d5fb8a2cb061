/** Sentences of the JSON grammar apart from what the parser makes of them: each has one tree, and
    clipping the tokens is clipping the texts of the tree. */
module Sentences {
  import opened Forests
  import opened Shapes
  import opened Lexer
  import opened Machine
  import opened Grammar
  import opened Texts

  /** One value, complete, as JSON nests them; names may repeat. */
  predicate OneValue(t: Forest) { t.Cons? && t.sibs.Nil? && Nested(t, Unknown) && Full(t) }

  // ----- clipping -----

  /** The tree with as much of each text as the 16-bit length field covers. */
  function Trimmed(f: Forest): Forest {
    if f.Nil? then Nil else Cons(f.id, f.kind, Clip(f.text), Trimmed(f.kids), Trimmed(f.sibs))
  }

  /** The tree that a parser leaves which reads the sentence of `t`. */
  function Loaded(t: Forest): Forest { Fresh(Trimmed(t), 0) }

  lemma {:induction false} ClippedConcat(a: seq<Token>, b: seq<Token>)
    ensures |AllClipped(a)| == |a| && AllClipped(a + b) == AllClipped(a) + AllClipped(b)
  {
    if a == [] {
      assert a + b == b;
    } else {
      hide AllClipped, Clipped;
      ClippedConcat(a[1..], b);
      ClippedFirst(a[0], a[1..]);
      ClippedFirst(a[0], a[1..] + b);
      assert a == [a[0]] + a[1..] && a + b == [a[0]] + (a[1..] + b);
    }
  }

  lemma ClippedFirst(t: Token, ts: seq<Token>)
    ensures AllClipped([t] + ts) == [Clipped(t)] + AllClipped(ts)
  {
    assert ([t] + ts)[1..] == ts;
  }

  lemma ClippedOne(t: Token)
    ensures AllClipped([t]) == [Clipped(t)]
    ensures |t.text| < 0x1_0000 ==> Clipped(t) == t
  {
    if |t.text| < 0x1_0000 { assert Clip(t.text) == t.text; }
  }

  lemma {:induction false} TrimmedItem(f: Forest)
    requires f.Cons?
    ensures ItemToks(Trimmed(f)) == AllClipped(ItemToks(f))
    decreases f, 0
  {
    var t := Begin(f.kind, f.text);
    ClippedOne(t);
    TrimmedToks(f.kids);
    ClippedConcat([t], Toks(f.kids));
    if IsContainer(f.kind) {
      var close := if f.kind == Object then CLOSE_BRACE else CLOSE_BRACKET;
      ClippedOne(close);
      ClippedConcat([t] + Toks(f.kids), [close]);
    } else if f.kind == Key {
      ClippedOne(COLON);
      ClippedConcat([t], [COLON]);
      assert [t] + [COLON] == [t, COLON];
      ClippedConcat([t, COLON], Toks(f.kids));
    }
  }

  lemma {:induction false} TrimmedToks(f: Forest)
    ensures Toks(Trimmed(f)) == AllClipped(Toks(f))
    decreases f, 1
  {
    if f.Cons? {
      TrimmedItem(f);
      TrimmedToks(f.sibs);
      ClippedOne(COMMA);
      ClippedConcat([COMMA], Toks(f.sibs));
      ClippedConcat(ItemToks(f), TailToks(f.sibs));
    }
  }

  lemma {:induction false} TrimmedNest(f: Forest, k: Kind)
    ensures Nested(Trimmed(f), k) == Nested(f, k) && Full(Trimmed(f)) == Full(f) && Size(Trimmed(f)) == Size(f)
    ensures Trimmed(f).Cons? == f.Cons? && (f.Cons? ==> Trimmed(f).sibs.Cons? == f.sibs.Cons?)
  {
    if f.Cons? {
      TrimmedNest(f.kids, f.kind);
      TrimmedNest(f.sibs, k);
    }
  }

  /** Slot numbers do not show in the sentence. */
  lemma {:induction false} FreshToks(f: Forest, n: nat)
    ensures Toks(Fresh(f, n)) == Toks(f)
    ensures f.Cons? ==> ItemToks(Fresh(f, n)) == ItemToks(f)
  {
    if f.Cons? {
      FreshToks(f.kids, n + 1);
      FreshToks(f.sibs, n + 1 + Size(f.kids));
      FreshItem(f, n);
      assert Toks(Fresh(f, n)) == ItemToks(Fresh(f, n)) + TailToks(Fresh(f.sibs, n + 1 + Size(f.kids)));
    }
  }

  lemma FreshItem(f: Forest, n: nat)
    requires f.Cons? && Toks(Fresh(f.kids, n + 1)) == Toks(f.kids)
    ensures ItemToks(Fresh(f, n)) == ItemToks(f)
  {
    hide Toks;
  }

  lemma {:induction false} FreshSize(f: Forest, n: nat)
    ensures Size(Fresh(f, n)) == Size(f)
  {
    if f.Cons? {
      FreshSize(f.kids, n + 1);
      FreshSize(f.sibs, n + 1 + Size(f.kids));
    }
  }

  lemma {:induction false} FreshTwice(f: Forest, n: nat)
    ensures Fresh(Fresh(f, n), n) == Fresh(f, n)
  {
    if f.Cons? {
      FreshSize(f.kids, n + 1);
      FreshTwice(f.kids, n + 1);
      FreshTwice(f.sibs, n + 1 + Size(f.kids));
    }
  }

  // ----- one sentence, one tree -----

  predicate Ends(ts: seq<Token>) { ts == [] || ts[0] == CLOSE_BRACE || ts[0] == CLOSE_BRACKET }

  lemma ItemStarts(f: Forest, rest: seq<Token>)
    requires f.Cons?
    ensures ItemToks(f) + rest == [Begin(f.kind, f.text)] + (ItemToks(f)[1..] + rest) && ItemToks(f) != []
  {
    assert ItemToks(f) == [Begin(f.kind, f.text)] + ItemToks(f)[1..];
  }

  /** The first token tells the kind of the node. */
  lemma KindTold(f: Forest, g: Forest, k: Kind)
    requires f.Cons? && g.Cons? && Nested(f, k) && Nested(g, k) && Begin(f.kind, f.text) == Begin(g.kind, g.text)
    ensures f.kind == g.kind && OwnText(f.kind, f.text) == OwnText(g.kind, g.text)
  {
  }

  lemma SameRest(a: seq<Token>, x: seq<Token>, y: seq<Token>)
    requires a + x == a + y
    ensures x == y
  {
    assert x == (a + x)[|a|..] == (a + y)[|a|..] == y;
  }

  /** A container, or a key, behind its first tokens. */
  lemma ItemBody(f: Forest, r: seq<Token>)
    requires f.Cons?
    ensures IsContainer(f.kind) ==>
      var close := if f.kind == Object then CLOSE_BRACE else CLOSE_BRACKET;
      ItemToks(f) + r == [Begin(f.kind, f.text)] + (Toks(f.kids) + ([close] + r))
    ensures f.kind == Key && f.kids.Cons? && f.kids.sibs.Nil? ==>
      ItemToks(f) + r == [Begin(f.kind, f.text), COLON] + (ItemToks(f.kids) + r)
    ensures !IsContainer(f.kind) && f.kind != Key ==> ItemToks(f) == [Begin(f.kind, f.text)]
  {
    if IsContainer(f.kind) {
      var t, m, c := [Begin(f.kind, f.text)], Toks(f.kids), [if f.kind == Object then CLOSE_BRACE else CLOSE_BRACKET];
      assert ItemToks(f) == t + m + c;
      assert (t + m + c) + r == t + (m + (c + r));
    } else if f.kind == Key && f.kids.Cons? && f.kids.sibs.Nil? {
      var t, m := [Begin(f.kind, f.text), COLON], ItemToks(f.kids);
      assert Toks(f.kids) == m + [] == m;
      assert (t + m) + r == t + (m + r);
    }
  }

  lemma {:induction false} ItemsAgree(f: Forest, g: Forest, k: Kind, r: seq<Token>, r': seq<Token>, n: nat)
    requires f.Cons? && g.Cons? && Nested(f, k) && Nested(g, k) && Full(f) && Full(g)
    requires ItemToks(f) + r == ItemToks(g) + r'
    ensures f.kind == g.kind && OwnText(f.kind, f.text) == OwnText(g.kind, g.text)
    ensures Fresh(f.kids, n) == Fresh(g.kids, n) && r == r'
    decreases f, 0
  {
    var t, t' := Begin(f.kind, f.text), Begin(g.kind, g.text);
    ItemStarts(f, r);
    ItemStarts(g, r');
    assert t == (ItemToks(f) + r)[0] == (ItemToks(g) + r')[0] == t';
    KindTold(f, g, k);
    ItemBody(f, r);
    ItemBody(g, r');
    hide Toks, ItemToks;
    if IsContainer(f.kind) {
      var close := if f.kind == Object then CLOSE_BRACE else CLOSE_BRACKET;
      SameRest([t], Toks(f.kids) + ([close] + r), Toks(g.kids) + ([close] + r'));
      ChainsAgree(f.kids, g.kids, f.kind, [close] + r, [close] + r', n);
      SameRest([close], r, r');
    } else if f.kind == Key {
      SameRest([t, COLON], ItemToks(f.kids) + r, ItemToks(g.kids) + r');
      ItemsAgree(f.kids, g.kids, Key, r, r', n + 1);
    } else {
      SameRest([t], r, r');
    }
  }

  lemma ChainBody(f: Forest, r: seq<Token>)
    requires f.Cons?
    ensures Toks(f) + r == ItemToks(f) + (TailToks(f.sibs) + r)
  {
  }

  lemma {:induction false} ChainsAgree(f: Forest, g: Forest, k: Kind, r: seq<Token>, r': seq<Token>, n: nat)
    requires Nested(f, k) && Nested(g, k) && Full(f) && Full(g)
    requires Toks(f) + r == Toks(g) + r' && Ends(r) && Ends(r')
    ensures Fresh(f, n) == Fresh(g, n) && r == r'
    decreases f, 1
  {
    hide Toks, ItemToks, TailToks, Ends, Fresh;
    if f.Cons? && g.Cons? {
      ChainBody(f, r);
      ChainBody(g, r');
      ItemsAgree(f, g, k, TailToks(f.sibs) + r, TailToks(g.sibs) + r', n + 1);
      TailsAgree(f.sibs, g.sibs, r, r');
      if f.sibs.Cons? {
        FreshSize(f.kids, n + 1);
        FreshSize(g.kids, n + 1);
        ChainsAgree(f.sibs, g.sibs, k, r, r', n + 1 + Size(f.kids));
      }
      SameChain(f, g, n);
    } else {
      EmptyChain(f, g, k, r, r');
    }
  }

  lemma SameChain(f: Forest, g: Forest, n: nat)
    requires f.Cons? && g.Cons? && f.kind == g.kind && OwnText(f.kind, f.text) == OwnText(g.kind, g.text)
    requires Fresh(f.kids, n + 1) == Fresh(g.kids, n + 1) && f.sibs.Nil? == g.sibs.Nil?
    requires f.sibs.Cons? ==> Fresh(f.sibs, n + 1 + Size(f.kids)) == Fresh(g.sibs, n + 1 + Size(f.kids))
    ensures Fresh(f, n) == Fresh(g, n)
  {
    FreshSize(f.kids, n + 1);
    FreshSize(g.kids, n + 1);
  }

  lemma EmptyChain(f: Forest, g: Forest, k: Kind, r: seq<Token>, r': seq<Token>)
    requires Nested(f, k) && Nested(g, k) && (f.Nil? || g.Nil?)
    requires Toks(f) + r == Toks(g) + r' && Ends(r) && Ends(r')
    ensures f.Nil? && g.Nil? && r == r'
  {
    if f.Cons? { NoneAndSome(f, k, r, r'); }
    if g.Cons? { NoneAndSome(g, k, r', r); }
    if f.Nil? { assert Toks(f) + r == r; }
    if g.Nil? { assert Toks(g) + r' == r'; }
  }

  lemma NoneAndSome(g: Forest, k: Kind, r': seq<Token>, r: seq<Token>)
    requires g.Cons? && Nested(g, k) && Ends(r)
    ensures Toks(g) + r' != r
  {
    ItemStarts(g, TailToks(g.sibs) + r');
    assert Toks(g) + r' == ItemToks(g) + (TailToks(g.sibs) + r');
  }

  lemma TailBody(f: Forest, r: seq<Token>)
    requires Ends(r)
    ensures f.Cons? ==> TailToks(f) + r == [COMMA] + (Toks(f) + r)
    ensures f.Nil? ==> TailToks(f) + r == r == Toks(f) + r
    ensures f.Nil? <==> TailToks(f) + r == [] || (TailToks(f) + r)[0] != COMMA
  {
    if f.Cons? { assert TailToks(f) + r == [COMMA] + (Toks(f) + r); }
  }

  lemma TailsAgree(f: Forest, g: Forest, r: seq<Token>, r': seq<Token>)
    requires TailToks(f) + r == TailToks(g) + r' && Ends(r) && Ends(r')
    ensures f.Nil? == g.Nil? && Toks(f) + r == Toks(g) + r'
    ensures f.Nil? ==> r == r'
  {
    TailBody(f, r);
    TailBody(g, r');
    hide Toks, TailToks;
    if f.Cons? { SameRest([COMMA], Toks(f) + r, Toks(g) + r'); }
  }

  /** Two values with one sentence differ in slot numbers only. */
  lemma SentenceUnique(t: Forest, t': Forest)
    requires OneValue(t) && OneValue(t') && Toks(t) == Toks(t')
    ensures Fresh(t, 0) == Fresh(t', 0)
  {
    assert Toks(t) + [] == Toks(t') + [];
    ChainsAgree(t, t', Unknown, [], [], 0);
  }

  // ----- changing texts -----

  predicate AllGenuine(ts: seq<Token>) { forall t :: t in ts ==> Genuine(t) }

  /** Token for token of the same kind. */
  predicate SameKinds(a: seq<Token>, b: seq<Token>) {
    |a| == |b| && forall i :: 0 <= i < |a| ==> a[i].kind == b[i].kind
  }

  lemma {:induction false} ClippedKinds(ts: seq<Token>)
    ensures SameKinds(ts, AllClipped(ts))
  {
    if ts != [] { ClippedKinds(ts[1..]); }
  }

  lemma KindsParts(a: seq<Token>, x: seq<Token>, y: seq<Token>)
    requires SameKinds(a, x + y)
    ensures SameKinds(a[..|x|], x) && SameKinds(a[|x|..], y) && a == a[..|x|] + a[|x|..]
  {
    forall i | 0 <= i < |x| ensures a[..|x|][i].kind == x[i].kind { assert (x + y)[i] == x[i]; }
    forall i | 0 <= i < |y| ensures a[|x|..][i].kind == y[i].kind { assert (x + y)[|x| + i] == y[i]; }
  }

  /** Tokens of the kinds of a sentence are the sentence of a tree themselves. */
  lemma {:induction false} Retexted(f: Forest, k: Kind, ts: seq<Token>) returns (g: Forest)
    requires Nested(f, k) && SameKinds(ts, Toks(f)) && AllGenuine(ts)
    ensures Toks(g) == ts && Nested(g, k) && Full(g) == Full(f)
    ensures g.Cons? == f.Cons? && (f.Cons? ==> g.sibs.Cons? == f.sibs.Cons?)
    decreases f, 1
  {
    if f.Nil? { return Nil; }
    var n := |ItemToks(f)|;
    KindsParts(ts, ItemToks(f), TailToks(f.sibs));
    hide ItemToks, TailToks, SameKinds;
    var text, kids := RetextedItem(f, k, ts[..n]);
    var sibs := RetextedTail(f.sibs, k, ts[n..]);
    g := Cons(f.id, f.kind, text, kids, sibs);
    TwoParts(g, ts, n);
    hide Toks, AllGenuine;
  }

  lemma TwoParts(g: Forest, ts: seq<Token>, n: nat)
    requires g.Cons? && n <= |ts| && ItemToks(g) == ts[..n] && TailToks(g.sibs) == ts[n..]
    ensures Toks(g) == ts
  {
    assert ts == ts[..n] + ts[n..];
  }

  /** A genuine delimiter is told by its kind. */
  lemma SameDelimiter(t: Token, d: Token)
    requires Genuine(t) && t.kind == d.kind
    requires d in {COLON, COMMA, OPEN_BRACE, CLOSE_BRACE, OPEN_BRACKET, CLOSE_BRACKET}
    ensures t == d
  {
  }

  lemma {:induction false} RetextedTail(f: Forest, k: Kind, ts: seq<Token>) returns (g: Forest)
    requires Nested(f, k) && SameKinds(ts, TailToks(f)) && AllGenuine(ts)
    ensures TailToks(g) == ts && Nested(g, k) && Full(g) == Full(f)
    ensures g.Cons? == f.Cons?
    decreases f, 2
  {
    if f.Nil? { return Nil; }
    KindsParts(ts, [COMMA], Toks(f));
    assert ts[0] in ts && ts[0].kind == [COMMA][0].kind;
    SameDelimiter(ts[0], COMMA);
    hide Toks, SameKinds;
    g := Retexted(f, k, ts[1..]);
    assert ts == [COMMA] + ts[1..];
  }

  lemma {:induction false} RetextedItem(f: Forest, k: Kind, ts: seq<Token>) returns (text: string, kids: Forest)
    requires f.Cons? && Nested(f, k) && SameKinds(ts, ItemToks(f)) && AllGenuine(ts)
    ensures forall sibs :: ItemToks(Cons(f.id, f.kind, text, kids, sibs)) == ts
    ensures Nested(kids, f.kind) && Full(kids) == Full(f.kids)
    ensures kids.Cons? == f.kids.Cons? && (kids.Cons? ==> kids.sibs.Cons? == f.kids.sibs.Cons?)
    decreases f, 0
  {
    var t := ts[0];
    assert t in ts && t.kind == ItemToks(f)[0].kind;
    text := t.text;
    if IsContainer(f.kind) {
      kids := RetextedContainer(f, ts);
    } else if f.kind == Key {
      assert ItemToks(f) == [Begin(Key, f.text), COLON] + Toks(f.kids);
      KindsParts(ts, [Begin(Key, f.text), COLON], Toks(f.kids));
      assert ts[1] in ts && ts[1].kind == ItemToks(f)[1].kind;
      SameDelimiter(ts[1], COLON);
      hide Toks, SameKinds;
      kids := Retexted(f.kids, f.kind, ts[2..]);
      assert ts == [t, COLON] + ts[2..];
    } else {
      kids := Nil;
      assert ts == [t];
    }
  }

  function Opener(k: Kind): Token { if k == Object then OPEN_BRACE else OPEN_BRACKET }

  function Closer(k: Kind): Token { if k == Object then CLOSE_BRACE else CLOSE_BRACKET }

  lemma FrameParts(f: Forest, ts: seq<Token>)
    requires f.Cons? && IsContainer(f.kind) && SameKinds(ts, ItemToks(f)) && AllGenuine(ts)
    ensures |ts| >= 2 && ts == [Opener(f.kind)] + ts[1..|ts| - 1] + [Closer(f.kind)]
    ensures SameKinds(ts[1..|ts| - 1], Toks(f.kids))
  {
    var n := |ts| - 1;
    assert ItemToks(f) == [Opener(f.kind)] + Toks(f.kids) + [Closer(f.kind)];
    hide ItemToks, Toks, Genuine;
    KindsParts(ts, [Opener(f.kind)] + Toks(f.kids), [Closer(f.kind)]);
    KindsParts(ts[..n], [Opener(f.kind)], Toks(f.kids));
    assert ts[0] in ts && ts[n] in ts && ts[..n][1..] == ts[1..n] && ts[..n][..1] == [ts[0]] && ts[n..] == [ts[n]];
    assert ts[0].kind == ItemToks(f)[0].kind && ts[n].kind == ItemToks(f)[n].kind;
    SameDelimiter(ts[0], Opener(f.kind));
    SameDelimiter(ts[n], Closer(f.kind));
  }

  lemma ItemFrame(f: Forest)
    requires f.Cons? && IsContainer(f.kind)
    ensures ItemToks(f) == [Opener(f.kind)] + Toks(f.kids) + [Closer(f.kind)]
  {
  }

  lemma {:induction false} RetextedContainer(f: Forest, ts: seq<Token>) returns (kids: Forest)
    requires f.Cons? && IsContainer(f.kind) && Nested(f.kids, f.kind) && SameKinds(ts, ItemToks(f)) && AllGenuine(ts)
    ensures forall text, sibs :: ItemToks(Cons(f.id, f.kind, text, kids, sibs)) == ts
    ensures Nested(kids, f.kind) && Full(kids) == Full(f.kids)
    ensures kids.Cons? == f.kids.Cons? && (kids.Cons? ==> kids.sibs.Cons? == f.kids.sibs.Cons?)
    decreases f.kids, 3
  {
    hide Toks, ItemToks, SameKinds, Genuine;
    FrameParts(f, ts);
    kids := Retexted(f.kids, f.kind, ts[1..|ts| - 1]);
    forall text, sibs ensures ItemToks(Cons(f.id, f.kind, text, kids, sibs)) == ts {
      ItemFrame(Cons(f.id, f.kind, text, kids, sibs));
    }
  }
}
