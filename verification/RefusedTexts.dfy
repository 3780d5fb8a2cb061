/** What jes_load answers to a text, whatever the text: with which status it ends, and what it leaves
    in the pool. */
module RefusedTexts {
  import opened Codes
  import opened Forests
  import opened Shapes
  import opened Lexer
  import opened Machine
  import opened Grammar
  import opened Spines
  import opened Texts
  import opened Sentences
  import opened Prefixes
  import opened Refusals
  import opened Faults
  import opened Tree
  import Parser

  // ----- the tokens of a text -----

  /** The tokens up to the end of the text, or up to what cannot be read. */
  function TokensOf(text: string, pos: nat): seq<Token>
    decreases if pos <= |text| then |text| - pos else 0
  {
    var w := Lex(text, pos);
    if w.Failed? || w.token.kind == EofToken || pos > |text| then [] else [w.token] + TokensOf(text, w.end)
  }

  /** Where the first token starts that cannot be read. */
  function FaultPos(text: string, pos: nat): nat
    decreases if pos <= |text| then |text| - pos else 0
  {
    var w := Lex(text, pos);
    if w.Failed? || w.token.kind == EofToken || pos > |text| then pos + Spaces(text, pos) else FaultPos(text, w.end)
  }

  /** The tokens that are handed to the parser. */
  function TextTokens(text: string): seq<Token> { AllClipped(TokensOf(text, 0)) }

  /** A text that cannot be read is reported with what is wrong with the token at that place. */
  lemma {:induction false} FaultOf(text: string, pos: nat, e: Error)
    requires pos <= |text|
    ensures Read(text, pos) == Unreadable(e) <==>
        FaultPos(text, pos) <= |text| && WordFault(text, FaultPos(text, pos), e)
    decreases |text| - pos
  {
    var w := Lex(text, pos);
    if w.Failed? || w.token.kind == EofToken {
      WordRefused(text, pos + Spaces(text, pos), e);
    } else {
      FaultOf(text, w.end, e);
    }
  }

  lemma {:induction false} TokensProper(text: string, pos: nat)
    ensures AllProper(AllClipped(TokensOf(text, pos)))
    decreases if pos <= |text| then |text| - pos else 0
  {
    var w := Lex(text, pos);
    if w.Lexed? && w.token.kind != EofToken && pos <= |text| {
      var ts := TokensOf(text, w.end);
      assert ([w.token] + ts)[1..] == ts;
      TokensProper(text, w.end);
      LexedProper(text, pos);
    }
  }

  /** Parsing a text is running on its tokens, and then the end of the text or a refused token. */
  lemma {:induction false} DriveOn(c: Config, text: string, pos: nat, cap: nat)
    requires !Stopped(c) && pos <= |text|
    ensures var r := Run(c, TokensOf(text, pos), cap);
      Drive(c, text, pos, cap) ==
        if Stopped(r) then r
        else if Read(text, pos).Unreadable? then Refuse(r, Read(text, pos).status)
        else Step(r, EOF, cap)
    decreases |text| - pos
  {
    var w := Lex(text, pos);
    if w.Lexed? {
      EndStops(c, w.token, cap);
      if w.token.kind == EofToken {
        assert w.token == EOF;
      } else {
        var c' := Step(c, w.token, cap);
        RunFirst(c, w.token, TokensOf(text, w.end), cap);
        if !Stopped(c') { DriveOn(c', text, w.end, cap); }
      }
    }
  }

  lemma {:induction false} ClippedRun(c: Config, ts: seq<Token>, cap: nat)
    ensures Run(c, AllClipped(ts), cap) == Run(c, ts, cap)
    decreases |ts|
  {
    if ts != [] && !Stopped(c) {
      StepClipped(c, ts[0], cap);
      ClippedRun(Step(c, ts[0], cap), ts[1..], cap);
      RunFirst(c, Clipped(ts[0]), AllClipped(ts[1..]), cap);
    }
  }

  // ----- the answer -----

  /** The tokens `p` at the beginning of the text are read as the beginning of value `t`, and there
      reading ends: with the text, with a token with which no value goes on (but for the closers that
      are taken), with a name that repeats, or because the pool is full. */
  ghost predicate ReadUpTo(text: string, t: Forest, p: seq<Token>, cap: nat) {
    var ts := TextTokens(text);
    && Reads(t, p, cap) && p <= ts
    && (p < ts ==>
          var k := ts[|p|];
          if Begins(p + [k]) then Starts(t, p + [k]) && !Reads(t, p + [k], cap) else !TakenCloser(p, k))
  }

  /** The status: of the token that cannot be read, or of the way in which reading ends. */
  ghost function Answer(text: string, t: Forest, p: seq<Token>): Status
    requires p <= TextTokens(text) && p <= Toks(t)
  {
    var ts, r := TextTokens(text), Read(text, 0);
    if p < ts then
      var k := ts[|p|];
      if !Begins(p + [k]) then UnexpectedToken
      else if NamesDistinct(PartOf(t, p + [k])) then OutOfMemory
      else DuplicateKey
    else if r.Unreadable? then r.status
    else if p == Toks(t) then NoError
    else if Toks(t)[|p|] == COLON then UnexpectedToken
    else UnexpectedEof
  }

  /** jes_load on any text: it answers like this, and leaves the part of the value that was read. */
  lemma TextAnswered(text: string, t: Forest, p: seq<Token>, cap: nat)
    requires ReadUpTo(text, t, p, cap) && cap < NONE
    ensures var d := Drive(INITIAL, text, 0, cap);
      d.status == Answer(text, t, p) && Plug(d.spine) == PartOf(t, p)
  {
    hide Drive, Run, Step, AllClipped, TokensOf, Read, Reads, Starts, PartOf, Begins, TakenCloser, Plug, NamesDistinct;
    hide Toks, AllProper;
    var ts := TextTokens(text);
    DriveOn(INITIAL, text, 0, cap);
    ClippedRun(INITIAL, TokensOf(text, 0), cap);
    TokensProper(text, 0);
    if p < ts {
      AnsweredBefore(ts, t, p, cap);
    } else {
      assert p == ts;
      AnsweredLast(t, p, cap);
    }
  }

  /** In front of a token with which reading ends. */
  lemma AnsweredBefore(ts: seq<Token>, t: Forest, p: seq<Token>, cap: nat)
    requires Reads(t, p, cap) && p < ts && AllProper(ts) && cap < NONE
    requires var k := ts[|p|];
      if Begins(p + [k]) then Starts(t, p + [k]) && !Reads(t, p + [k], cap) else !TakenCloser(p, k)
    ensures var r, k := Run(INITIAL, ts, cap), ts[|p|];
      && Stopped(r) && Plug(r.spine) == PartOf(t, p)
      && r.status == if !Begins(p + [k]) then UnexpectedToken
         else if NamesDistinct(PartOf(t, p + [k])) then OutOfMemory else DuplicateKey
  {
    hide Run, Reads, Starts, PartOf, Begins, TakenCloser, Plug, NamesDistinct;
    var k := ts[|p|];
    var rest := ts[|p| + 1..];
    assert ts == p + [k] + rest && k in ts;
    if Begins(p + [k]) { NoPlace(t, p, k, rest, cap); } else { WrongToken(t, p, k, rest, cap); }
  }

  /** At the end of the tokens. */
  lemma AnsweredLast(t: Forest, p: seq<Token>, cap: nat)
    requires Reads(t, p, cap) && cap < NONE
    ensures var c := Run(INITIAL, p, cap); var r := Step(c, EOF, cap);
      && !Stopped(c) && Plug(c.spine) == PartOf(t, p) == Plug(r.spine) && p <= Toks(t)
      && r.status == if p == Toks(t) then NoError
         else if Toks(t)[|p|] == COLON then UnexpectedToken else UnexpectedEof
  {
    var a := PrefixRuns(t, p, cap);
    RunAppend(INITIAL, p, EOF, cap);
    hide Run, PartOf, Plug, NamesDistinct, Step, HasRead;
    if p == Toks(t) { WholeAccepted(t, cap); } else { EndTooEarly(t, p, cap); }
  }

  // ----- every text -----

  /** Two values that begin alike have the same part there. */
  lemma SamePart(t: Forest, t': Forest, p: seq<Token>, cap: nat)
    requires Reads(t, p, cap) && Starts(t', p) && cap < NONE
    ensures Reads(t', p, cap) && PartOf(t', p) == PartOf(t, p)
  {
    var a := PrefixRuns(t, p, cap);
    var b := FollowsAny(t', p, cap);
    FollowedPart(Run(INITIAL, p, cap), b, Fresh(t', 0), cap);
  }

  /** Reading ends somewhere in every text, or goes on over one of the closers that are taken. */
  lemma EveryText(text: string, cap: nat) returns (t: Forest, p: seq<Token>)
    requires cap < NONE
    ensures Reads(t, p, cap) && p <= TextTokens(text)
    ensures ReadUpTo(text, t, p, cap) || (p < TextTokens(text) && TakenCloser(p, TextTokens(text)[|p|]))
  {
    hide TokensOf, AllClipped, PartOf, Toks, TakenCloser, NamesDistinct;
    var ts := TextTokens(text);
    TokensProper(text, 0);
    t, p := Leaf(0, Null, "null"), [];
    NothingRead(t, cap);
    while p < ts && Begins(p + [ts[|p|]]) && !ReadUpTo(text, t, p, cap)
      invariant Reads(t, p, cap) && p <= ts
      decreases |ts| - |p|
    {
      var k := ts[|p|];
      var t' :| Starts(t', p + [k]);
      assert p <= p + [k] <= Toks(t');
      SamePart(t, t', p, cap);
      t := t';
      if ReadUpTo(text, t, p, cap) { break; }
      p := p + [k];
    }
  }

  lemma NothingRead(t: Forest, cap: nat)
    requires OneValue(t)
    ensures Reads(t, [], cap)
  {
    FirstOfLater(t, 0, 0);
  }

  // ----- a table that is full -----

  lemma {:induction false} RunKeys(c: Config, ts: seq<Token>, cap: nat)
    ensures KeysOn(c.spine) <= KeysOn(Run(c, ts, cap).spine)
    decreases |ts|
  {
    if ts != [] && !Stopped(c) {
      StepKeys(c, ts[0], cap);
      RunKeys(Step(c, ts[0], cap), ts[1..], cap);
    }
  }

  /** The first token with which there are more keys than slots ends the parse behind it. */
  lemma {:induction false} FullOn(c: Config, text: string, pos: nat, cap: nat, n: nat, p: seq<Token>)
    requires pos <= |text| && !Stopped(Run(c, p, cap)) && p != [] && p <= AllClipped(TokensOf(text, pos))
    requires KeysOn(Run(c, p[..|p| - 1], cap).spine) <= n < KeysOn(Run(c, p, cap).spine)
    ensures DriveIn(c, text, pos, cap, AtMost(n)) == Run(c, p, cap).(status := OutOfMemory)
    decreases |p|
  {
    var w, k, rest := Lex(text, pos), p[0], p[1..];
    var ts := TokensOf(text, w.end);
    var c' := Step(c, k, cap);
    assert p == [k] + rest;
    assert AllClipped(TokensOf(text, pos)) == [Clipped(w.token)] + AllClipped(ts) by {
      assert ([w.token] + ts)[1..] == ts;
    }
    StepClipped(c, w.token, cap);
    RunFirst(c, k, rest, cap);
    assert k == Clipped(w.token) && rest <= AllClipped(ts);
    if rest != [] {
      var most := rest[..|rest| - 1];
      assert p[..|p| - 1] == [k] + most;
      RunFirst(c, k, most, cap);
      RunKeys(c', most, cap);
      FullOn(c', text, w.end, cap, n, rest);
    }
  }

  /** With the last token of `q` there are for the first time more keys than table slots. */
  predicate Overflows(ctx: Context, t: Forest, q: seq<Token>) {
    && q != [] && !Parser.TableHolds(ctx, PartOf(t, q)) && Parser.TableHolds(ctx, PartOf(t, q[..|q| - 1]))
  }

  /** The names up to the one for which there is no slot, and it, are in the tree. */
  lemma TextOverflows(text: string, t: Forest, q: seq<Token>, cap: nat, n: nat)
    requires Reads(t, q, cap) && cap < NONE && q <= TextTokens(text) && q != []
    requires KeyCount(PartOf(t, q[..|q| - 1])) <= n < KeyCount(PartOf(t, q))
    ensures var r := DriveIn(INITIAL, text, 0, cap, AtMost(n)); r.status == OutOfMemory && Plug(r.spine) == PartOf(t, q)
  {
    hide Run, DriveIn, Reads, PartOf, KeyCount, Plug, TokensOf, HasRead, Starts, KeysOn;
    var most := q[..|q| - 1];
    assert q == most + [q[|q| - 1]];
    ReadsShorter(t, most, q[|q| - 1], cap);
    var a := PrefixRuns(t, q, cap);
    var b := PrefixRuns(t, most, cap);
    PlugKeys(Run(INITIAL, q, cap).spine);
    PlugKeys(Run(INITIAL, most, cap).spine);
    FullOn(INITIAL, text, 0, cap, n, q);
  }

  lemma OverflowAt(ctx: Context, t: Forest, p: seq<Token>) returns (q: seq<Token>)
    requires Reads(t, p, ctx.pool.Length) && ctx.pool.Length < NONE && !Parser.TableHolds(ctx, PartOf(t, p))
    ensures q <= p && Overflows(ctx, t, q) && Reads(t, q, ctx.pool.Length)
  {
    hide Reads;
    q := p;
    FirstOfLater(t, 0, 0);
    while !Parser.TableHolds(ctx, PartOf(t, q[..|q| - 1]))
      invariant q <= p && q != [] && !Parser.TableHolds(ctx, PartOf(t, q)) && Reads(t, q, ctx.pool.Length)
      decreases |q|
    {
      var most := q[..|q| - 1];
      assert q == most + [q[|q| - 1]];
      ReadsShorter(t, most, q[|q| - 1], ctx.pool.Length);
      q := most;
    }
  }

  /** The call itself, in either mode: a key that finds the table full ends it, and is left in the
      tree. */
  lemma LoadAnswered(ctx: Context, text: string, t: Forest, p: seq<Token>)
    requires Parser.Parsed(ctx, text) && ReadUpTo(text, t, p, ctx.pool.Length) && ctx.pool.Length < NONE
    ensures if Parser.TableHolds(ctx, PartOf(t, p)) then ctx.status == Answer(text, t, p) && ctx.forest == PartOf(t, p)
      else ctx.status == OutOfMemory && exists q :: q <= p && Overflows(ctx, t, q) && ctx.forest == PartOf(t, q)
  {
    TextAnswered(text, t, p, ctx.pool.Length);
    Parser.ParsedHolds(ctx, text);
    if !Parser.TableHolds(ctx, PartOf(t, p)) {
      var q := OverflowAt(ctx, t, p);
      TextOverflows(text, t, q, ctx.pool.Length, Parser.RoomOf(ctx).n);
      ParsedForest(ctx, text);
    }
  }

  lemma ParsedForest(ctx: Context, text: string)
    requires Parser.Parsed(ctx, text)
    ensures var r := DriveIn(INITIAL, text, 0, ctx.pool.Length, Parser.RoomOf(ctx));
      ctx.forest == Plug(r.spine) && ctx.status == r.status
  {
  }
}
