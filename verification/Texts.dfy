/** From texts to trees: which texts jes_load accepts, character by character. */
module Texts {
  import opened Codes
  import opened Forests
  import opened Lexer
  import opened Machine
  import opened Grammar

  /** The tokens of a text up to its end, or the error of the first one that cannot be read. */
  datatype Reading = Readout(ts: seq<Token>) | Unreadable(status: Status)

  function Read(text: string, pos: nat): Reading
    decreases if pos <= |text| then |text| - pos else 0
  {
    var w := Lex(text, pos);
    if w.Failed? then Unreadable(w.status)
    else if w.token.kind == EofToken || pos > |text| then Readout([])
    else
      var rest := Read(text, w.end);
      if rest.Unreadable? then rest else Readout([w.token] + rest.ts)
  }

  /** A token with as much of its text as the 16-bit length field covers. */
  function Clipped(t: Token): Token { Token(t.kind, Clip(t.text)) }

  function AllClipped(ts: seq<Token>): seq<Token> {
    if ts == [] then [] else [Clipped(ts[0])] + AllClipped(ts[1..])
  }

  /** The tokenizer makes proper tokens, apart from their length. */
  lemma LexedProper(text: string, pos: nat)
    requires Lex(text, pos).Lexed? && Lex(text, pos).token.kind != EofToken
    ensures Proper(Clipped(Lex(text, pos).token))
  {
  }

  lemma {:induction false} ReadProper(text: string, pos: nat)
    requires Read(text, pos).Readout?
    ensures AllProper(AllClipped(Read(text, pos).ts))
    decreases if pos <= |text| then |text| - pos else 0
  {
    var w := Lex(text, pos);
    if w.token.kind != EofToken && pos <= |text| {
      var ts := Read(text, w.end).ts;
      assert ([w.token] + ts)[1..] == ts;
      ReadProper(text, w.end);
      LexedProper(text, pos);
    }
  }

  /** What the length field cuts off makes no difference to the parser. */
  lemma StepClipped(c: Config, t: Token, cap: nat)
    ensures Step(c, Clipped(t), cap) == Step(c, t, cap)
  {
    assert Clip(Clip(t.text)) == Clip(t.text);
  }

  lemma {:induction false} RunClipped(c: Config, ts: seq<Token>, cap: nat)
    ensures Run(c, AllClipped(ts) + [EOF], cap) == Run(c, ts + [EOF], cap)
    decreases |ts|
  {
    if ts != [] && !Stopped(c) {
      StepClipped(c, ts[0], cap);
      RunClipped(Step(c, ts[0], cap), ts[1..], cap);
      RunFirst(c, ts[0], ts[1..] + [EOF], cap);
      RunFirst(c, Clipped(ts[0]), AllClipped(ts[1..]) + [EOF], cap);
      assert ts + [EOF] == [ts[0]] + (ts[1..] + [EOF]);
      assert AllClipped(ts) + [EOF] == [Clipped(ts[0])] + (AllClipped(ts[1..]) + [EOF]);
    }
  }

  lemma {:induction false} BalancedClipped(ts: seq<Token>, n: Nest)
    ensures Balanced(AllClipped(ts), n) == Balanced(ts, n)
    decreases |ts|
  {
    if ts != [] {
      assert AllClipped(ts)[1..] == AllClipped(ts[1..]);
      BalancedClipped(ts[1..], NestStep(n, ts[0]));
    }
  }

  /** Only the end of the text ends a document, and it always ends the run. */
  lemma EndStops(c: Config, t: Token, cap: nat)
    requires !Stopped(c)
    ensures t.kind != EofToken ==> Step(c, t, cap).state != End
    ensures t.kind == EofToken ==> Stopped(Step(c, t, cap))
  {
  }

  /** Parsing a text is running on its tokens; a text that cannot be read is not accepted. */
  lemma {:induction false} DriveReads(c: Config, text: string, pos: nat, cap: nat)
    requires !Stopped(c) && pos <= |text|
    ensures Read(text, pos).Readout? ==> Drive(c, text, pos, cap) == Run(c, Read(text, pos).ts + [EOF], cap)
    ensures Read(text, pos).Unreadable? ==> !Accepted(Drive(c, text, pos, cap))
    decreases |text| - pos
  {
    var w := Lex(text, pos);
    if w.Lexed? {
      EndStops(c, w.token, cap);
      if w.token.kind == EofToken {
        assert w.token == EOF;
        assert [] + [EOF] == [EOF];
        RunOne(c, EOF, cap);
      } else {
        var c' := Step(c, w.token, cap);
        var rest := Read(text, w.end);
        if rest.Readout? {
          assert Read(text, pos).ts + [EOF] == [w.token] + (rest.ts + [EOF]);
          RunFirst(c, w.token, rest.ts + [EOF], cap);
        }
        if !Stopped(c') { DriveReads(c', text, w.end, cap); }
      }
    }
  }

  /** jes_load on any text: it is accepted with matching brackets if and only if its tokens, as
      the length field has them, are a sentence of the JSON grammar without repeated names that fits
      the pool, and the tree that is left is the parse. */
  lemma TextTheorem(text: string, cap: nat)
    requires cap <= NONE
    ensures var r, d := Read(text, 0), Drive(INITIAL, text, 0, cap);
      && (r.Unreadable? ==> !Accepted(d))
      && (r.Readout? ==>
            && (Accepted(d) && Balanced(r.ts, Outside) <==> exists t :: ParseOf(t, AllClipped(r.ts), cap))
            && forall t :: ParseOf(t, AllClipped(r.ts), cap) ==> Plug(d.spine) == Fresh(t, 0))
  {
    DriveReads(INITIAL, text, 0, cap);
    var r := Read(text, 0);
    if r.Readout? {
      ReadProper(text, 0);
      RunClipped(INITIAL, r.ts, cap);
      BalancedClipped(r.ts, Outside);
      GrammarTheorem(AllClipped(r.ts), cap);
    }
  }
}
