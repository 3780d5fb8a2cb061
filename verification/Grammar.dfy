/** The JSON grammar on tokens, and how the parser of Machine relates to it. */
module Grammar {
  import opened Codes
  import opened Forests
  import opened Shapes
  import opened Lexer
  import opened Machine

  const OPEN_BRACE := Token(OpeningBrace, "{")
  const CLOSE_BRACE := Token(ClosingBrace, "}")
  const OPEN_BRACKET := Token(OpeningBracket, "[")
  const CLOSE_BRACKET := Token(ClosingBracket, "]")
  const COLON := Token(TokenKind.Colon, ":")
  const COMMA := Token(TokenKind.Comma, ",")
  const EOF := Token(EofToken, "")

  function ScalarToken(k: Kind): TokenKind {
    match k
    case Str => StringToken
    case Number => NumberToken
    case True => TrueToken
    case False => FalseToken
    case Null => NullToken
    case _ => InvalidToken
  }

  /** The sentence of one node with everything below it: the productions of sections 2, 4 and 5
      of RFC 8259. */
  function ItemToks(f: Forest): seq<Token>
    requires f.Cons?
    decreases f, 0
  {
    match f.kind
    case Object => [OPEN_BRACE] + Toks(f.kids) + [CLOSE_BRACE]
    case Array => [OPEN_BRACKET] + Toks(f.kids) + [CLOSE_BRACKET]
    case Key => [Token(StringToken, f.text), COLON] + Toks(f.kids)
    case _ => [Token(ScalarToken(f.kind), f.text)]
  }

  /** The nodes of a chain, separated by commas. */
  function Toks(f: Forest): seq<Token>
    decreases f, 1
  {
    if f.Nil? then [] else ItemToks(f) + TailToks(f.sibs)
  }

  function TailToks(f: Forest): seq<Token>
    decreases f, 2
  {
    if f.Nil? then [] else [COMMA] + Toks(f)
  }

  /** A token as the tokenizer makes them, other than end of text: delimiters carry their own
      character. */
  predicate Genuine(t: Token) {
    match t.kind
    case EofToken => false
    case OpeningBrace => t == OPEN_BRACE
    case ClosingBrace => t == CLOSE_BRACE
    case OpeningBracket => t == OPEN_BRACKET
    case ClosingBracket => t == CLOSE_BRACKET
    case Colon => t == COLON
    case Comma => t == COMMA
    case _ => true
  }

  /** Its length fits 16 bits as well. */
  predicate Proper(t: Token) { |t.text| < 0x1_0000 && Genuine(t) }

  predicate AllProper(ts: seq<Token>) { forall t :: t in ts ==> Proper(t) }

  // ----- nesting of brackets -----

  datatype Nest = Outside | In(kind: Kind, outer: Nest)

  predicate NestOk(n: Nest, t: Token) {
    match t.kind
    case ClosingBrace => n.In? && n.kind == Object
    case ClosingBracket => n.In? && n.kind == Array
    case _ => true
  }

  function NestStep(n: Nest, t: Token): Nest {
    match t.kind
    case OpeningBrace => In(Object, n)
    case OpeningBracket => In(Array, n)
    case ClosingBrace | ClosingBracket => if n.In? then n.outer else n
    case _ => n
  }

  /** Every bracket closes the innermost one that is open, and none stays open. */
  predicate Balanced(ts: seq<Token>, n: Nest)
    decreases |ts|
  {
    if ts == [] then n == Outside else NestOk(n, ts[0]) && Balanced(ts[1..], NestStep(n, ts[0]))
  }

  function Containers(s: Spine): Nest {
    if s.Top? then Outside
    else if IsContainer(s.kind) then In(s.kind, Containers(s.up))
    else Containers(s.up)
  }

  // ----- what was read so far, computed from the tree -----

  function Begin(kind: Kind, text: string): Token {
    match kind
    case Object => OPEN_BRACE
    case Array => OPEN_BRACKET
    case Key => Token(StringToken, text)
    case _ => Token(ScalarToken(kind), text)
  }

  /** The tokens from the start of the text to the end of the last child of the current node. */
  function Inside(s: Spine): seq<Token>
    requires s.Frame?
    decreases s, 0
  {
    Before(s.up) + [Begin(s.kind, s.text)] + Toks(s.kids)
  }

  /** The tokens up to where the next child of the current node starts. */
  function Before(s: Spine): seq<Token>
    decreases s, 1
  {
    if s.Top? then []
    else Inside(s) + (if s.kind == Key then [COLON] else if s.kids.Nil? then [] else [COMMA])
  }

  function Consumed(c: Config): seq<Token> {
    match c.state
    case ExpectKey | ExpectValue => Before(c.spine)
    case ExpectColon | HaveValue => if c.spine.Frame? then Inside(c.spine) else []
    case _ => Toks(Plug(c.spine))
  }

  /** Every finished key on the way up has its value. */
  predicate FullSpine(s: Spine) { Full(Kids(s)) && (s.Frame? ==> FullSpine(s.up)) }

  lemma {:induction false} ToksConcat(f: Forest, g: Forest)
    requires g.Cons?
    ensures Toks(Concat(f, g)) == Toks(f) + (if f.Nil? then [] else [COMMA]) + Toks(g)
    ensures Full(f) && Full(g) ==> Full(Concat(f, g))
  {
    if f.Cons? && f.sibs.Cons? {
      ToksConcat(f.sibs, g);
    }
  }

  /** Moving up from a finished node: its tokens become part of the parent's. */
  lemma PopInside(s: Spine)
    requires s.Frame? && s.up.Frame? && IsContainer(s.up.kind)
    ensures Inside(Pop(s)) == Before(s.up) + ItemToks(Current(s))
    ensures Containers(Pop(s)) == Containers(s.up)
  {
    var u, g := s.up, Current(s);
    ToksConcat(u.kids, g);
    assert Toks(g) == ItemToks(g) + [];
    var a, b, c, d := Before(u.up), [Begin(u.kind, u.text)], Toks(u.kids), if u.kids.Nil? then [] else [COMMA];
    assert a + b + (c + d + ItemToks(g)) == (a + b + c + d) + ItemToks(g);
  }

  lemma PopFull(s: Spine)
    requires s.Frame? && FullSpine(s) && (s.kind == Key ==> s.kids.Cons?)
    ensures FullSpine(Pop(s))
  {
    assert FullSpine(s.up);
    assert Full(Current(s));
    if Kids(s.up).Cons? { ToksConcat(Kids(s.up), Current(s)); }
  }

  function Ended(s: Spine): seq<Token> { if s.Top? then Toks(s.done) else Inside(s) }

  lemma KeyClimb(s: Spine)
    requires s.Frame? && s.up.Frame? && s.up.kind == Key && s.up.kids.Nil?
    requires s.up.up.Frame? && s.up.up.kind == Object
    ensures Pop(s) == s.up.(kids := Current(s)) && Pop(Pop(s)).Frame?
    ensures ContainerParent(s) == Pop(Pop(s))
  {
    assert Climb(s, {Object, Array}) == Climb(Pop(s), {Object, Array});
  }

  lemma Regroup<T>(a: seq<T>, b: seq<T>, c: seq<T>, d: seq<T>)
    ensures a + (b + c + d) == (a + b + c) + d
  {
  }

  /** A value below a key: two steps up to the object. */
  lemma KeyLanded(s: Spine)
    requires s.Frame? && s.up.Frame? && s.up.kind == Key && s.up.kids.Nil?
    requires s.up.up.Frame? && s.up.up.kind == Object
    ensures Pop(Pop(s)).Frame? && Inside(Pop(Pop(s))) == Before(s.up) + ItemToks(Current(s))
    ensures Containers(Pop(Pop(s))) == Containers(s.up)
  {
    var u, k := s.up, s.up.(kids := Current(s));
    KeyClimb(s);
    PopInside(k);
    KeyToks(k);
    var b := [Token(StringToken, u.text)];
    Regroup(Before(u.up), b, [COLON], ItemToks(Current(s)));
    assert Before(u) == Before(u.up) + b + [COLON] by {
      assert Inside(u) == Before(u.up) + b + [] == Before(u.up) + b;
    }
  }

  lemma KeyToks(k: Spine)
    requires k.Frame? && k.kind == Key && k.kids.Cons? && k.kids.sibs.Nil?
    ensures ItemToks(Current(k)) == [Token(StringToken, k.text)] + [COLON] + ItemToks(k.kids)
  {
    assert Toks(k.kids) == ItemToks(k.kids) + [];
  }

  /** A finished value: the walk up to its container accounts for all its tokens. */
  lemma Landed(s: Spine)
    requires s.Frame? && SpineOk(s) && s.kind != Key && FullSpine(s)
    ensures var r := ContainerParent(s);
      Ended(r) == Before(s.up) + ItemToks(Current(s)) && Containers(r) == Containers(s.up) && FullSpine(r)
  {
    PopFull(s);
    assert SpineOk(s.up);
    if s.up.Top? {
      assert Toks(Current(s)) == ItemToks(Current(s)) + [];
    } else if s.up.kind != Key {
      PopInside(s);
    } else {
      assert s.up.up.Frame? && s.up.up.kind == Object;
      KeyClimb(s);
      KeyLanded(s);
      PopFull(Pop(s));
    }
  }

  // ----- soundness: what is accepted is a sentence -----

  /** The bookkeeping of one step: a token is consumed, the open brackets are those of the spine. */
  ghost predicate Tracks(c: Config, t: Token, c': Config) {
    Consumed(c') == Consumed(c) + [t] && Containers(c'.spine) == NestStep(Containers(c.spine), t) && FullSpine(c'.spine)
  }

  lemma InsertTracks(c: Config, kind: Kind, t: Token, state: State, cap: nat)
    requires c.next < cap && Proper(t) && FullSpine(c.spine) && kind != Unknown
    requires c.state == ExpectKey || c.state == ExpectValue
    requires Begin(kind, t.text) == t && (kind == Object || kind == Array || kind == Key || IsScalar(kind))
    requires state == match kind
                      case Object => ExpectKey
                      case Array => ExpectValue
                      case Key => ExpectColon
                      case _ => HaveValue
    ensures Tracks(c, t, Insert(c, kind, t.text, state, cap))
  {
    var s := Insert(c, kind, t.text, state, cap).spine;
    assert Clip(t.text) == t.text;
    assert Inside(s) == Before(c.spine) + [t] + [];
    if kind == Object || kind == Array {
      assert Before(s) == Inside(s) + [];
    }
  }

  lemma ItemOf(s: Spine)
    requires s.Frame? && IsContainer(s.kind)
    ensures ItemToks(Current(s)) == [Begin(s.kind, s.text)] + Toks(s.kids)
      + [if s.kind == Object then CLOSE_BRACE else CLOSE_BRACKET]
  {
  }

  /** Closing the innermost open container, seen from inside it. */
  lemma CloseTracks(c: Config, s: Spine, t: Token, cap: nat)
    requires s.Frame? && SpineOk(s) && FullSpine(s) && IsContainer(s.kind)
    requires t == (if s.kind == Object then CLOSE_BRACE else CLOSE_BRACKET)
    requires Consumed(c) == Inside(s) && Containers(c.spine) == Containers(s)
    ensures Tracks(c, t, Closed(c, s))
  {
    hide SpineOk, Accepts, Toks, ItemToks, Climb, Pop;
    ItemOf(s);
    Landed(s);
    Regroup(Before(s.up), [Begin(s.kind, s.text)], Toks(s.kids), [t]);
    assert Ended(ContainerParent(s)) == Inside(s) + [t];
  }

  /** From a scalar, both parent walks of the parser end at the innermost open container. */
  lemma ScalarClimb(s: Spine)
    requires s.Frame? && SpineOk(s) && FullSpine(s) && IsScalar(s.kind)
    ensures var r := ContainerParent(s);
      && Ended(r) == Inside(s) && Containers(r) == Containers(s) && FullSpine(r) && SpineOk(r) && Kids(r).Cons?
      && (r.Frame? ==> IsContainer(r.kind) && Climb(s, {r.kind}) == r)
  {
    Landed(s);
    ClimbKeeps(s, {Object, Array});
    assert Inside(s) == Before(s.up) + ItemToks(Current(s));
    if s.up.Frame? && s.up.kind == Key { KeyClimb(s); }
  }

  /** The current node, or the container around it when it is a scalar. */
  function Settled(s: Spine): Spine { if s.Frame? && IsScalar(s.kind) then ContainerParent(s) else s }

  lemma SettledFacts(c: Config, cap: nat)
    requires Inv(c, cap) && c.state == HaveValue && FullSpine(c.spine)
    ensures var r := Settled(c.spine);
      && Ended(r) == Inside(c.spine) && Containers(r) == Containers(c.spine)
      && FullSpine(r) && SpineOk(r) && Kids(r).Cons? && (r.Frame? ==> IsContainer(r.kind))
    ensures var r := Settled(c.spine);
      r.Frame? ==> CommaStep(c) == Config(r, c.next, if r.kind == Array then ExpectValue else ExpectKey, c.status)
    ensures Settled(c.spine).Top? ==> CommaStep(c).status == UnexpectedToken
    ensures var r := Settled(c.spine); r.Frame? && r.kind == Object ==> CloseBrace(c) == Closed(c, r)
    ensures var r := Settled(c.spine); r.Frame? && r.kind == Array ==> CloseBracket(c) == Closed(c, r)
  {
    if IsScalar(c.spine.kind) { ScalarClimb(c.spine); }
  }

  lemma HaveValueTracks(c: Config, t: Token, cap: nat)
    requires Inv(c, cap) && FullSpine(c.spine) && c.state == HaveValue && Proper(t)
    requires NestOk(Containers(c.spine), t) && HaveValueStep(c, t).status == NoError
    ensures Tracks(c, t, HaveValueStep(c, t))
  {
    SettledFacts(c, cap);
    var r := Settled(c.spine);
    if t.kind == TokenKind.Comma {
      assert Before(r) == Inside(r) + [COMMA];
    } else {
      CloseTracks(c, r, t, cap);
    }
  }

  lemma ExpectKeyTracks(c: Config, t: Token, cap: nat)
    requires Inv(c, cap) && FullSpine(c.spine) && c.state == ExpectKey && Proper(t)
    requires ExpectKeyStep(c, t, cap).status == NoError
    ensures Tracks(c, t, ExpectKeyStep(c, t, cap))
  {
    if t.kind == StringToken {
      InsertTracks(c, Key, t, ExpectColon, cap);
    } else {
      assert Before(c.spine) == Inside(c.spine) + [];
      CloseTracks(c, c.spine, t, cap);
    }
  }

  lemma KeyNest(s: Spine)
    requires s.Frame? && SpineOk(s) && s.kind == Key
    ensures Containers(s).In? && Containers(s).kind == Object
  {
  }

  lemma ExpectValueTracks(c: Config, t: Token, cap: nat)
    requires Inv(c, cap) && FullSpine(c.spine) && c.state == ExpectValue && Proper(t)
    requires NestOk(Containers(c.spine), t) && ExpectValueStep(c, t, cap).status == NoError
    ensures Tracks(c, t, ExpectValueStep(c, t, cap))
  {
    match t.kind
    case OpeningBrace => InsertTracks(c, Object, t, ExpectKey, cap);
    case OpeningBracket => InsertTracks(c, Array, t, ExpectValue, cap);
    case ClosingBracket =>
      if c.spine.kind == Key { KeyNest(c.spine); }
      assert Before(c.spine) == Inside(c.spine) + [];
      CloseTracks(c, c.spine, t, cap);
    case ClosingBrace =>
    case _ => InsertTracks(c, ScalarKind(t.kind), t, HaveValue, cap);
  }

  lemma StepTracks(c: Config, t: Token, cap: nat)
    requires Inv(c, cap) && FullSpine(c.spine) && !Stopped(c) && Proper(t)
    requires NestOk(Containers(c.spine), t) && Step(c, t, cap).status == NoError
    ensures Tracks(c, t, Step(c, t, cap)) && Step(c, t, cap).state != End
  {
    match c.state
    case ExpectKey => ExpectKeyTracks(c, t, cap);
    case ExpectColon =>
    case ExpectValue => ExpectValueTracks(c, t, cap);
    case HaveValue => HaveValueTracks(c, t, cap);
    case _ =>
  }

  predicate Accepted(r: Config) { r.status == NoError && r.state == End }

  lemma EndTracks(c: Config, cap: nat)
    requires Inv(c, cap) && FullSpine(c.spine) && !Stopped(c) && Accepted(Step(c, EOF, cap))
    ensures var s := Step(c, EOF, cap).spine; s == c.spine && Toks(Plug(s)) == Consumed(c) && Full(Plug(s))
  {
    if c.spine.Frame? {
      assert FullSpine(c.spine.up);
      assert Concat(Nil, Current(c.spine)) == Current(c.spine);
      assert Plug(c.spine) == Plug(Top(Current(c.spine))) == Current(c.spine);
      assert Inside(c.spine) == [Begin(c.spine.kind, c.spine.text)] == Toks(Current(c.spine));
    }
  }

  /** The machine stands behind the tokens `read`, will accept the rest, and the rest closes all
      open brackets. */
  ghost predicate Ready(c: Config, read: seq<Token>, ts: seq<Token>, cap: nat) {
    && Inv(c, cap) && FullSpine(c.spine) && !Stopped(c) && Consumed(c) == read
    && AllProper(ts) && Balanced(ts, Containers(c.spine)) && Accepted(Run(c, ts + [EOF], cap))
  }

  ghost predicate Yields(r: Config, read: seq<Token>) { Toks(Plug(r.spine)) == read && Full(Plug(r.spine)) }

  lemma SoundStep(c: Config, read: seq<Token>, ts: seq<Token>, cap: nat)
    requires Ready(c, read, ts, cap) && cap <= NONE && ts != []
    ensures Ready(Step(c, ts[0], cap), read + [ts[0]], ts[1..], cap)
    ensures Run(c, ts + [EOF], cap) == Run(Step(c, ts[0], cap), ts[1..] + [EOF], cap)
  {
    var c' := Step(c, ts[0], cap);
    assert (ts + [EOF])[1..] == ts[1..] + [EOF];
    assert Run(c, ts + [EOF], cap) == Run(c', ts[1..] + [EOF], cap);
    StepKeeps(c, ts[0], cap);
    StepTracks(c, ts[0], cap);
  }

  lemma RunOne(c: Config, t: Token, cap: nat)
    requires !Stopped(c)
    ensures Run(c, [t], cap) == Step(c, t, cap)
  {
    assert [t][1..] == [];
  }

  lemma SoundEnd(c: Config, read: seq<Token>, cap: nat)
    requires Ready(c, read, [], cap)
    ensures Yields(Run(c, [] + [EOF], cap), read)
  {
    assert [] + [EOF] == [EOF];
    RunOne(c, EOF, cap);
    EndTracks(c, cap);
  }

  /** Whatever the parser accepts while the brackets match is the sentence of the tree it built. */
  lemma {:induction false} Sound(c: Config, read: seq<Token>, ts: seq<Token>, cap: nat)
    requires Ready(c, read, ts, cap) && cap <= NONE
    ensures Yields(Run(c, ts + [EOF], cap), read + ts)
    decreases |ts|
  {
    hide Yields, Ready, Run, Step;
    if ts == [] {
      SoundEnd(c, read, cap);
      assert read + [] == read;
    } else {
      SoundStep(c, read, ts, cap);
      Sound(Step(c, ts[0], cap), read + [ts[0]], ts[1..], cap);
      assert read + [ts[0]] + ts[1..] == read + ts;
    }
  }

  // ----- completeness: every sentence that fits is accepted, and its tree is rebuilt -----

  function OwnText(kind: Kind, text: string): string {
    if kind == Object then "{" else if kind == Array then "[" else text
  }

  /** The same tree in pool slots `n`, `n + 1`, ... in document order; a container carries its
      opening character as text. */
  function Fresh(f: Forest, n: nat): Forest {
    if f.Nil? then Nil
    else Cons(n, f.kind, OwnText(f.kind, f.text), Fresh(f.kids, n + 1), Fresh(f.sibs, n + 1 + Size(f.kids)))
  }

  /** All names and values fit the 16-bit length field. */
  predicate ShortTexts(f: Forest) {
    f.Cons? ==> (IsContainer(f.kind) || |f.text| < 0x1_0000) && ShortTexts(f.kids) && ShortTexts(f.sibs)
  }

  /** No name of `f` is taken in `g`. */
  predicate Unused(g: Forest, f: Forest) {
    f.Cons? ==> KeyIn(g, f.text) == NONE && Unused(g, f.sibs)
  }

  lemma {:induction false} RunConcat(c: Config, a: seq<Token>, b: seq<Token>, cap: nat)
    ensures Run(c, a + b, cap) == Run(Run(c, a, cap), b, cap)
    decreases |a|
  {
    if a == [] {
      assert a + b == b;
    } else if !Stopped(c) {
      assert (a + b)[1..] == a[1..] + b;
      RunConcat(Step(c, a[0], cap), a[1..], b, cap);
    }
  }

  /** Where the machine stands behind a value: on the scalar itself, or in the container. */
  function Landing(c: Config, f: Forest): Config
    requires f.Cons?
  {
    var s := Frame(c.spine, c.next, f.kind, OwnText(f.kind, f.text), Fresh(f.kids, c.next + 1));
    var next := c.next + 1 + Size(f.kids);
    if IsScalar(f.kind) then Config(s, next, HaveValue, NoError)
    else Closed(Config(s, next, HaveValue, NoError), s)
  }

  /** A machine behind a value whose container is `s`. */
  ghost predicate Behind(c: Config, s: Spine, next: nat) {
    && c.status == NoError && c.state == HaveValue && c.next == next && s.Frame? && s.kids.Cons? && IsContainer(s.kind)
    && (c.spine == s || (c.spine.Frame? && IsScalar(c.spine.kind) && ContainerParent(c.spine) == s
        && Climb(c.spine, {s.kind}) == s))
  }

  lemma BehindSteps(c: Config, s: Spine, next: nat, cap: nat)
    requires Behind(c, s, next)
    ensures Step(c, COMMA, cap) == Config(s, next, if s.kind == Array then ExpectValue else ExpectKey, NoError)
    ensures Step(c, if s.kind == Array then CLOSE_BRACKET else CLOSE_BRACE, cap) == Closed(c, s)
  {
  }

  /** The node that a sentence adds, alone. */
  function Added(f: Forest, n: nat): Forest
    requires f.Cons?
  {
    Cons(n, f.kind, OwnText(f.kind, f.text), Fresh(f.kids, n + 1), Nil)
  }

  /** Behind an element of an array. */
  lemma LandInArray(c: Config, f: Forest)
    requires f.Cons? && f.kind != Key && c.spine.Frame? && c.spine.kind == Array
    requires IsScalar(f.kind) || IsContainer(f.kind)
    ensures Behind(Landing(c, f), c.spine.(kids := Concat(c.spine.kids, Added(f, c.next))), c.next + 1 + Size(f.kids))
  {
    ConcatFacts(c.spine.kids, Added(f, c.next));
  }

  /** Behind the value of a key. */
  lemma LandInObject(c: Config, f: Forest)
    requires f.Cons? && (IsScalar(f.kind) || IsContainer(f.kind))
    requires c.spine.Frame? && c.spine.kind == Key && c.spine.kids.Nil?
    requires c.spine.up.Frame? && c.spine.up.kind == Object
    ensures var o := c.spine.up;
      Behind(Landing(c, f), o.(kids := Concat(o.kids, Cons(c.spine.id, Key, c.spine.text, Added(f, c.next), Nil))),
             c.next + 1 + Size(f.kids))
  {
    var s := Frame(c.spine, c.next, f.kind, OwnText(f.kind, f.text), Fresh(f.kids, c.next + 1));
    KeyClimb(s);
    assert Climb(s, {Object}) == Climb(Pop(s), {Object});
    ConcatFacts(c.spine.up.kids, Cons(c.spine.id, Key, c.spine.text, Added(f, c.next), Nil));
  }

  /** A chain of complete nodes below a node of kind `k`. */
  ghost predicate Complete(f: Forest, k: Kind) { Shaped(f, k) && Full(f) && ShortTexts(f) && NONE !in Ids(f) }

  lemma {:induction false} UnusedNext(g: Forest, key: Forest, f: Forest)
    requires Unused(g, f) && Shaped(g, Object) && NONE !in Ids(g) && Shaped(f, Object) && NONE !in Ids(f)
    requires key.Cons? && key.kind == Key && key.sibs.Nil? && KeyIn(f, key.text) == NONE
    ensures Unused(Concat(g, key), f)
  {
    if f.Cons? {
      KeyInConcat(g, key, f.text);
      UnusedNext(g, key, f.sibs);
    }
  }

  lemma {:induction false} UnusedNil(f: Forest)
    ensures Unused(Nil, f)
  {
    if f.Cons? { UnusedNil(f.sibs); }
  }

  lemma {:induction false} ConcatAssoc(f: Forest, g: Forest, h: Forest)
    ensures Concat(Concat(f, g), h) == Concat(f, Concat(g, h))
  {
    if f.Cons? { ConcatAssoc(f.sibs, g, h); }
  }

  lemma AddedFirst(g: Forest, f: Forest, n: nat)
    requires f.Cons?
    ensures Concat(Concat(g, Added(f, n)), Fresh(f.sibs, n + 1 + Size(f.kids))) == Concat(g, Fresh(f, n))
    ensures f.sibs.Nil? ==> Added(f, n) == Fresh(f, n)
  {
    ConcatAssoc(g, Added(f, n), Fresh(f.sibs, n + 1 + Size(f.kids)));
  }

  /** A value in an array: a comma, and the machine waits for the next node. */
  lemma CommaThen(c: Config, s: Spine, next: nat, rest: seq<Token>, cap: nat)
    requires Behind(c, s, next)
    ensures Run(c, [COMMA] + rest, cap)
        == Run(Config(s, next, if s.kind == Array then ExpectValue else ExpectKey, NoError), rest, cap)
  {
    BehindSteps(c, s, next, cap);
    RunOne(c, COMMA, cap);
    RunConcat(c, [COMMA], rest, cap);
  }

  /** The machine inside a container that was just opened. */
  function Opened(c: Config, kind: Kind): Config {
    Config(Frame(c.spine, c.next, kind, OwnText(kind, ""), Nil), c.next + 1,
        if kind == Array then ExpectValue else ExpectKey, NoError)
  }

  lemma RunScalar(c: Config, f: Forest, cap: nat)
    requires f.Cons? && IsScalar(f.kind) && f.kids.Nil? && |f.text| < 0x1_0000
    requires c.state == ExpectValue && !Stopped(c) && c.next < cap
    ensures Run(c, ItemToks(f), cap) == Landing(c, f)
  {
    assert Clip(f.text) == f.text;
    RunOne(c, Token(ScalarToken(f.kind), f.text), cap);
  }

  /** A container around contents that bring the machine from behind the opening to before the closing. */
  lemma RunContainer(c: Config, f: Forest, cap: nat)
    requires f.Cons? && IsContainer(f.kind) && c.state == ExpectValue && !Stopped(c) && c.next < cap
    requires f.kids.Cons? ==>
      Behind(Run(Opened(c, f.kind), Toks(f.kids), cap),
             AllRead(Opened(c, f.kind), f.kids), c.next + 1 + Size(f.kids))
    ensures Run(c, ItemToks(f), cap) == Landing(c, f)
  {
    hide Step, AllRead, Fresh, OwnText, Toks, ItemToks, Run, Closed, Landing, Behind;
    var o, s := Opened(c, f.kind), AllRead(Opened(c, f.kind), f.kids);
    var r := Run(o, Toks(f.kids), cap);
    var open := if f.kind == Array then OPEN_BRACKET else OPEN_BRACE;
    var close := if f.kind == Array then CLOSE_BRACKET else CLOSE_BRACE;
    OpenStep(c, f.kind, cap);
    ContainerRead(c, f);
    if f.kids.Cons? {
      BehindSteps(r, s, c.next + 1 + Size(f.kids), cap);
      BehindNext(r, s, c.next + 1 + Size(f.kids));
    } else {
      EmptyStep(c, f, cap);
    }
    ClosedNext(r, Config(s, c.next + 1 + Size(f.kids), HaveValue, NoError), s);
    Bracketed(c, open, Toks(f.kids), close, cap);
  }

  lemma BehindNext(c: Config, s: Spine, next: nat)
    requires Behind(c, s, next)
    ensures c.next == next && !Stopped(c) && (s.kind == Array || s.kind == Object)
  {
  }

  lemma ClosedNext(c: Config, c': Config, s: Spine)
    requires c.next == c'.next
    ensures Closed(c, s) == Closed(c', s)
  {
  }

  /** A container read to the end, and how it is left. */
  lemma ContainerRead(c: Config, f: Forest)
    requires f.Cons? && IsContainer(f.kind)
    ensures var s := AllRead(Opened(c, f.kind), f.kids);
      && s == Frame(c.spine, c.next, f.kind, OwnText(f.kind, f.text), Fresh(f.kids, c.next + 1))
      && Landing(c, f) == Closed(Config(s, c.next + 1 + Size(f.kids), HaveValue, NoError), s)
    ensures ItemToks(f) == [if f.kind == Array then OPEN_BRACKET else OPEN_BRACE] + Toks(f.kids)
      + [if f.kind == Array then CLOSE_BRACKET else CLOSE_BRACE]
  {
    hide Toks, Closed, Fresh, Size;
    assert Concat(Nil, Fresh(f.kids, c.next + 1)) == Fresh(f.kids, c.next + 1);
  }

  lemma EmptyStep(c: Config, f: Forest, cap: nat)
    requires f.Cons? && IsContainer(f.kind) && f.kids.Nil?
    ensures var o, s := Opened(c, f.kind), AllRead(Opened(c, f.kind), f.kids);
      && Run(o, Toks(f.kids), cap) == o && !Stopped(o) && o.next == c.next + 1
      && Step(o, if f.kind == Array then CLOSE_BRACKET else CLOSE_BRACE, cap) == Closed(o, s)
  {
  }

  lemma OpenStep(c: Config, kind: Kind, cap: nat)
    requires IsContainer(kind) && c.state == ExpectValue && !Stopped(c) && c.next < cap
    ensures Step(c, if kind == Array then OPEN_BRACKET else OPEN_BRACE, cap) == Opened(c, kind)
  {
    assert Clip("{") == "{" && Clip("[") == "[";
  }

  lemma Bracketed(c: Config, open: Token, mid: seq<Token>, close: Token, cap: nat)
    requires !Stopped(c) && !Stopped(Run(Step(c, open, cap), mid, cap))
    ensures Run(c, [open] + mid + [close], cap) == Step(Run(Step(c, open, cap), mid, cap), close, cap)
  {
    RunOne(c, open, cap);
    RunConcat(c, [open], mid, cap);
    RunConcat(c, [open] + mid, [close], cap);
    RunOne(Run(Step(c, open, cap), mid, cap), close, cap);
  }

  /** Reading a value. */
  lemma {:induction false} RunValue(c: Config, f: Forest, cap: nat)
    requires f.Cons? && Complete(f, Array) && c.state == ExpectValue && !Stopped(c)
    requires c.next + 1 + Size(f.kids) <= cap <= NONE
    ensures Run(c, ItemToks(f), cap) == Landing(c, f)
    decreases f, 0
  {
    hide Run, Landing, ItemToks, Toks, Behind, AllRead;
    if IsScalar(f.kind) {
      RunScalar(c, f, cap);
    } else {
      if f.kids.Cons? {
        UnusedNil(f.kids);
        if f.kind == Array {
          RunElements(Opened(c, Array), f.kids, cap);
        } else {
          RunMembers(Opened(c, Object), f.kids, cap);
        }
      }
      RunContainer(c, f, cap);
    }
  }

  /** The machine behind the first node of a chain and, if more follow, the comma. */
  function Next(c: Config, f: Forest): Config
    requires f.Cons? && c.spine.Frame?
  {
    var s := c.spine.(kids := Concat(c.spine.kids, Added(f, c.next)));
    Config(s, c.next + 1 + Size(f.kids), if s.kind == Array then ExpectValue else ExpectKey, NoError)
  }

  function AllRead(c: Config, f: Forest): Spine
    requires c.spine.Frame?
  {
    c.spine.(kids := Concat(c.spine.kids, Fresh(f, c.next)))
  }

  /** From one node of a chain to the next. */
  lemma ThenRest(c: Config, f: Forest, cap: nat)
    requires f.Cons? && c.spine.Frame?
    requires Behind(Run(c, ItemToks(f), cap), Next(c, f).spine, Next(c, f).next)
    ensures f.sibs.Nil? ==> Run(c, Toks(f), cap) == Run(c, ItemToks(f), cap) && AllRead(c, f) == Next(c, f).spine
    ensures f.sibs.Cons? ==>
      Run(c, Toks(f), cap) == Run(Next(c, f), Toks(f.sibs), cap) && AllRead(c, f) == AllRead(Next(c, f), f.sibs)
  {
    AddedFirst(c.spine.kids, f, c.next);
    var r := Run(c, ItemToks(f), cap);
    if f.sibs.Nil? {
      assert Toks(f) == ItemToks(f) + [] == ItemToks(f);
    } else {
      assert Run(c, Toks(f), cap) == Run(r, [COMMA] + Toks(f.sibs), cap) by {
        RunConcat(c, ItemToks(f), TailToks(f.sibs), cap);
      }
      CommaThen(r, Next(c, f).spine, Next(c, f).next, Toks(f.sibs), cap);
      assert AllRead(c, f) == AllRead(Next(c, f), f.sibs);
    }
  }

  /** Reading the elements of an array. */
  lemma {:induction false} RunElements(c: Config, f: Forest, cap: nat)
    requires f.Cons? && Complete(f, Array) && c.state == ExpectValue && !Stopped(c)
    requires c.spine.Frame? && c.spine.kind == Array && c.next + Size(f) <= cap <= NONE
    ensures Behind(Run(c, Toks(f), cap), AllRead(c, f), c.next + Size(f))
    decreases f, 1
  {
    RunValue(c, f, cap);
    LandInArray(c, f);
    ThenRest(c, f, cap);
    if f.sibs.Cons? { RunElements(Next(c, f), f.sibs, cap); }
  }

  lemma {:induction false} ShapedElsewhere(f: Forest, k: Kind, k': Kind)
    requires Shaped(f, k) && k != Object && k' != Object
    ensures Shaped(f, k')
  {
    if f.Cons? { ShapedElsewhere(f.sibs, k, k'); }
  }

  /** Behind a name and its colon. */
  function Named(c: Config, text: string): Config {
    Config(Frame(c.spine, c.next, Key, text, Nil), c.next + 1, ExpectValue, NoError)
  }

  /** Reading a name and the colon behind it. */
  lemma RunName(c: Config, text: string, cap: nat)
    requires c.state == ExpectKey && !Stopped(c) && c.next < cap && |text| < 0x1_0000
    requires c.spine.Frame? && KeyIn(c.spine.kids, text) == NONE
    ensures Run(c, [Token(StringToken, text), COLON], cap) == Named(c, text)
  {
    var name := Token(StringToken, text);
    assert Clip(text) == text;
    RunOne(c, name, cap);
    RunOne(Step(c, name, cap), COLON, cap);
    RunConcat(c, [name], [COLON], cap);
    assert [name] + [COLON] == [name, COLON];
  }

  lemma NameThen(c: Config, f: Forest, cap: nat)
    requires f.Cons? && f.kind == Key && f.kids.Cons? && f.kids.sibs.Nil? && |f.text| < 0x1_0000
    requires c.state == ExpectKey && !Stopped(c) && c.next < cap
    requires c.spine.Frame? && KeyIn(c.spine.kids, f.text) == NONE
    ensures Run(c, ItemToks(f), cap) == Run(Named(c, f.text), ItemToks(f.kids), cap)
  {
    RunName(c, f.text, cap);
    RunConcat(c, [Token(StringToken, f.text), COLON], Toks(f.kids), cap);
    assert Toks(f.kids) == ItemToks(f.kids) + [] == ItemToks(f.kids);
  }

  /** Reading one member of an object: name, colon, value. */
  lemma {:induction false} RunMember(c: Config, f: Forest, cap: nat)
    requires f.Cons? && Complete(f, Object) && c.state == ExpectKey && !Stopped(c)
    requires c.spine.Frame? && c.spine.kind == Object && c.next + 1 + Size(f.kids) <= cap <= NONE
    requires KeyIn(c.spine.kids, f.text) == NONE
    ensures Behind(Run(c, ItemToks(f), cap), Next(c, f).spine, Next(c, f).next)
    decreases f, 0
  {
    MemberValue(f, c.next);
    NameThen(c, f, cap);
    RunValue(Named(c, f.text), f.kids, cap);
    MemberLands(c, f);
  }

  lemma MemberLands(c: Config, f: Forest)
    requires f.Cons? && f.kind == Key && f.kids.Cons? && (IsScalar(f.kids.kind) || IsContainer(f.kids.kind))
    requires c.spine.Frame? && c.spine.kind == Object && Size(f.kids) == 1 + Size(f.kids.kids)
    requires Added(f, c.next) == Cons(c.next, Key, f.text, Added(f.kids, c.next + 1), Nil)
    ensures Behind(Landing(Named(c, f.text), f.kids), Next(c, f).spine, Next(c, f).next)
  {
    LandInObject(Named(c, f.text), f.kids);
  }

  lemma MemberValue(f: Forest, n: nat)
    requires f.Cons? && Complete(f, Object)
    ensures f.kind == Key && f.kids.Cons? && f.kids.sibs.Nil? && Complete(f.kids, Array)
    ensures Added(f, n) == Cons(n, Key, f.text, Added(f.kids, n + 1), Nil)
    ensures |f.text| < 0x1_0000 && Size(f.kids) == 1 + Size(f.kids.kids)
  {
    ShapedElsewhere(f.kids, Key, Array);
    assert Added(f.kids, n + 1) == Fresh(f.kids, n + 1);
  }

  lemma MemberNext(g: Forest, f: Forest, n: nat)
    requires f.Cons? && Complete(f, Object) && DistinctTexts(f) && n + Size(f) <= NONE
    requires Unused(g, f) && Shaped(g, Object) && NONE !in Ids(g)
    ensures var g' := Concat(g, Added(f, n)); Unused(g', f.sibs) && Shaped(g', Object) && NONE !in Ids(g')
  {
    UnusedNext(g, Added(f, n), f.sibs);
    FreshShaped(f.(sibs := Nil), Object, n);
    ConcatFacts(g, Added(f, n));
    ShapedConcat(g, Added(f, n), Object);
  }

  /** Reading the members of an object. */
  lemma {:induction false} RunMembers(c: Config, f: Forest, cap: nat)
    requires f.Cons? && Complete(f, Object) && DistinctTexts(f) && c.state == ExpectKey && !Stopped(c)
    requires c.spine.Frame? && c.spine.kind == Object && c.next + Size(f) <= cap <= NONE
    requires Unused(c.spine.kids, f) && Shaped(c.spine.kids, Object) && NONE !in Ids(c.spine.kids)
    ensures Behind(Run(c, Toks(f), cap), AllRead(c, f), c.next + Size(f))
    decreases f, 1
  {
    RunMember(c, f, cap);
    ThenRest(c, f, cap);
    MemberNext(c.spine.kids, f, c.next);
    if f.sibs.Cons? { RunMembers(Next(c, f), f.sibs, cap); }
  }

  lemma {:induction false} FreshIds(f: Forest, n: nat)
    requires n + Size(f) <= NONE
    ensures NONE !in Ids(Fresh(f, n))
  {
    if f.Cons? {
      FreshIds(f.kids, n + 1);
      FreshIds(f.sibs, n + 1 + Size(f.kids));
    }
  }

  lemma {:induction false} FreshNames(f: Forest, n: nat)
    requires Nested(f, Object) && NONE !in Ids(f)
    ensures DistinctTexts(f) ==> DistinctTexts(Fresh(f, n))
    ensures forall t :: KeyIn(f, t) == NONE ==> KeyIn(Fresh(f, n), t) == NONE
  {
    if f.Cons? { FreshNames(f.sibs, n + 1 + Size(f.kids)); }
  }

  lemma {:induction false} FreshDistinct(f: Forest, k: Kind, n: nat)
    requires Nested(f, k) && NamesDistinct(f) && NONE !in Ids(f)
    ensures NamesDistinct(Fresh(f, n))
  {
    if f.Cons? {
      if f.kind == Object { FreshNames(f.kids, n + 1); }
      FreshDistinct(f.kids, f.kind, n + 1);
      FreshDistinct(f.sibs, k, n + 1 + Size(f.kids));
    }
  }

  lemma {:induction false} FreshNested(f: Forest, k: Kind, n: nat)
    requires Nested(f, k)
    ensures Nested(Fresh(f, n), k)
  {
    if f.Cons? {
      FreshNested(f.kids, f.kind, n + 1);
      FreshNested(f.sibs, k, n + 1 + Size(f.kids));
      if f.kids.Cons? { assert Fresh(f.kids, n + 1).sibs.Nil? == f.kids.sibs.Nil?; }
    }
  }

  lemma FreshShaped(f: Forest, k: Kind, n: nat)
    requires Shaped(f, k) && NONE !in Ids(f) && n + Size(f) <= NONE
    ensures Shaped(Fresh(f, n), k) && NONE !in Ids(Fresh(f, n))
  {
    ShapedSplits(f, k);
    FreshNested(f, k, n);
    FreshDistinct(f, k, n);
    ShapedSplits(Fresh(f, n), k);
    FreshIds(f, n);
  }
  // ----- the grammar theorem -----

  lemma {:induction false} ToksBalanced(f: Forest, n: Nest, rest: seq<Token>)
    ensures Balanced(Toks(f) + rest, n) == Balanced(rest, n)
    decreases f, 1
  {
    ChainShape(f, rest);
    hide Toks, TailToks, ItemToks, Balanced;
    if f.Cons? {
      ItemBalanced(f, n, TailToks(f.sibs) + rest);
      if f.sibs.Cons? {
        BalancedFirst(COMMA, Toks(f.sibs) + rest, n);
        ToksBalanced(f.sibs, n, rest);
      }
    }
  }

  lemma ChainShape(f: Forest, rest: seq<Token>)
    ensures f.Nil? ==> Toks(f) + rest == rest
    ensures f.Cons? ==> Toks(f) + rest == ItemToks(f) + (TailToks(f.sibs) + rest)
    ensures f.Cons? && f.sibs.Nil? ==> TailToks(f.sibs) + rest == rest
    ensures f.Cons? && f.sibs.Cons? ==> TailToks(f.sibs) + rest == [COMMA] + (Toks(f.sibs) + rest)
  {
    hide ItemToks;
  }

  lemma BalancedFirst(t: Token, rest: seq<Token>, n: Nest)
    ensures Balanced([t] + rest, n) == (NestOk(n, t) && Balanced(rest, NestStep(n, t)))
  {
    assert ([t] + rest)[1..] == rest;
  }

  lemma {:induction false} ItemBalanced(f: Forest, n: Nest, rest: seq<Token>)
    requires f.Cons?
    ensures Balanced(ItemToks(f) + rest, n) == Balanced(rest, n)
    decreases f, 0
  {
    var t := Begin(f.kind, f.text);
    ItemShape(f, rest);
    hide ItemToks, Toks;
    if IsContainer(f.kind) {
      var close := if f.kind == Object then CLOSE_BRACE else CLOSE_BRACKET;
      BalancedFirst(t, Toks(f.kids) + ([close] + rest), n);
      ToksBalanced(f.kids, In(f.kind, n), [close] + rest);
      BalancedFirst(close, rest, In(f.kind, n));
    } else if f.kind == Key {
      BalancedFirst(t, [COLON] + (Toks(f.kids) + rest), n);
      BalancedFirst(COLON, Toks(f.kids) + rest, n);
      ToksBalanced(f.kids, n, rest);
    } else {
      BalancedFirst(t, rest, n);
    }
  }

  lemma ItemShape(f: Forest, rest: seq<Token>)
    requires f.Cons?
    ensures var t, close := Begin(f.kind, f.text), if f.kind == Object then CLOSE_BRACE else CLOSE_BRACKET;
      ItemToks(f) + rest ==
        if IsContainer(f.kind) then [t] + (Toks(f.kids) + ([close] + rest))
        else if f.kind == Key then [t] + ([COLON] + (Toks(f.kids) + rest))
        else [t] + rest
  {
    hide Toks;
  }

  lemma ProperConcat(a: seq<Token>, b: seq<Token>)
    ensures AllProper(a + b) <==> AllProper(a) && AllProper(b)
  {
    assert forall t :: t in a + b <==> t in a || t in b;
  }

  /** The texts of a tree are those of its tokens. */
  lemma {:induction false} ToksProper(f: Forest, k: Kind)
    requires Shaped(f, k)
    ensures AllProper(Toks(f)) == ShortTexts(f)
  {
    if f.Cons? {
      ToksProper(f.kids, f.kind);
      ToksProper(f.sibs, k);
      ItemProper(f, k);
      ProperConcat(ItemToks(f), TailToks(f.sibs));
      ProperConcat([COMMA], Toks(f.sibs));
    }
  }

  lemma ItemProper(f: Forest, k: Kind)
    requires f.Cons? && Shaped(f, k)
    ensures AllProper(ItemToks(f)) == (Proper(Begin(f.kind, f.text)) && AllProper(Toks(f.kids)))
  {
    var t := Begin(f.kind, f.text);
    assert t in [t] && AllProper([t]) == Proper(t);
    if IsContainer(f.kind) {
      ProperConcat([t], Toks(f.kids));
      ProperConcat([t] + Toks(f.kids), [if f.kind == Object then CLOSE_BRACE else CLOSE_BRACKET]);
    } else if f.kind == Key {
      ProperConcat([t], [COLON]);
      assert [t] + [COLON] == [t, COLON];
      ProperConcat([t, COLON], Toks(f.kids));
    } else {
      assert ItemToks(f) == [t] && f.kids.Nil?;
    }
  }

  /** `t` is a parse of `ts`: one complete value without repeated names that fits the pool. */
  ghost predicate ParseOf(t: Forest, ts: seq<Token>, cap: nat) {
    t.Cons? && t.sibs.Nil? && Shaped(t, Unknown) && Full(t) && NONE !in Ids(t) && Size(t) <= cap && Toks(t) == ts
  }

  function Parse(ts: seq<Token>, cap: nat): Config { Run(INITIAL, ts + [EOF], cap) }

  /** A sentence is accepted, and what is left in the pool is its parse. */
  lemma SentenceAccepted(t: Forest, ts: seq<Token>, cap: nat)
    requires ParseOf(t, ts, cap) && AllProper(ts) && cap <= NONE
    ensures Accepted(Parse(ts, cap)) && Plug(Parse(ts, cap).spine) == Fresh(t, 0) && Parse(ts, cap).next == Size(t)
    ensures Balanced(ts, Outside)
  {
    ToksProper(t, Unknown);
    ToksBalanced(t, Outside, []);
    assert ts + [] == ts;
    ShapedElsewhere(t, Unknown, Array);
    RunConcat(INITIAL, ts, [EOF], cap);
    assert Toks(t) == ItemToks(t) + [] == ItemToks(t);
    RunValue(INITIAL, t, cap);
    LandAtTop(t, cap);
    RunOne(Landing(INITIAL, t), EOF, cap);
    AddedFirst(Nil, t, 0);
  }

  /** The end of text behind the only value of a document. */
  lemma EndAtTop(s: Spine, next: nat, cap: nat)
    requires s.Frame? && s.up == Top(Nil) && (IsScalar(s.kind) || IsContainer(s.kind))
    requires IsScalar(s.kind) ==> s.kids.Nil?
    ensures var c := Config(s, next, HaveValue, NoError);
      var r := Step(if IsScalar(s.kind) then c else Closed(c, s), EOF, cap);
      Accepted(r) && Plug(r.spine) == Current(s) && r.next == next
    ensures Closed(Config(s, next, HaveValue, NoError), s).state == ExpectEof
  {
    assert Pop(s) == ContainerParent(s) == Top(Current(s));
    assert Plug(s) == Plug(Top(Current(s))) == Current(s);
  }

  lemma LandAtTop(t: Forest, cap: nat)
    requires t.Cons? && t.sibs.Nil? && (IsScalar(t.kind) || IsContainer(t.kind)) && (IsScalar(t.kind) ==> t.kids.Nil?)
    ensures var r := Step(Landing(INITIAL, t), EOF, cap);
      Accepted(r) && Plug(r.spine) == Added(t, 0) && r.next == Size(t) && !Stopped(Landing(INITIAL, t))
  {
    hide Step, Closed, Fresh, OwnText, Plug, Landing, Added, Accepted, Stopped;
    LandedAtTop(t);
    EndAtTop(Frame(Top(Nil), 0, t.kind, OwnText(t.kind, t.text), Fresh(t.kids, 1)), 1 + Size(t.kids), cap);
  }

  lemma LandedAtTop(t: Forest)
    requires t.Cons? && t.sibs.Nil? && (IsScalar(t.kind) || IsContainer(t.kind)) && (IsScalar(t.kind) ==> t.kids.Nil?)
    ensures var s := Frame(Top(Nil), 0, t.kind, OwnText(t.kind, t.text), Fresh(t.kids, 1));
      var c := Config(s, 1 + Size(t.kids), HaveValue, NoError);
      && Landing(INITIAL, t) == (if IsScalar(t.kind) then c else Closed(c, s)) && !Stopped(Landing(INITIAL, t))
      && Added(t, 0) == Current(s) && Size(t) == c.next && (t.kids.Nil? ==> s.kids.Nil?)
  {
    hide OwnText;
  }

  /** What is accepted with matching brackets is a sentence, with the tree built as its parse. */
  lemma AcceptedSentence(ts: seq<Token>, cap: nat)
    requires AllProper(ts) && cap <= NONE && Accepted(Parse(ts, cap)) && Balanced(ts, Outside)
    ensures ParseOf(Plug(Parse(ts, cap).spine), ts, cap)
  {
    Sound(INITIAL, [], ts, cap);
    assert [] + ts == ts;
    RunKeeps(INITIAL, ts + [EOF], cap);
    PlugShaped(Parse(ts, cap).spine);
  }

  /** The parser accepts exactly the sentences of the JSON grammar without repeated names, as far
      as the pool reaches, once streams with mismatched brackets are set aside; and the tree left
      in the pool is the sentence's parse. */
  lemma GrammarTheorem(ts: seq<Token>, cap: nat)
    requires AllProper(ts) && cap <= NONE
    ensures (exists t :: ParseOf(t, ts, cap)) <==> Accepted(Parse(ts, cap)) && Balanced(ts, Outside)
    ensures forall t :: ParseOf(t, ts, cap) ==> Plug(Parse(ts, cap).spine) == Fresh(t, 0)
  {
    forall t | ParseOf(t, ts, cap)
      ensures Accepted(Parse(ts, cap)) && Balanced(ts, Outside) && Plug(Parse(ts, cap).spine) == Fresh(t, 0)
    {
      SentenceAccepted(t, ts, cap);
    }
    if Accepted(Parse(ts, cap)) && Balanced(ts, Outside) {
      AcceptedSentence(ts, cap);
    }
  }

  /** Among the streams that are accepted, the sentences are those whose brackets match. */
  lemma AcceptedAndBalanced(ts: seq<Token>, cap: nat)
    requires AllProper(ts) && cap <= NONE && Accepted(Parse(ts, cap))
    ensures (exists t :: ParseOf(t, ts, cap)) <==> Balanced(ts, Outside)
  {
    GrammarTheorem(ts, cap);
  }

  /** A sentence has one parse. */
  lemma Unambiguous(t: Forest, t': Forest, cap: nat)
    requires ParseOf(t, Toks(t), cap) && ParseOf(t', Toks(t), cap) && ShortTexts(t) && cap <= NONE
    ensures Fresh(t, 0) == Fresh(t', 0)
  {
    ToksProper(t, Unknown);
    SentenceAccepted(t, Toks(t), cap);
    SentenceAccepted(t', Toks(t), cap);
  }

  lemma RunFirst(c: Config, t: Token, rest: seq<Token>, cap: nat)
    requires !Stopped(c)
    ensures Run(c, [t] + rest, cap) == Run(Step(c, t, cap), rest, cap)
  {
    assert ([t] + rest)[1..] == rest;
  }

  /** Mismatched brackets can be accepted: `[1}` and `{"a":]` reach the end of the document and
      are no sentences. */
  lemma MismatchAccepted(cap: nat)
    requires 2 <= cap
    ensures var ts := [OPEN_BRACKET, Token(NumberToken, "1"), CLOSE_BRACE];
        Accepted(Parse(ts, cap)) && !Balanced(ts, Outside)
    ensures var ts := [OPEN_BRACE, Token(StringToken, "a"), COLON, CLOSE_BRACKET];
            Accepted(Parse(ts, cap)) && !Balanced(ts, Outside)
  {
    BraceClosesArray(cap);
    BracketClosesObject(cap);
    var one, name := Token(NumberToken, "1"), Token(StringToken, "a");
    assert [OPEN_BRACKET, one, CLOSE_BRACE] == [OPEN_BRACKET] + ([one] + [CLOSE_BRACE]);
    BalancedFirst(OPEN_BRACKET, [one] + [CLOSE_BRACE], Outside);
    BalancedFirst(one, [CLOSE_BRACE], In(Array, Outside));
    assert [OPEN_BRACE, name, COLON, CLOSE_BRACKET] == [OPEN_BRACE] + ([name] + ([COLON] + [CLOSE_BRACKET]));
    BalancedFirst(OPEN_BRACE, [name] + ([COLON] + [CLOSE_BRACKET]), Outside);
    BalancedFirst(name, [COLON] + [CLOSE_BRACKET], In(Object, Outside));
    BalancedFirst(COLON, [CLOSE_BRACKET], In(Object, Outside));
  }

  lemma BraceClosesArray(cap: nat)
    requires 2 <= cap
    ensures Accepted(Parse([OPEN_BRACKET, Token(NumberToken, "1"), CLOSE_BRACE], cap))
  {
    var one := Token(NumberToken, "1");
    var a := Frame(Top(Nil), 0, Array, "[", Nil);
    var c1, c2 := Config(a, 1, ExpectValue, NoError), Config(Frame(a, 1, Number, "1", Nil), 2, HaveValue, NoError);
    assert Clip("[") == "[" && Clip("1") == "1";
    assert Step(INITIAL, OPEN_BRACKET, cap) == c1;
    assert Step(c1, one, cap) == c2;
    var c3 := Step(c2, CLOSE_BRACE, cap);
    // No object on the way up: the walk ends above the root, and the document is taken as closed.
    assert Climb(c2.spine, {Object}).Top? by { assert Pop(c2.spine).Frame? && Pop(c2.spine).kind == Array; }
    assert c3.state == ExpectEof && c3.status == NoError;
    assert [OPEN_BRACKET, one, CLOSE_BRACE] + [EOF] == [OPEN_BRACKET] + ([one] + ([CLOSE_BRACE] + [EOF]));
    RunFirst(INITIAL, OPEN_BRACKET, [one] + ([CLOSE_BRACE] + [EOF]), cap);
    RunFirst(c1, one, [CLOSE_BRACE] + [EOF], cap);
    RunFirst(c2, CLOSE_BRACE, [EOF], cap);
    RunOne(c3, EOF, cap);
  }

  lemma BracketClosesObject(cap: nat)
    requires 2 <= cap
    ensures Accepted(Parse([OPEN_BRACE, Token(StringToken, "a"), COLON, CLOSE_BRACKET], cap))
  {
    var name := Token(StringToken, "a");
    var o := Frame(Top(Nil), 0, Object, "{", Nil);
    var k := Frame(o, 1, Key, "a", Nil);
    var c1, c2, c3 := Config(o, 1, ExpectKey, NoError), Config(k, 2, ExpectColon, NoError),
        Config(k, 2, ExpectValue, NoError);
    MemberSteps(cap);
    hide Step;
    var c4 := Step(c3, CLOSE_BRACKET, cap);
    var rest := [COLON] + ([CLOSE_BRACKET] + [EOF]);
    assert [OPEN_BRACE, name, COLON, CLOSE_BRACKET] + [EOF] == [OPEN_BRACE] + ([name] + rest);
    RunFirst(INITIAL, OPEN_BRACE, [name] + rest, cap);
    RunFirst(c1, name, rest, cap);
    RunFirst(c2, COLON, [CLOSE_BRACKET] + [EOF], cap);
    RunFirst(c3, CLOSE_BRACKET, [EOF], cap);
    RunOne(c4, EOF, cap);
  }

  lemma MemberSteps(cap: nat)
    requires 2 <= cap
    ensures var o := Frame(Top(Nil), 0, Object, "{", Nil); var k := Frame(o, 1, Key, "a", Nil);
      var c4 := Step(Config(k, 2, ExpectValue, NoError), CLOSE_BRACKET, cap);
      && Step(INITIAL, OPEN_BRACE, cap) == Config(o, 1, ExpectKey, NoError)
      && Step(Config(o, 1, ExpectKey, NoError), Token(StringToken, "a"), cap) == Config(k, 2, ExpectColon, NoError)
      && Step(Config(k, 2, ExpectColon, NoError), COLON, cap) == Config(k, 2, ExpectValue, NoError)
      && !Stopped(c4) && Accepted(Step(c4, EOF, cap))
  {
    var o := Frame(Top(Nil), 0, Object, "{", Nil);
    var k := Frame(o, 1, Key, "a", Nil);
    assert Clip("{") == "{" && Clip("a") == "a";
    // No array on the way up, and the same happens.
    assert Climb(k, {Array}).Top? by { assert Pop(k).Frame? && Pop(k).kind == Object; }
  }

  /** What a lossy rendering leaves, `[{"a":1]`, is accepted too, as another tree. */
  lemma LossyAccepted(cap: nat)
    requires 4 <= cap
    ensures var r := Parse([OPEN_BRACKET, OPEN_BRACE, Token(StringToken, "a"), COLON, Token(NumberToken, "1"),
        CLOSE_BRACKET], cap);
      && Accepted(r)
      && Plug(r.spine) == Cons(0, Array, "[", Cons(1, Object, "{", Cons(2, Key, "a", Leaf(3, Number, "1"), Nil), Nil),
          Nil)
  {
    var name, one := Token(StringToken, "a"), Token(NumberToken, "1");
    var a := Frame(Top(Nil), 0, Array, "[", Nil);
    var o := Frame(a, 1, Object, "{", Nil);
    var k := Frame(o, 2, Key, "a", Nil);
    var v := Frame(k, 3, Number, "1", Nil);
    var t := Cons(0, Array, "[", Cons(1, Object, "{", Cons(2, Key, "a", Leaf(3, Number, "1"), Nil), Nil), Nil);
    var c1, c2 := Config(a, 1, ExpectValue, NoError), Config(o, 2, ExpectKey, NoError);
    var c3, c4 := Config(k, 3, ExpectColon, NoError), Config(k, 3, ExpectValue, NoError);
    var c5, c6 := Config(v, 4, HaveValue, NoError), Config(Top(t), 4, ExpectEof, NoError);
    LossySteps(cap);
    LossyClose(cap);
    hide Step;
    var r4 := [one] + ([CLOSE_BRACKET] + [EOF]);
    assert [OPEN_BRACKET, OPEN_BRACE, name, COLON, one, CLOSE_BRACKET] + [EOF]
        == [OPEN_BRACKET] + ([OPEN_BRACE] + ([name] + ([COLON] + r4)));
    RunFirst(INITIAL, OPEN_BRACKET, [OPEN_BRACE] + ([name] + ([COLON] + r4)), cap);
    RunFirst(c1, OPEN_BRACE, [name] + ([COLON] + r4), cap);
    RunFirst(c2, name, [COLON] + r4, cap);
    RunFirst(c3, COLON, r4, cap);
    RunFirst(c4, one, [CLOSE_BRACKET] + [EOF], cap);
    RunFirst(c5, CLOSE_BRACKET, [EOF], cap);
    RunOne(c6, EOF, cap);
    EndStep(t, cap);
  }

  lemma LossySteps(cap: nat)
    requires 4 <= cap
    ensures var a := Frame(Top(Nil), 0, Array, "[", Nil); var o := Frame(a, 1, Object, "{", Nil);
      var k := Frame(o, 2, Key, "a", Nil); var v := Frame(k, 3, Number, "1", Nil);
      && Step(INITIAL, OPEN_BRACKET, cap) == Config(a, 1, ExpectValue, NoError)
      && Step(Config(a, 1, ExpectValue, NoError), OPEN_BRACE, cap) == Config(o, 2, ExpectKey, NoError)
      && Step(Config(o, 2, ExpectKey, NoError), Token(StringToken, "a"), cap) == Config(k, 3, ExpectColon, NoError)
      && Step(Config(k, 3, ExpectColon, NoError), COLON, cap) == Config(k, 3, ExpectValue, NoError)
      && Step(Config(k, 3, ExpectValue, NoError), Token(NumberToken, "1"), cap) == Config(v, 4, HaveValue, NoError)
  {
    assert Clip("[") == "[" && Clip("{") == "{" && Clip("a") == "a" && Clip("1") == "1";
  }

  lemma LossyClose(cap: nat)
    ensures var a := Frame(Top(Nil), 0, Array, "[", Nil); var o := Frame(a, 1, Object, "{", Nil);
      var v := Frame(Frame(o, 2, Key, "a", Nil), 3, Number, "1", Nil);
      var t := Cons(0, Array, "[", Cons(1, Object, "{", Cons(2, Key, "a", Leaf(3, Number, "1"), Nil), Nil), Nil);
      Step(Config(v, 4, HaveValue, NoError), CLOSE_BRACKET, cap) == Config(Top(t), 4, ExpectEof, NoError)
  {
    var a := Frame(Top(Nil), 0, Array, "[", Nil);
    var o := Frame(a, 1, Object, "{", Nil);
    var k := Frame(o, 2, Key, "a", Nil);
    var v := Frame(k, 3, Number, "1", Nil);
    var k' := k.(kids := Leaf(3, Number, "1"));
    var o' := o.(kids := Cons(2, Key, "a", Leaf(3, Number, "1"), Nil));
    var a' := a.(kids := Cons(1, Object, "{", o'.kids, Nil));
    assert Pop(v) == k' && Pop(k') == o' && Pop(o') == a';
    assert Climb(v, {Array}) == a';
  }

  lemma EndStep(t: Forest, cap: nat)
    ensures Step(Config(Top(t), 4, ExpectEof, NoError), EOF, cap) == Config(Top(t), 4, End, NoError)
  {
  }
}
