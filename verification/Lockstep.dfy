/** The parser in step with a value whose sentence it reads: what is read hangs on the spine, what
    is still to come hangs on a second stack beside it, and both together are the value. */
module Lockstep {
  import opened Codes
  import opened Forests
  import opened Shapes
  import opened Lexer
  import opened Machine
  import opened Grammar
  import opened Spines
  import opened Sentences

  /** For each level of a spine, the children that are still to come. */
  datatype Ahead = Over | Then(f: Forest, up: Ahead)

  predicate Lines(s: Spine, a: Ahead) {
    a.Then? && (s.Top? ==> a.up.Over?) && (s.Frame? ==> a.up.Then? && Lines(s.up, a.up))
  }

  /** The value in which nothing is missing. */
  function Whole(s: Spine, a: Ahead): Forest
    requires Lines(s, a)
    decreases Depth(s)
  {
    if s.Top? then Concat(s.done, a.f)
    else
      LinesExtend(s.up, a.up, Current(s.(kids := Concat(s.kids, a.f))));
      Whole(Pop(s.(kids := Concat(s.kids, a.f))), a.up)
  }

  lemma LinesExtend(s: Spine, a: Ahead, g: Forest)
    requires Lines(s, a)
    ensures Lines(Extend(s, g), a)
  {
  }

  /** The tokens behind the last child of the current node. */
  function Tail(s: Spine, a: Ahead): seq<Token>
    requires Lines(s, a)
  {
    if s.Top? then []
    else (if IsContainer(s.kind) then [Closer(s.kind)] else []) + (TailToks(a.up.f) + Tail(s.up, a.up))
  }

  /** The tokens that are still to come. */
  function Rest(c: Config, a: Ahead): seq<Token>
    requires Lines(c.spine, a)
  {
    match c.state
    case ExpectKey | ExpectValue => Toks(a.f) + Tail(c.spine, a)
    case ExpectColon => [COLON] + (Toks(a.f) + Tail(c.spine, a))
    case HaveValue => TailToks(a.f) + Tail(c.spine, a)
    case _ => []
  }

  /** What is to come nests as JSON allows; below a key in the making, and at the root, nothing more. */
  predicate Suits(s: Spine, a: Ahead)
    requires Lines(s, a)
  {
    && Nested(a.f, KindOf(s)) && Full(a.f)
    && (s.Top? ==> (a.f.Cons? ==> a.f.sibs.Nil? && s.done.Nil?))
    && (s.Frame? ==>
          && (IsScalar(s.kind) ==> a.f.Nil?) && (s.kind == Key && a.f.Cons? ==> a.f.sibs.Nil? && s.kids.Nil?)
          && (s.up.Top? || s.up.kind == Key ==> a.up.f.Nil?) && Suits(s.up, a.up))
  }

  /** A name, a value or an element is still to come where the state asks for one. */
  predicate Due(c: Config, a: Ahead)
    requires Lines(c.spine, a)
  {
    match c.state
    case ExpectColon => a.f.Cons?
    case ExpectValue => a.f.Cons? || (c.spine.Frame? && c.spine.kind == Array && c.spine.kids.Nil?)
    case ExpectKey => a.f.Cons? || (c.spine.Frame? && c.spine.kids.Nil?)
    case ExpectEof => a.f.Nil?
    case _ => true
  }

  /** The nodes to come are numbered on from `n` in document order. */
  predicate Runs(a: Ahead, n: nat) { a.Over? || (a.f == Fresh(a.f, n) && Runs(a.up, n + Size(a.f))) }

  /** The parser is reading value `u`, and `a` is what is left of it. */
  ghost predicate Follows(c: Config, a: Ahead, u: Forest, cap: nat) {
    && Inv(c, cap) && FullSpine(c.spine) && Numbered(c.spine, c.next) && !Stopped(c)
    && Lines(c.spine, a) && Suits(c.spine, a) && Due(c, a) && Runs(a, c.next) && Whole(c.spine, a) == u
  }

  // ----- a node starts -----

  /** The state behind the first token of a node. */
  function StateFor(k: Kind): State {
    match k
    case Object => ExpectKey
    case Array => ExpectValue
    case Key => ExpectColon
    case _ => HaveValue
  }

  function Entered(c: Config, kind: Kind, text: string): Config {
    Config(Frame(c.spine, c.next, kind, text, Nil), c.next + 1, StateFor(kind), NoError)
  }

  predicate Taken(s: Spine, kind: Kind, text: string) { kind == Key && KeyIn(Kids(s), text) != NONE }

  /** The first token of the next node is taken, unless its name is taken or the pool is full. */
  lemma NodeStep(c: Config, a: Ahead, u: Forest, cap: nat)
    requires Follows(c, a, u, cap) && (c.state == ExpectKey || c.state == ExpectValue) && a.f.Cons?
    requires Proper(Begin(a.f.kind, a.f.text))
    ensures var k := Begin(a.f.kind, a.f.text);
      Step(c, k, cap) ==
        if Taken(c.spine, a.f.kind, a.f.text) then Refuse(c, DuplicateKey)
        else if cap <= c.next then Refuse(c, OutOfMemory)
        else Entered(c, a.f.kind, a.f.text)
    ensures NestOk(Containers(c.spine), Begin(a.f.kind, a.f.text))
  {
    hide Whole, SpineOk, FullSpine, Numbered, Plug;
    assert a.f == Fresh(a.f, c.next) && a.f.text == OwnText(a.f.kind, a.f.text);
    assert Clip(a.f.text) == a.f.text;
  }

  /** What is to come behind it. */
  function Entering(a: Ahead): Ahead
    requires a.Then? && a.f.Cons?
  {
    Then(a.f.kids, Then(a.f.sibs, a.up))
  }

  lemma EnteredRest(c: Config, a: Ahead)
    requires Lines(c.spine, a) && a.f.Cons? && (c.state == ExpectKey || c.state == ExpectValue)
    requires Allowed(KindOf(c.spine), a.f.kind)
    requires (IsScalar(a.f.kind) ==> a.f.kids.Nil?) && (a.f.kind == Key ==> a.f.kids.Cons?)
    ensures var c' := Entered(c, a.f.kind, a.f.text);
      Lines(c'.spine, Entering(a)) && Rest(c, a) == [Begin(a.f.kind, a.f.text)] + Rest(c', Entering(a))
  {
    hide Toks, ItemToks, Tail, TailToks, Rest, Entered, Entering, Closer, KindOf;
    assert a.Then? && (IsContainer(a.f.kind) || a.f.kind == Key || IsScalar(a.f.kind));
    hide Begin, Allowed, Lines;
    var f, t := a.f, Begin(a.f.kind, a.f.text);
    var w := TailToks(f.sibs) + Tail(c.spine, a);
    RestParts(c, a);
    ItemParts(f);
    ChainBody(f, Tail(c.spine, a));
    if IsContainer(f.kind) {
      Regrouped(t, Toks(f.kids), [Closer(f.kind)], w);
    } else if f.kind == Key {
      Regrouped(t, [COLON], Toks(f.kids), w);
    }
  }

  /** What is to come in front of the next node, and behind its first token. */
  lemma RestParts(c: Config, a: Ahead)
    requires Lines(c.spine, a) && a.f.Cons? && (c.state == ExpectKey || c.state == ExpectValue)
    requires IsScalar(a.f.kind) ==> a.f.kids.Nil?
    ensures var f, c', w := a.f, Entered(c, a.f.kind, a.f.text), TailToks(a.f.sibs) + Tail(c.spine, a);
      && Lines(c'.spine, Entering(a)) && Rest(c, a) == Toks(f) + Tail(c.spine, a)
      && Rest(c', Entering(a)) ==
          if IsContainer(f.kind) then Toks(f.kids) + ([Closer(f.kind)] + w)
          else if f.kind == Key then [COLON] + (Toks(f.kids) + w)
          else if IsScalar(f.kind) then w
          else Rest(c', Entering(a))
  {
    var c', w := Entered(c, a.f.kind, a.f.text), TailToks(a.f.sibs) + Tail(c.spine, a);
    TailOf(c'.spine, Entering(a));
    TailSame(c.spine, a, a.f.sibs);
    hide Tail, Toks;
    assert [] + w == w;
  }

  lemma TailOf(s: Spine, a: Ahead)
    requires Lines(s, a) && s.Frame?
    ensures Tail(s, a) == (if IsContainer(s.kind) then [Closer(s.kind)] else []) + (TailToks(a.up.f) + Tail(s.up, a.up))
  {
  }

  /** The children that are still to come do not show behind the last of them. */
  lemma TailSame(s: Spine, a: Ahead, f: Forest)
    requires Lines(s, a)
    ensures Lines(s, Then(f, a.up)) && Tail(s, Then(f, a.up)) == Tail(s, a)
  {
  }

  lemma Regrouped(t: Token, m: seq<Token>, c: seq<Token>, z: seq<Token>)
    ensures ([t] + m + c) + z == [t] + (m + (c + z))
  {
  }

  lemma ItemParts(f: Forest)
    requires f.Cons?
    ensures var t := Begin(f.kind, f.text);
      ItemToks(f) ==
        if IsContainer(f.kind) then [t] + Toks(f.kids) + [Closer(f.kind)]
        else if f.kind == Key then [t] + ([COLON] + Toks(f.kids))
        else [t]
  {
    hide Toks;
  }

  lemma EnteredWhole(s: Spine, a: Ahead, n: nat)
    requires Lines(s, a) && a.f.Cons? && a.f.id == n
    ensures Lines(Frame(s, n, a.f.kind, a.f.text, Nil), Entering(a))
    ensures Whole(Frame(s, n, a.f.kind, a.f.text, Nil), Entering(a)) == Whole(s, a)
  {
    var g := Cons(n, a.f.kind, a.f.text, a.f.kids, Nil);
    assert Concat(Nil, a.f.kids) == a.f.kids;
    ConcatAssoc(Kids(s), g, a.f.sibs);
    assert Concat(g, a.f.sibs) == a.f;
    LinesExtend(s, a, g);
  }

  lemma NodeFollows(c: Config, a: Ahead, u: Forest, cap: nat)
    requires Follows(c, a, u, cap) && (c.state == ExpectKey || c.state == ExpectValue) && a.f.Cons?
    requires !Taken(c.spine, a.f.kind, a.f.text) && c.next < cap <= NONE && Proper(Begin(a.f.kind, a.f.text))
    ensures var c' := Entered(c, a.f.kind, a.f.text);
      && Lines(c'.spine, Entering(a)) && Follows(c', Entering(a), u, cap)
      && Consumed(c') == Consumed(c) + [Begin(a.f.kind, a.f.text)]
      && Rest(c, a) == [Begin(a.f.kind, a.f.text)] + Rest(c', Entering(a))
  {
    var k := Begin(a.f.kind, a.f.text);
    NodeStep(c, a, u, cap);
    StepKeeps(c, k, cap);
    StepNumbered(c, k, cap);
    StepTracks(c, k, cap);
    EnteredSuits(c, a, u, cap);
    EnteredRest(c, a);
    EnteredWhole(c.spine, a, c.next);
    hide Whole, Suits, Inv, Numbered, FullSpine, Step, Rest;
  }

  lemma EnteredSuits(c: Config, a: Ahead, u: Forest, cap: nat)
    requires Follows(c, a, u, cap) && (c.state == ExpectKey || c.state == ExpectValue) && a.f.Cons?
    ensures var c' := Entered(c, a.f.kind, a.f.text);
      && Lines(c'.spine, Entering(a)) && Suits(c'.spine, Entering(a)) && Due(c', Entering(a))
      && Runs(Entering(a), c'.next) && a.f.id == c.next
      && Allowed(KindOf(c.spine), a.f.kind) && (IsScalar(a.f.kind) ==> a.f.kids.Nil?)
      && (a.f.kind == Key ==> a.f.kids.Cons?)
  {
    hide Whole, FullSpine, Numbered, Plug;
  }

  // ----- a value ends -----

  /** Where the walk to the container around the current node leads, on the stack beside. */
  function Risen(s: Spine, a: Ahead): Ahead
    requires Lines(s, a) && s.Frame?
  {
    if s.up.Frame? && s.up.kind == Key then a.up.up else a.up
  }

  lemma Rise(s: Spine, a: Ahead, n: nat)
    requires s.Frame? && s.kind != Key && SpineOk(s) && Lines(s, a) && Suits(s, a) && Runs(a, n) && a.f.Nil?
    ensures var r, b := ContainerParent(s), Risen(s, a);
      && Lines(r, b) && Suits(r, b) && Runs(b, n) && Whole(r, b) == Whole(s, a)
      && Tail(s, a) == (if IsContainer(s.kind) then [Closer(s.kind)] else []) + (TailToks(b.f) + Tail(r, b))
      && (r.Frame? ==> IsContainer(r.kind))
  {
    RisesTo(s);
    UpNil(s, a);
    hide Whole, Suits, Runs, SpineOk, TailToks, ContainerParent, Tail;
    PopStands(s, a, n);
    if s.up.Frame? && s.up.kind == Key {
      PopStands(Pop(s), a.up, n);
      assert TailToks(a.up.f) == [] by { NoTail(a.up.f); }
      assert [] + (TailToks(a.up.up.f) + Tail(s.up.up, a.up.up)) == TailToks(a.up.up.f) + Tail(s.up.up, a.up.up);
    }
  }

  lemma NoTail(f: Forest)
    requires f.Nil?
    ensures TailToks(f) == []
  {
  }

  lemma UpNil(s: Spine, a: Ahead)
    requires s.Frame? && Lines(s, a) && Suits(s, a)
    ensures s.up.Top? || s.up.kind == Key ==> a.up.f.Nil?
  {
  }

  lemma RisesTo(s: Spine)
    requires s.Frame? && s.kind != Key && SpineOk(s)
    ensures var r := ContainerParent(s);
      && (if s.up.Frame? && s.up.kind == Key then
            s.up.up.Frame? && Pop(s).Frame? && Pop(s).kind == Key && Pop(s).up == s.up.up && r == Pop(Pop(s))
          else r == Pop(s))
      && (r.Frame? ==> IsContainer(r.kind))
  {
    if s.up.Frame? && s.up.kind == Key { KeyClimb(s); }
  }

  /** One step up, when nothing more is to come. */
  lemma PopStands(s: Spine, a: Ahead, n: nat)
    requires s.Frame? && Lines(s, a) && Suits(s, a) && Runs(a, n) && a.f.Nil?
    requires s.up.Top? || s.up.kind == Key ==> a.up.f.Nil?
    ensures var p := Pop(s);
      && Lines(p, a.up) && Suits(p, a.up) && Runs(a.up, n) && Whole(p, a.up) == Whole(s, a)
      && Tail(p, a.up) == Tail(s.up, a.up)
      && Tail(s, a) == (if IsContainer(s.kind) then [Closer(s.kind)] else []) + (TailToks(a.up.f) + Tail(p, a.up))
  {
    ConcatFacts(s.kids, Nil);
    assert s.(kids := s.kids) == s;
    LinesExtend(s.up, a.up, Current(s));
    RiseSuits(s.up, a.up, Current(s));
    TailExtend(s.up, a.up, Current(s));
    TailOf(s, a);
    hide Suits, Tail, TailToks;
  }

  lemma RiseSuits(s: Spine, a: Ahead, g: Forest)
    requires Lines(s, a) && Suits(s, a) && (s.Top? || s.kind == Key ==> a.f.Nil?)
    ensures Lines(Extend(s, g), a) && Suits(Extend(s, g), a)
  {
  }

  lemma TailExtend(s: Spine, a: Ahead, g: Forest)
    requires Lines(s, a)
    ensures Lines(Extend(s, g), a) && Tail(Extend(s, g), a) == Tail(s, a)
  {
  }

  /** The innermost container is closed. */
  lemma CloseFollows(c: Config, s: Spine, a: Ahead, cap: nat)
    requires s.Frame? && IsContainer(s.kind) && SpineOk(s) && Lines(s, a) && Suits(s, a) && Runs(a, c.next) && a.f.Nil?
    ensures var c', b := Closed(c, s), Risen(s, a);
      && Lines(c'.spine, b) && Suits(c'.spine, b) && Runs(b, c'.next) && Whole(c'.spine, b) == Whole(s, a) && Due(c', b)
      && Tail(s, a) == [Closer(s.kind)] + Rest(c', b)
  {
    Rise(s, a, c.next);
    ClimbKeeps(s, {Object, Array});
    hide Whole, Plug, SpineOk;
  }

  /** The current container, or the one around a scalar, and what is to come in it. */
  lemma Settles(c: Config, a: Ahead, u: Forest, cap: nat) returns (b: Ahead)
    requires Follows(c, a, u, cap) && c.state == HaveValue
    ensures var r := Settled(c.spine);
      && Lines(r, b) && Suits(r, b) && Runs(b, c.next) && Whole(r, b) == u && Rest(c, a) == TailToks(b.f) + Tail(r, b)
  {
    var s := c.spine;
    if IsScalar(s.kind) {
      Rise(s, a, c.next);
      b := Risen(s, a);
      hide Tail;
      assert [] + (TailToks(b.f) + Tail(Settled(s), b)) == TailToks(b.f) + Tail(Settled(s), b);
      assert [] + Tail(s, a) == Tail(s, a);
    } else {
      b := a;
    }
  }

  /** The token for which a step goes on in the same value. */
  lemma Moves(c: Config, k: Token, c': Config, b: Ahead, u: Forest, cap: nat)
    requires Inv(c, cap) && FullSpine(c.spine) && Numbered(c.spine, c.next) && !Stopped(c) && cap <= NONE
    requires Step(c, k, cap) == c' && c'.status == NoError && Proper(k) && NestOk(Containers(c.spine), k)
    requires Lines(c'.spine, b) && Suits(c'.spine, b) && Due(c', b) && Runs(b, c'.next) && Whole(c'.spine, b) == u
    ensures Follows(c', b, u, cap) && Consumed(c') == Consumed(c) + [k]
  {
    hide Inv, Numbered, FullSpine, Whole, Suits, Step, Due, Runs;
    StepKeeps(c, k, cap);
    StepNumbered(c, k, cap);
    StepTracks(c, k, cap);
  }

  /** Behind a value comes a comma or a closer. */
  lemma ValueFollows(c: Config, a: Ahead, u: Forest, cap: nat) returns (b: Ahead)
    requires Follows(c, a, u, cap) && c.state == HaveValue && Rest(c, a) != [] && cap <= NONE
    ensures var k, c' := Rest(c, a)[0], Step(c, Rest(c, a)[0], cap);
      Lines(c'.spine, b) && Follows(c', b, u, cap) && Rest(c, a) == [k] + Rest(c', b) && !StartsNode(k)
      && c'.next == c.next && Consumed(c') == Consumed(c) + [k] && k != COLON
  {
    hide Whole, Suits, Runs, Numbered, Tail;
    var r := Settled(c.spine);
    SettledFacts(c, cap);
    b := Settles(c, a, u, cap);
    MoreToCome(r, b);
    hide Settled, SpineOk, FullSpine, TailToks, Step;
    if b.f.Cons? {
      CommaFollows(c, r, b, u, cap);
    } else {
      CloserFollows(c, r, b, u, cap);
      b := Risen(r, b);
    }
  }

  lemma MoreToCome(r: Spine, b: Ahead)
    requires Lines(r, b) && Suits(r, b) && Kids(r).Cons?
    ensures r.Top? ==> b.f.Nil? && TailToks(b.f) + Tail(r, b) == []
    ensures b.f.Cons? ==> TailToks(b.f) + Tail(r, b) == [COMMA] + (Toks(b.f) + Tail(r, b))
    ensures b.f.Nil? ==> TailToks(b.f) + Tail(r, b) == Tail(r, b)
  {
    hide Toks;
    if b.f.Cons? { assert [COMMA] + Toks(b.f) + Tail(r, b) == [COMMA] + (Toks(b.f) + Tail(r, b)); }
    if b.f.Nil? { assert [] + Tail(r, b) == Tail(r, b); }
  }

  lemma CommaFollows(c: Config, r: Spine, b: Ahead, u: Forest, cap: nat)
    requires Inv(c, cap) && FullSpine(c.spine) && Numbered(c.spine, c.next) && c.state == HaveValue && !Stopped(c)
    requires cap <= NONE && r.Frame? && IsContainer(r.kind) && b.Then? && b.f.Cons?
    requires CommaStep(c) == Config(r, c.next, if r.kind == Array then ExpectValue else ExpectKey, c.status)
    requires Lines(r, b) && Suits(r, b) && Runs(b, c.next) && Whole(r, b) == u
    ensures var c' := Step(c, COMMA, cap);
      && c'.spine == r && Follows(c', b, u, cap) && c'.next == c.next && Consumed(c') == Consumed(c) + [COMMA]
      && Rest(c', b) == Toks(b.f) + Tail(r, b)
  {
    hide Whole, Suits, Runs, Numbered, Tail, CommaStep, Toks;
    Moves(c, COMMA, CommaStep(c), b, u, cap);
  }

  lemma CloserFollows(c: Config, r: Spine, b: Ahead, u: Forest, cap: nat)
    requires Inv(c, cap) && FullSpine(c.spine) && Numbered(c.spine, c.next) && c.state == HaveValue && !Stopped(c)
    requires cap <= NONE && r.Frame? && IsContainer(r.kind) && SpineOk(r) && b.Then? && b.f.Nil?
    requires (if r.kind == Object then CloseBrace(c) else CloseBracket(c)) == Closed(c, r)
    requires Containers(c.spine) == Containers(r)
    requires Lines(r, b) && Suits(r, b) && Runs(b, c.next) && Whole(r, b) == u
    ensures var c' := Step(c, Closer(r.kind), cap);
      && Lines(c'.spine, Risen(r, b)) && Follows(c', Risen(r, b), u, cap) && c'.next == c.next
      && Consumed(c') == Consumed(c) + [Closer(r.kind)]
      && Tail(r, b) == [Closer(r.kind)] + Rest(c', Risen(r, b))
  {
    hide Whole, Suits, Runs, Numbered, Tail, Inv, FullSpine, SpineOk, CloseBrace, CloseBracket, Rest, Due;
    CloseFollows(c, r, b, cap);
    Moves(c, Closer(r.kind), Closed(c, r), Risen(r, b), u, cap);
  }

  /** An empty container is closed. */
  lemma EmptyFollows(c: Config, a: Ahead, u: Forest, cap: nat) returns (b: Ahead)
    requires Follows(c, a, u, cap) && (c.state == ExpectKey || c.state == ExpectValue) && a.f.Nil? && cap <= NONE
    ensures Rest(c, a) != []
    ensures var k, c' := Rest(c, a)[0], Step(c, Rest(c, a)[0], cap);
      Lines(c'.spine, b) && Follows(c', b, u, cap) && Rest(c, a) == [k] + Rest(c', b) && !StartsNode(k)
      && c'.next == c.next && Consumed(c') == Consumed(c) + [k] && k != COLON
  {
    var s := c.spine;
    CloseFollows(c, s, a, cap);
    b := Risen(s, a);
    Moves(c, Closer(s.kind), Closed(c, s), b, u, cap);
  }

  lemma ColonFollows(c: Config, a: Ahead, u: Forest, cap: nat)
    requires Follows(c, a, u, cap) && c.state == ExpectColon && cap <= NONE
    ensures var c' := Step(c, COLON, cap);
      && Lines(c'.spine, a) && Follows(c', a, u, cap) && Rest(c, a) == [COLON] + Rest(c', a)
      && Consumed(c') == Consumed(c) + [COLON]
  {
    Moves(c, COLON, c.(state := ExpectValue), a, u, cap);
  }

  /** Each node of a value has one token that starts it. */
  predicate StartsNode(t: Token) {
    match t.kind
    case ClosingBrace | ClosingBracket | Colon | Comma | EofToken | InvalidToken => false
    case _ => true
  }

  lemma StateOfNext(c: Config, a: Ahead, u: Forest, cap: nat)
    requires Follows(c, a, u, cap) && Rest(c, a) != []
    ensures c.state in {HaveValue, ExpectColon, ExpectKey, ExpectValue} && a.Then? && c.status == NoError
    ensures c.state == ExpectColon ==> Rest(c, a)[0] == COLON
    ensures (c.state == ExpectKey || c.state == ExpectValue) && a.f.Cons? ==>
      && Rest(c, a)[0] == Begin(a.f.kind, a.f.text) && StartsNode(Rest(c, a)[0])
      && (c.state == ExpectKey <==> a.f.kind == Key)
  {
    hide Whole, Numbered, FullSpine, Tail;
    if (c.state == ExpectKey || c.state == ExpectValue) && a.f.Cons? {
      ChainBody(a.f, Tail(c.spine, a));
      ItemStarts(a.f, TailToks(a.f.sibs) + Tail(c.spine, a));
    }
  }

  /** The next token of the value is taken, unless it is a name that is taken or the pool is full. */
  lemma Advance(c: Config, a: Ahead, u: Forest, cap: nat) returns (b: Ahead)
    requires Follows(c, a, u, cap) && Rest(c, a) != [] && Proper(Rest(c, a)[0]) && cap <= NONE
    ensures Rest(c, a)[0] == COLON <==> c.state == ExpectColon
    ensures var k, c' := Rest(c, a)[0], Step(c, Rest(c, a)[0], cap);
      if c.state == ExpectKey && k.kind == StringToken && KeyIn(Kids(c.spine), k.text) != NONE then
        c' == Refuse(c, DuplicateKey)
      else if StartsNode(k) && cap <= c.next then c' == Refuse(c, OutOfMemory)
      else
        && Lines(c'.spine, b) && Follows(c', b, u, cap) && Rest(c, a) == [k] + Rest(c', b)
        && c'.next == c.next + (if StartsNode(k) then 1 else 0) && Consumed(c') == Consumed(c) + [k]
  {
    hide Follows, Rest;
    b := a;
    StateOfNext(c, a, u, cap);
    if c.state == HaveValue {
      b := ValueFollows(c, a, u, cap);
    } else if c.state == ExpectColon {
      ColonFollows(c, a, u, cap);
    } else if a.f.Nil? {
      b := EmptyFollows(c, a, u, cap);
    } else {
      NodeStep(c, a, u, cap);
      if !Taken(c.spine, a.f.kind, a.f.text) && c.next < cap {
        NodeFollows(c, a, u, cap);
        b := Entering(a);
      }
    }
  }
}
