/** What the parser answers to tokens that are no value: at which token it stops, with which status,
    and what it leaves in the pool. All of it is said of values and of what their sentences begin
    with, and holds for every sequence of tokens. */
module Refusals {
  import opened Codes
  import opened Forests
  import opened Shapes
  import opened Lexer
  import opened Machine
  import opened Grammar
  import opened Spines
  import opened Sentences
  import opened Prefixes
  import opened Lockstep
  import opened RoundTrip

  /** The nodes of a tree with ids below `n`. */
  function FirstNodes(f: Forest, n: nat): Forest {
    if f.Nil? then Nil
    else if f.id >= n then FirstNodes(f.sibs, n)
    else Cons(f.id, f.kind, f.text, FirstNodes(f.kids, n), FirstNodes(f.sibs, n))
  }

  /** How many nodes the tokens start. */
  function NodeTokens(p: seq<Token>): nat {
    if p == [] then 0 else (if StartsNode(p[0]) then 1 else 0) + NodeTokens(p[1..])
  }

  /** The part of value `t` that the tokens `p` at the beginning of its sentence describe, in the
      first slots of a pool. */
  function PartOf(t: Forest, p: seq<Token>): Forest { FirstNodes(Fresh(t, 0), NodeTokens(p)) }

  /** The sentence of `t` begins with `p`, no name in `p` repeats, and `p` fits the pool. */
  ghost predicate Reads(t: Forest, p: seq<Token>, cap: nat) {
    Starts(t, p) && AllProper(p) && NamesDistinct(PartOf(t, p)) && NodeTokens(p) <= cap
  }

  // ----- the part that is read -----

  lemma {:induction false} FirstConcat(f: Forest, g: Forest, n: nat)
    ensures FirstNodes(Concat(f, g), n) == Concat(FirstNodes(f, n), FirstNodes(g, n))
  {
    if f.Cons? { FirstConcat(f.sibs, g, n); }
  }

  lemma {:induction false} FirstOfLater(f: Forest, m: nat, n: nat)
    requires n <= m
    ensures FirstNodes(Fresh(f, m), n) == Nil
  {
    if f.Cons? { FirstOfLater(f.sibs, m + 1 + Size(f.kids), n); }
  }

  lemma {:induction false} FirstOfAll(f: Forest, n: nat)
    requires forall i :: i in Ids(f) ==> i < n
    ensures FirstNodes(f, n) == f
  {
    if f.Cons? {
      assert f.id in Ids(f) && Ids(f.kids) <= Ids(f) && Ids(f.sibs) <= Ids(f);
      FirstOfAll(f.kids, n);
      FirstOfAll(f.sibs, n);
    }
  }

  lemma {:induction false} FirstOfFirst(f: Forest, m: nat, n: nat)
    requires m <= n
    ensures FirstNodes(FirstNodes(f, n), m) == FirstNodes(f, m)
  {
    if f.Cons? {
      FirstOfFirst(f.kids, m, n);
      FirstOfFirst(f.sibs, m, n);
    }
  }

  predicate FramesBelow(s: Spine, n: nat) { s.Frame? ==> s.id < n && FramesBelow(s.up, n) }

  /** The spine with only such nodes beside it. */
  function FirstSpine(s: Spine, n: nat): Spine {
    if s.Top? then Top(FirstNodes(s.done, n))
    else Frame(FirstSpine(s.up, n), s.id, s.kind, s.text, FirstNodes(s.kids, n))
  }

  lemma FirstExtend(s: Spine, g: Forest, n: nat)
    requires FramesBelow(s, n)
    ensures FirstSpine(Extend(s, g), n) == Extend(FirstSpine(s, n), FirstNodes(g, n)) && FramesBelow(Extend(s, g), n)
  {
    FirstConcat(Kids(s), g, n);
  }

  /** Without what is to come, the whole value is what hangs on the spine. */
  lemma {:induction false} FirstOfWhole(s: Spine, a: Ahead, n: nat, m: nat)
    requires Lines(s, a) && FramesBelow(s, n) && Runs(a, m) && n <= m
    ensures FirstNodes(Whole(s, a), n) == Plug(FirstSpine(s, n))
    decreases Depth(s)
  {
    FirstOfLater(a.f, m, n);
    FirstConcat(Kids(s), a.f, n);
    ConcatFacts(FirstNodes(Kids(s), n), Nil);
    if s.Frame? {
      var g := Current(s.(kids := Concat(s.kids, a.f)));
      LinesExtend(s.up, a.up, g);
      FirstExtend(s.up, g, n);
      FirstOfWhole(Extend(s.up, g), a.up, n, m + Size(a.f));
      assert FirstNodes(g, n) == Current(FirstSpine(s, n));
    }
  }

  lemma {:induction false} PlugIds(s: Spine)
    ensures Ids(Kids(s)) <= Ids(Plug(s)) && (s.Frame? ==> s.id in Ids(Plug(s)))
    decreases Depth(s)
  {
    if s.Frame? {
      ConcatFacts(Kids(s.up), Current(s));
      PlugIds(Pop(s));
    }
  }

  /** All ids on the spine are below the next slot. */
  lemma {:induction false} SpineBelow(s: Spine, n: nat)
    requires forall i :: i in Ids(Plug(s)) ==> i < n
    ensures FramesBelow(s, n) && FirstSpine(s, n) == s
    decreases Depth(s)
  {
    PlugIds(s);
    FirstOfAll(Kids(s), n);
    if s.Frame? {
      SpineBelow(Pop(s), n);
      PlugIds(Pop(s));
      ConcatFacts(Kids(s.up), Current(s));
      SpineUp(s.up, Current(s), n);
    }
  }

  lemma SpineUp(s: Spine, g: Forest, n: nat)
    requires FramesBelow(Extend(s, g), n) && FirstSpine(Extend(s, g), n) == Extend(s, g)
    requires forall i :: i in Ids(Kids(s)) ==> i < n
    ensures FramesBelow(s, n) && FirstSpine(s, n) == s
  {
    FirstOfAll(Kids(s), n);
  }

  /** While the parser follows a value, the pool holds the part that was read. */
  lemma FollowedPart(c: Config, a: Ahead, u: Forest, cap: nat)
    requires Follows(c, a, u, cap)
    ensures FirstNodes(u, c.next) == Plug(c.spine)
  {
    SpineBelow(c.spine, c.next);
    FirstOfWhole(c.spine, a, c.next, c.next);
  }

  // ----- the run on what a value begins with -----

  lemma {:induction false} NodesAppend(p: seq<Token>, k: Token)
    ensures NodeTokens(p + [k]) == NodeTokens(p) + if StartsNode(k) then 1 else 0
  {
    if p == [] {
      assert p + [k] == [k] && [k][1..] == [];
    } else {
      assert (p + [k])[1..] == p[1..] + [k];
      NodesAppend(p[1..], k);
    }
  }

  lemma RunAppend(c: Config, p: seq<Token>, k: Token, cap: nat)
    requires !Stopped(Run(c, p, cap))
    ensures Run(c, p + [k], cap) == Step(Run(c, p, cap), k, cap)
  {
    RunConcat(c, p, [k], cap);
    RunOne(Run(c, p, cap), k, cap);
  }

  /** The parser, before it has read anything. */
  lemma Starting(t: Forest, cap: nat)
    requires OneValue(t)
    ensures var u := Fresh(t, 0); var a := Then(u, Over);
      && Lines(INITIAL.spine, a) && Follows(INITIAL, a, u, cap) && Rest(INITIAL, a) == Toks(t)
  {
    FreshTwice(t, 0);
    FreshNested(t, Unknown, 0);
    FreshFull(t, 0);
    FreshToks(t, 0);
    assert Toks(t) + [] == Toks(t);
  }

  /** The parser has read `p`, and `a` is what is to come of `t`. */
  ghost predicate HasRead(t: Forest, p: seq<Token>, a: Ahead, cap: nat) {
    var c := Run(INITIAL, p, cap);
    && Lines(c.spine, a) && Follows(c, a, Fresh(t, 0), cap) && |p| <= |Toks(t)| && Rest(c, a) == Toks(t)[|p|..]
    && c.next == NodeTokens(p) && Consumed(c) == p
  }

  /** As long as no token is refused, the parser follows every value that begins like this. */
  lemma {:induction false} FollowsAny(t: Forest, p: seq<Token>, cap: nat) returns (a: Ahead)
    requires Starts(t, p) && AllProper(p) && cap <= NONE && !Stopped(Run(INITIAL, p, cap))
    ensures HasRead(t, p, a, cap)
    decreases |p|
  {
    if p == [] {
      Starting(t, cap);
      a := Then(Fresh(t, 0), Over);
    } else {
      var n := |p| - 1;
      var q, k := p[..n], p[n];
      assert p == q + [k] && q <= Toks(t) && AllProper(q) && Toks(t)[n] == k && k in p;
      StoppedBefore(q, k, cap);
      hide Starts, AllProper, HasRead, Run;
      var b := FollowsAny(t, q, cap);
      a := ReadsOne(t, q, k, b, cap);
    }
  }

  lemma ReadsOne(t: Forest, q: seq<Token>, k: Token, b: Ahead, cap: nat) returns (a: Ahead)
    requires HasRead(t, q, b, cap) && q + [k] <= Toks(t) && Proper(k)
    requires cap <= NONE && !Stopped(Run(INITIAL, q + [k], cap))
    ensures HasRead(t, q + [k], a, cap)
  {
    var n := |q|;
    assert Toks(t)[n] == (q + [k])[n] == k;
    assert Toks(t)[n..][0] == k && Toks(t)[n..][1..] == Toks(t)[n + 1..];
    RunAppend(INITIAL, q, k, cap);
    NodesAppend(q, k);
    a := FollowsOne(Run(INITIAL, q, cap), b, Fresh(t, 0), k, cap);
    hide Follows, Rest, Run, Step, Consumed, Toks, NodeTokens;
  }

  lemma FollowsOne(c: Config, a: Ahead, u: Forest, k: Token, cap: nat) returns (b: Ahead)
    requires Follows(c, a, u, cap) && Rest(c, a) != [] && Rest(c, a)[0] == k && Proper(k) && cap <= NONE
    requires !Stopped(Step(c, k, cap))
    ensures var c' := Step(c, k, cap);
      && Lines(c'.spine, b) && Follows(c', b, u, cap) && Rest(c', b) == Rest(c, a)[1..]
      && c'.next == c.next + (if StartsNode(k) then 1 else 0) && Consumed(c') == Consumed(c) + [k]
  {
    b := Advance(c, a, u, cap);
    hide Follows, Rest, Step, Consumed;
    assert ([k] + Rest(Step(c, k, cap), b))[1..] == Rest(Step(c, k, cap), b);
  }

  /** A run that has stopped stays so. */
  lemma StoppedBefore(q: seq<Token>, k: Token, cap: nat)
    requires !Stopped(Run(INITIAL, q + [k], cap))
    ensures !Stopped(Run(INITIAL, q, cap))
  {
    RunConcat(INITIAL, q, [k], cap);
  }

  // ----- repeated names -----

  lemma {:induction false} NamesConcat(f: Forest, g: Forest)
    ensures NamesDistinct(Concat(f, g)) <==> NamesDistinct(f) && NamesDistinct(g)
  {
    if f.Cons? { NamesConcat(f.sibs, g); }
  }

  lemma {:induction false} NamesPlug(s: Spine)
    requires s.Frame? && NamesDistinct(Plug(s))
    ensures NamesDistinct(Current(s))
    decreases Depth(s)
  {
    NamesConcat(Kids(s.up), Current(s));
    var p := Pop(s);
    if p.Frame? {
      NamesPlug(p);
      assert NamesDistinct(p.kids) && p.kids == Concat(s.up.kids, Current(s));
    } else {
      assert Plug(s) == Plug(p) == p.done == Concat(s.up.done, Current(s));
    }
  }

  lemma {:induction false} NameRepeats(f: Forest, g: Forest)
    requires g.Cons? && g.kind == Key && g.id != NONE && Shaped(f, Object)
    requires NONE !in Ids(f) && KeyIn(f, g.text) != NONE
    ensures !DistinctTexts(Concat(f, g))
  {
    if f.text == g.text { NameBehind(f.sibs, g); } else { NameRepeats(f.sibs, g); }
  }

  lemma {:induction false} NameBehind(f: Forest, g: Forest)
    requires g.Cons? && g.kind == Key && g.id != NONE && Shaped(f, Object) && NONE !in Ids(f)
    ensures KeyIn(Concat(f, g), g.text) != NONE
  {
    if f.Cons? { NameBehind(f.sibs, g); }
  }

  /** A name that is taken is taken in the part that has been read. */
  lemma TakenRepeats(c: Config, a: Ahead, u: Forest, cap: nat)
    requires Follows(c, a, u, cap) && c.state == ExpectKey && a.f.Cons?
    requires Taken(c.spine, a.f.kind, a.f.text) && c.next < NONE
    ensures !NamesDistinct(FirstNodes(u, c.next + 1))
  {
    var s := Frame(c.spine, c.next, a.f.kind, a.f.text, Nil);
    EnteredPart(c, a, u, cap);
    NameRepeats(c.spine.kids, Current(s));
    if NamesDistinct(Plug(s)) { NamesPlug(Pop(s)); }
  }

  /** One more node of what is to come. */
  lemma EnteredPart(c: Config, a: Ahead, u: Forest, cap: nat)
    requires Follows(c, a, u, cap) && (c.state == ExpectKey || c.state == ExpectValue) && a.f.Cons?
    ensures FirstNodes(u, c.next + 1) == Plug(Frame(c.spine, c.next, a.f.kind, a.f.text, Nil))
  {
    hide FirstNodes, Plug, Suits, Due, FullSpine, SpineOk, FirstSpine, FramesBelow, Runs, Whole, Ids;
    var s, n := Frame(c.spine, c.next, a.f.kind, a.f.text, Nil), c.next + 1;
    EnteredSuits(c, a, u, cap);
    EnteredWhole(c.spine, a, c.next);
    SpineBelow(c.spine, c.next);
    FrameWider(c.spine, c.next, a.f.kind, a.f.text);
    FirstOfWhole(s, Entering(a), n, n);
  }

  lemma FrameWider(s: Spine, m: nat, kind: Kind, text: string)
    requires FramesBelow(s, m) && FirstSpine(s, m) == s
    ensures var r := Frame(s, m, kind, text, Nil); FramesBelow(r, m + 1) && FirstSpine(r, m + 1) == r
  {
    SpineWider(s, m, m + 1);
  }

  lemma SpineWider(s: Spine, m: nat, n: nat)
    requires FramesBelow(s, m) && m <= n && FirstSpine(s, m) == s
    ensures FramesBelow(s, n) && FirstSpine(s, n) == s
  {
    if s.Frame? { SpineWider(s.up, m, n); }
    FirstStays(Kids(s), m, n);
  }

  lemma {:induction false} FirstStays(f: Forest, m: nat, n: nat)
    requires FirstNodes(f, m) == f && m <= n
    ensures FirstNodes(f, n) == f
  {
    if f.Cons? {
      FirstBelow(f, m);
      FirstStays(f.kids, m, n);
      FirstStays(f.sibs, m, n);
    }
  }

  lemma {:induction false} FirstBelow(f: Forest, m: nat)
    ensures f.Cons? && FirstNodes(f, m) == f ==> f.id < m
    ensures Size(FirstNodes(f, m)) <= Size(f)
  {
    if f.Cons? {
      FirstBelow(f.kids, m);
      FirstBelow(f.sibs, m);
    }
  }

  // ----- the next token of a value -----

  lemma PlugDistinct(s: Spine)
    requires SpineOk(s)
    ensures NamesDistinct(Plug(s))
  {
    PlugShaped(s);
    ShapedSplits(Plug(s), Unknown);
  }

  lemma EnteredOk(c: Config, a: Ahead, u: Forest, cap: nat)
    requires Follows(c, a, u, cap) && (c.state == ExpectKey || c.state == ExpectValue) && a.f.Cons? && cap < NONE
    requires !Taken(c.spine, a.f.kind, a.f.text)
    ensures SpineOk(Frame(c.spine, c.next, a.f.kind, a.f.text, Nil))
  {
    hide Whole, Numbered, Plug, FullSpine;
  }

  /** What becomes of the next token of a value: its name is taken already, or there is no room for
      its node, or it is read. */
  lemma NextAnswer(t: Forest, q: seq<Token>, k: Token, a: Ahead, cap: nat)
    requires HasRead(t, q, a, cap) && Starts(t, q + [k]) && Proper(k) && cap < NONE
    ensures var c := Run(INITIAL, q, cap);
      && !Stopped(c)
      && if !NamesDistinct(PartOf(t, q + [k])) then Step(c, k, cap) == Refuse(c, DuplicateKey)
         else if NodeTokens(q + [k]) > cap then Step(c, k, cap) == Refuse(c, OutOfMemory)
         else !Stopped(Step(c, k, cap))
  {
    var c, u := Run(INITIAL, q, cap), Fresh(t, 0);
    assert Toks(t)[|q|] == (q + [k])[|q|] == k;
    assert Rest(c, a)[0] == k;
    NodesAppend(q, k);
    FollowedNext(c, a, u, cap);
    hide Run, Toks, Rest, Starts, Follows, FirstNodes, NamesDistinct, Step, NodeTokens;
    ComesNext(c, a, u, k, cap);
  }

  /** The same, seen from the parser. */
  lemma ComesNext(c: Config, a: Ahead, u: Forest, k: Token, cap: nat)
    requires Follows(c, a, u, cap) && Rest(c, a) != [] && Rest(c, a)[0] == k && Proper(k) && cap < NONE
    ensures var n := c.next + if StartsNode(k) then 1 else 0;
      if !NamesDistinct(FirstNodes(u, n)) then Step(c, k, cap) == Refuse(c, DuplicateKey)
      else if n > cap then Step(c, k, cap) == Refuse(c, OutOfMemory)
      else !Stopped(Step(c, k, cap))
  {
    hide Follows, Rest, Step, FirstNodes, NamesDistinct, Plug, KeyIn, SpineOk, FullSpine, Proper, Whole, Begin;
    StateOfNext(c, a, u, cap);
    var b := Advance(c, a, u, cap);
    if c.state == ExpectKey && k.kind == StringToken && KeyIn(Kids(c.spine), k.text) != NONE {
      NamedNext(c, a, u, cap);
      FollowedNext(c, a, u, cap);
      TakenRepeats(c, a, u, cap);
    } else if StartsNode(k) && cap <= c.next {
      NodeNext(c, a, u, cap);
      EnteredPart(c, a, u, cap);
      EnteredOk(c, a, u, cap);
      PlugDistinct(Frame(c.spine, c.next, a.f.kind, a.f.text, Nil));
    } else {
      var c' := Step(c, k, cap);
      FollowedPart(c', b, u, cap);
      FollowedNext(c', b, u, cap);
      PlugDistinct(c'.spine);
    }
  }

  lemma FollowedNext(c: Config, a: Ahead, u: Forest, cap: nat)
    requires Follows(c, a, u, cap)
    ensures SpineOk(c.spine) && c.next <= cap && !Stopped(c)
  {
  }

  /** Only a node to come starts with such a token. */
  lemma NodeNext(c: Config, a: Ahead, u: Forest, cap: nat)
    requires Follows(c, a, u, cap) && Rest(c, a) != [] && StartsNode(Rest(c, a)[0])
    requires !(c.state == ExpectKey && Rest(c, a)[0].kind == StringToken
               && KeyIn(Kids(c.spine), Rest(c, a)[0].text) != NONE)
    ensures (c.state == ExpectKey || c.state == ExpectValue) && a.f.Cons? && !Taken(c.spine, a.f.kind, a.f.text)
  {
    StateOfNext(c, a, u, cap);
    NoNodeNext(c, a, u, cap);
  }

  lemma NamedNext(c: Config, a: Ahead, u: Forest, cap: nat)
    requires Follows(c, a, u, cap) && Rest(c, a) != [] && c.state == ExpectKey && Rest(c, a)[0].kind == StringToken
    ensures a.f.Cons? && a.f.kind == Key && a.f.text == Rest(c, a)[0].text
  {
    StateOfNext(c, a, u, cap);
    NoNodeNext(c, a, u, cap);
  }

  lemma NoNodeNext(c: Config, a: Ahead, u: Forest, cap: nat)
    requires Follows(c, a, u, cap) && Rest(c, a) != []
    ensures c.state == HaveValue || c.state == ExpectColon || a.f.Nil? ==> !StartsNode(Rest(c, a)[0])
  {
    hide Whole, Numbered, Plug;
    if c.state == HaveValue {
      var b := Settles(c, a, u, cap);
      SettledFacts(c, cap);
      MoreToCome(Settled(c.spine), b);
      hide Settled, SpineOk, FullSpine;
    }
  }

  /** A sequence with which a value begins, without a name that repeats, is read as far as it fits. */
  lemma {:induction false} PrefixRuns(t: Forest, p: seq<Token>, cap: nat) returns (a: Ahead)
    requires Reads(t, p, cap) && cap < NONE
    ensures !Stopped(Run(INITIAL, p, cap)) && HasRead(t, p, a, cap)
    ensures Plug(Run(INITIAL, p, cap).spine) == PartOf(t, p)
    decreases |p|
  {
    if p != [] {
      var n := |p| - 1;
      var q, k := p[..n], p[n];
      assert p == q + [k] && k in p;
      ReadsShorter(t, q, k, cap);
      var b := PrefixRuns(t, q, cap);
      NextAnswer(t, q, k, b, cap);
      RunAppend(INITIAL, q, k, cap);
    }
    a := FollowsAny(t, p, cap);
    FollowedPart(Run(INITIAL, p, cap), a, Fresh(t, 0), cap);
  }

  lemma ReadsShorter(t: Forest, q: seq<Token>, k: Token, cap: nat)
    requires Reads(t, q + [k], cap) && cap < NONE
    ensures Reads(t, q, cap)
  {
    var u, m, n := Fresh(t, 0), NodeTokens(q), NodeTokens(q + [k]);
    NodesAppend(q, k);
    assert forall x :: x in q ==> x in q + [k];
    assert q <= q + [k] <= Toks(t);
    FreshNested(t, Unknown, 0);
    FirstNested(u, Unknown, n);
    FirstIds(u, n);
    FirstDistinct(FirstNodes(u, n), Unknown, m);
    FirstOfFirst(u, m, n);
  }

  lemma {:induction false} FirstNested(f: Forest, k: Kind, n: nat)
    requires Nested(f, k)
    ensures Nested(FirstNodes(f, n), k) && (f.Nil? ==> FirstNodes(f, n).Nil?)
    ensures f.Cons? && f.sibs.Nil? && FirstNodes(f, n).Cons? ==> FirstNodes(f, n).sibs.Nil?
  {
    if f.Cons? {
      FirstNested(f.kids, f.kind, n);
      FirstNested(f.sibs, k, n);
    }
  }

  lemma {:induction false} FirstIds(f: Forest, n: nat)
    ensures forall i :: i in Ids(FirstNodes(f, n)) ==> i < n
  {
    if f.Cons? {
      FirstIds(f.kids, n);
      FirstIds(f.sibs, n);
    }
  }

  lemma {:induction false} FirstNames(f: Forest, n: nat)
    requires Nested(f, Object) && NONE !in Ids(f)
    ensures DistinctTexts(f) ==> DistinctTexts(FirstNodes(f, n))
    ensures forall x :: KeyIn(f, x) == NONE ==> KeyIn(FirstNodes(f, n), x) == NONE
  {
    if f.Cons? { FirstNames(f.sibs, n); }
  }

  lemma {:induction false} FirstDistinct(f: Forest, k: Kind, n: nat)
    requires Nested(f, k) && NamesDistinct(f) && NONE !in Ids(f)
    ensures NamesDistinct(FirstNodes(f, n))
  {
    if f.Cons? {
      if f.kind == Object { FirstNames(f.kids, n); }
      FirstDistinct(f.kids, f.kind, n);
      FirstDistinct(f.sibs, k, n);
    }
  }

  // ----- what is answered -----

  /** The end of the text inside a value: unexpected, whatever is open; directly behind a name the
      parser waits for a colon and reports the end as a wrong token. */
  lemma EndTooEarly(t: Forest, p: seq<Token>, cap: nat)
    requires Reads(t, p, cap) && |p| < |Toks(t)| && cap < NONE
    ensures var r := Run(INITIAL, p + [EOF], cap);
      && r.status == (if Toks(t)[|p|] == COLON then UnexpectedToken else UnexpectedEof)
      && Plug(r.spine) == PartOf(t, p)
  {
    var a := PrefixRuns(t, p, cap);
    var c := Run(INITIAL, p, cap);
    RunAppend(INITIAL, p, EOF, cap);
    assert Rest(c, a)[0] == Toks(t)[|p|];
    EndInside(c, a, Fresh(t, 0), cap);
  }

  lemma EndInside(c: Config, a: Ahead, u: Forest, cap: nat)
    requires Follows(c, a, u, cap) && Rest(c, a) != []
    ensures Step(c, EOF, cap) == Refuse(c, if Rest(c, a)[0] == COLON then UnexpectedToken else UnexpectedEof)
  {
    StateOfNext(c, a, u, cap);
    ColonNext(c, a, u, cap);
    hide Whole, Numbered, Plug;
    if c.state == HaveValue && c.spine.up.Top? && c.spine.kids.Nil? { ScalarRoot(c, a, u, cap); }
  }

  /** Behind a scalar that is the whole document nothing is to come. */
  lemma ScalarRoot(c: Config, a: Ahead, u: Forest, cap: nat)
    requires Follows(c, a, u, cap) && c.state == HaveValue && c.spine.up.Top? && c.spine.kids.Nil?
    ensures Rest(c, a) == []
  {
    hide Whole, Numbered, Plug;
    UpNil(c.spine, a);
    NoTail(a.f);
    NoTail(a.up.f);
    TailOf(c.spine, a);
  }

  /** A colon comes next exactly behind a name. */
  lemma ColonNext(c: Config, a: Ahead, u: Forest, cap: nat)
    requires Follows(c, a, u, cap) && Rest(c, a) != []
    ensures Rest(c, a)[0] == COLON <==> c.state == ExpectColon
  {
    StateOfNext(c, a, u, cap);
    hide Whole, Numbered, Plug;
    if c.state == HaveValue {
      var b := Settles(c, a, u, cap);
      SettledFacts(c, cap);
      MoreToCome(Settled(c.spine), b);
      hide Settled, SpineOk, FullSpine;
    }
  }

  /** A name that is taken, or no room for one more node. */
  lemma NoPlace(t: Forest, p: seq<Token>, k: Token, rest: seq<Token>, cap: nat)
    requires Reads(t, p, cap) && Starts(t, p + [k]) && Proper(k) && !Reads(t, p + [k], cap) && cap < NONE
    ensures var r := Run(INITIAL, p + [k] + rest, cap);
      && r.status == (if NamesDistinct(PartOf(t, p + [k])) then OutOfMemory else DuplicateKey)
      && Plug(r.spine) == PartOf(t, p)
  {
    var a := PrefixRuns(t, p, cap);
    NextAnswer(t, p, k, a, cap);
    RunAppend(INITIAL, p, k, cap);
    RunConcat(INITIAL, p + [k], rest, cap);
    assert forall x :: x in p + [k] ==> x in p || x == k;
    hide Step, PartOf, NamesDistinct, Starts;
  }

  /** The end of a scalar value, not of a name. */
  ghost predicate ScalarEnds(p: seq<Token>) {
    p != [] && ScalarKind(p[|p| - 1].kind) != Unknown && !Begins(p + [COLON])
  }

  predicate IsCloser(t: Token) { t == CLOSE_BRACE || t == CLOSE_BRACKET }

  ghost predicate Sentence(p: seq<Token>) { exists t :: OneValue(t) && Toks(t) == p }

  /** A closer with which no value goes on, and which is taken all the same: either kind behind a
      scalar, and a bracket also behind a colon or a closed container. */
  ghost predicate TakenCloser(p: seq<Token>, k: Token) {
    && IsCloser(k) && p != []
    && (ScalarEnds(p) || (k == CLOSE_BRACKET && (p[|p| - 1] == COLON || (IsCloser(p[|p| - 1]) && !Sentence(p)))))
  }

  /** What the last token says about the state. */
  predicate LastFits(c: Config, l: Token) {
    match c.state
    case ExpectKey => l == OPEN_BRACE || l == COMMA
    case ExpectColon => l.kind == StringToken
    case ExpectValue =>
      if l == COLON then c.spine.Frame? && c.spine.kind == Key
      else (l == OPEN_BRACKET || l == COMMA) && c.spine.Frame? && c.spine.kind == Array
    case HaveValue =>
      c.spine.Frame? && if IsScalar(c.spine.kind) then ScalarKind(l.kind) != Unknown else IsCloser(l)
    case ExpectEof => IsCloser(l)
    case _ => true
  }

  lemma LastStep(c: Config, k: Token, cap: nat)
    requires Inv(c, cap) && FullSpine(c.spine) && !Stopped(c) && Proper(k) && !Stopped(Step(c, k, cap)) && cap <= NONE
    requires NestOk(Containers(c.spine), k)
    ensures LastFits(Step(c, k, cap), k)
  {
    hide SpineOk, FullSpine;
    if c.state == HaveValue {
      LastValue(c, k, cap);
    } else {
      StepKeeps(c, k, cap);
    }
  }

  lemma LastValue(c: Config, k: Token, cap: nat)
    requires Inv(c, cap) && FullSpine(c.spine) && !Stopped(c) && Proper(k) && !Stopped(Step(c, k, cap)) && cap <= NONE
    requires NestOk(Containers(c.spine), k) && c.state == HaveValue
    ensures LastFits(Step(c, k, cap), k)
  {
    hide SpineOk, FullSpine, CloseBrace, CloseBracket, CommaStep, Settled, Ended, Inside, Weight;
    SettledFacts(c, cap);
    StepKeeps(c, k, cap);
  }

  /** A token with which no value goes on is refused as unexpected, unless it is one of those
      closers. */
  lemma StepRefuses(c: Config, p: seq<Token>, k: Token, cap: nat)
    requires Inv(c, cap) && FullSpine(c.spine) && !Stopped(c) && cap < NONE && Proper(k)
    requires Consumed(c) == p && !Begins(p + [k]) && (p == [] ==> c == INITIAL)
    requires p != [] ==> LastFits(c, p[|p| - 1])
    requires c.state != ExpectColon ==> !Begins(p + [COLON])
    requires c.state == ExpectEof <==> p != [] && IsCloser(p[|p| - 1]) && Sentence(p)
    ensures if TakenCloser(p, k) then !Stopped(Step(c, k, cap)) else Step(c, k, cap) == Refuse(c, UnexpectedToken)
  {
    match c.state
    case ExpectKey => KeyRefuses(c, p, k, cap);
    case ExpectColon => ColonRefuses(c, p, k, cap);
    case ExpectValue => ValueRefuses(c, p, k, cap);
    case HaveValue => BehindRefuses(c, p, k, cap);
    case _ =>
  }

  /** Where a token is taken and brackets match, the value goes on. */
  lemma TakenBegins(c: Config, k: Token, cap: nat)
    requires Inv(c, cap) && FullSpine(c.spine) && !Stopped(c) && Proper(k) && cap <= NONE
    requires NestOk(Containers(c.spine), k) && !Stopped(Step(c, k, cap))
    ensures Begins(Consumed(c) + [k])
  {
    StepTracks(c, k, cap);
    StepKeeps(c, k, cap);
    ConfigBegins(Step(c, k, cap), cap);
  }

  lemma KeyRefuses(c: Config, p: seq<Token>, k: Token, cap: nat)
    requires Inv(c, cap) && FullSpine(c.spine) && !Stopped(c) && cap < NONE && Proper(k) && c.state == ExpectKey
    requires Consumed(c) == p && !Begins(p + [k]) && p != [] && LastFits(c, p[|p| - 1])
    ensures !TakenCloser(p, k) && Step(c, k, cap) == Refuse(c, UnexpectedToken)
  {
    hide Begins;
    NameBegins(c.spine, k.text);
    if k.kind == ClosingBrace && c.spine.kids.Nil? { TakenBegins(c, k, cap); }
  }

  lemma ColonRefuses(c: Config, p: seq<Token>, k: Token, cap: nat)
    requires Inv(c, cap) && FullSpine(c.spine) && !Stopped(c) && cap < NONE && Proper(k) && c.state == ExpectColon
    requires Consumed(c) == p && !Begins(p + [k]) && p != [] && LastFits(c, p[|p| - 1])
    ensures !TakenCloser(p, k) && Step(c, k, cap) == Refuse(c, UnexpectedToken)
  {
    hide Begins;
    TakenBegins(c, COLON, cap);
  }

  lemma ValueRefuses(c: Config, p: seq<Token>, k: Token, cap: nat)
    requires Inv(c, cap) && FullSpine(c.spine) && !Stopped(c) && cap < NONE && Proper(k) && c.state == ExpectValue
    requires Consumed(c) == p && !Begins(p + [k]) && (p == [] ==> c == INITIAL)
    requires p != [] ==> LastFits(c, p[|p| - 1])
    ensures if TakenCloser(p, k) then !Stopped(Step(c, k, cap)) else Step(c, k, cap) == Refuse(c, UnexpectedToken)
  {
    hide Begins;
    match k.kind
    case OpeningBrace => NodeBegins(c.spine, Object, "{");
    case OpeningBracket => NodeBegins(c.spine, Array, "[");
    case ClosingBracket =>
      if c.spine.Frame? && c.spine.kind == Array && c.spine.kids.Nil? { TakenBegins(c, k, cap); }
    case ClosingBrace =>
    case _ => if ScalarKind(k.kind) != Unknown { NodeBegins(c.spine, ScalarKind(k.kind), k.text); }
  }

  lemma BehindRefuses(c: Config, p: seq<Token>, k: Token, cap: nat)
    requires Inv(c, cap) && FullSpine(c.spine) && !Stopped(c) && cap < NONE && Proper(k) && c.state == HaveValue
    requires Consumed(c) == p && !Begins(p + [k]) && p != [] && LastFits(c, p[|p| - 1]) && !Begins(p + [COLON])
    requires !(IsCloser(p[|p| - 1]) && Sentence(p))
    ensures if TakenCloser(p, k) then !Stopped(Step(c, k, cap)) else Step(c, k, cap) == Refuse(c, UnexpectedToken)
  {
    hide Begins, Sentence;
    if NestOk(Containers(c.spine), k) && !Stopped(Step(c, k, cap)) { TakenBegins(c, k, cap); }
    SettledFacts(c, cap);
    hide SpineOk, FullSpine;
  }

  lemma NextNest(c: Config, a: Ahead, u: Forest, cap: nat)
    requires Follows(c, a, u, cap) && Rest(c, a) != []
    ensures NestOk(Containers(c.spine), Rest(c, a)[0])
  {
    StateOfNext(c, a, u, cap);
    hide Whole, Numbered, Plug;
    if c.state == HaveValue {
      var b := Settles(c, a, u, cap);
      SettledFacts(c, cap);
      MoreToCome(Settled(c.spine), b);
      hide Settled, SpineOk, FullSpine;
    }
  }

  /** Nothing more is to come: the document is a closed container or a scalar. */
  lemma NothingComes(c: Config, a: Ahead, u: Forest, cap: nat)
    requires Follows(c, a, u, cap) && Rest(c, a) == []
    ensures c.state == ExpectEof || (c.state == HaveValue && c.spine.up.Top? && IsScalar(c.spine.kind))
  {
    hide Whole, Numbered, Plug;
    if c.state == HaveValue {
      var b := Settles(c, a, u, cap);
      SettledFacts(c, cap);
      var r := Settled(c.spine);
      MoreToCome(r, b);
      if r.Frame? { CloserToCome(r, b); }
      SettledTop(c.spine);
      hide Settled, SpineOk, FullSpine, TailToks, Tail;
    } else if c.state == ExpectKey || c.state == ExpectValue {
      if a.f.Cons? {
        ItemStarts(a.f, TailToks(a.f.sibs) + Tail(c.spine, a));
        ChainBody(a.f, Tail(c.spine, a));
      } else {
        CloserToCome(c.spine, a);
      }
    }
  }

  lemma CloserToCome(r: Spine, b: Ahead)
    requires r.Frame? && IsContainer(r.kind) && Lines(r, b)
    ensures Tail(r, b) != [] && TailToks(b.f) + Tail(r, b) != []
  {
    TailOf(r, b);
  }

  lemma SettledTop(s: Spine)
    requires s.Frame? && SpineOk(s) && s.kind != Key && Settled(s).Top?
    ensures IsScalar(s.kind) && s.up.Top?
  {
    RisesTo(s);
  }

  /** The last token and the state of a parser that reads a value. */
  lemma LastRead(t: Forest, p: seq<Token>, cap: nat)
    requires Reads(t, p, cap) && p != [] && cap < NONE
    ensures LastFits(Run(INITIAL, p, cap), p[|p| - 1]) && !Stopped(Run(INITIAL, p, cap))
  {
    var n := |p| - 1;
    var q, k := p[..n], p[n];
    assert p == q + [k] && k in p;
    ReadsShorter(t, q, k, cap);
    var a := PrefixRuns(t, p, cap);
    var b := PrefixRuns(t, q, cap);
    RunAppend(INITIAL, q, k, cap);
    var c := Run(INITIAL, q, cap);
    assert q + [k] <= Toks(t) && Toks(t)[n] == k && Rest(c, b)[0] == k;
    NextNest(c, b, Fresh(t, 0), cap);
    LastStep(c, k, cap);
  }

  /** Whether a colon may follow, and whether the value is complete, shows in the state. */
  lemma StateTold(t: Forest, p: seq<Token>, cap: nat)
    requires Reads(t, p, cap) && cap < NONE
    ensures var c := Run(INITIAL, p, cap);
      && (c.state != ExpectColon ==> !Begins(p + [COLON]))
      && (c.state == ExpectEof <==> p != [] && IsCloser(p[|p| - 1]) && Sentence(p))
  {
    var a := PrefixRuns(t, p, cap);
    var c := Run(INITIAL, p, cap);
    if p != [] { LastRead(t, p, cap); }
    if t' :| Starts(t', p + [COLON]) {
      assert Toks(t')[|p|] == (p + [COLON])[|p|] == COLON && p <= p + [COLON];
      var b := FollowsAny(t', p, cap);
      assert Rest(c, b)[0] == COLON;
      ColonNext(c, b, Fresh(t', 0), cap);
    }
    if t' :| OneValue(t') && Toks(t') == p {
      var b := FollowsAny(t', p, cap);
      NothingComes(c, b, Fresh(t', 0), cap);
    }
    if c.state == ExpectEof {
      assert Toks(t) == p;
    }
  }

  /** A token with which no value goes on. */
  lemma WrongToken(t: Forest, p: seq<Token>, k: Token, rest: seq<Token>, cap: nat)
    requires Reads(t, p, cap) && Proper(k) && !Begins(p + [k]) && cap < NONE
    ensures if TakenCloser(p, k) then !Stopped(Run(INITIAL, p + [k], cap))
      else
        var r := Run(INITIAL, p + [k] + rest, cap);
        r.status == UnexpectedToken && Plug(r.spine) == PartOf(t, p)
  {
    var a := PrefixRuns(t, p, cap);
    var c := Run(INITIAL, p, cap);
    StateTold(t, p, cap);
    if p != [] { LastRead(t, p, cap); }
    RunAppend(INITIAL, p, k, cap);
    RunConcat(INITIAL, p + [k], rest, cap);
    hide Begins, TakenCloser, Step, LastFits, PartOf, Rest;
    StepRefuses(c, p, k, cap);
  }

  /** A whole value is accepted. */
  lemma WholeAccepted(t: Forest, cap: nat)
    requires Reads(t, Toks(t), cap) && cap < NONE
    ensures var r := Run(INITIAL, Toks(t) + [EOF], cap); Accepted(r) && Plug(r.spine) == PartOf(t, Toks(t))
  {
    var a := PrefixRuns(t, Toks(t), cap);
    var c := Run(INITIAL, Toks(t), cap);
    NothingComes(c, a, Fresh(t, 0), cap);
    RunAppend(INITIAL, Toks(t), EOF, cap);
  }
}
