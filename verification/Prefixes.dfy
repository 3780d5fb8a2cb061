/** Sequences of tokens with which a JSON value can begin, and why the parser stands behind such a
    sequence as long as it has not refused a token. */
module Prefixes {
  import opened Codes
  import opened Forests
  import opened Shapes
  import opened Lexer
  import opened Machine
  import opened Grammar
  import opened Sentences

  /** The sentence of value `t` begins with `p`. */
  ghost predicate Starts(t: Forest, p: seq<Token>) { OneValue(t) && p <= Toks(t) }

  /** Some sentence does; names may repeat in it. */
  ghost predicate Begins(p: seq<Token>) { exists t :: Starts(t, p) }

  lemma BeginsShorter(p: seq<Token>, q: seq<Token>)
    requires Begins(p) && q <= p
    ensures Begins(q)
  {
    var t :| Starts(t, p);
    assert Starts(t, q);
  }

  lemma BeginsHead(p: seq<Token>, q: seq<Token>)
    requires Begins(p + q)
    ensures Begins(p)
  {
    BeginsShorter(p + q, p);
  }

  // ----- every reachable position can be completed -----

  /** A container in the making becomes part of a whole value when all that is open is closed. */
  lemma {:induction false} ContainerBegins(r: Spine)
    requires SpineOk(r) && FullSpine(r) && (if r.Top? then r.done.Cons? else IsContainer(r.kind))
    ensures Begins(Ended(r))
    decreases Depth(r)
  {
    if r.Top? {
      ShapedSplits(r.done, Unknown);
      assert Starts(r.done, Toks(r.done));
    } else {
      ClimbKeeps(r, {Object, Array});
      ContainerEnds(r);
      hide SpineOk, FullSpine, Ended, ContainerParent, Starts;
      ContainerBegins(ContainerParent(r));
      BeginsHead(Inside(r), [Closer(r.kind)]);
    }
  }

  lemma ContainerAround(s: Spine)
    requires s.Frame?
    ensures var p := ContainerParent(s); p.Top? || IsContainer(p.kind)
  {
  }

  lemma ContainerEnds(r: Spine)
    requires r.Frame? && SpineOk(r) && FullSpine(r) && IsContainer(r.kind)
    ensures Ended(ContainerParent(r)) == Inside(r) + [Closer(r.kind)] && FullSpine(ContainerParent(r))
    ensures var p := ContainerParent(r); p.Top? || IsContainer(p.kind)
    ensures Ended(r) == Inside(r)
  {
    hide FullSpine, Before, Toks, ItemToks, ContainerParent;
    ContainerAround(r);
    Landed(r);
    ItemFrame(Current(r));
    hide SpineOk;
    assert Opener(r.kind) == Begin(r.kind, r.text);
    assert Before(r.up) + ([Begin(r.kind, r.text)] + Toks(r.kids) + [Closer(r.kind)]) == Inside(r) + [Closer(r.kind)];
  }

  lemma ScalarBegins(s: Spine)
    requires s.Frame? && SpineOk(s) && FullSpine(s) && IsScalar(s.kind)
    ensures Begins(Inside(s))
  {
    ScalarClimb(s);
    ContainerBegins(ContainerParent(s));
  }

  /** Where a node may start, its first token may follow. */
  lemma NodeBegins(s: Spine, kind: Kind, text: string)
    requires SpineOk(s) && FullSpine(s) && Accepts(s, kind, text)
    requires IsContainer(kind) || IsScalar(kind) || kind == Key
    ensures Begins(Before(s) + [Begin(kind, text)])
  {
    var n := Frame(s, 0, kind, text, Nil);
    assert Inside(n) == Before(s) + [Begin(kind, text)] + [] == Before(s) + [Begin(kind, text)];
    if IsContainer(kind) {
      ContainerBegins(n);
    } else if IsScalar(kind) {
      ScalarBegins(n);
    } else {
      var v := Frame(n, 0, Null, "null", Nil);
      ScalarBegins(v);
      assert Inside(v) == Inside(n) + ([COLON] + [Begin(Null, "null")]);
      BeginsHead(Inside(n), [COLON] + [Begin(Null, "null")]);
    }
  }

  function Longest(f: Forest): nat {
    if f.Nil? then 0 else if |f.text| > Longest(f.sibs) then |f.text| else Longest(f.sibs)
  }

  /** A name that no key of the chain has. */
  function NewName(f: Forest): string { seq(Longest(f) + 1, i => 'x') }

  lemma {:induction false} NewNameNew(f: Forest, name: string)
    requires |name| > Longest(f)
    ensures KeyIn(f, name) == NONE
  {
    if f.Cons? { NewNameNew(f.sibs, name); }
  }

  lemma ValueBegins(s: Spine)
    requires SpineOk(s) && FullSpine(s) && StateOk(ExpectValue, s)
    ensures Begins(Before(s))
  {
    NodeBegins(s, Null, "null");
    BeginsHead(Before(s), [Begin(Null, "null")]);
  }

  lemma NameBegins(s: Spine, text: string)
    requires SpineOk(s) && FullSpine(s) && s.Frame? && s.kind == Object
    ensures Begins(Before(s)) && Begins(Before(s) + [Token(StringToken, text)])
  {
    var name := NewName(s.kids);
    NewNameNew(s.kids, name);
    NodeBegins(s, Key, name);
    BeginsHead(Before(s), [Begin(Key, name)]);
    Renamed(Before(s), name, text);
  }

  /** The text of a string does not matter for what may follow. */
  lemma Renamed(p: seq<Token>, x: string, y: string)
    requires Begins(p + [Token(StringToken, x)])
    ensures Begins(p + [Token(StringToken, y)])
  {
    var a, b := p + [Token(StringToken, x)], p + [Token(StringToken, y)];
    var t :| Starts(t, a);
    var rest := Toks(t)[|a|..];
    var ts := b + rest;
    assert Toks(t) == a + rest;
    ToksGenuine(t, Unknown);
    assert AllGenuine(ts) by {
      forall k | k in ts ensures Genuine(k) { if k != Token(StringToken, y) { assert k in Toks(t); } }
    }
    assert SameKinds(ts, Toks(t));
    var t' := Retexted(t, Unknown, ts);
    assert b <= Toks(t') && Starts(t', b);
  }

  lemma {:induction false} ToksGenuine(f: Forest, k: Kind)
    requires Nested(f, k)
    ensures AllGenuine(Toks(f)) && (f.Cons? ==> AllGenuine(ItemToks(f)))
  {
    if f.Cons? {
      ToksGenuine(f.kids, f.kind);
      ToksGenuine(f.sibs, k);
      ItemGenuine(f, k);
      assert Toks(f) == ItemToks(f) + TailToks(f.sibs);
      assert forall t :: t in TailToks(f.sibs) ==> t == COMMA || t in Toks(f.sibs);
    }
  }

  lemma ItemGenuine(f: Forest, k: Kind)
    requires f.Cons? && Nested(f, k) && AllGenuine(Toks(f.kids))
    ensures AllGenuine(ItemToks(f))
  {
    hide Toks;
  }

  /** Behind tokens that were taken, brackets matching, a value can go on. */
  lemma ConfigBegins(c: Config, cap: nat)
    requires Inv(c, cap) && FullSpine(c.spine) && !Stopped(c)
    ensures Begins(Consumed(c))
  {
    var s := c.spine;
    match c.state
    case ExpectKey => NameBegins(s, "");
    case ExpectValue => ValueBegins(s);
    case ExpectColon =>
      ValueBegins(s);
      BeginsHead(Inside(s), [COLON]);
    case HaveValue => if IsScalar(s.kind) { ScalarBegins(s); } else { ContainerBegins(s); }
    case ExpectEof => ContainerBegins(s);
    case _ =>
  }
}
