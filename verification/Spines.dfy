/** A spine and the forest it stands for: where the current node sits, and what appending to it does. */
module Spines {
  import opened Codes
  import opened Forests
  import opened Pool
  import opened Shapes
  import opened Lexer
  import opened Machine

  lemma {:induction false} AtConcat(f: Forest, g: Forest, q: nat)
    requires g.Cons? && g.sibs.Nil? && Distinct(Concat(f, g))
    ensures g.id in Ids(Concat(f, g)) && At(Concat(f, g), g.id) == g && Parent(Concat(f, g), g.id, q) == q
  {
    ConcatFacts(f, g);
    if f.Cons? {
      ConcatFacts(f.sibs, g);
      AtConcat(f.sibs, g, q);
    }
  }

  /** The current node in the whole tree: its place, its parent, and that nothing follows it yet. */
  lemma {:induction false} CurrentAt(s: Spine)
    requires s.Frame? && SpineOk(s) && Distinct(Plug(s))
    ensures s.id in Ids(Plug(s)) && At(Plug(s), s.id) == Current(s) && Parent(Plug(s), s.id, NONE) == Iter(s.up)
    decreases Depth(s)
  {
    PopKeeps(s);
    var p, f := Pop(s), Plug(s);
    if p.Top? {
      assert f == Plug(p) == p.done == Concat(Nil, Current(s)) == Current(s);
    } else {
      CurrentAt(p);
      AtIds(f, p.id);
      AtConcat(s.up.kids, Current(s), p.id);
      Below(f, NONE, p.id, s.id);
    }
  }

  lemma {:induction false} GraftConcat(f: Forest, g: Forest, id: nat, h: Forest)
    requires id !in Ids(f)
    ensures Graft(Concat(f, g), id, h) == Concat(f, Graft(g, id, h))
  {
    if f.Cons? {
      AbsentGraft(f.kids, id, h);
      GraftConcat(f.sibs, g, id, h);
    }
  }

  function WithKids(s: Spine, g: Forest): Spine { if s.Top? then Top(g) else s.(kids := g) }

  /** Appending deep inside the finished part of a spine. */
  lemma {:induction false} PlugGraft(s: Spine, id: nat, g: Forest)
    requires SpineOk(s) && id in Ids(Kids(s)) && Distinct(Plug(s))
    ensures Plug(WithKids(s, Graft(Kids(s), id, g))) == Graft(Plug(s), id, g)
    decreases Depth(s)
  {
    if s.Frame? {
      var p, s' := Pop(s), WithKids(s, Graft(s.kids, id, g));
      PopKeeps(s);
      KidsDistinct(p);
      ConcatFacts(Kids(s.up), Current(s));
      assert id !in Ids(Kids(s.up)) && id != s.id by { DisjointConcat(Kids(s.up), Current(s)); }
      GraftConcat(Kids(s.up), Current(s), id, g);
      AbsentGraft(Nil, id, g);
      assert Graft(Current(s), id, g) == Current(s');
      assert Pop(s') == WithKids(p, Graft(Kids(p), id, g));
      PlugGraft(p, id, g);
    }
  }

  lemma {:induction false} DisjointConcat(f: Forest, g: Forest)
    requires Distinct(Concat(f, g))
    ensures Ids(f) !! Ids(g) && Distinct(f) && Distinct(g)
  {
    if f.Cons? {
      ConcatFacts(f.sibs, g);
      DisjointConcat(f.sibs, g);
    }
  }

  lemma KidsDistinct(s: Spine)
    requires SpineOk(s) && Distinct(Plug(s))
    ensures Distinct(Kids(s))
  {
    if s.Frame? {
      CurrentAt(s);
      AtIds(Plug(s), s.id);
    }
  }

  /** Appending to the children of the current node. */
  lemma PlugExtend(s: Spine, g: Forest)
    requires s.Frame? && SpineOk(s) && Distinct(Plug(s))
    ensures Plug(Extend(s, g)) == Graft(Plug(s), s.id, g)
  {
    var p, u := Pop(s), Kids(s.up);
    PopKeeps(s);
    KidsDistinct(p);
    ConcatFacts(u, Current(s));
    DisjointConcat(u, Current(s));
    GraftConcat(u, Current(s), s.id, g);
    assert Graft(Current(s), s.id, g) == Current(Extend(s, g));
    assert Pop(Extend(s, g)) == WithKids(p, Graft(Kids(p), s.id, g));
    PlugGraft(p, s.id, g);
  }

  /** A new node below the current one becomes the current one. */
  lemma PlugPush(s: Spine, n: nat, kind: Kind, text: string)
    requires SpineOk(s) && Distinct(Plug(s)) && (s.Top? ==> s.done.Nil?)
    ensures Plug(Frame(s, n, kind, text, Nil))
         == if s.Top? then Leaf(n, kind, text) else Graft(Plug(s), s.id, Leaf(n, kind, text))
  {
    if s.Frame? {
      PlugExtend(s, Leaf(n, kind, text));
    } else {
      assert Plug(Frame(s, n, kind, text, Nil)) == Plug(Top(Concat(Nil, Leaf(n, kind, text))));
    }
  }

  /** The cell of the current node. */
  lemma CurrentCell(cells: seq<Cell>, s: Spine)
    requires s.Frame? && SpineOk(s) && Distinct(Plug(s)) && Rep(cells, Plug(s), NONE)
    ensures s.id < |cells| && Matches(cells[s.id], Current(s), Iter(s.up)) && s.id in Ids(Plug(s))
    ensures Iter(Pop(s)) == Iter(s.up) && Plug(Pop(s)) == Plug(s) && SpineOk(Pop(s))
  {
    CurrentAt(s);
    PopKeeps(s);
    RepAt(cells, Plug(s), NONE, s.id);
  }

  // ----- how many keys -----

  function KeyCount(f: Forest): nat {
    if f.Nil? then 0 else (if f.kind == Key then 1 else 0) + KeyCount(f.kids) + KeyCount(f.sibs)
  }

  lemma {:induction false} KeyRefsCount(f: Forest, q: nat)
    requires Distinct(f)
    ensures |KeyRefs(f, q)| == KeyCount(f)
  {
    if f.Cons? {
      KeyRefsCount(f.kids, f.id);
      KeyRefsCount(f.sibs, q);
      var own := if f.kind == Key then {KeyRef(q, f.id, f.text)} else {};
      var a, b := KeyRefs(f.kids, f.id), KeyRefs(f.sibs, q);
      forall r | r in a ensures r.id in Ids(f.kids) { KeyRefIds(f.kids, f.id, r); }
      forall r | r in b ensures r.id in Ids(f.sibs) { KeyRefIds(f.sibs, q, r); }
      assert own !! a && own + a !! b;
    }
  }

  function KeysOn(s: Spine): nat {
    KeyCount(Kids(s)) + if s.Top? then 0 else (if s.kind == Key then 1 else 0) + KeysOn(s.up)
  }

  lemma {:induction false} KeyCountConcat(f: Forest, g: Forest)
    ensures KeyCount(Concat(f, g)) == KeyCount(f) + KeyCount(g)
  {
    if f.Cons? { KeyCountConcat(f.sibs, g); }
  }

  lemma PopKeys(s: Spine)
    requires s.Frame?
    ensures KeysOn(Pop(s)) == KeysOn(s)
  {
    KeyCountConcat(Kids(s.up), Current(s));
  }

  lemma {:induction false} ClimbKeys(s: Spine, stop: set<Kind>)
    requires s.Frame?
    ensures KeysOn(Climb(s, stop)) == KeysOn(s)
    decreases Depth(s)
  {
    PopKeys(s);
    if Pop(s).Frame? && Pop(s).kind !in stop { ClimbKeys(Pop(s), stop); }
  }

  lemma {:induction false} PlugKeys(s: Spine)
    ensures KeyCount(Plug(s)) == KeysOn(s)
    decreases Depth(s)
  {
    if s.Frame? {
      PopKeys(s);
      PlugKeys(Pop(s));
    }
  }

  lemma ClosedKeys(c: Config, s: Spine)
    ensures KeysOn(Closed(c, s).spine) == KeysOn(s)
  {
    if s.Frame? { ClimbKeys(s, {Object, Array}); }
  }

  lemma CloseKeys(c: Config)
    ensures KeysOn(CloseBrace(c).spine) == KeysOn(c.spine) && KeysOn(CloseBracket(c).spine) == KeysOn(c.spine)
  {
    ClosedKeys(c, c.spine);
    if c.spine.Frame? {
      ClimbKeys(c.spine, {Object});
      ClosedKeys(c, Climb(c.spine, {Object}));
      ClimbKeys(c.spine, {Array});
      ClosedKeys(c, Climb(c.spine, {Array}));
    }
  }

  /** No step loses a key. */
  lemma StepKeys(c: Config, t: Token, cap: nat)
    ensures KeysOn(c.spine) <= KeysOn(Step(c, t, cap).spine)
  {
    CloseKeys(c);
    if c.spine.Frame? { ClimbKeys(c.spine, {Object, Array}); }
    InsertsKeys(c, cap);
    hide CloseBrace, CloseBracket, Climb, KeyIn, Clip, KeysOn, Insert;
  }

  lemma InsertsKeys(c: Config, cap: nat)
    ensures forall kind, text, state :: KeysOn(c.spine) <= KeysOn(Insert(c, kind, text, state, cap).spine)
  {
  }

  lemma {:induction false} DriveKeys(c: Config, text: string, pos: nat, cap: nat)
    ensures KeysOn(c.spine) <= KeysOn(Drive(c, text, pos, cap).spine)
    ensures Lex(text, pos).Lexed? ==>
        KeysOn(Step(c, Lex(text, pos).token, cap).spine) <= KeysOn(Drive(c, text, pos, cap).spine)
    decreases if pos <= |text| then |text| - pos else 0
  {
    var w := Lex(text, pos);
    if w.Lexed? {
      StepKeys(c, w.token, cap);
      if !Stopped(Step(c, w.token, cap)) && w.end <= |text| { DriveKeys(Step(c, w.token, cap), text, w.end, cap); }
    }
  }

  // ----- a key index with limited room -----

  /** A key index with room for so many keys; linear search needs none. */
  datatype Room = Unlimited | AtMost(n: nat)

  predicate HasRoom(room: Room, f: Forest) { room.AtMost? ==> KeyCount(f) <= room.n }

  /** A key for which there is no room in the index ends the parse. */
  function Checked(c: Config, room: Room): Config {
    if room.AtMost? && KeysOn(c.spine) > room.n then c.(status := OutOfMemory) else c
  }

  /** jes_parse with a key index. */
  function DriveIn(c: Config, text: string, pos: nat, cap: nat, room: Room): Config
    decreases if pos <= |text| then |text| - pos else 0
  {
    var w := Lex(text, pos);
    if w.Failed? then Refuse(c, w.status)
    else
      var c' := Checked(Step(c, w.token, cap), room);
      if Stopped(c') || w.end > |text| then c' else DriveIn(c', text, w.end, cap, room)
  }

  /** Where the index has room for all keys it makes no difference, and else memory runs out. */
  lemma {:induction false} DriveInHolds(c: Config, text: string, pos: nat, cap: nat, room: Room)
    requires room.AtMost? ==> KeysOn(c.spine) <= room.n
    ensures var r := Drive(c, text, pos, cap);
      if HasRoom(room, Plug(r.spine)) then DriveIn(c, text, pos, cap, room) == r
      else DriveIn(c, text, pos, cap, room).status == OutOfMemory
    decreases if pos <= |text| then |text| - pos else 0
  {
    var w, r := Lex(text, pos), Drive(c, text, pos, cap);
    PlugKeys(r.spine);
    DriveKeys(c, text, pos, cap);
    if w.Lexed? {
      var c' := Step(c, w.token, cap);
      if Checked(c', room) == c' && !Stopped(c') && w.end <= |text| {
        DriveInHolds(c', text, w.end, cap, room);
      }
    }
  }

  // ----- the slots that a parse takes -----

  lemma {:induction false} GraftIds(f: Forest, p: nat, n: nat, kind: Kind, text: string)
    requires p in Ids(f) && Distinct(f) && n !in Ids(f)
    ensures var g := Graft(f, p, Leaf(n, kind, text)); Ids(g) == Ids(f) + {n} && Distinct(g)
  {
    var leaf := Leaf(n, kind, text);
    if f.id == p {
      ConcatLeaf(f.kids, leaf);
    } else if p in Ids(f.kids) {
      GraftIds(f.kids, p, n, kind, text);
      AbsentGraft(f.sibs, p, leaf);
    } else {
      GraftIds(f.sibs, p, n, kind, text);
      AbsentGraft(f.kids, p, leaf);
    }
  }

  lemma {:induction false} ConcatLeaf(f: Forest, leaf: Forest)
    requires leaf.Cons? && leaf.kids.Nil? && leaf.sibs.Nil? && leaf.id !in Ids(f) && Distinct(f)
    ensures Ids(Concat(f, leaf)) == Ids(f) + {leaf.id} && Distinct(Concat(f, leaf))
  {
    if f.Cons? { ConcatLeaf(f.sibs, leaf); }
  }

  /** The nodes sit in different slots below `n`. */
  ghost predicate Numbered(s: Spine, n: nat) { Distinct(Plug(s)) && forall i :: i in Ids(Plug(s)) ==> i < n }

  lemma InsertNumbered(c: Config, kind: Kind, text: string, state: State, cap: nat)
    requires SpineOk(c.spine) && Numbered(c.spine, c.next) && (c.spine.Top? ==> c.spine.done.Nil?)
    ensures var r := Insert(c, kind, text, state, cap); Numbered(r.spine, r.next)
  {
    if c.next < cap {
      PlugPush(c.spine, c.next, kind, Clip(text));
      if c.spine.Frame? {
        CurrentAt(c.spine);
        GraftIds(Plug(c.spine), c.spine.id, c.next, kind, Clip(text));
      }
    }
  }

  /** Closing a container moves on the spine and leaves the tree. */
  lemma CloseStays(c: Config)
    requires SpineOk(c.spine) && c.spine.Frame?
    ensures CloseBrace(c).next == c.next && Plug(CloseBrace(c).spine) == Plug(c.spine)
    ensures CloseBracket(c).next == c.next && Plug(CloseBracket(c).spine) == Plug(c.spine)
  {
    ClimbKeeps(c.spine, {Object});
    ClimbKeeps(c.spine, {Array});
    ClosedStays(c, c.spine);
    ClosedStays(c, Climb(c.spine, {Object}));
    ClosedStays(c, Climb(c.spine, {Array}));
  }

  lemma ClosedStays(c: Config, s: Spine)
    requires SpineOk(s)
    ensures Closed(c, s).next == c.next && Plug(Closed(c, s).spine) == Plug(s)
  {
    if s.Frame? { ClimbKeeps(s, {Object, Array}); }
  }

  lemma CommaStays(c: Config)
    requires SpineOk(c.spine) && c.spine.Frame?
    ensures CommaStep(c).next == c.next && Plug(CommaStep(c).spine) == Plug(c.spine)
  {
    ClimbKeeps(c.spine, {Object, Array});
    hide Plug, SpineOk, Climb;
  }

  lemma ExpectKeyNumbered(c: Config, t: Token, cap: nat)
    requires Inv(c, cap) && Numbered(c.spine, c.next) && c.state == ExpectKey
    ensures var r := ExpectKeyStep(c, t, cap); Numbered(r.spine, r.next)
  {
    CloseStays(c);
    InsertNumbered(c, Key, t.text, ExpectColon, cap);
    hide Plug, Distinct, Ids, CloseBrace, SpineOk, Insert;
  }

  lemma ExpectValueNumbered(c: Config, t: Token, cap: nat)
    requires Inv(c, cap) && Numbered(c.spine, c.next) && c.state == ExpectValue
    ensures var r := ExpectValueStep(c, t, cap); Numbered(r.spine, r.next)
  {
    if c.spine.Frame? { CloseStays(c); }
    InsertNumbered(c, Array, t.text, ExpectValue, cap);
    InsertNumbered(c, Object, t.text, ExpectKey, cap);
    InsertNumbered(c, ScalarKind(t.kind), t.text, HaveValue, cap);
    hide Plug, Distinct, Ids, CloseBrace, CloseBracket, SpineOk, Insert;
  }

  lemma HaveValueNumbered(c: Config, t: Token, cap: nat)
    requires Inv(c, cap) && Numbered(c.spine, c.next) && c.state == HaveValue
    ensures var r := HaveValueStep(c, t); Numbered(r.spine, r.next)
  {
    CloseStays(c);
    CommaStays(c);
    hide Plug, Distinct, Ids, CloseBrace, CloseBracket, SpineOk, CommaStep;
  }

  lemma StepNumbered(c: Config, t: Token, cap: nat)
    requires Inv(c, cap) && Numbered(c.spine, c.next) && !Stopped(c)
    ensures Numbered(Step(c, t, cap).spine, Step(c, t, cap).next)
  {
    hide Inv, Numbered, ExpectKeyStep, ExpectValueStep, HaveValueStep;
    match c.state
    case ExpectKey => ExpectKeyNumbered(c, t, cap);
    case ExpectValue => ExpectValueNumbered(c, t, cap);
    case HaveValue => HaveValueNumbered(c, t, cap);
    case _ =>
  }

  /** A parse, also one that the index ends, leaves a well shaped tree in slots that are all
      different, and no slot below `next` is unused. */
  lemma {:induction false} DriveInKeeps(c: Config, text: string, pos: nat, cap: nat, room: Room)
    requires Inv(c, cap) && cap <= NONE && Numbered(c.spine, c.next) && !Stopped(c)
    ensures var r := DriveIn(c, text, pos, cap, room);
      && Inv(r, cap) && Numbered(r.spine, r.next) && Shaped(Plug(r.spine), Unknown)
          && Size(Plug(r.spine)) == r.next <= cap
      && NONE !in Ids(Plug(r.spine)) && (Plug(r.spine).Cons? ==> Plug(r.spine).sibs.Nil?)
    decreases if pos <= |text| then |text| - pos else 0
  {
    var w := Lex(text, pos);
    PlugShaped(c.spine);
    hide Plug, Numbered, SpineOk, Step;
    if w.Lexed? {
      var c' := Step(c, w.token, cap);
      StepKeeps(c, w.token, cap);
      StepNumbered(c, w.token, cap);
      PlugShaped(c'.spine);
      if !Stopped(Checked(c', room)) && w.end <= |text| { DriveInKeeps(c', text, w.end, cap, room); }
    }
  }
}
