/** What one pass of the stackless serializer emits, as a function of the tree: node by node in
    document order, with an indentation that only the openers and closers move. On a complete tree
    that is the printed text; a key without a value derails it. */
module Passes {
  import opened Forests
  import opened Shapes
  import opened Printer
  import opened Walk

  /** What a pass emits, and whether it ends without an error. */
  datatype Pass = Pass(text: string, ok: bool)
  {
    function Behind(piece: string): Pass { Pass(piece + text, ok) }
  }

  /** A walk up from a finished value: the closers and the comma, the indentation then, and what is
      expected next unless the root was left behind. */
  datatype Ascent = Ascent(text: string, indent: nat, ended: bool, key: bool)
  {
    function Behind(piece: string): Ascent { Ascent(piece + text, indent, ended, key) }
  }

  /** A tree that can be walked. */
  ghost predicate Walkable(f: Forest) {
    Distinct(f) && NONE !in Ids(f) && f.Cons? && f.sibs.Nil? && Nested(f, Unknown)
  }

  function Closer(k: Kind): char { if k == Array then ']' else '}' }

  function Opener(k: Kind): char { if k == Array then '[' else '{' }

  function Outdent(i: nat): nat { if i < TAB then 0 else i - TAB }

  /** jes_serializer_process_have_value_state, from node `n` up */
  ghost function ClimbFrom(f: Forest, n: nat, i: nat, compact: bool): Ascent
    requires Distinct(f) && NONE !in Ids(f) && n in Ids(f)
    decreases Depth(f, n)
  {
    ParentDepth(f, NONE, n);
    var p := Parent(f, n, NONE);
    if At(f, n).sibs.Cons? then Ascent("," + NewLine(i, compact), i, false, KindAt(f, p) != Array)
    else if p == NONE then Ascent("", i, true, false)
    else if IsContainer(At(f, p).kind) then
      ClimbFrom(f, p, Outdent(i), compact).Behind(NewLine(Outdent(i), compact) + [Closer(At(f, p).kind)])
    else ClimbFrom(f, p, i, compact)
  }

  /** The rest of a pass: `ids` are the nodes to come, `key` is what is expected. */
  ghost function Flow(f: Forest, ids: seq<nat>, key: bool, i: nat, compact: bool): Pass
    requires Distinct(f) && NONE !in Ids(f)
    decreases |ids|, 0
  {
    if ids == [] || ids[0] !in Ids(f) || (At(f, ids[0]).kind == Key) != key then Pass("", false)
    else
      var g, rest := At(f, ids[0]), ids[1..];
      if g.kind == Key then Flow(f, rest, false, i, compact).Behind(KeyText(g.text, compact))
      else if IsContainer(g.kind) && g.kids.Cons? then
        Flow(f, rest, g.kind == Object, i + TAB, compact).Behind([Opener(g.kind)] + NewLine(i + TAB, compact))
      else Onward(f, ClimbFrom(f, g.id, i, compact), rest, compact).Behind(Childless(g, compact))
  }

  /** What follows a walk up. */
  ghost function Onward(f: Forest, c: Ascent, rest: seq<nat>, compact: bool): Pass
    requires Distinct(f) && NONE !in Ids(f)
    decreases |rest|, 1
  {
    if c.ended then Pass(c.text, true) else Flow(f, rest, c.key, c.indent, compact).Behind(c.text)
  }

  ghost function FullPass(f: Forest, compact: bool): Pass
    requires Distinct(f) && NONE !in Ids(f)
  {
    Flow(f, Pre(f), false, 0, compact)
  }

  // ----- where a walk up ends -----

  /** A node with a sibling sits in an object or in an array, and is a key only in an object. */
  lemma {:induction false} SiblingKind(f: Forest, q: nat, k: Kind, n: nat)
    requires n in Ids(f) && Distinct(f) && Nested(f, k) && At(f, n).sibs.Cons? && q !in Ids(f)
    ensures var p := Parent(f, n, q);
      if p == q then At(f, n).sibs.kind == Key <==> k == Object
      else p in Ids(f) && (At(f, n).sibs.kind == Key <==> At(f, p).kind == Object) && IsContainer(At(f, p).kind)
  {
    ParentFact(f, n, q);
    if f.id == n {
    } else if n in Ids(f.kids) {
      ParentFact(f.kids, n, f.id);
      SiblingKind(f.kids, f.id, f.kind, n);
      if Parent(f, n, q) == f.id { OnlyChild(f.kids, f.id, n); }
    } else {
      SiblingKind(f.sibs, q, k, n);
    }
  }

  lemma {:induction false} OnlyChild(f: Forest, q: nat, n: nat)
    requires n in Ids(f) && Distinct(f) && q !in Ids(f) && Parent(f, n, q) == q && At(f, n).sibs.Cons?
    ensures f.sibs.Cons?
  {
    if f.id != n && n in Ids(f.kids) { ParentFact(f.kids, n, f.id); }
  }

  lemma RootHasNoSibling(f: Forest, n: nat)
    requires Walkable(f) && n in Ids(f) && At(f, n).sibs.Cons?
    ensures Parent(f, n, NONE) != NONE
  {
    if n in Ids(f.kids) { ParentFact(f.kids, n, f.id); }
  }

  /** A sibling follows. */
  lemma ClimbRight(f: Forest, n: nat, i: nat, compact: bool)
    requires Walkable(f) && n in Ids(f) && At(f, n).sibs.Cons?
    ensures var m := At(f, n).sibs.id;
      && m in Ids(f) && RestIds(f, n) == [m] + Upcoming(f, m) && Indent(f, m, 0) == Indent(f, n, 0)
      && ClimbFrom(f, n, i, compact) == Ascent("," + NewLine(i, compact), i, false, At(f, m).kind == Key)
  {
    StepRight(f, NONE, n, 0);
    UpcomingRight(f, n);
    SiblingKind(f, NONE, Unknown, n);
    RootHasNoSibling(f, n);
  }

  /** The walk up ends behind the root, or in front of the next node in document order; it calls for
      the kind that this node is, and the indentation does not fall below the node's. */
  lemma {:induction false} ClimbEnds(f: Forest, n: nat, i: nat, compact: bool)
    requires Walkable(f) && n in Ids(f)
    ensures var c := ClimbFrom(f, n, i, compact);
      && (c.ended <==> RestIds(f, n) == [])
      && (!c.ended ==>
            var m := RestIds(f, n)[0];
            && m in Ids(f) && RestIds(f, n) == [m] + Upcoming(f, m) && c.key == (At(f, m).kind == Key)
            && Indent(f, m, 0) <= Indent(f, n, 0) && (Indent(f, n, 0) <= i ==> Indent(f, m, 0) <= c.indent))
    decreases Depth(f, n)
  {
    if At(f, n).sibs.Cons? {
      ClimbRight(f, n, i, compact);
    } else {
      var p := Parent(f, n, NONE);
      StepUp(f, NONE, n, 0);
      ParentDepth(f, NONE, n);
      if p != NONE { ClimbEnds(f, p, if IsContainer(At(f, p).kind) then Outdent(i) else i, compact); }
    }
  }

  /** Where the walk through the tree goes next. */
  lemma UpcomingNext(f: Forest, iter: nat)
    requires Walkable(f) && (iter == NONE || iter in Ids(f)) && Upcoming(f, iter) != []
    ensures var n := Upcoming(f, iter)[0]; n in Ids(f) && Upcoming(f, iter) == [n] + Upcoming(f, n)
  {
    if iter == NONE {
      assert RestIds(f, f.id) == [];
      assert Pre(f) == [f.id] + Pre(f.kids) + [];
    } else if At(f, iter).kids.Cons? {
      UpcomingDown(f, iter);
    } else {
      ClimbEnds(f, iter, 0, true);
    }
  }

  // ----- when a pass ends without an error -----

  predicate Dangling(f: Forest, n: nat) { KindAt(f, n) == Key && KidsAt(f, n).Nil? }

  /** No key without a value is the last node, or followed by a key in document order. */
  ghost predicate NoneDerails(f: Forest, ids: seq<nat>) {
    forall j :: 0 <= j < |ids| && Dangling(f, ids[j]) ==> j + 1 < |ids| && KindAt(f, ids[j + 1]) != Key
  }

  lemma NoneDerailsEnd(f: Forest)
    ensures NoneDerails(f, [])
  {
  }

  lemma NoneDerailsFirst(f: Forest, ids: seq<nat>)
    requires ids != []
    ensures NoneDerails(f, ids) <==>
      (Dangling(f, ids[0]) ==> |ids| > 1 && KindAt(f, ids[1]) != Key) && NoneDerails(f, ids[1..])
  {
    var rest := ids[1..];
    if NoneDerails(f, ids) {
      forall j | 0 <= j < |rest| && Dangling(f, rest[j]) ensures j + 1 < |rest| && KindAt(f, rest[j + 1]) != Key {
        assert ids[j + 1] == rest[j];
      }
    }
    if (Dangling(f, ids[0]) ==> |ids| > 1 && KindAt(f, ids[1]) != Key) && NoneDerails(f, rest) {
      forall j | 0 <= j < |ids| && Dangling(f, ids[j]) ensures j + 1 < |ids| && KindAt(f, ids[j + 1]) != Key {
        if j > 0 { assert rest[j - 1] == ids[j]; }
      }
    }
  }

  /** The first child of a node is a key exactly when the node is an object. */
  lemma FirstKind(f: Forest, n: nat)
    requires Walkable(f) && n in Ids(f)
    ensures var g := At(f, n);
      && (IsContainer(g.kind) || IsScalar(g.kind) || g.kind == Key) && (IsScalar(g.kind) ==> g.kids.Nil?)
      && (g.kids.Cons? ==>
            && Upcoming(f, n) != [] && Upcoming(f, n)[0] == g.kids.id && g.kids.id in Ids(f)
                && At(f, g.kids.id) == g.kids
            && (g.kids.kind == Key <==> g.kind == Object))
  {
    NestedAt(f, Unknown, n);
    if At(f, n).kids.Cons? { StepDown(f, NONE, n, 0); }
  }

  lemma {:induction false} FlowOk(f: Forest, iter: nat, key: bool, i: nat, compact: bool)
    requires Walkable(f) && (iter == NONE || iter in Ids(f)) && Upcoming(f, iter) != []
    requires key == (KindAt(f, Upcoming(f, iter)[0]) == Key)
    ensures Flow(f, Upcoming(f, iter), key, i, compact).ok <==> NoneDerails(f, Upcoming(f, iter))
    decreases |Upcoming(f, iter)|
  {
    hide NoneDerails, Nested, Distinct, Indent, NewLine, KeyText, Childless;
    var ids := Upcoming(f, iter);
    var n := ids[0];
    UpcomingNext(f, iter);
    assert ids[1..] == Upcoming(f, n);
    NoneDerailsFirst(f, ids);
    FirstKind(f, n);
    var g := At(f, n);
    if g.kind == Key {
      if Upcoming(f, n) != [] && KindAt(f, Upcoming(f, n)[0]) != Key { FlowOk(f, n, false, i, compact); }
    } else if g.kids.Cons? {
      FlowOk(f, n, g.kind == Object, i + TAB, compact);
    } else {
      var c := ClimbFrom(f, n, i, compact);
      ClimbEnds(f, n, i, compact);
      if !c.ended { FlowOk(f, n, c.key, c.indent, compact); } else { NoneDerailsEnd(f); }
    }
  }

  /** A pass ends without an error if and only if no key without a value is last or followed by a
      key in document order. */
  lemma PassEnds(f: Forest, compact: bool)
    requires Walkable(f)
    ensures FullPass(f, compact).ok <==> NoneDerails(f, Pre(f))
  {
    FlowOk(f, NONE, false, 0, compact);
  }

  // ----- when it is the printed text -----

  /** A node, everything below it, and all that follows. */
  ghost function Pending(f: Forest, n: nat, compact: bool): string
    requires n in Ids(f)
  {
    Item(At(f, n), Indent(f, n, 0), compact) + Rest(f, n, 0, compact)
  }

  lemma PendingDown(f: Forest, n: nat, compact: bool)
    requires n in Ids(f) && Distinct(f) && At(f, n).kids.Cons?
    ensures var g, m := At(f, n), At(f, n).kids.id;
      && m in Ids(f) && At(f, m) == g.kids && Indent(f, m, 0) == KidIndent(g.kind, Indent(f, n, 0))
      && Pending(f, n, compact) == Opening(g, Indent(f, n, 0), compact) + Pending(f, m, compact)
  {
    var g, i := At(f, n), Indent(f, n, 0);
    StepDown(f, NONE, n, 0);
    TextDown(f, n, 0, compact);
    var k := KidIndent(g.kind, i);
    assert Item(g, i, compact) == Opening(g, i, compact) + Print(g.kids, k, compact) + Closing(g, i, compact);
    assert Print(g.kids, k, compact) == Item(g.kids, k, compact) + Tail(g.kids.sibs, k, compact);
    RegroupDown(Opening(g, i, compact), Item(g.kids, k, compact), Tail(g.kids.sibs, k, compact),
        Closing(g, i, compact), Rest(f, n, 0, compact));
  }

  lemma RegroupDown(a: string, b: string, c: string, d: string, e: string)
    ensures (a + (b + c) + d) + e == a + (b + (c + d + e))
  {
  }

  lemma PendingRight(f: Forest, n: nat, compact: bool)
    requires n in Ids(f) && Distinct(f) && At(f, n).sibs.Cons?
    ensures var s := At(f, n).sibs;
      && s.id in Ids(f) && At(f, s.id) == s && Indent(f, s.id, 0) == Indent(f, n, 0)
      && Rest(f, n, 0, compact) == "," + NewLine(Indent(f, n, 0), compact) + Pending(f, s.id, compact)
  {
    StepRight(f, NONE, n, 0);
    TextRight(f, n, 0, compact);
  }

  /** From a node at its own indentation, the walk up emits what the printer writes next. */
  ghost predicate ClimbedTo(f: Forest, n: nat, compact: bool)
    requires Walkable(f) && n in Ids(f)
  {
    var c, rest := ClimbFrom(f, n, Indent(f, n, 0), compact), Rest(f, n, 0, compact);
    if c.ended then RestIds(f, n) == [] && c.text == rest
    else
      && RestIds(f, n) != [] && RestIds(f, n)[0] in Ids(f) && c.indent == Indent(f, RestIds(f, n)[0], 0)
      && c.text + Pending(f, RestIds(f, n)[0], compact) == rest
  }

  lemma {:induction false} ClimbPrints(f: Forest, n: nat, compact: bool)
    requires Walkable(f) && n in Ids(f)
    ensures ClimbedTo(f, n, compact)
    decreases Depth(f, n)
  {
    var i, p := Indent(f, n, 0), Parent(f, n, NONE);
    ClimbEnds(f, n, i, compact);
    if At(f, n).sibs.Cons? {
      ClimbRight(f, n, i, compact);
      PendingRight(f, n, compact);
    } else {
      ParentDepth(f, NONE, n);
      if p != NONE { ClimbPrints(f, p, compact); }
      ClimbUp(f, n, compact);
    }
  }

  /** One step up, behind a last child. */
  lemma ClimbUp(f: Forest, n: nat, compact: bool)
    requires Walkable(f) && n in Ids(f) && At(f, n).sibs.Nil?
    requires var p := Parent(f, n, NONE); p != NONE ==> p in Ids(f) && ClimbedTo(f, p, compact)
    ensures ClimbedTo(f, n, compact)
  {
    var p := Parent(f, n, NONE);
    StepUp(f, NONE, n, 0);
    TextUp(f, NONE, n, 0, compact);
    hide Nested, Distinct, RestIds, Rest, Pending, Indent, Ids, At, Parent;
    if p != NONE {
      var g, j := At(f, p), Indent(f, p, 0);
      var close := if IsContainer(g.kind) then NewLine(j, compact) + [Closer(g.kind)] else "";
      assert Closing(g, j, compact) == close;
      ClimbStep(f, p, close, compact);
    }
  }

  lemma ClimbStep(f: Forest, p: nat, close: string, compact: bool)
    requires Walkable(f) && p in Ids(f)
    ensures var c := ClimbFrom(f, p, Indent(f, p, 0), compact);
      && (close == "" ==> c.Behind(close) == c)
      && forall rest :: (close + c.text) + rest == close + (c.text + rest)
  {
    var c := ClimbFrom(f, p, Indent(f, p, 0), compact);
    assert close == "" ==> close + c.text == c.text;
    forall rest ensures (close + c.text) + rest == close + (c.text + rest) {
    }
  }

  /** A node with children is printed if all behind its opening is. */
  lemma NestPrints(f: Forest, n: nat, compact: bool)
    requires Walkable(f) && n in Ids(f) && At(f, n).kids.Cons? && Upcoming(f, n) != [] && Upcoming(f, n)[0] in Ids(f)
    requires Upcoming(f, n)[0] == At(f, n).kids.id && (IsContainer(At(f, n).kind) || At(f, n).kind == Key)
    requires var m := Upcoming(f, n)[0];
      Flow(f, Upcoming(f, n), At(f, n).kind == Object, Indent(f, m, 0), compact) == Pass(Pending(f, m, compact), true)
    ensures Flow(f, [n] + Upcoming(f, n), At(f, n).kind == Key, Indent(f, n, 0), compact)
      == Pass(Pending(f, n, compact), true)
  {
    hide Nested, Distinct, Pending, Opening, Indent;
    PendingDown(f, n, compact);
    OpeningText(At(f, n), Indent(f, n, 0), compact);
    assert ([n] + Upcoming(f, n))[1..] == Upcoming(f, n);
  }

  /** A childless node is printed if all behind it is. */
  lemma LeafPrints(f: Forest, n: nat, compact: bool)
    requires Walkable(f) && n in Ids(f) && At(f, n).kids.Nil? && At(f, n).kind != Key && Upcoming(f, n) == RestIds(f, n)
    requires var c, ids := ClimbFrom(f, n, Indent(f, n, 0), compact), RestIds(f, n);
      !c.ended ==>
        && ids != [] && ids[0] in Ids(f)
        && Flow(f, ids, c.key, Indent(f, ids[0], 0), compact) == Pass(Pending(f, ids[0], compact), true)
    ensures Flow(f, [n] + Upcoming(f, n), false, Indent(f, n, 0), compact) == Pass(Pending(f, n, compact), true)
  {
    ClimbPrints(f, n, compact);
    assert ([n] + Upcoming(f, n))[1..] == Upcoming(f, n);
  }

  /** On a complete tree the rest of a pass is what the printer writes from the next node on. */
  lemma {:induction false} FlowPrints(f: Forest, iter: nat, key: bool, compact: bool)
    requires Walkable(f) && Full(f) && (iter == NONE || iter in Ids(f)) && Upcoming(f, iter) != []
    requires Upcoming(f, iter)[0] in Ids(f) && key == (KindAt(f, Upcoming(f, iter)[0]) == Key)
    ensures var n := Upcoming(f, iter)[0];
      Flow(f, Upcoming(f, iter), key, Indent(f, n, 0), compact) == Pass(Pending(f, n, compact), true)
    decreases |Upcoming(f, iter)|
  {
    hide Nested, Distinct, Full;
    var ids := Upcoming(f, iter);
    var n := ids[0];
    UpcomingNext(f, iter);
    assert ids[1..] == Upcoming(f, n);
    FirstKind(f, n);
    FullAt(f, n);
    var g, i := At(f, n), Indent(f, n, 0);
    if g.kids.Cons? {
      FlowPrints(f, n, g.kind == Object, compact);
      NestPrints(f, n, compact);
    } else {
      assert Upcoming(f, n) == RestIds(f, n);
      ClimbEnds(f, n, i, compact);
      var c := ClimbFrom(f, n, i, compact);
      if !c.ended { FlowPrints(f, n, c.key, compact); }
      LeafPrints(f, n, compact);
    }
  }

  lemma OpeningText(g: Forest, i: nat, compact: bool)
    requires g.Cons? && g.kids.Cons? && (IsContainer(g.kind) || g.kind == Key)
    ensures IsContainer(g.kind) ==> Opening(g, i, compact) == [Opener(g.kind)] + NewLine(i + TAB, compact)
    ensures g.kind == Key ==> Opening(g, i, compact) == KeyText(g.text, compact)
  {
  }

  lemma {:induction false} FullAt(f: Forest, n: nat)
    requires Full(f) && n in Ids(f)
    ensures At(f, n).kind == Key ==> At(f, n).kids.Cons?
  {
    if f.id == n {
    } else if n in Ids(f.kids) {
      FullAt(f.kids, n);
    } else {
      FullAt(f.sibs, n);
    }
  }

  /** What is not complete has a key without a value. */
  lemma {:induction false} NotFull(f: Forest) returns (n: nat)
    requires !Full(f) && Distinct(f)
    ensures n in Ids(f) && Dangling(f, n)
  {
    if f.kind == Key && f.kids.Nil? {
      n := f.id;
    } else if !Full(f.kids) {
      n := NotFull(f.kids);
    } else {
      n := NotFull(f.sibs);
    }
  }

  // ----- closing braces, counted -----

  function Braces(s: string): nat
    decreases |s|
  {
    if s == "" then 0 else (if s[0] == '}' then 1 else 0) + Braces(s[1..])
  }

  lemma {:induction false} BracesConcat(a: string, b: string)
    ensures Braces(a + b) == Braces(a) + Braces(b)
    decreases |a|
  {
    if a == "" {
      assert a + b == b;
    } else {
      assert (a + b)[1..] == a[1..] + b;
      BracesConcat(a[1..], b);
    }
  }

  lemma {:induction false} NoBraces(s: string)
    requires forall k :: 0 <= k < |s| ==> s[k] != '}'
    ensures Braces(s) == 0
    decreases |s|
  {
    if s != "" { NoBraces(s[1..]); }
  }

  lemma LineBraces(i: nat, compact: bool, a: string)
    ensures Braces(NewLine(i, compact)) == 0 && Braces(a + NewLine(i, compact)) == Braces(a)
    ensures Braces(NewLine(i, compact) + a) == Braces(a)
  {
    NoBraces(NewLine(i, compact));
    BracesConcat(a, NewLine(i, compact));
    BracesConcat(NewLine(i, compact), a);
  }

  /** At whatever indentation, a walk up emits as many closing braces as the printer has before the
      next node; and at least one when it leaves the object of a key that nothing follows. */
  lemma {:induction false} ClimbBraces(f: Forest, n: nat, i: nat, compact: bool)
    requires Walkable(f) && n in Ids(f)
    ensures var c := ClimbFrom(f, n, i, compact);
      && Braces(c.text) == Braces(ClimbFrom(f, n, Indent(f, n, 0), compact).text)
      && (At(f, n).kind == Key && At(f, n).sibs.Nil? ==> Braces(c.text) > 0)
    decreases Depth(f, n)
  {
    var j, p := Indent(f, n, 0), Parent(f, n, NONE);
    if At(f, n).sibs.Cons? {
      LineBraces(i, compact, ",");
      LineBraces(j, compact, ",");
    } else {
      StepUp(f, NONE, n, 0);
      ParentDepth(f, NONE, n);
      KeyBelowObject(f, NONE, Unknown, n);
      if p != NONE {
        ClimbBraces(f, p, if IsContainer(At(f, p).kind) then Outdent(i) else i, compact);
        ClosingBraces(f, n, i, compact);
        ClosingBraces(f, n, j, compact);
      }
    }
  }

  /** The braces of a walk that closes the parent first. */
  lemma ClosingBraces(f: Forest, n: nat, i: nat, compact: bool)
    requires Walkable(f) && n in Ids(f) && At(f, n).sibs.Nil? && Parent(f, n, NONE) in Ids(f)
    ensures var p := Parent(f, n, NONE);
      Braces(ClimbFrom(f, n, i, compact).text) ==
        if IsContainer(At(f, p).kind)
        then Braces([Closer(At(f, p).kind)]) + Braces(ClimbFrom(f, p, Outdent(i), compact).text)
        else Braces(ClimbFrom(f, p, i, compact).text)
  {
    var p := Parent(f, n, NONE);
    hide Nested, Distinct, Braces;
    if IsContainer(At(f, p).kind) {
      var e := [Closer(At(f, p).kind)];
      LineBraces(Outdent(i), compact, e);
      BracesConcat(NewLine(Outdent(i), compact) + e, ClimbFrom(f, p, Outdent(i), compact).text);
    }
  }

  lemma {:induction false} KeyBelowObject(f: Forest, q: nat, k: Kind, n: nat)
    requires n in Ids(f) && Nested(f, k) && Distinct(f) && q !in Ids(f)
    ensures At(f, n).kind == Key ==>
      if Parent(f, n, q) == q then k == Object else Parent(f, n, q) in Ids(f) && At(f, Parent(f, n, q)).kind == Object
  {
    ParentFact(f, n, q);
    if f.id == n {
    } else if n in Ids(f.kids) {
      ParentFact(f.kids, n, f.id);
      KeyBelowObject(f.kids, f.id, f.kind, n);
    } else {
      KeyBelowObject(f.sibs, q, k, n);
    }
  }

  ghost function Danglers(f: Forest, ids: seq<nat>): nat {
    if ids == [] then 0 else (if Dangling(f, ids[0]) then 1 else 0) + Danglers(f, ids[1..])
  }

  /** The next node behind a key without a value, if it is no key, is outside its object. */
  lemma DanglerLast(f: Forest, n: nat)
    requires Walkable(f) && n in Ids(f) && Dangling(f, n) && RestIds(f, n) != [] && KindAt(f, RestIds(f, n)[0]) != Key
    ensures At(f, n).sibs.Nil?
  {
    if At(f, n).sibs.Cons? {
      ClimbRight(f, n, 0, true);
      KeyBelowObject(f, NONE, Unknown, n);
      SiblingKind(f, NONE, Unknown, n);
    }
  }

  /** The walk up from node `n`, and what follows it. */
  lemma RestBraces(f: Forest, n: nat, i: nat, compact: bool)
    requires Walkable(f) && n in Ids(f)
    ensures var c := ClimbFrom(f, n, i, compact);
      && (c.ended <==> RestIds(f, n) == []) && (!c.ended ==> RestIds(f, n)[0] in Ids(f))
      && Braces(Rest(f, n, 0, compact)) == Braces(c.text) + if c.ended then 0
          else Braces(Pending(f, RestIds(f, n)[0], compact))
  {
    ClimbPrints(f, n, compact);
    ClimbBraces(f, n, i, compact);
    ClimbEnds(f, n, i, compact);
    var d := ClimbFrom(f, n, Indent(f, n, 0), compact);
    if !d.ended { BracesConcat(d.text, Pending(f, RestIds(f, n)[0], compact)); }
  }

  lemma OpeningBraces(g: Forest, i: nat, j: nat, compact: bool)
    requires g.Cons? && IsContainer(g.kind)
    ensures Braces([Opener(g.kind)] + NewLine(i, compact)) == Braces([Opener(g.kind)] + NewLine(j, compact))
  {
    LineBraces(i, compact, [Opener(g.kind)]);
    LineBraces(j, compact, [Opener(g.kind)]);
  }

  /** Every key without a value costs the text at least one closing brace. */
  lemma {:induction false} FlowBraces(f: Forest, iter: nat, key: bool, i: nat, compact: bool)
    requires Walkable(f) && (iter == NONE || iter in Ids(f)) && Upcoming(f, iter) != []
    requires Upcoming(f, iter)[0] in Ids(f) && Flow(f, Upcoming(f, iter), key, i, compact).ok
    ensures var ids := Upcoming(f, iter);
      Braces(Flow(f, ids, key, i, compact).text) + Danglers(f, ids) <= Braces(Pending(f, ids[0], compact))
    decreases |Upcoming(f, iter)|, 0
  {
    hide Nested, Distinct, Braces;
    var ids := Upcoming(f, iter);
    var n := ids[0];
    UpcomingNext(f, iter);
    assert ids[1..] == Upcoming(f, n);
    FirstKind(f, n);
    var g := At(f, n);
    if g.kids.Cons? {
      InnerBraces(f, n, i, compact);
    } else {
      assert Upcoming(f, n) == RestIds(f, n);
      BracesConcat(Childless(g, compact), Rest(f, n, 0, compact));
      RestBraces(f, n, i, compact);
      if g.kind == Key { DanglerBraces(f, n, i, compact); } else { LeafBraces(f, n, i, compact); }
    }
  }

  /** Behind the start of an element with children. */
  lemma {:induction false} InnerBraces(f: Forest, n: nat, i: nat, compact: bool)
    requires Walkable(f) && n in Ids(f) && At(f, n).kids.Cons?
    requires Flow(f, [n] + Upcoming(f, n), At(f, n).kind == Key, i, compact).ok
    ensures Braces(Flow(f, [n] + Upcoming(f, n), At(f, n).kind == Key, i, compact).text) + Danglers(f, Upcoming(f, n))
         <= Braces(Pending(f, n, compact))
    decreases |Upcoming(f, n)|, 1
  {
    hide Nested, Distinct, Braces;
    var g, j, rest := At(f, n), Indent(f, n, 0), Upcoming(f, n);
    assert ([n] + rest)[1..] == rest;
    FirstKind(f, n);
    PendingDown(f, n, compact);
    OpeningText(g, j, compact);
    if g.kind == Key {
      FlowBraces(f, n, false, i, compact);
      BracesConcat(KeyText(g.text, compact), Flow(f, rest, false, i, compact).text);
      BracesConcat(KeyText(g.text, compact), Pending(f, g.kids.id, compact));
    } else {
      FlowBraces(f, n, g.kind == Object, i + TAB, compact);
      OpeningBraces(g, i + TAB, j + TAB, compact);
      BracesConcat([Opener(g.kind)] + NewLine(i + TAB, compact),
          Flow(f, rest, g.kind == Object, i + TAB, compact).text);
      BracesConcat([Opener(g.kind)] + NewLine(j + TAB, compact), Pending(f, g.kids.id, compact));
    }
  }

  /** Behind a key without a value. */
  lemma {:induction false} DanglerBraces(f: Forest, n: nat, i: nat, compact: bool)
    requires Walkable(f) && n in Ids(f) && Dangling(f, n) && Flow(f, Upcoming(f, n), false, i, compact).ok
    ensures Braces(Flow(f, Upcoming(f, n), false, i, compact).Behind(Childless(At(f, n), compact)).text) + 1
        + Danglers(f, Upcoming(f, n))
         <= Braces(Childless(At(f, n), compact)) + Braces(Rest(f, n, 0, compact))
    decreases |Upcoming(f, n)|, 1
  {
    hide Nested, Distinct, Braces;
    assert Upcoming(f, n) == RestIds(f, n);
    ClimbEnds(f, n, i, compact);
    RestBraces(f, n, i, compact);
    DanglerLast(f, n);
    ClimbBraces(f, n, i, compact);
    FlowBraces(f, n, false, i, compact);
    BracesConcat(Childless(At(f, n), compact), Flow(f, Upcoming(f, n), false, i, compact).text);
  }

  /** Behind a value. */
  lemma {:induction false} LeafBraces(f: Forest, n: nat, i: nat, compact: bool)
    requires Walkable(f) && n in Ids(f) && At(f, n).kids.Nil? && At(f, n).kind != Key
    requires Onward(f, ClimbFrom(f, n, i, compact), Upcoming(f, n), compact).ok
    ensures var o := Onward(f, ClimbFrom(f, n, i, compact), Upcoming(f, n), compact);
      Braces(o.Behind(Childless(At(f, n), compact)).text) + Danglers(f, Upcoming(f, n))
        <= Braces(Childless(At(f, n), compact)) + Braces(Rest(f, n, 0, compact))
    decreases |Upcoming(f, n)|, 1
  {
    hide Nested, Distinct, Braces;
    assert Upcoming(f, n) == RestIds(f, n);
    var c := ClimbFrom(f, n, i, compact);
    RestBraces(f, n, i, compact);
    BracesConcat(Childless(At(f, n), compact), Onward(f, c, Upcoming(f, n), compact).text);
    if !c.ended {
      FlowBraces(f, n, c.key, c.indent, compact);
      BracesConcat(c.text, Flow(f, Upcoming(f, n), c.key, c.indent, compact).text);
    }
  }

  lemma {:induction false} DanglerCounted(f: Forest, ids: seq<nat>, n: nat)
    requires n in ids && Dangling(f, n)
    ensures Danglers(f, ids) > 0
  {
    if ids[0] != n { DanglerCounted(f, ids[1..], n); }
  }

  /** A pass that ends without an error emits the printed text if and only if every key has a value.
      On a complete tree it always does. */
  lemma PassPrints(f: Forest, compact: bool)
    requires Walkable(f)
    ensures Full(f) ==> FullPass(f, compact) == Pass(Print(f, 0, compact), true)
    ensures FullPass(f, compact).ok ==> (FullPass(f, compact).text == Print(f, 0, compact) <==> Full(f))
  {
    assert Pending(f, f.id, compact) == Print(f, 0, compact);
    if Full(f) {
      FlowPrints(f, NONE, false, compact);
    } else if FullPass(f, compact).ok {
      var n := NotFull(f);
      PreIds(f);
      DanglerCounted(f, Pre(f), n);
      FlowBraces(f, NONE, false, 0, compact);
    }
  }

  /** `[{"a":<nothing>}, 1]` */
  const LOSSY: Forest := Cons(0, Array, "[", Cons(1, Object, "{", Leaf(2, Key, "a"), Leaf(3, Number, "1")), Nil)

  lemma LossyClimb()
    ensures Walkable(LOSSY) && ClimbFrom(LOSSY, 3, 4, true) == Ascent("]", 2, true, false)
  {
    assert ClimbFrom(LOSSY, 0, 2, true) == Ascent("", 2, true, false);
  }

  lemma LossyFlow()
    ensures Walkable(LOSSY) && Flow(LOSSY, [0, 1, 2, 3], false, 0, true) == Pass("[{\"a\":1]", true)
  {
    var f := LOSSY;
    LossyClimb();
    hide ClimbFrom;
    assert Flow(f, [3], false, 4, true) == Pass("1]", true);
    assert [2, 3][1..] == [3] && [1, 2, 3][1..] == [2, 3] && [0, 1, 2, 3][1..] == [1, 2, 3];
    assert Flow(f, [2, 3], true, 4, true) == Pass("\"a\":1]", true);
    assert Flow(f, [1, 2, 3], false, 2, true) == Pass("{\"a\":1]", true);
  }

  /** A key without a value inside an array: the pass ends without an error, and what it wrote has
      lost a closer and a comma. */
  lemma SilentLoss()
    ensures Walkable(LOSSY) && !Full(LOSSY)
    ensures FullPass(LOSSY, true) == Pass("[{\"a\":1]", true) && Print(LOSSY, 0, true) == "[{\"a\":},1]"
  {
    LossyFlow();
    LossyPrint();
    hide Flow, ClimbFrom, Distinct, Print, Walkable, Nested, Ids;
    assert Pre(LOSSY) == [0, 1, 2, 3];
  }

  lemma LossyPrint()
    ensures Print(LOSSY, 0, true) == "[{\"a\":},1]" && !Full(LOSSY)
  {
  }
}
