/** What the edits do to the sequences of children, node by node. */
module Children {
  import opened Codes
  import opened Forests
  import opened Pool
  import opened Shapes
  import opened KeyIndex
  import opened Tree
  import opened Api
  import opened Machine
  import opened Lexer
  import opened Faults

  /** The nodes of a sibling chain. */
  function Siblings(f: Forest): seq<nat> { if f.Nil? then [] else [f.id] + Siblings(f.sibs) }

  /** The children of node `x`, first to last. */
  function ChildrenOf(f: Forest, x: nat): seq<nat> { Siblings(KidsAt(f, x)) }

  /** `n` right behind `a`. */
  function PutBehind(s: seq<nat>, a: nat, n: nat): seq<nat> {
    if s == [] then [] else if s[0] == a then [a, n] + s[1..] else [s[0]] + PutBehind(s[1..], a, n)
  }

  function Without(s: seq<nat>, id: nat): seq<nat> {
    if s == [] then [] else if s[0] == id then s[1..] else [s[0]] + Without(s[1..], id)
  }

  /** A node as its own cell and its children show it. */
  datatype Spot = Spot(kind: Kind, text: string, children: seq<nat>)

  function SpotAt(f: Forest, x: nat): Spot
    requires x in Ids(f)
  {
    var g := At(f, x);
    Spot(g.kind, g.text, Siblings(g.kids))
  }

  lemma {:induction false} SiblingsTop(f: Forest, q: nat)
    requires Distinct(f) && q !in Ids(f)
    ensures forall i :: i in Siblings(f) <==> i in Ids(f) && Parent(f, i, q) == q
  {
    if f.Cons? {
      SiblingsTop(f.sibs, q);
      forall i | i in Ids(f.kids) ensures Parent(f, i, q) != q && i !in Siblings(f) {
        ParentFact(f.kids, i, f.id);
      }
    }
  }

  lemma PutBehindFirst(x: nat, s: seq<nat>, a: nat, n: nat)
    ensures x != a ==> PutBehind([x] + s, a, n) == [x] + PutBehind(s, a, n)
    ensures PutBehind([a] + s, a, n) == [a] + ([n] + s)
  {
    assert ([x] + s)[1..] == s && ([a] + s)[1..] == s;
  }

  lemma WithoutFirst(x: nat, s: seq<nat>, id: nat)
    ensures x != id ==> Without([x] + s, id) == [x] + Without(s, id)
    ensures Without([id] + s, id) == s
  {
    assert ([x] + s)[1..] == s && ([id] + s)[1..] == s;
  }

  /** jes_tree_insert_node behind an anchor: the chain of the anchor is spliced, and only it. */
  lemma {:induction false} InsertAfterSiblings(f: Forest, q: nat, a: nat, leaf: Forest)
    requires Distinct(f) && a in Ids(f) && leaf.Cons? && q !in Ids(f)
    ensures Siblings(InsertAfter(f, a, leaf)) == if Parent(f, a, q) == q then PutBehind(Siblings(f), a, leaf.id)
        else Siblings(f)
  {
    if f.id == a {
      PutBehindFirst(a, Siblings(f.sibs), a, leaf.id);
      assert Siblings(leaf.(sibs := f.sibs)) == [leaf.id] + Siblings(f.sibs);
    } else if a in Ids(f.kids) {
      ParentFact(f.kids, a, f.id);
      AbsentInsertAfter(f.sibs, a, leaf);
    } else {
      InsertAfterSiblings(f.sibs, q, a, leaf);
      AbsentInsertAfter(f.kids, a, leaf);
      PutBehindFirst(f.id, Siblings(f.sibs), a, leaf.id);
    }
  }

  /** Inserting behind an anchor puts the node right behind it and leaves all other nodes alone. */
  lemma {:induction false} InsertAfterNode(f: Forest, q: nat, a: nat, n: nat, kind: Kind, text: string, x: nat)
    requires Distinct(f) && a in Ids(f) && n !in Ids(f) && q !in Ids(f) && x in Ids(f)
    ensures var g := InsertAfter(f, a, Leaf(n, kind, text));
      && x in Ids(g)
      && SpotAt(g, x) == if x != Parent(f, a, q) then SpotAt(f, x)
          else SpotAt(f, x).(children := PutBehind(SpotAt(f, x).children, a, n))
  {
    var leaf := Leaf(n, kind, text);
    var g := InsertAfter(f, a, leaf);
    InsertAfterIds(f, a, n, kind, text);
    ParentFact(f, a, q);
    if f.id == a {
      assert x in Ids(f.sibs) ==> At(g.sibs, x) == At(f.sibs, x);
    } else if a in Ids(f.kids) {
      AbsentInsertAfter(f.sibs, a, leaf);
      InsertAfterIds(f.kids, a, n, kind, text);
      InsertAfterSiblings(f.kids, f.id, a, leaf);
      ParentFact(f.kids, a, f.id);
      if x in Ids(f.kids) { InsertAfterNode(f.kids, f.id, a, n, kind, text, x); }
    } else {
      AbsentInsertAfter(f.kids, a, leaf);
      ParentFact(f.sibs, a, q);
      if x in Ids(f.sibs) { InsertAfterNode(f.sibs, q, a, n, kind, text, x); }
    }
  }

  /** Without an anchor the node comes first among the children of `p`. */
  lemma {:induction false} InsertFirstNode(f: Forest, p: nat, n: nat, kind: Kind, text: string, x: nat)
    requires Distinct(f) && p in Ids(f) && n !in Ids(f) && x in Ids(f)
    ensures var g := InsertFirst(f, p, Leaf(n, kind, text));
      && x in Ids(g)
      && SpotAt(g, x) == (if x == p then SpotAt(f, x).(children := [n] + SpotAt(f, x).children) else SpotAt(f, x))
      && Siblings(g) == Siblings(f)
  {
    var leaf := Leaf(n, kind, text);
    var g := InsertFirst(f, p, leaf);
    InsertFirstIds(f, p, n, kind, text);
    if f.id == p {
      assert Siblings(leaf.(sibs := f.kids)) == [n] + Siblings(f.kids);
      assert x in Ids(f.kids) ==> At(g.kids, x) == At(f.kids, x);
    } else if p in Ids(f.kids) {
      AbsentInsertFirst(f.sibs, p, leaf);
      InsertFirstIds(f.kids, p, n, kind, text);
      FirstSiblings(f.kids, p, leaf);
      if x in Ids(f.kids) { InsertFirstNode(f.kids, p, n, kind, text, x); }
    } else {
      AbsentInsertFirst(f.kids, p, leaf);
      FirstSiblings(f.sibs, p, leaf);
      if x in Ids(f.sibs) { InsertFirstNode(f.sibs, p, n, kind, text, x); }
    }
  }

  /** The inserted node itself: as given, and without children. */
  lemma {:induction false} InsertedSpot(f: Forest, a: nat, n: nat, kind: Kind, text: string)
    requires Distinct(f) && a in Ids(f) && n !in Ids(f)
    ensures var g, h := InsertAfter(f, a, Leaf(n, kind, text)), InsertFirst(f, a, Leaf(n, kind, text));
      && n in Ids(g) && SpotAt(g, n) == Spot(kind, text, [])
      && n in Ids(h) && SpotAt(h, n) == Spot(kind, text, [])
  {
    var leaf := Leaf(n, kind, text);
    InsertAfterIds(f, a, n, kind, text);
    InsertFirstIds(f, a, n, kind, text);
    if f.id == a {
      var g, h := InsertAfter(f, a, leaf), InsertFirst(f, a, leaf);
      assert n !in Ids(g.kids) && At(g, n) == At(g.sibs, n) == leaf.(sibs := f.sibs);
      assert At(h, n) == At(h.kids, n) == leaf.(sibs := f.kids);
    } else if a in Ids(f.kids) {
      InsertedSpot(f.kids, a, n, kind, text);
      AbsentInsertAfter(f.sibs, a, leaf);
      AbsentInsertFirst(f.sibs, a, leaf);
    } else {
      InsertedSpot(f.sibs, a, n, kind, text);
      AbsentInsertAfter(f.kids, a, leaf);
      AbsentInsertFirst(f.kids, a, leaf);
    }
  }

  lemma {:induction false} FirstSiblings(f: Forest, p: nat, leaf: Forest)
    requires leaf.Cons?
    ensures Siblings(InsertFirst(f, p, leaf)) == Siblings(f)
  {
    if f.Cons? { FirstSiblings(f.sibs, p, leaf); }
  }

  lemma {:induction false} CutSiblings(f: Forest, q: nat, id: nat)
    requires Distinct(f) && id in Ids(f) && q !in Ids(f)
    ensures Siblings(Cut(f, id)) == if Parent(f, id, q) == q then Without(Siblings(f), id) else Siblings(f)
  {
    if f.id == id {
      WithoutFirst(id, Siblings(f.sibs), id);
    } else if id in Ids(f.kids) {
      ParentFact(f.kids, id, f.id);
      AbsentCut(f.sibs, id);
    } else {
      CutSiblings(f.sibs, q, id);
      AbsentCut(f.kids, id);
      WithoutFirst(f.id, Siblings(f.sibs), id);
    }
  }

  /** A deletion takes one node out of one sequence of children; all that is not below it stays. */
  lemma {:induction false} CutNode(f: Forest, q: nat, id: nat, x: nat)
    requires Distinct(f) && id in Ids(f) && q !in Ids(f) && x in Ids(f) && x != id && x !in Ids(At(f, id).kids)
    ensures x in Ids(Cut(f, id))
    ensures SpotAt(Cut(f, id), x)
         == if x == Parent(f, id, q) then SpotAt(f, x).(children := Without(SpotAt(f, x).children, id))
             else SpotAt(f, x)
  {
    CutIds(f, id);
    ParentFact(f, id, q);
    if f.id == id {
    } else if id in Ids(f.kids) {
      AbsentCut(f.sibs, id);
      CutIds(f.kids, id);
      CutSiblings(f.kids, f.id, id);
      ParentFact(f.kids, id, f.id);
      if x in Ids(f.kids) { CutNode(f.kids, f.id, id, x); }
    } else {
      AbsentCut(f.kids, id);
      ParentFact(f.sibs, id, q);
      if x in Ids(f.sibs) { CutNode(f.sibs, q, id, x); }
    }
  }

  // ----- where a new key goes -----

  /** What stands before and behind `a`. */
  function Front(s: seq<nat>, a: nat): seq<nat> { if s == [] || s[0] == a then [] else [s[0]] + Front(s[1..], a) }

  function Rest(s: seq<nat>, a: nat): seq<nat> { if s == [] then [] else if s[0] == a then s[1..] else Rest(s[1..], a) }

  lemma {:induction false} PutBehindSplit(s: seq<nat>, a: nat, n: nat)
    requires a in s
    ensures s == Front(s, a) + [a] + Rest(s, a) && PutBehind(s, a, n) == Front(s, a) + [a, n] + Rest(s, a)
  {
    if s[0] == a {
      assert s == [] + [a] + s[1..];
    } else {
      PutBehindSplit(s[1..], a, n);
      assert s == [s[0]] + s[1..];
    }
  }

  function LeftOf(s: seq<nat>, id: nat, b: nat): nat
    requires id in s
  {
    if s[0] == id then b else LeftOf(s[1..], id, s[0])
  }

  lemma {:induction false} LeftIn(s: seq<nat>, id: nat, b: nat)
    requires id in s && s[0] != id
    ensures LeftOf(s, id, b) in s
  {
    if s[1] != id { LeftIn(s[1..], id, s[0]); }
  }

  /** Behind the left neighbour is in front. */
  lemma {:induction false} PutBehindLeft(s: seq<nat>, id: nat, b: nat, n: nat)
    requires id in s && s[0] != id && NoRepeats(s)
    ensures PutBehind(s, LeftOf(s, id, b), n) == Front(s, id) + [n, id] + Rest(s, id)
  {
    var x, t := s[0], s[1..];
    assert s == [x] + t && id in t && NoRepeats(t);
    if t[0] == id {
      assert LeftOf(s, id, b) == LeftOf(t, id, x) == x;
      assert Front(t, id) == [] && Front(s, id) == [x] + Front(t, id);
      assert Rest(s, id) == Rest(t, id) == t[1..];
      assert PutBehind(s, x, n) == [x, n] + t == [x] + [n, id] + t[1..];
    } else {
      LeftIn(t, id, x);
      PutBehindLeft(t, id, x, n);
      PutBehindFirst(x, t, LeftOf(t, id, x), n);
      assert Front(s, id) == [x] + Front(t, id) && Rest(s, id) == Rest(t, id);
      assert [x] + (Front(t, id) + [n, id] + Rest(t, id)) == [x] + Front(t, id) + [n, id] + Rest(t, id);
    }
  }

  lemma {:induction false} SiblingsNoRepeats(f: Forest)
    requires Distinct(f)
    ensures NoRepeats(Siblings(f)) && forall i :: i in Siblings(f) ==> i in Ids(f)
  {
    if f.Cons? { SiblingsNoRepeats(f.sibs); }
  }

  /** jes_get_left_sibling in terms of the sequence of children. */
  lemma {:induction false} PrevAmong(f: Forest, q: nat, id: nat, b: nat)
    requires Distinct(f) && id in Ids(f) && q !in Ids(f) && Parent(f, id, q) == q
    ensures id in Siblings(f) && Prev(f, id, b) == LeftOf(Siblings(f), id, b)
  {
    if f.id != id {
      if id in Ids(f.kids) { ParentFact(f.kids, id, f.id); }
      PrevAmong(f.sibs, q, id, f.id);
      assert Siblings(f)[1..] == Siblings(f.sibs);
    }
  }

  // ----- the calls -----

  /** A document as the contexts hold it, whatever calls failed: slots are conserved, nodes nest as
      JSON allows, and the index lists keys of the tree and nothing else. */
  ghost predicate Sound(d: Doc) {
    && Slots(d) && NONE !in Ids(d.forest) && Nested(d.forest, Unknown) && (d.forest.Cons? ==> d.forest.sibs.Nil?)
    && (d.index.Listed? ==> d.index.refs <= KeyRefs(d.forest, NONE) && OneName(d.index.refs))
  }

  lemma ContextSound(ctx: Context)
    requires ctx.Sane()
    ensures Sound(ctx.Value()) && ctx.nextFree <= ctx.pool.Length < NONE && Size(ctx.forest) == ctx.nodeCount
  {
    ctx.Bounds();
    SaneNames(ctx);
  }

  /** The other nodes are as before. */
  ghost predicate OthersKept(f: Forest, g: Forest, p: nat) {
    forall x :: x in Ids(f) && x != p ==> x in Ids(g) && SpotAt(g, x) == SpotAt(f, x)
  }

  /** The sequence of children holds the nodes whose parent it is, and no others. */
  lemma ChildrenAre(f: Forest, x: nat)
    requires Distinct(f) && NONE !in Ids(f) && x in Ids(f)
    ensures forall i :: i in ChildrenOf(f, x) <==> i in Ids(f) && Parent(f, i, NONE) == x
  {
    var kids := At(f, x).kids;
    AtIds(f, x);
    KidsBelow(f, x);
    SiblingsTop(kids, x);
    forall i | i in Ids(kids) ensures i in Ids(f) && Parent(f, i, NONE) == Parent(kids, i, x) { Below(f, NONE, x, i); }
    forall i | i in Ids(f) && Parent(f, i, NONE) == x ensures i in Ids(kids) { ChildOf(f, NONE, i); }
  }

  /** No node is below itself. */
  lemma {:induction false} KidsBelow(f: Forest, x: nat)
    requires Distinct(f) && x in Ids(f)
    ensures x !in Ids(At(f, x).kids)
  {
    if f.id != x { if x in Ids(f.kids) { KidsBelow(f.kids, x); } else { KidsBelow(f.sibs, x); } }
  }

  /** The new node is a child of the node it was put below. */
  lemma NewChild(d: Doc, p: nat, a: nat, kind: Kind, text: string)
    requires Sound(d) && Place(d.forest, p, a) && NewId(d) != NONE
    requires var g, c := Inserted(d, p, a, kind, text).forest, ChildrenOf(d.forest, p);
      p in Ids(g) && SpotAt(g, p).children == if a == NONE then [NewId(d)] + c else PutBehind(c, a, NewId(d))
    ensures var g := Inserted(d, p, a, kind, text).forest; NewId(d) in Ids(g) && Parent(g, NewId(d), NONE) == p
  {
    var f, g, n := d.forest, Inserted(d, p, a, kind, text).forest, NewId(d);
    NewIdLeavesFree(d);
    if a == NONE {
      InsertFirstIds(f, p, n, kind, text);
    } else {
      InsertAfterIds(f, a, n, kind, text);
      ChildrenAre(f, p);
      PutBehindSplit(ChildrenOf(f, p), a, n);
    }
    ChildrenAre(g, p);
  }

  /** Insertion refines sequence splicing: the new node stands right behind the anchor, or first
      when there is none, it is what was asked for, and no other node changed. */
  lemma NodePut(d: Doc, p: nat, a: nat, kind: Kind, text: string)
    requires Sound(d) && Place(d.forest, p, a)
    ensures var f, g, n := d.forest, Inserted(d, p, a, kind, text).forest, NewId(d);
      var c := ChildrenOf(f, p);
      && OthersKept(f, g, p) && p in Ids(g)
      && SpotAt(g, p) == SpotAt(f, p).(children := if a == NONE then [n] + c else PutBehind(c, a, n))
      && n !in Ids(f) && n in Ids(g) && SpotAt(g, n) == Spot(kind, text, [])
      && (n != NONE ==> Parent(g, n, NONE) == p)
  {
    NewIdLeavesFree(d);
    var f, g, n := d.forest, Inserted(d, p, a, kind, text).forest, NewId(d);
    InsertedSpot(f, if a == NONE then p else a, n, kind, text);
    forall x | x in Ids(f)
      ensures x in Ids(g)
      ensures SpotAt(g, x) == if x != p then SpotAt(f, x) else SpotAt(f, x).(children :=
                                if a == NONE then [n] + ChildrenOf(f, p) else PutBehind(ChildrenOf(f, p), a, n))
    {
      if a == NONE { InsertFirstNode(f, p, n, kind, text, x); } else { InsertAfterNode(f, NONE, a, n, kind, text, x); }
    }
    if n != NONE { NewChild(d, p, a, kind, text); }
  }

  lemma {:induction false} LastBehind(f: Forest, n: nat)
    requires f.Cons? && Distinct(f)
    ensures PutBehind(Siblings(f), Last(f), n) == Siblings(f) + [n]
  {
    PutBehindFirst(f.id, Siblings(f.sibs), Last(f), n);
    if f.sibs.Cons? {
      LastIn(f.sibs);
      LastBehind(f.sibs, n);
      assert [f.id] + (Siblings(f.sibs) + [n]) == Siblings(f) + [n];
    } else {
      assert Siblings(f) == [f.id];
      assert [f.id] + ([n] + []) == [f.id] + [n];
    }
  }

  /** A key put behind the last child of an object. */
  ghost predicate KeyAppended(d: Doc, obj: nat, keyword: string, r: Outcome) {
    && OthersKept(d.forest, r.doc.forest, obj)
    && ChildrenOf(r.doc.forest, obj) == ChildrenOf(d.forest, obj) + [r.node]
    && r.node in Ids(r.doc.forest) && SpotAt(r.doc.forest, r.node) == Spot(Key, Clip(keyword), [])
  }

  lemma PutKeyAppends(d: Doc, obj: nat, keyword: string, cap: nat)
    requires Sound(d) && KindAt(d.forest, obj) == Object
    requires PutKey(d, obj, Last(KidsAt(d.forest, obj)), Clip(keyword), cap).node != NONE
    ensures KeyAppended(d, obj, keyword, PutKey(d, obj, Last(KidsAt(d.forest, obj)), Clip(keyword), cap))
  {
    var kids := At(d.forest, obj).kids;
    LastPlace(d.forest, obj);
    AtIds(d.forest, obj);
    NodePut(d, obj, Last(kids), Key, Clip(keyword));
    if kids.Cons? {
      LastIn(kids);
      LastBehind(kids, NewId(d));
    } else {
      assert [NewId(d)] + [] == [] + [NewId(d)];
    }
  }

  /** jes_add_key on an object, or on a key whose value is one, appends the key to the children of
      the object. */
  lemma AddKeyAppends(d: Doc, parent: nat, keyword: string, accepted: bool, cap: nat)
    requires Sound(d) && AddedKey(d, parent, keyword, accepted, cap).node != NONE
    requires KindAt(d.forest, parent) == Object || KidsAt(d.forest, parent).Cons?
    ensures var obj := if KindAt(d.forest, parent) == Object then parent else KidsAt(d.forest, parent).id;
      KeyAppended(d, obj, keyword, AddedKey(d, parent, keyword, accepted, cap))
  {
    if KindAt(d.forest, parent) == Object {
      PutKeyAppends(d, parent, keyword, cap);
    } else {
      FirstChild(d.forest, parent);
      PutKeyAppends(d, KidsAt(d.forest, parent).id, keyword, cap);
    }
  }

  /** The new object below a key without a value. */
  lemma ObjectMade(d: Doc, parent: nat)
    requires Sound(d) && KindAt(d.forest, parent) == Key && KidsAt(d.forest, parent).Nil? && NewId(d) != NONE
    ensures var o, obj := Inserted(d, parent, NONE, Object, "{"), NewId(d);
      && Sound(o) && Size(o.forest) == Size(d.forest) + 1 && obj !in Ids(d.forest) && obj in Ids(o.forest)
          && obj != parent
      && OthersKept(d.forest, o.forest, parent) && parent in Ids(o.forest)
      && SpotAt(o.forest, parent) == SpotAt(d.forest, parent).(children := [obj])
          && SpotAt(o.forest, obj) == Spot(Object, "{", [])
      && KidsAt(o.forest, obj) == Nil
  {
    NodePut(d, parent, NONE, Object, "{");
    assert [NewId(d)] + [] == [NewId(d)];
    ValueSound(d, parent, NONE, Object, "{");
    NewObject(d.forest, parent, NewId(d));
  }

  /** jes_add_key on a key without a value gives it an object with the one key, or an empty object
      if only one slot is left in the pool, or nothing if none is. */
  lemma AddKeyMakesObject(d: Doc, parent: nat, keyword: string, cap: nat, x: nat)
    requires Sound(d) && KindAt(d.forest, parent) == Key && KidsAt(d.forest, parent).Nil? && keyword != ""
    requires x in Ids(d.forest) && x != parent && NewId(d) != NONE
    ensures var r, obj := AddedKey(d, parent, keyword, true, cap), NewId(d);
      if Size(d.forest) >= cap then r == Refused(d, OutOfMemory)
      else
        && obj !in Ids(d.forest) && x in Ids(r.doc.forest) && SpotAt(r.doc.forest, x) == SpotAt(d.forest, x)
        && parent in Ids(r.doc.forest) && SpotAt(r.doc.forest, parent) == SpotAt(d.forest, parent).(children := [obj])
        && obj in Ids(r.doc.forest)
        && if Size(d.forest) + 1 == cap then
            r.node == NONE && r.status == OutOfMemory && SpotAt(r.doc.forest, obj) == Spot(Object, "{", [])
           else
             && SpotAt(r.doc.forest, obj) == Spot(Object, "{", [r.node])
             && r.node in Ids(r.doc.forest) && SpotAt(r.doc.forest, r.node) == Spot(Key, Clip(keyword), [])
             && r.status == if NoRoom(d.index) then OutOfMemory else NoError
  {
    hide Sound, Slots, Ids, Nested, SpotAt, Siblings, KeyRefs, Found;
    var o, obj := Inserted(d, parent, NONE, Object, "{"), NewId(d);
    if Size(d.forest) < cap {
      ObjectMade(d, parent);
      NothingInNew(d, parent);
      if Size(d.forest) + 1 < cap { FirstKey(o, obj, keyword); }
    }
  }

  /** The first key of an empty object. */
  lemma FirstKey(d: Doc, obj: nat, keyword: string)
    requires Sound(d) && obj in Ids(d.forest) && SpotAt(d.forest, obj) == Spot(Object, "{", [])
    ensures var g, n := Inserted(d, obj, NONE, Key, Clip(keyword)).forest, NewId(d);
      && OthersKept(d.forest, g, obj) && obj in Ids(g) && SpotAt(g, obj) == Spot(Object, "{", [n])
      && n in Ids(g) && SpotAt(g, n) == Spot(Key, Clip(keyword), [])
  {
    NodePut(d, obj, NONE, Key, Clip(keyword));
    assert [NewId(d)] + [] == [NewId(d)];
  }

  /** In a new object nothing is found. */
  lemma NothingInNew(d: Doc, parent: nat)
    requires Sound(d) && KindAt(d.forest, parent) == Key && KidsAt(d.forest, parent).Nil?
    ensures forall text :: Found(Inserted(d, parent, NONE, Object, "{"), NewId(d), text) == NONE
  {
    NewIdLeavesFree(d);
    var o, obj := Inserted(d, parent, NONE, Object, "{"), NewId(d);
    NewObject(d.forest, parent, obj);
    forall text ensures Found(o, obj, text) == NONE {
      if d.index.Listed? {
        forall r | r in d.index.refs ensures !Goes(r, obj, text) { KeyRefParent(d.forest, r); }
        NamedNone(d.index.refs, obj, text);
      }
    }
  }

  /** The insertion of a value keeps a document sound. */
  lemma ValueSound(d: Doc, p: nat, a: nat, kind: Kind, text: string)
    requires Sound(d) && CanInsert(d.forest, p, a, kind) && p != NONE && NewId(d) != NONE
    ensures Sound(Inserted(d, p, a, kind, text)) && Size(Inserted(d, p, a, kind, text).forest) == Size(d.forest) + 1
    ensures KeyRefs(Inserted(d, p, a, kind, text).forest, NONE)
        == KeyRefs(d.forest, NONE) + NewRef(kind, p, NewId(d), text)
  {
    NewIdLeavesFree(d);
    InsertedNest(d, p, a, kind, text);
    if a != NONE {
      InsertAfterIds(d.forest, a, NewId(d), kind, text);
      SingleRoot(d.forest, a, NewId(d), kind, text);
    } else {
      InsertFirstIds(d.forest, p, NewId(d), kind, text);
    }
    SlotsAfterInsert(d, p, a, kind, text);
  }

  /** A key in the sequence of children of its object. */
  lemma KeyAmong(f: Forest, key: nat)
    requires Distinct(f) && NONE !in Ids(f) && Nested(f, Unknown) && key in Ids(f) && At(f, key).kind == Key
    ensures var p := Parent(f, key, NONE);
      && p in Ids(f) && key in ChildrenOf(f, p) && NoRepeats(ChildrenOf(f, p))
      && Prev(f, key, NONE) == LeftOf(ChildrenOf(f, p), key, NONE)
      && NONE !in ChildrenOf(f, p)
  {
    var p := Parent(f, key, NONE);
    KeyParent(f, key);
    ChildOf(f, NONE, key);
    AtIds(f, p);
    PrevBelow(f, p, key, NONE);
    PrevAmong(At(f, p).kids, p, key, NONE);
    SiblingsNoRepeats(At(f, p).kids);
  }

  /** A new node behind the left neighbour of `key`, or first when there is none. */
  lemma PutInFront(c: seq<nat>, key: nat, n: nat)
    requires key in c && NoRepeats(c) && NONE !in c
    ensures c == Front(c, key) + [key] + Rest(c, key)
    ensures var a := LeftOf(c, key, NONE);
      (if a == NONE then [n] + c else PutBehind(c, a, n)) == Front(c, key) + [n, key] + Rest(c, key)
  {
    PutBehindSplit(c, key, n);
    if c[0] != key {
      LeftIn(c, key, NONE);
      PutBehindLeft(c, key, NONE, n);
    } else {
      assert [n] + c == [] + [n, key] + c[1..];
    }
  }

  /** jes_add_key_before puts the new key directly before the reference key. */
  lemma AddKeyBeforeAdjacent(d: Doc, key: nat, keyword: string, cap: nat)
    requires Sound(d) && key in Ids(d.forest) && AddedKeyBefore(d, key, keyword, cap).node != NONE
    ensures var r, p := AddedKeyBefore(d, key, keyword, cap), Parent(d.forest, key, NONE);
      var c := ChildrenOf(d.forest, p);
      && c == Front(c, key) + [key] + Rest(c, key)
      && ChildrenOf(r.doc.forest, p) == Front(c, key) + [r.node, key] + Rest(c, key)
      && OthersKept(d.forest, r.doc.forest, p)
      && r.node in Ids(r.doc.forest) && SpotAt(r.doc.forest, r.node) == Spot(Key, Clip(keyword), [])
  {
    var p := Parent(d.forest, key, NONE);
    KeyAmong(d.forest, key);
    BeforePlace(d.forest, key);
    NodePut(d, p, Prev(d.forest, key, NONE), Key, Clip(keyword));
    PutInFront(ChildrenOf(d.forest, p), key, NewId(d));
  }

  /** jes_add_key_after puts the new key directly behind the reference key. */
  lemma AddKeyAfterAdjacent(d: Doc, key: nat, keyword: string, cap: nat)
    requires Sound(d) && key in Ids(d.forest) && AddedKeyAfter(d, key, keyword, cap).node != NONE
    ensures var r, p := AddedKeyAfter(d, key, keyword, cap), Parent(d.forest, key, NONE);
      var c := ChildrenOf(d.forest, p);
      && c == Front(c, key) + [key] + Rest(c, key)
      && ChildrenOf(r.doc.forest, p) == Front(c, key) + [key, r.node] + Rest(c, key)
      && OthersKept(d.forest, r.doc.forest, p)
      && r.node in Ids(r.doc.forest) && SpotAt(r.doc.forest, r.node) == Spot(Key, Clip(keyword), [])
  {
    var p := Parent(d.forest, key, NONE);
    KeyAmong(d.forest, key);
    KeyParent(d.forest, key);
    NodePut(d, p, key, Key, Clip(keyword));
    PutBehindSplit(ChildrenOf(d.forest, p), key, NewId(d));
  }

  /** jes_append_array_value puts the value behind all others. */
  lemma AppendAppends(d: Doc, list: nat, kind: Kind, value: Argument, cap: nat)
    requires Sound(d) && AppendedValue(d, list, kind, value, cap).status == NoError
    ensures value.Given?
    ensures var r := AppendedValue(d, list, kind, value, cap);
      && OthersKept(d.forest, r.doc.forest, list)
      && ChildrenOf(r.doc.forest, list) == ChildrenOf(d.forest, list) + [r.node]
      && r.node in Ids(r.doc.forest) && SpotAt(r.doc.forest, r.node) == Spot(kind, Clip(value.text), [])
  {
    var kids := At(d.forest, list).kids;
    LastChild(d.forest, list);
    AtIds(d.forest, list);
    NodePut(d, list, Last(kids), kind, Clip(value.text));
    if kids.Cons? {
      LastIn(kids);
      LastBehind(kids, NewId(d));
    } else {
      assert [NewId(d)] + [] == [] + [NewId(d)];
    }
  }

  /** What may be a value of this type: for a number a text that starts with one, for a string what
      the validation accepts, for the other types any text. */
  ghost predicate Fits(kind: Kind, value: string, accepted: bool) {
    kind != Unknown && (kind == Number ==> NumberStarts(value)) && (kind == Str || kind == Key ==> accepted)
  }

  /** jes_tokenizer_validate_number accepts what starts with a number. */
  lemma NumberTaken(value: string)
    ensures NumberAccepted(value) <==> NumberStarts(value)
  {
    if value != "" && (IsDigit(value[0]) || value[0] == '-') {
      ScanStarts(value);
    } else if n :| 0 < n <= |value| && NumberEnds(value, n) {
      EndsScanned(value, n);
    }
  }

  lemma ElementFits(kind: Kind, value: string, accepted: bool)
    requires value != ""
    ensures ElementAccepted(kind, value, accepted) <==> Fits(kind, value, accepted)
  {
    NumberTaken(value);
  }

  /** jes_update_key_value: the key ends with the new value and nothing else below it, the old
      value is gone with all that was below it, and all other nodes are as before. A refused
      value leaves the key without any. */
  lemma UpdateReplaces(d: Doc, key: nat, kind: Kind, value: Argument, accepted: bool, cap: nat, x: nat)
    requires Sound(d) && KindAt(d.forest, key) == Key && value.Given? && value.text != ""
    requires x in Ids(d.forest) && x != key && x !in Ids(KidsAt(d.forest, key))
    ensures var r := UpdatedKeyValue(d, key, kind, value, accepted, cap);
      && x in Ids(r.doc.forest) && SpotAt(r.doc.forest, x) == SpotAt(d.forest, x)
      && key in Ids(r.doc.forest)
      && ChildrenOf(r.doc.forest, key) == (if r.status == NoError then [r.node] else [])
      && (r.status == NoError ==> r.node in Ids(r.doc.forest))
      && (r.status == NoError ==> SpotAt(r.doc.forest, r.node) == Spot(kind, Clip(value.text), []))
      && (r.status == InvalidParameter <==> !Fits(kind, value.text, accepted))
  {
    hide Sound, Deleted, At, Ids, Inserted, ElementAccepted, Fits, Clip, Size, NewId;
    var kids := KidsAt(d.forest, key);
    if kids.Cons? { ValueCut(d, key, x); }
    var d' := if kids.Nil? then d else Deleted(d, kids.id);
    assert ChildrenOf(d'.forest, key) == [];
    hide Siblings;
    ElementFits(kind, value.text, accepted);
    if ElementAccepted(kind, value.text, accepted) && Size(d'.forest) < cap {
      ValuePut(d', key, kind, Clip(value.text));
    }
  }

  /** A value below a node without children. */
  lemma ValuePut(d: Doc, p: nat, kind: Kind, text: string)
    requires Sound(d) && p in Ids(d.forest) && ChildrenOf(d.forest, p) == []
    ensures var g, n := Inserted(d, p, NONE, kind, text).forest, NewId(d);
      && OthersKept(d.forest, g, p) && p in Ids(g) && ChildrenOf(g, p) == [n]
      && n in Ids(g) && SpotAt(g, n) == Spot(kind, text, [])
  {
    NodePut(d, p, NONE, kind, text);
    assert [NewId(d)] + [] == [NewId(d)];
  }

  /** When jes_update_key_value takes a value, and what it answers: never NULL or an empty text,
      whatever the type; and a key that has a value already needs no free slot. A missing value
      leaves the old one alone. */
  lemma UpdateTaken(d: Doc, key: nat, kind: Kind, value: Argument, accepted: bool, cap: nat)
    requires Sound(d) && d.next <= cap < NONE && (key == NONE || KindAt(d.forest, key) == Key)
    ensures var r := UpdatedKeyValue(d, key, kind, value, accepted, cap);
      var right := key != NONE && value.Given? && value.text != "" && Fits(kind, value.text, accepted);
      && (r.node != NONE <==> right && (KidsAt(d.forest, key).Cons? || Size(d.forest) < cap))
      && r.status == (if r.node != NONE then NoError else if right then OutOfMemory else InvalidParameter)
      && (key == NONE || value.Missing? || value.text == "" ==> r == Refused(d, InvalidParameter))
  {
    if value.Given? && value.text != "" { ElementFits(kind, value.text, accepted); }
    if key != NONE {
      var kids := KidsAt(d.forest, key);
      if kids.Cons? {
        ValueGone(d.forest, key);
        CutSize(d.forest, kids.id);
        assert NewId(Deleted(d, kids.id)) == kids.id;
      }
      FirstFree(d);
    }
  }

  lemma FirstFree(d: Doc)
    requires Sound(d) && d.next < NONE
    ensures NewId(d) != NONE
  {
    if d.free != [] { assert d.free[0] in d.free; }
  }

  /** When jes_append_array_value takes a value, and what it answers: never NULL; an empty text is
      taken for any type. */
  lemma AppendTaken(d: Doc, list: nat, kind: Kind, value: Argument, cap: nat)
    requires Sound(d) && d.next <= cap < NONE
    ensures var r := AppendedValue(d, list, kind, value, cap);
      var right := KindAt(d.forest, list) == Array && value.Given?;
      && (r.node != NONE <==> right && Size(d.forest) < cap)
      && r.status == (if r.node != NONE then NoError else if right then OutOfMemory else InvalidParameter)
      && (r.node == NONE ==> r.doc == d)
  {
    FirstFree(d);
  }

  /** Containers and literals with NULL for a value are refused; their own text is taken. */
  lemma NullRefused()
    ensures var key := Doc(Cons(0, Object, "{", Leaf(1, Key, "a"), Nil), [], 2, Whole);
      && UpdatedKeyValue(key, 1, Object, Missing, true, 3) == Refused(key, InvalidParameter)
      && UpdatedKeyValue(key, 1, Object, Given("{"), true, 3).status == NoError
    ensures var list := Doc(Leaf(0, Array, "["), [], 1, Whole);
      && AppendedValue(list, 0, True, Missing, 2) == Refused(list, InvalidParameter)
      && AppendedValue(list, 0, True, Given("true"), 2).status == NoError
  {
  }

  /** Deleting the value of a key. */
  lemma ValueCut(d: Doc, key: nat, x: nat)
    requires Sound(d) && KindAt(d.forest, key) == Key && KidsAt(d.forest, key).Cons?
    requires x in Ids(d.forest) && x != key && x !in Ids(KidsAt(d.forest, key))
    ensures var kid := KidsAt(d.forest, key).id;
      && kid in Ids(d.forest) && Sound(Deleted(d, kid))
      && x in Ids(Deleted(d, kid).forest) && SpotAt(Deleted(d, kid).forest, x) == SpotAt(d.forest, x)
      && key in Ids(Deleted(d, kid).forest) && ChildrenOf(Deleted(d, kid).forest, key) == []
  {
    var f, kid := d.forest, KidsAt(d.forest, key).id;
    ValueGone(f, key);
    FirstChild(f, key);
    NestedAt(f, Unknown, key);
    assert Ids(At(f, kid).kids) <= Ids(KidsAt(f, key));
    CutNode(f, NONE, kid, x);
    SlotsAfterDelete(d, kid);
    DeletedSound(d, kid);
    CutIds(f, kid);
  }

  /** A deletion keeps a document sound, so that the index lists no key that is gone. */
  lemma DeletedSound(d: Doc, id: nat)
    requires Sound(d) && id in Ids(d.forest) && id != Head(d.forest)
    ensures Sound(Deleted(d, id)) && KeyRefs(Cut(d.forest, id), NONE) <= KeyRefs(d.forest, NONE)
  {
    SlotsAfterDelete(d, id);
    NestedCut(d.forest, Unknown, id);
    CutIds(d.forest, id);
    CutRefsBelow(d.forest, NONE, id);
    if d.index.Listed? {
      var gone := KeyRefs(d.forest, NONE) - KeyRefs(Cut(d.forest, id), NONE);
      forall r | r in Struck(d.index.refs, gone) ensures r in KeyRefs(Cut(d.forest, id), NONE) {
        if r in gone { assert NameIn(gone, r) by { assert Goes(r, r.parent, r.text); } }
      }
    }
  }

  lemma {:induction false} CutRefsBelow(f: Forest, q: nat, id: nat)
    ensures KeyRefs(Cut(f, id), q) <= KeyRefs(f, q)
  {
    if f.Cons? && f.id != id {
      CutRefsBelow(f.kids, f.id, id);
      CutRefsBelow(f.sibs, q, id);
    }
  }

  /** jes_delete_element takes the element out of the children of its parent; every node outside
      the branch keeps its type, its text and its children; exactly the branch is gone and its
      size is what the node count drops by. */
  lemma DeleteTakesBranch(d: Doc, id: nat, x: nat)
    requires Sound(d) && id in Ids(d.forest) && x in Ids(d.forest) && x != id && x !in Ids(At(d.forest, id).kids)
    ensures var f, g := d.forest, Deleted(d, id).forest;
      && Ids(g) == Ids(f) - ({id} + Ids(At(f, id).kids)) && Size(f) == Size(g) + 1 + Size(At(f, id).kids)
      && x in Ids(g)
      && SpotAt(g, x) == if x != Parent(f, id, NONE) then SpotAt(f, x)
          else SpotAt(f, x).(children := Without(SpotAt(f, x).children, id))
  {
    CutIds(d.forest, id);
    CutSize(d.forest, id);
    CutNode(d.forest, NONE, id, x);
  }

  lemma NoRepeatsConcat(a: seq<nat>, b: seq<nat>)
    requires NoRepeats(a) && NoRepeats(b) && forall x :: x in a ==> x !in b
    ensures NoRepeats(a + b) && forall x :: x in a + b <==> x in a || x in b
  {
    forall i, j | 0 <= i < j < |a + b| ensures (a + b)[i] != (a + b)[j] {
      if i < |a| <= j { assert a[i] in a && b[j - |a|] in b; }
    }
  }

  lemma {:induction false} PostMembers(f: Forest)
    requires Distinct(f)
    ensures |Post(f)| == Size(f) && NoRepeats(Post(f)) && forall i :: i in Post(f) <==> i in Ids(f)
  {
    if f.Cons? {
      PostMembers(f.kids);
      PostMembers(f.sibs);
      NoRepeatsConcat(Post(f.kids), [f.id]);
      NoRepeatsConcat(Post(f.kids) + [f.id], Post(f.sibs));
    }
  }

  lemma {:induction false} ReverseMembers(s: seq<nat>)
    requires NoRepeats(s)
    ensures |Reverse(s)| == |s| && NoRepeats(Reverse(s)) && forall i :: i in Reverse(s) <==> i in s
  {
    if s != [] {
      ReverseMembers(s[1..]);
      NoRepeatsConcat(Reverse(s[1..]), [s[0]]);
      assert s == [s[0]] + s[1..];
    }
  }

  /** A deletion moves the slots of the branch to the free list. */
  lemma SlotsAfterDelete(d: Doc, id: nat)
    requires Slots(d) && id in Ids(d.forest)
    ensures Slots(Deleted(d, id))
  {
    var kids := At(d.forest, id).kids;
    var gone := [id] + Reverse(Post(kids));
    AtIds(d.forest, id);
    PostMembers(kids);
    ReverseMembers(Post(kids));
    CutIds(d.forest, id);
    CutSize(d.forest, id);
    NoRepeatsConcat([id], Reverse(Post(kids)));
    NoRepeatsConcat(gone, d.free);
  }
}
