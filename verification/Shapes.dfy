/** Which forests are JSON documents in the making, and which keys they hold. */
module Shapes {
  import opened Forests

  predicate Allowed(parent: Kind, child: Kind) {
    if parent == Object then child == Key else IsContainer(child) || IsScalar(child)
  }

  /** The member of an object's child list that carries `text`: jes_tree_find_key's walk. */
  function KeyIn(f: Forest, text: string): nat {
    if f.Nil? || f.kind != Key then NONE
    else if f.text == text then f.id
    else KeyIn(f.sibs, text)
  }

  predicate DistinctTexts(f: Forest) {
    f.Cons? ==> KeyIn(f.sibs, f.text) == NONE && DistinctTexts(f.sibs)
  }

  /** Objects hold distinctly named keys and nothing else, a key holds at most one value,
      scalars hold nothing. `k` is the kind of the node above the chain (Unknown at the root). */
  predicate Shaped(f: Forest, k: Kind) {
    f.Cons? ==>
      && Allowed(k, f.kind)
      && (IsScalar(f.kind) ==> f.kids.Nil?)
      && (f.kind == Key && f.kids.Cons? ==> f.kids.sibs.Nil?)
      && (f.kind == Object ==> DistinctTexts(f.kids))
      && Shaped(f.kids, f.kind) && Shaped(f.sibs, k)
  }

  /** As `Shaped`, but names may repeat. */
  predicate Nested(f: Forest, k: Kind) {
    f.Cons? ==>
      && Allowed(k, f.kind)
      && (IsScalar(f.kind) ==> f.kids.Nil?)
      && (f.kind == Key && f.kids.Cons? ==> f.kids.sibs.Nil?)
      && Nested(f.kids, f.kind) && Nested(f.sibs, k)
  }

  /** In every object the names are distinct. */
  predicate NamesDistinct(f: Forest) {
    f.Cons? ==> (f.kind == Object ==> DistinctTexts(f.kids)) && NamesDistinct(f.kids) && NamesDistinct(f.sibs)
  }

  lemma {:induction false} ShapedSplits(f: Forest, k: Kind)
    ensures Shaped(f, k) <==> Nested(f, k) && NamesDistinct(f)
  {
    if f.Cons? {
      ShapedSplits(f.kids, f.kind);
      ShapedSplits(f.sibs, k);
    }
  }

  /** Every key has a value. */
  predicate Full(f: Forest) {
    f.Cons? ==> (f.kind == Key ==> f.kids.Cons?) && Full(f.kids) && Full(f.sibs)
  }

  /** jes_tree_find_key as a function: keys are looked up in objects only. */
  function FindKey(f: Forest, p: nat, text: string): nat {
    if p !in Ids(f) || At(f, p).kind != Object then NONE else KeyIn(At(f, p).kids, text)
  }

  datatype KeyRef = KeyRef(parent: nat, id: nat, text: string)

  /** Every key node with its parent object and its name. */
  function KeyRefs(f: Forest, q: nat): set<KeyRef> {
    if f.Nil? then {}
    else (if f.kind == Key then {KeyRef(q, f.id, f.text)} else {}) + KeyRefs(f.kids, f.id) + KeyRefs(f.sibs, q)
  }

  lemma KeyRefIds(f: Forest, q: nat, r: KeyRef)
    requires r in KeyRefs(f, q)
    ensures r.id in Ids(f) && (r.parent == q || r.parent in Ids(f))
  {
  }

  lemma {:induction false} KeyRefAt(f: Forest, q: nat, r: KeyRef)
    requires r in KeyRefs(f, q) && Distinct(f)
    ensures r.id in Ids(f) && At(f, r.id).kind == Key && At(f, r.id).text == r.text && Parent(f, r.id, q) == r.parent
  {
    if r in KeyRefs(f.kids, f.id) {
      KeyRefIds(f.kids, f.id, r);
      KeyRefAt(f.kids, f.id, r);
    } else if r in KeyRefs(f.sibs, q) {
      KeyRefIds(f.sibs, q, r);
      KeyRefAt(f.sibs, q, r);
    }
  }

  lemma {:induction false} AtKeyRef(f: Forest, q: nat, id: nat)
    requires id in Ids(f) && At(f, id).kind == Key
    ensures KeyRef(Parent(f, id, q), id, At(f, id).text) in KeyRefs(f, q)
  {
    if f.id == id {
    } else if id in Ids(f.kids) {
      AtKeyRef(f.kids, f.id, id);
    } else {
      AtKeyRef(f.sibs, q, id);
    }
  }

  // ----- lookups and key references -----

  lemma {:induction false} KeyInTop(f: Forest, q: nat, text: string)
    requires NONE !in Ids(f)
    ensures KeyIn(f, text) != NONE ==> KeyRef(q, KeyIn(f, text), text) in KeyRefs(f, q)
  {
    if f.Cons? && f.kind == Key && f.text != text {
      KeyInTop(f.sibs, q, text);
    }
  }

  lemma {:induction false} TopKeyIn(f: Forest, q: nat, r: KeyRef)
    requires r in KeyRefs(f, q) && r.parent == q && q !in Ids(f) && NONE !in Ids(f)
    requires Shaped(f, Object) && DistinctTexts(f)
    ensures KeyIn(f, r.text) == r.id
  {
    if r in KeyRefs(f.kids, f.id) {
      KeyRefIds(f.kids, f.id, r);
      assert false;
    } else if r in KeyRefs(f.sibs, q) {
      TopKeyIn(f.sibs, q, r);
      KeyRefIds(f.sibs, q, r);
    }
  }

  lemma {:induction false} RefBelowParent(f: Forest, q: nat, r: KeyRef)
    requires r in KeyRefs(f, q) && Distinct(f) && q !in Ids(f) && r.parent != q
    ensures r.parent in Ids(f) && r in KeyRefs(At(f, r.parent).kids, r.parent)
  {
    if r in KeyRefs(f.kids, f.id) {
      KeyRefIds(f.kids, f.id, r);
      if r.parent != f.id {
        RefBelowParent(f.kids, f.id, r);
      }
    } else {
      KeyRefIds(f.sibs, q, r);
      RefBelowParent(f.sibs, q, r);
    }
  }

  lemma {:induction false} RefAboveChild(f: Forest, q: nat, p: nat, r: KeyRef)
    requires p in Ids(f) && r in KeyRefs(At(f, p).kids, p)
    ensures r in KeyRefs(f, q)
  {
    if f.id == p {
    } else if p in Ids(f.kids) {
      RefAboveChild(f.kids, f.id, p, r);
    } else {
      RefAboveChild(f.sibs, q, p, r);
    }
  }

  lemma {:induction false} ShapedAt(f: Forest, k: Kind, id: nat)
    requires Shaped(f, k) && id in Ids(f)
    ensures var g := At(f, id);
            && (IsScalar(g.kind) ==> g.kids.Nil?)
            && (g.kind == Key && g.kids.Cons? ==> g.kids.sibs.Nil?)
            && (g.kind == Object ==> DistinctTexts(g.kids))
            && Shaped(g.kids, g.kind)
            && (IsContainer(g.kind) || IsScalar(g.kind) || g.kind == Key)
  {
    if f.id == id {
    } else if id in Ids(f.kids) {
      ShapedAt(f.kids, f.kind, id);
    } else {
      ShapedAt(f.sibs, k, id);
    }
  }

  /** Looking a name up in an object finds exactly the key reference with that parent and name. */
  lemma FindKeyRef(f: Forest, p: nat, text: string, e: nat)
    requires Shaped(f, Unknown) && Distinct(f) && NONE !in Ids(f) && e != NONE
    ensures FindKey(f, p, text) == e <==> KeyRef(p, e, text) in KeyRefs(f, NONE)
  {
    var r := KeyRef(p, e, text);
    if FindKey(f, p, text) == e {
      AtIds(f, p);
      KeyInTop(At(f, p).kids, p, text);
      RefAboveChild(f, NONE, p, r);
    }
    if r in KeyRefs(f, NONE) {
      ShapedSplits(f, Unknown);
      KeyRefParent(f, r);
      NestedTopKeys(f, NONE, Unknown, r);
      RefBelowParent(f, NONE, r);
      AtIds(f, p);
      ShapedAt(f, Unknown, p);
      TopKeyIn(At(f, p).kids, p, r);
    }
  }

  // ----- edits and key references -----

  function NewRef(kind: Kind, p: nat, n: nat, text: string): set<KeyRef> {
    if kind == Key then {KeyRef(p, n, text)} else {}
  }

  lemma {:induction false} InsertAfterRefs(f: Forest, q: nat, a: nat, n: nat, kind: Kind, text: string)
    requires a in Ids(f) && Distinct(f)
    ensures KeyRefs(InsertAfter(f, a, Leaf(n, kind, text)), q) == KeyRefs(f, q) + NewRef(kind, Parent(f, a, q), n, text)
  {
    var leaf := Leaf(n, kind, text);
    if f.id == a {
      assert KeyRefs(leaf.(sibs := f.sibs), q) == NewRef(kind, q, n, text) + KeyRefs(f.sibs, q);
    } else if a in Ids(f.kids) {
      InsertAfterRefs(f.kids, f.id, a, n, kind, text);
      AbsentInsertAfter(f.sibs, a, leaf);
    } else {
      InsertAfterRefs(f.sibs, q, a, n, kind, text);
      AbsentInsertAfter(f.kids, a, leaf);
    }
  }

  lemma {:induction false} InsertFirstRefs(f: Forest, q: nat, p: nat, n: nat, kind: Kind, text: string)
    requires p in Ids(f) && Distinct(f)
    ensures KeyRefs(InsertFirst(f, p, Leaf(n, kind, text)), q) == KeyRefs(f, q) + NewRef(kind, p, n, text)
  {
    var leaf := Leaf(n, kind, text);
    if f.id == p {
      assert KeyRefs(leaf.(sibs := f.kids), p) == NewRef(kind, p, n, text) + KeyRefs(f.kids, p);
    } else if p in Ids(f.kids) {
      InsertFirstRefs(f.kids, f.id, p, n, kind, text);
      AbsentInsertFirst(f.sibs, p, leaf);
    } else {
      InsertFirstRefs(f.sibs, q, p, n, kind, text);
      AbsentInsertFirst(f.kids, p, leaf);
    }
  }

  /** Cutting a childless node takes out its own reference and no other. */
  lemma {:induction false} CutRefs(f: Forest, q: nat, id: nat)
    requires id in Ids(f) && Distinct(f) && At(f, id).kids.Nil?
    ensures KeyRefs(Cut(f, id), q) == KeyRefs(f, q) - {KeyRef(Parent(f, id, q), id, At(f, id).text)}
  {
    if f.id == id {
      forall r | r in KeyRefs(f.sibs, q) ensures r.id != id { KeyRefIds(f.sibs, q, r); }
    } else if id in Ids(f.kids) {
      CutRefs(f.kids, f.id, id);
      AbsentCut(f.sibs, id);
      forall r | r in KeyRefs(f.sibs, q) ensures r.id != id { KeyRefIds(f.sibs, q, r); }
    } else {
      CutRefs(f.sibs, q, id);
      AbsentCut(f.kids, id);
      forall r | r in KeyRefs(f.kids, f.id) ensures r.id != id { KeyRefIds(f.kids, f.id, r); }
    }
  }

  // ----- edits further down -----

  /** An insertion further down leaves the names and the length of a chain alone. */
  lemma {:induction false} DeepInsertAfter(f: Forest, q: nat, a: nat, leaf: Forest)
    requires a in Ids(f) && Parent(f, a, q) != q && leaf.Cons? && q !in Ids(f) && Distinct(f)
    ensures forall t :: KeyIn(InsertAfter(f, a, leaf), t) == KeyIn(f, t)
    ensures DistinctTexts(InsertAfter(f, a, leaf)) == DistinctTexts(f)
    ensures InsertAfter(f, a, leaf).Cons? && InsertAfter(f, a, leaf).sibs.Nil? == f.sibs.Nil?
  {
    if a in Ids(f.kids) {
      AbsentInsertAfter(f.sibs, a, leaf);
    } else {
      AbsentInsertAfter(f.kids, a, leaf);
      DeepInsertAfter(f.sibs, q, a, leaf);
    }
  }

  lemma {:induction false} DeepInsertFirst(f: Forest, p: nat, leaf: Forest)
    requires leaf.Cons? && f.Cons?
    ensures forall t :: KeyIn(InsertFirst(f, p, leaf), t) == KeyIn(f, t)
    ensures DistinctTexts(InsertFirst(f, p, leaf)) == DistinctTexts(f)
    ensures InsertFirst(f, p, leaf).Cons? && (f.id != p ==> InsertFirst(f, p, leaf).sibs.Nil? == f.sibs.Nil?)
  {
    if f.sibs.Cons? {
      DeepInsertFirst(f.sibs, p, leaf);
    }
  }

  // ----- edits and nesting -----

  /** A node of this kind may be added below a node `g`, whatever its name. */
  predicate Takes(g: Forest, kind: Kind)
    requires g.Cons?
  {
    (IsContainer(g.kind) || (g.kind == Key && g.kids.Nil?)) && Allowed(g.kind, kind)
  }

  lemma {:induction false} NestedAt(f: Forest, k: Kind, id: nat)
    requires Nested(f, k) && id in Ids(f)
    ensures var g := At(f, id);
            && (IsScalar(g.kind) ==> g.kids.Nil?)
            && (g.kind == Key && g.kids.Cons? ==> g.kids.sibs.Nil?)
            && Nested(g.kids, g.kind)
            && (IsContainer(g.kind) || IsScalar(g.kind) || g.kind == Key)
  {
    if f.id == id {
    } else if id in Ids(f.kids) {
      NestedAt(f.kids, f.kind, id);
    } else {
      NestedAt(f.sibs, k, id);
    }
  }

  lemma {:induction false} NestedInsertAfter(f: Forest, q: nat, k: Kind, a: nat, n: nat, kind: Kind, text: string)
    requires Nested(f, k) && Distinct(f) && a in Ids(f) && q !in Ids(f)
    requires Parent(f, a, q) == q ==> Allowed(k, kind)
    requires Parent(f, a, q) != q ==> Parent(f, a, q) in Ids(f) && Takes(At(f, Parent(f, a, q)), kind)
    ensures Nested(InsertAfter(f, a, Leaf(n, kind, text)), k)
  {
    var leaf := Leaf(n, kind, text);
    if f.id == a {
      assert Nested(leaf.(sibs := f.sibs), k);
    } else if a in Ids(f.kids) {
      AbsentInsertAfter(f.sibs, a, leaf);
      ParentFact(f.kids, a, f.id);
      NestedInsertAfter(f.kids, f.id, f.kind, a, n, kind, text);
      if f.kind == Key {
        if Parent(f, a, q) == f.id { assert false; }
        DeepInsertAfter(f.kids, f.id, a, leaf);
      }
    } else {
      AbsentInsertAfter(f.kids, a, leaf);
      ParentFact(f.sibs, a, q);
      NestedInsertAfter(f.sibs, q, k, a, n, kind, text);
    }
  }

  lemma {:induction false} NestedInsertFirst(f: Forest, k: Kind, p: nat, n: nat, kind: Kind, text: string)
    requires Nested(f, k) && Distinct(f) && p in Ids(f) && Takes(At(f, p), kind)
    ensures Nested(InsertFirst(f, p, Leaf(n, kind, text)), k)
  {
    var leaf := Leaf(n, kind, text);
    if f.id == p {
      assert Nested(leaf.(sibs := f.kids), f.kind);
    } else if p in Ids(f.kids) {
      AbsentInsertFirst(f.sibs, p, leaf);
      NestedInsertFirst(f.kids, f.kind, p, n, kind, text);
      DeepInsertFirst(f.kids, p, leaf);
    } else {
      AbsentInsertFirst(f.kids, p, leaf);
      NestedInsertFirst(f.sibs, k, p, n, kind, text);
    }
  }

  lemma {:induction false} NestedCut(f: Forest, k: Kind, id: nat)
    requires Nested(f, k)
    ensures Nested(Cut(f, id), k)
    ensures f.Cons? && f.sibs.Nil? ==> Cut(f, id).Cons? ==> Cut(f, id).sibs.Nil?
  {
    if f.Cons? && f.id != id {
      NestedCut(f.kids, f.kind, id);
      NestedCut(f.sibs, k, id);
    }
  }

  /** The parent of a key is an object. */
  lemma KeyRefParent(f: Forest, r: KeyRef)
    requires Nested(f, Unknown) && Distinct(f) && NONE !in Ids(f) && r in KeyRefs(f, NONE)
    ensures r.parent in Ids(f) && At(f, r.parent).kind == Object
  {
    NestedTopKeys(f, NONE, Unknown, r);
    RefBelowParent(f, NONE, r);
    AtIds(f, r.parent);
    NestedAt(f, Unknown, r.parent);
    if At(f, r.parent).kind != Object {
      NestedTopKeys(At(f, r.parent).kids, r.parent, At(f, r.parent).kind, r);
    }
  }

  lemma {:induction false} NestedTopKeys(f: Forest, q: nat, k: Kind, r: KeyRef)
    requires Nested(f, k) && k != Object && q !in Ids(f) && r in KeyRefs(f, q)
    ensures r.parent != q
  {
    if r in KeyRefs(f.kids, f.id) {
      KeyRefIds(f.kids, f.id, r);
    } else {
      NestedTopKeys(f.sibs, q, k, r);
    }
  }

  // ----- edits and names -----

  lemma {:induction false} KeyInInsertAfter(f: Forest, q: nat, a: nat, leaf: Forest, t: string)
    requires Nested(f, Object) && Distinct(f) && a in Ids(f) && Parent(f, a, q) == q && q !in Ids(f) && NONE !in Ids(f)
    requires leaf.Cons? && leaf.sibs.Nil? && leaf.kind == Key && leaf.id != NONE
    ensures KeyIn(InsertAfter(f, a, leaf), t) == NONE <==> KeyIn(f, t) == NONE && leaf.text != t
  {
    if f.id != a {
      if a in Ids(f.kids) { ParentFact(f.kids, a, f.id); }
      KeyInInsertAfter(f.sibs, q, a, leaf, t);
    }
  }

  lemma {:induction false} DistinctInsertAfter(f: Forest, q: nat, a: nat, leaf: Forest)
    requires Nested(f, Object) && Distinct(f) && a in Ids(f) && Parent(f, a, q) == q && q !in Ids(f) && NONE !in Ids(f)
    requires leaf.Cons? && leaf.sibs.Nil? && leaf.kind == Key && leaf.id != NONE
    ensures DistinctTexts(InsertAfter(f, a, leaf)) <==> DistinctTexts(f) && KeyIn(f, leaf.text) == NONE
  {
    if f.id == a {
      assert DistinctTexts(leaf.(sibs := f.sibs)) <==> KeyIn(f.sibs, leaf.text) == NONE && DistinctTexts(f.sibs);
    } else {
      if a in Ids(f.kids) { ParentFact(f.kids, a, f.id); }
      DistinctInsertAfter(f.sibs, q, a, leaf);
      KeyInInsertAfter(f.sibs, q, a, leaf, f.text);
    }
  }

  /** An insertion behind a node keeps the names distinct if and only if the object it goes to, if
      it is one, does not hold the name yet. */
  lemma {:induction false} NamesInsertAfter(f: Forest, q: nat, k: Kind, a: nat, n: nat, kind: Kind, text: string)
    requires Nested(f, k) && Distinct(f) && a in Ids(f) && q !in Ids(f) && NONE !in Ids(f) && n != NONE
    requires Parent(f, a, q) != q ==> Parent(f, a, q) in Ids(f) && Takes(At(f, Parent(f, a, q)), kind)
    ensures var p := Parent(f, a, q);
      NamesDistinct(InsertAfter(f, a, Leaf(n, kind, text))) <==>
      NamesDistinct(f) && (p != q && At(f, p).kind == Object ==> KeyIn(At(f, p).kids, text) == NONE)
  {
    var leaf := Leaf(n, kind, text);
    if f.id == a {
      assert NamesDistinct(leaf.(sibs := f.sibs)) <==> NamesDistinct(f.sibs);
    } else if a in Ids(f.kids) {
      AbsentInsertAfter(f.sibs, a, leaf);
      ParentFact(f.kids, a, f.id);
      NamesInsertAfter(f.kids, f.id, f.kind, a, n, kind, text);
      if Parent(f, a, q) != f.id {
        DeepInsertAfter(f.kids, f.id, a, leaf);
      } else if f.kind == Object {
        DistinctInsertAfter(f.kids, f.id, a, leaf);
      }
    } else {
      AbsentInsertAfter(f.kids, a, leaf);
      ParentFact(f.sibs, a, q);
      NamesInsertAfter(f.sibs, q, k, a, n, kind, text);
    }
  }

  /** Likewise for an insertion in front of all children. */
  lemma {:induction false} NamesInsertFirst(f: Forest, p: nat, n: nat, kind: Kind, text: string)
    requires Distinct(f) && p in Ids(f)
    ensures NamesDistinct(InsertFirst(f, p, Leaf(n, kind, text)))
      <==> NamesDistinct(f) && (At(f, p).kind == Object ==> KeyIn(At(f, p).kids, text) == NONE)
  {
    var leaf := Leaf(n, kind, text);
    if f.id == p {
      var kids := leaf.(sibs := f.kids);
      assert DistinctTexts(kids) <==> KeyIn(f.kids, text) == NONE && DistinctTexts(f.kids);
      assert NamesDistinct(kids) <==> NamesDistinct(f.kids);
    } else if p in Ids(f.kids) {
      AbsentInsertFirst(f.sibs, p, leaf);
      NamesInsertFirst(f.kids, p, n, kind, text);
      DeepInsertFirst(f.kids, p, leaf);
    } else {
      AbsentInsertFirst(f.kids, p, leaf);
      NamesInsertFirst(f.sibs, p, n, kind, text);
    }
  }

  lemma {:induction false} KeyInCut(f: Forest, id: nat, t: string)
    requires KeyIn(f, t) == NONE && NONE !in Ids(f) && Nested(f, Object)
    ensures KeyIn(Cut(f, id), t) == NONE
  {
    if f.Cons? && f.id != id {
      KeyInCut(f.sibs, id, t);
    }
  }

  lemma {:induction false} DistinctCut(f: Forest, id: nat)
    requires DistinctTexts(f) && NONE !in Ids(f) && Nested(f, Object)
    ensures DistinctTexts(Cut(f, id))
  {
    if f.Cons? && f.id != id {
      DistinctCut(f.sibs, id);
      KeyInCut(f.sibs, id, f.text);
    }
  }

  /** A deletion keeps the names distinct. */
  lemma {:induction false} NamesCut(f: Forest, k: Kind, id: nat)
    requires Nested(f, k) && NamesDistinct(f) && NONE !in Ids(f)
    ensures NamesDistinct(Cut(f, id))
  {
    if f.Cons? && f.id != id {
      NamesCut(f.kids, f.kind, id);
      NamesCut(f.sibs, k, id);
      if f.kind == Object { DistinctCut(f.kids, id); }
    }
  }
}
