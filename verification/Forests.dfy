/** The abstract value of a JES node pool: an ordered forest in first-child /
    next-sibling form, whose nodes carry the pool index they live in. */
module Forests {

  /** JES_INVALID_INDEX for 16-bit node descriptors: "no node". */
  const NONE: nat := 0xFFFF

  /** enum jes_type */
  datatype Kind = Unknown | Object | Key | Array | Str | Number | True | False | Null

  datatype Forest =
    | Nil
    | Cons(id: nat, kind: Kind, text: string, kids: Forest, sibs: Forest)

  predicate IsContainer(k: Kind) { k == Object || k == Array }

  predicate IsScalar(k: Kind) { k == Str || k == Number || k == True || k == False || k == Null }

  function Leaf(id: nat, kind: Kind, text: string): Forest { Cons(id, kind, text, Nil, Nil) }

  function Head(f: Forest): nat { if f.Nil? then NONE else f.id }

  function Last(f: Forest): nat {
    if f.Nil? then NONE else if f.sibs.Nil? then f.id else Last(f.sibs)
  }

  function Ids(f: Forest): set<nat> {
    if f.Nil? then {} else {f.id} + Ids(f.kids) + Ids(f.sibs)
  }

  function Size(f: Forest): nat {
    if f.Nil? then 0 else 1 + Size(f.kids) + Size(f.sibs)
  }

  /** Every node sits in its own pool slot. */
  ghost predicate Distinct(f: Forest) {
    f.Cons? ==>
      && f.id !in Ids(f.kids) && f.id !in Ids(f.sibs) && Ids(f.kids) !! Ids(f.sibs)
      && Distinct(f.kids) && Distinct(f.sibs)
  }

  /** The sibling chain that starts at node `id`. */
  function At(f: Forest, id: nat): (r: Forest)
    requires id in Ids(f)
    ensures r.Cons? && r.id == id
  {
    if f.id == id then f else if id in Ids(f.kids) then At(f.kids, id) else At(f.sibs, id)
  }

  function KindAt(f: Forest, id: nat): Kind { if id in Ids(f) then At(f, id).kind else Unknown }

  function KidsAt(f: Forest, id: nat): Forest { if id in Ids(f) then At(f, id).kids else Nil }

  /** The parent of node `id` in a forest whose top nodes have parent `q`. */
  function Parent(f: Forest, id: nat, q: nat): nat
    requires id in Ids(f)
  {
    if f.id == id then q
    else if id in Ids(f.kids) then Parent(f.kids, id, f.id)
    else Parent(f.sibs, id, q)
  }

  function Concat(f: Forest, g: Forest): Forest {
    if f.Nil? then g else f.(sibs := Concat(f.sibs, g))
  }

  /** Pre-order (document order). */
  function Pre(f: Forest): seq<nat> {
    if f.Nil? then [] else [f.id] + Pre(f.kids) + Pre(f.sibs)
  }

  /** Post-order: children before their parent. */
  function Post(f: Forest): seq<nat> {
    if f.Nil? then [] else Post(f.kids) + [f.id] + Post(f.sibs)
  }

  // ----- editing -----

  /** Put the single node `leaf` right behind node `a`. */
  function InsertAfter(f: Forest, a: nat, leaf: Forest): Forest
    requires leaf.Cons?
  {
    if f.Nil? then Nil
    else if f.id == a then f.(sibs := leaf.(sibs := f.sibs))
    else f.(kids := InsertAfter(f.kids, a, leaf), sibs := InsertAfter(f.sibs, a, leaf))
  }

  /** Make the single node `leaf` the first child of `p`. */
  function InsertFirst(f: Forest, p: nat, leaf: Forest): Forest
    requires leaf.Cons?
  {
    if f.Nil? then Nil
    else if f.id == p then f.(kids := leaf.(sibs := f.kids))
    else f.(kids := InsertFirst(f.kids, p, leaf), sibs := InsertFirst(f.sibs, p, leaf))
  }

  /** Append the trees `g` to the children of `p`. */
  function Graft(f: Forest, p: nat, g: Forest): Forest {
    if f.Nil? then Nil
    else if f.id == p then f.(kids := Concat(f.kids, g))
    else f.(kids := Graft(f.kids, p, g), sibs := Graft(f.sibs, p, g))
  }

  /** Remove node `id` together with everything below it. */
  function Cut(f: Forest, id: nat): Forest {
    if f.Nil? then Nil
    else if f.id == id then f.sibs
    else f.(kids := Cut(f.kids, id), sibs := Cut(f.sibs, id))
  }

  // ----- basic facts -----

  lemma LastIn(f: Forest)
    requires f.Cons?
    ensures Last(f) in Ids(f)
  {
  }

  lemma AtIds(f: Forest, id: nat)
    requires id in Ids(f)
    ensures Ids(At(f, id)) <= Ids(f)
    ensures Distinct(f) ==> Distinct(At(f, id))
  {
  }

  lemma ParentFact(f: Forest, id: nat, q: nat)
    requires id in Ids(f)
    ensures Parent(f, id, q) == q || Parent(f, id, q) in Ids(f)
    ensures Distinct(f) && q !in Ids(f) ==> Parent(f, id, q) != id
  {
  }

  lemma AbsentInsertAfter(f: Forest, a: nat, leaf: Forest)
    requires a !in Ids(f) && leaf.Cons?
    ensures InsertAfter(f, a, leaf) == f
  {
  }

  lemma AbsentInsertFirst(f: Forest, p: nat, leaf: Forest)
    requires p !in Ids(f) && leaf.Cons?
    ensures InsertFirst(f, p, leaf) == f
  {
  }

  lemma AbsentCut(f: Forest, id: nat)
    requires id !in Ids(f)
    ensures Cut(f, id) == f
  {
  }

  lemma AbsentGraft(f: Forest, p: nat, g: Forest)
    requires p !in Ids(f)
    ensures Graft(f, p, g) == f
  {
  }

  lemma {:induction false} InsertAfterIds(f: Forest, a: nat, n: nat, kind: Kind, text: string)
    requires a in Ids(f) && Distinct(f) && n !in Ids(f)
    ensures var g := InsertAfter(f, a, Leaf(n, kind, text));
            Ids(g) == Ids(f) + {n} && Distinct(g) && Size(g) == Size(f) + 1
  {
    var leaf := Leaf(n, kind, text);
    if f.id == a {
      var rest := leaf.(sibs := f.sibs);
      assert Ids(rest) == {n} + Ids(f.sibs) && Size(rest) == 1 + Size(f.sibs);
    } else if a in Ids(f.kids) {
      InsertAfterIds(f.kids, a, n, kind, text);
      AbsentInsertAfter(f.sibs, a, leaf);
    } else {
      InsertAfterIds(f.sibs, a, n, kind, text);
      AbsentInsertAfter(f.kids, a, leaf);
    }
  }

  lemma {:induction false} InsertFirstIds(f: Forest, p: nat, n: nat, kind: Kind, text: string)
    requires p in Ids(f) && Distinct(f) && n !in Ids(f)
    ensures var g := InsertFirst(f, p, Leaf(n, kind, text));
            Ids(g) == Ids(f) + {n} && Distinct(g) && Size(g) == Size(f) + 1
  {
    var leaf := Leaf(n, kind, text);
    if f.id == p {
      var kids := leaf.(sibs := f.kids);
      assert Ids(kids) == {n} + Ids(f.kids) && Size(kids) == 1 + Size(f.kids);
    } else if p in Ids(f.kids) {
      InsertFirstIds(f.kids, p, n, kind, text);
      AbsentInsertFirst(f.sibs, p, leaf);
    } else {
      InsertFirstIds(f.sibs, p, n, kind, text);
      AbsentInsertFirst(f.kids, p, leaf);
    }
  }

  /** Cutting a branch takes out exactly the ids of that branch. */
  lemma {:induction false} CutIds(f: Forest, id: nat)
    requires id in Ids(f) && Distinct(f)
    ensures Ids(Cut(f, id)) == Ids(f) - ({id} + Ids(At(f, id).kids))
    ensures Distinct(Cut(f, id))
  {
    var gone := {id} + Ids(At(f, id).kids);
    if f.id == id {
    } else if id in Ids(f.kids) {
      CutIds(f.kids, id);
      AbsentCut(f.sibs, id);
      AtIds(f.kids, id);
      assert gone <= Ids(f.kids);
      assert Ids(Cut(f, id)) == {f.id} + (Ids(f.kids) - gone) + Ids(f.sibs);
    } else {
      CutIds(f.sibs, id);
      AbsentCut(f.kids, id);
      AtIds(f.sibs, id);
      assert gone <= Ids(f.sibs);
      assert Ids(Cut(f, id)) == {f.id} + Ids(f.kids) + (Ids(f.sibs) - gone);
    }
  }

  lemma {:induction false} CutSize(f: Forest, id: nat)
    requires id in Ids(f) && Distinct(f)
    ensures Size(f) == Size(Cut(f, id)) + 1 + Size(At(f, id).kids)
  {
    if f.id == id {
    } else if id in Ids(f.kids) {
      CutSize(f.kids, id);
      AbsentCut(f.sibs, id);
    } else {
      CutSize(f.sibs, id);
      AbsentCut(f.kids, id);
    }
  }

  /** Appending at the end is inserting behind the last child. */
  lemma {:induction false} InsertAfterLast(f: Forest, p: nat, leaf: Forest)
    requires p in Ids(f) && Distinct(f) && leaf.Cons? && leaf.sibs.Nil?
    requires At(f, p).kids.Cons?
    ensures InsertAfter(f, Last(At(f, p).kids), leaf) == Graft(f, p, leaf)
  {
    var a := Last(At(f, p).kids);
    LastIn(At(f, p).kids);
    if f.id == p {
      AbsentInsertAfter(f.sibs, a, leaf);
      InsertAfterEnd(f.kids, leaf);
    } else if p in Ids(f.kids) {
      AtIds(f.kids, p);
      InsertAfterLast(f.kids, p, leaf);
      AbsentGraft(f.sibs, p, leaf);
      AbsentInsertAfter(f.sibs, a, leaf);
    } else {
      AtIds(f.sibs, p);
      InsertAfterLast(f.sibs, p, leaf);
      AbsentGraft(f.kids, p, leaf);
      AbsentInsertAfter(f.kids, a, leaf);
    }
  }

  lemma {:induction false} InsertAfterEnd(f: Forest, leaf: Forest)
    requires f.Cons? && Distinct(f) && leaf.Cons? && leaf.sibs.Nil?
    ensures InsertAfter(f, Last(f), leaf) == Concat(f, leaf)
  {
    if f.sibs.Nil? {
    } else {
      LastIn(f.sibs);
      InsertAfterEnd(f.sibs, leaf);
      AbsentInsertAfter(f.kids, Last(f), leaf);
    }
  }

  lemma {:induction false} InsertFirstIsGraft(f: Forest, p: nat, leaf: Forest)
    requires p in Ids(f) && Distinct(f) && leaf.Cons? && leaf.sibs.Nil?
    requires At(f, p).kids.Nil?
    ensures InsertFirst(f, p, leaf) == Graft(f, p, leaf)
  {
    if f.id == p {
    } else if p in Ids(f.kids) {
      InsertFirstIsGraft(f.kids, p, leaf);
      AbsentGraft(f.sibs, p, leaf);
      AbsentInsertFirst(f.sibs, p, leaf);
    } else {
      InsertFirstIsGraft(f.sibs, p, leaf);
      AbsentGraft(f.kids, p, leaf);
      AbsentInsertFirst(f.kids, p, leaf);
    }
  }

  // ----- the leftmost leaf -----

  /** Where a walk along first children ends. */
  function LeafId(f: Forest): nat
    requires f.Cons?
  {
    if f.kids.Nil? then f.id else LeafId(f.kids)
  }

  /** `p` lies on the walk along first children that starts at the head of `g`. */
  predicate OnSpine(g: Forest, p: nat) {
    g.Cons? && (g.id == p || OnSpine(g.kids, p))
  }

  lemma {:induction false} LeafIn(f: Forest)
    requires f.Cons?
    ensures LeafId(f) in Ids(f)
  {
    if f.kids.Cons? { LeafIn(f.kids); }
  }

  /** Removing the leftmost leaf removes the first node of the post-order. */
  lemma {:induction false} PostLeaf(f: Forest)
    requires f.Cons? && Distinct(f)
    ensures Post(f) == [LeafId(f)] + Post(Cut(f, LeafId(f)))
    ensures LeafId(f) in Ids(f) && At(f, LeafId(f)).kids.Nil?
  {
    if f.kids.Cons? {
      LeafIn(f.kids);
      PostLeaf(f.kids);
      AbsentCut(f.sibs, LeafId(f));
    }
  }

  /** The parent of the leftmost leaf is on the spine, and stays there when the leaf goes. */
  lemma {:induction false} LeafParent(g: Forest, q: nat)
    requires g.Cons? && g.kids.Cons? && Distinct(g)
    ensures LeafId(g.kids) in Ids(g.kids)
    ensures OnSpine(g, Parent(g.kids, LeafId(g.kids), g.id))
    ensures OnSpine(g.(kids := Cut(g.kids, LeafId(g.kids))), Parent(g.kids, LeafId(g.kids), g.id))
  {
    LeafIn(g.kids);
    if g.kids.kids.Cons? {
      LeafIn(g.kids.kids);
      LeafParent(g.kids, g.id);
    }
  }

  /** What is below a node is found below it. */
  lemma {:induction false} Below(f: Forest, q: nat, id: nat, l: nat)
    requires id in Ids(f) && Distinct(f) && l in Ids(At(f, id).kids)
    ensures l in Ids(f) && l != id && At(f, l) == At(At(f, id).kids, l)
    ensures Parent(f, l, q) == Parent(At(f, id).kids, l, id)
  {
    if f.id == id {
    } else if id in Ids(f.kids) {
      AtIds(f.kids, id);
      Below(f.kids, f.id, id, l);
    } else {
      AtIds(f.sibs, id);
      Below(f.sibs, q, id, l);
    }
  }

  /** Cutting below a node leaves the node in place, and cutting the node later takes the rest. */
  lemma {:induction false} CutBelow(f: Forest, q: nat, id: nat, l: nat)
    requires id in Ids(f) && Distinct(f) && l in Ids(At(f, id).kids)
    ensures id in Ids(Cut(f, l))
    ensures At(Cut(f, l), id) == At(f, id).(kids := Cut(At(f, id).kids, l))
    ensures Parent(Cut(f, l), id, q) == Parent(f, id, q)
    ensures Cut(Cut(f, l), id) == Cut(f, id)
  {
    if f.id == id {
      AbsentCut(f.sibs, l);
    } else if id in Ids(f.kids) {
      AtIds(f.kids, id);
      CutBelow(f.kids, f.id, id, l);
      AbsentCut(f.sibs, l);
      CutIds(f.kids, l);
    } else {
      AtIds(f.sibs, id);
      CutBelow(f.sibs, q, id, l);
      AbsentCut(f.kids, l);
    }
  }

  /** The walk along first children from any node on the spine ends at the same leaf. */
  lemma {:induction false} SpineLeaf(g: Forest, p: nat)
    requires OnSpine(g, p) && Distinct(g)
    ensures p in Ids(g)
    ensures At(g, p).kids.Cons? ==> g.kids.Cons? && LeafId(At(g, p).kids) == LeafId(g.kids)
  {
    if g.id != p {
      SpineLeaf(g.kids, p);
    }
  }

  /** A node on the spine of a branch, seen from the whole forest. */
  lemma {:induction false} SpineAt(f: Forest, id: nat, p: nat)
    requires id in Ids(f) && Distinct(f) && OnSpine(At(f, id), p)
    ensures p in Ids(f)
    ensures At(f, p).kids.Cons? ==> At(f, id).kids.Cons? && LeafId(At(f, p).kids) == LeafId(At(f, id).kids)
  {
    AtIds(f, id);
    SpineLeaf(At(f, id), p);
    if p != id {
      SpineLeaf(At(f, id).kids, p);
      Below(f, NONE, id, p);
    }
  }
}
