/** How an array of linked cells represents a forest, and how the link updates of
    src/jes_tree.c move from one represented forest to the next. */
module Pool {
  import opened Forests

  /** struct jes_node; `next` is struct jes_freed_node, kept in a field of its own. */
  datatype Cell = Cell(kind: Kind, text: string, parent: nat, sibling: nat, first: nat, last: nat, next: nat)

  ghost predicate Matches(c: Cell, f: Forest, q: nat)
    requires f.Cons?
  {
    && c.kind == f.kind && c.text == f.text && c.parent == q
    && c.sibling == Head(f.sibs) && c.first == Head(f.kids) && c.last == Last(f.kids)
  }

  /** The cells hold forest `f`, whose top nodes have parent index `q`. */
  ghost predicate Rep(cells: seq<Cell>, f: Forest, q: nat) {
    f.Cons? ==>
      && f.id < |cells| && Matches(cells[f.id], f, q)
      && Rep(cells, f.kids, f.id) && Rep(cells, f.sibs, q)
  }

  lemma RepFrame(old_: seq<Cell>, new_: seq<Cell>, f: Forest, q: nat)
    requires Rep(old_, f, q) && |new_| == |old_|
    requires forall i :: i in Ids(f) && i < |old_| ==> new_[i] == old_[i]
    ensures Rep(new_, f, q)
  {
  }

  /** Reading a cell tells what the forest looks like around that node. */
  lemma {:induction false} RepAt(cells: seq<Cell>, f: Forest, q: nat, id: nat)
    requires Rep(cells, f, q) && id in Ids(f)
    ensures id < |cells| && Matches(cells[id], At(f, id), Parent(f, id, q))
    ensures Rep(cells, At(f, id), Parent(f, id, q))
  {
    if f.id == id {
    } else if id in Ids(f.kids) {
      RepAt(cells, f.kids, f.id, id);
    } else {
      RepAt(cells, f.sibs, q, id);
    }
  }

  lemma RepBound(cells: seq<Cell>, f: Forest, q: nat)
    requires Rep(cells, f, q)
    ensures forall i :: i in Ids(f) ==> i < |cells|
  {
  }

  // ----- insertion -----

  lemma {:induction false} LastInsertAfter(f: Forest, q: nat, a: nat, leaf: Forest)
    requires f.Cons? && Distinct(f) && leaf.Cons? && a in Ids(f)
    ensures Last(InsertAfter(f, a, leaf)) == if Last(f) == a then Last(leaf.(sibs := Nil)) else Last(f)
    ensures Head(InsertAfter(f, a, leaf)) == Head(f)
    ensures Last(f) == a ==> Parent(f, a, q) == q
  {
    if f.id == a {
      if f.sibs.Cons? { LastIn(f.sibs); }
    } else if a in Ids(f.kids) {
      AbsentInsertAfter(f.sibs, a, leaf);
      if f.sibs.Cons? { LastIn(f.sibs); }
    } else {
      LastInsertAfter(f.sibs, q, a, leaf);
      assert InsertAfter(f, a, leaf).sibs.Cons?;
    }
  }

  lemma {:induction false} InsertAfterRep(old_: seq<Cell>, new_: seq<Cell>, f: Forest, q: nat, a: nat, n: nat,
      kind: Kind, text: string)
    requires Rep(old_, f, q) && Distinct(f) && q !in Ids(f)
    requires a in Ids(f) && n !in Ids(f) && n != q
    requires |new_| == |old_| && n < |new_| && a < |old_|
    requires forall i :: i in Ids(f) && i < |old_| && i != a && i != Parent(f, a, q) ==> new_[i] == old_[i]
    requires new_[a] == old_[a].(sibling := n)
    requires var p := Parent(f, a, q); p in Ids(f) ==> (
               p < |old_| && new_[p] == old_[p].(last := if old_[p].last == a then n else old_[p].last))
    requires Matches(new_[n], Cons(n, kind, text, Nil, At(f, a).sibs), Parent(f, a, q))
    ensures Rep(new_, InsertAfter(f, a, Leaf(n, kind, text)), q)
  {
    var leaf := Leaf(n, kind, text);
    ParentFact(f, a, q);
    if f.id == a {
      RepFrame(old_, new_, f.kids, f.id);
      RepFrame(old_, new_, f.sibs, q);
      assert Rep(new_, leaf.(sibs := f.sibs), q);
    } else if a in Ids(f.kids) {
      ParentFact(f.kids, a, f.id);
      InsertAfterRep(old_, new_, f.kids, f.id, a, n, kind, text);
      LastInsertAfter(f.kids, f.id, a, leaf);
      RepFrame(old_, new_, f.sibs, q);
      AbsentInsertAfter(f.sibs, a, leaf);
    } else {
      ParentFact(f.sibs, a, q);
      InsertAfterRep(old_, new_, f.sibs, q, a, n, kind, text);
      LastInsertAfter(f.sibs, q, a, leaf);
      RepFrame(old_, new_, f.kids, f.id);
      AbsentInsertAfter(f.kids, a, leaf);
    }
  }

  lemma {:induction false} InsertFirstRep(old_: seq<Cell>, new_: seq<Cell>, f: Forest, q: nat, p: nat, n: nat,
      kind: Kind, text: string)
    requires Rep(old_, f, q) && Distinct(f) && q !in Ids(f)
    requires p in Ids(f) && n !in Ids(f) && n != q
    requires |new_| == |old_| && n < |new_| && p < |old_|
    requires forall i :: i in Ids(f) && i < |old_| && i != p ==> new_[i] == old_[i]
    requires var kids := At(f, p).kids;
             && new_[p] == old_[p].(first := n, last := if kids.Nil? then n else old_[p].last)
             && Matches(new_[n], Cons(n, kind, text, Nil, kids), p)
    ensures Rep(new_, InsertFirst(f, p, Leaf(n, kind, text)), q)
  {
    var leaf := Leaf(n, kind, text);
    if f.id == p {
      RepFrame(old_, new_, f.kids, f.id);
      RepFrame(old_, new_, f.sibs, q);
      assert Rep(new_, leaf.(sibs := f.kids), p);
    } else if p in Ids(f.kids) {
      InsertFirstRep(old_, new_, f.kids, f.id, p, n, kind, text);
      TopUnmoved(f.kids, p, leaf);
      RepFrame(old_, new_, f.sibs, q);
      AbsentInsertFirst(f.sibs, p, leaf);
    } else {
      InsertFirstRep(old_, new_, f.sibs, q, p, n, kind, text);
      TopUnmoved(f.sibs, p, leaf);
      RepFrame(old_, new_, f.kids, f.id);
      AbsentInsertFirst(f.kids, p, leaf);
    }
  }

  lemma TopUnmoved(f: Forest, p: nat, leaf: Forest)
    requires leaf.Cons?
    ensures Head(InsertFirst(f, p, leaf)) == Head(f) && Last(InsertFirst(f, p, leaf)) == Last(f)
  {
  }

  // ----- removal -----

  /** The sibling on the left of node `id` in a chain whose left neighbour is `b`. */
  function Prev(f: Forest, id: nat, b: nat): nat
    requires id in Ids(f)
  {
    if f.id == id then b
    else if id in Ids(f.kids) then Prev(f.kids, id, NONE)
    else Prev(f.sibs, id, f.id)
  }


  ghost function LastOr(f: Forest, b: nat): nat { if f.Nil? then b else Last(f) }

  lemma {:induction false} PrevFact(f: Forest, id: nat, b: nat)
    requires id in Ids(f) && Distinct(f) && b !in Ids(f) && NONE !in Ids(f)
    ensures Prev(f, id, b) != id && Prev(f, id, b) in Ids(f) + {b, NONE}
    ensures f.id != id && b != NONE ==> Prev(f, id, b) != b
  {
    if f.id == id {
    } else if id in Ids(f.kids) {
      PrevFact(f.kids, id, NONE);
    } else {
      PrevFact(f.sibs, id, f.id);
    }
  }

  lemma {:induction false} PrevBelow(f: Forest, id: nat, l: nat, b: nat)
    requires id in Ids(f) && Distinct(f) && l in Ids(At(f, id).kids)
    ensures l in Ids(f) && Prev(f, l, b) == Prev(At(f, id).kids, l, NONE)
  {
    if f.id == id {
    } else if id in Ids(f.kids) {
      AtIds(f.kids, id);
      PrevBelow(f.kids, id, l, NONE);
    } else {
      AtIds(f.sibs, id);
      PrevBelow(f.sibs, id, l, f.id);
    }
  }

  /** The leftmost leaf has no left sibling. */
  lemma {:induction false} LeafPrev(f: Forest)
    requires f.Cons? && Distinct(f)
    ensures LeafId(f) in Ids(f) && Prev(f, LeafId(f), NONE) == NONE
  {
    LeafIn(f);
    if f.kids.Cons? {
      LeafIn(f.kids);
      LeafPrev(f.kids);
    }
  }

  /** What a removal does to the two ends of a sibling chain. */
  lemma {:induction false} CutTop(f: Forest, q: nat, id: nat, b: nat)
    requires id in Ids(f) && Distinct(f) && q !in Ids(f) && b !in Ids(f) && NONE !in Ids(f)
    ensures Head(Cut(f, id)) == if f.id == id then Head(f.sibs) else Head(f)
    ensures Parent(f, id, q) == q ==>
              && LastOr(Cut(f, id), b) == (if Last(f) == id then Prev(f, id, b) else Last(f))
              && (f.id != id ==> Prev(f, id, b) in Ids(f))
    ensures Parent(f, id, q) != q ==> f.id != id && Last(f) != id && LastOr(Cut(f, id), b) == Last(f)
  {
    if f.id == id {
      if f.sibs.Cons? { LastIn(f.sibs); }
    } else if id in Ids(f.kids) {
      ParentFact(f.kids, id, f.id);
      AbsentCut(f.sibs, id);
      if f.sibs.Cons? { LastIn(f.sibs); }
    } else {
      CutTop(f.sibs, q, id, f.id);
      PrevFact(f.sibs, id, f.id);
    }
  }

  /** The two cells that unlinking `id` rewrites: its left sibling, or nothing, and its parent. */
  ghost predicate Unlinked(old_: seq<Cell>, new_: seq<Cell>, id: nat, p: nat, l: nat)
    requires id < |old_| && |new_| == |old_|
  {
    && (l < |old_| ==> new_[l] == old_[l].(sibling := old_[id].sibling))
    && (p < |old_| ==> new_[p] == old_[p].(first := if l == NONE then old_[id].sibling else old_[p].first,
                                          last := if old_[p].last == id then l else old_[p].last))
  }

  /** A cut below, or to the right of, a node whose cell is right. */
  lemma CutBelowRep(cells: seq<Cell>, f: Forest, q: nat, id: nat)
    requires f.Cons? && f.id != id && id !in Ids(f.sibs) && f.id < |cells| && Matches(cells[f.id], Cut(f, id), q)
    requires Rep(cells, Cut(f.kids, id), f.id) && Rep(cells, f.sibs, q)
    ensures Rep(cells, Cut(f, id), q)
  {
    AbsentCut(f.sibs, id);
  }

  lemma CutRightRep(cells: seq<Cell>, f: Forest, q: nat, id: nat)
    requires f.Cons? && f.id != id && id !in Ids(f.kids) && f.id < |cells| && Matches(cells[f.id], Cut(f, id), q)
    requires Rep(cells, f.kids, f.id) && Rep(cells, Cut(f.sibs, id), q)
    ensures Rep(cells, Cut(f, id), q)
  {
    AbsentCut(f.kids, id);
  }

  /** Unlinking `id` from its left sibling, or from its parent when it comes first. */
  lemma {:induction false} CutRep(old_: seq<Cell>, new_: seq<Cell>, f: Forest, q: nat, id: nat, b: nat)
    requires Rep(old_, f, q) && Distinct(f) && q !in Ids(f) && b !in Ids(f) && NONE !in Ids(f)
    requires id in Ids(f) && id < |old_| && |new_| == |old_|
    requires forall i | i in Ids(f) && i < |old_| && i != id && i !in Ids(At(f, id).kids)
               && i != Parent(f, id, q) && i != Prev(f, id, b) :: new_[i] == old_[i]
    requires Unlinked(old_, new_, id, Parent(f, id, q), Prev(f, id, b))
    ensures Rep(new_, Cut(f, id), q)
  {
    hide Unlinked, Matches;
    if f.id == id {
      RepFrame(old_, new_, f.sibs, q);
    } else if id in Ids(f.kids) {
      AtIds(f.kids, id);
      ParentFact(f.kids, id, f.id);
      PrevFact(f.kids, id, NONE);
      CutRep(old_, new_, f.kids, f.id, id, NONE);
      CutCellAbove(old_, new_, f, q, id, b);
      RepFrame(old_, new_, f.sibs, q);
      CutBelowRep(new_, f, q, id);
    } else {
      AtIds(f.sibs, id);
      ParentFact(f.sibs, id, q);
      PrevFact(f.sibs, id, f.id);
      CutRep(old_, new_, f.sibs, q, id, f.id);
      CutCellLeft(old_, new_, f, q, id, b);
      RepFrame(old_, new_, f.kids, f.id);
      CutRightRep(new_, f, q, id);
    }
  }

  lemma {:induction false} CutCellAbove(old_: seq<Cell>, new_: seq<Cell>, f: Forest, q: nat, id: nat, b: nat)
    requires Rep(old_, f, q) && Distinct(f) && NONE !in Ids(f)
    requires id in Ids(f) && id in Ids(f.kids) && id < |old_| && |new_| == |old_|
    requires f.id != Parent(f, id, q) ==> new_[f.id] == old_[f.id]
    requires Unlinked(old_, new_, id, Parent(f, id, q), Prev(f, id, b))
    ensures Matches(new_[f.id], Cut(f, id), q)
  {
    AbsentCut(f.sibs, id);
    CutTop(f.kids, f.id, id, NONE);
    RepAt(old_, f.kids, f.id, id);
    var p, l := Parent(f, id, q), Prev(f, id, b);
    if f.id == p {
      assert new_[p].first == if l == NONE then old_[id].sibling else old_[p].first;
      if f.kids.id == id {
        assert l == Prev(f.kids, id, NONE) == NONE;
        assert At(f.kids, id) == f.kids;
      } else {
        assert l != NONE;
        assert Head(Cut(f.kids, id)) == Head(f.kids);
      }
    } else {
      assert Head(Cut(f.kids, id)) == Head(f.kids);
    }
  }

  lemma {:induction false} CutCellLeft(old_: seq<Cell>, new_: seq<Cell>, f: Forest, q: nat, id: nat, b: nat)
    requires Rep(old_, f, q) && Distinct(f) && q !in Ids(f) && NONE !in Ids(f)
    requires f.Cons? && id in Ids(f.sibs) && id < |old_| && |new_| == |old_|
    requires f.id != Prev(f, id, b) ==> new_[f.id] == old_[f.id]
    requires Unlinked(old_, new_, id, Parent(f, id, q), Prev(f, id, b))
    ensures Matches(new_[f.id], Cut(f, id), q)
  {
    AbsentCut(f.kids, id);
    CutTop(f.sibs, q, id, f.id);
    PrevFact(f.sibs, id, f.id);
    RepAt(old_, f.sibs, q, id);
  }
}
