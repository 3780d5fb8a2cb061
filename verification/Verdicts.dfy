/** What the edits of src/jes.c answer, and what their success depends on: on the tree, the keys that
    can be found and the slots that are free. */
module Verdicts {
  import opened Codes
  import opened Forests
  import opened Pool
  import opened Shapes
  import opened KeyIndex
  import opened Machine
  import opened Tree
  import opened Api
  import opened Children
  import opened Paths

  // ----- deletion -----

  /** The nodes of the branch at `id`. */
  function Branch(f: Forest, id: nat): set<nat>
    requires id in Ids(f)
  {
    {id} + Ids(At(f, id).kids)
  }

  /** The keys that can still be found when the branch is gone: those outside it, and of those that a
      table lists only the ones whose names no key of the branch has in the same object. */
  ghost predicate StillFound(d: Doc, id: nat, r: KeyRef)
    requires id in Ids(d.forest)
  {
    && r in Findable(d) && r.id !in Branch(d.forest, id)
    && (d.index.Listed? ==>
          forall s :: s in KeyRefs(d.forest, NONE) && s.id in Branch(d.forest, id) ==> !Goes(s, r.parent, r.text))
  }

  /** The node as it is when `id` is no longer among its children. */
  function SpotWithout(f: Forest, x: nat, id: nat): Spot
    requires x in Ids(f) && id in Ids(f)
  {
    var spot := SpotAt(f, x);
    if x == Parent(f, id, NONE) then spot.(children := Without(spot.children, id)) else spot
  }

  /** Exactly the branch is gone: its parent has one child less, all other nodes are as before. */
  ghost predicate BranchGone(d: Doc, id: nat, e: Doc)
    requires id in Ids(d.forest)
  {
    var f, g := d.forest, e.forest;
    && Ids(g) == Ids(f) - Branch(f, id) && Size(f) == Size(g) + 1 + Size(At(f, id).kids)
    && (forall x :: x in Ids(g) ==> x in Ids(f) && SpotAt(g, x) == SpotWithout(f, x, id))
    && (forall r :: r in Findable(e) <==> StillFound(d, id, r))
  }

  lemma {:induction false} RefsCut(f: Forest, q: nat, id: nat)
    requires Distinct(f) && id in Ids(f)
    ensures KeyRefs(Cut(f, id), q) == set r | r in KeyRefs(f, q) && r.id !in Branch(f, id)
  {
    forall r | r in KeyRefs(f.sibs, q) ensures r.id in Ids(f.sibs) { KeyRefIds(f.sibs, q, r); }
    forall r | r in KeyRefs(f.kids, f.id) ensures r.id in Ids(f.kids) { KeyRefIds(f.kids, f.id, r); }
    if f.id == id {
    } else if id in Ids(f.kids) {
      AbsentCut(f.sibs, id);
      AtIds(f.kids, id);
      RefsCut(f.kids, f.id, id);
    } else {
      AbsentCut(f.kids, id);
      AtIds(f.sibs, id);
      RefsCut(f.sibs, q, id);
    }
  }

  lemma FoundAfter(d: Doc, id: nat)
    requires Sound(d) && id in Ids(d.forest) && id != Head(d.forest)
    ensures forall r :: r in Findable(Deleted(d, id)) <==> StillFound(d, id, r)
  {
    RefsCut(d.forest, NONE, id);
    var refs, rest := KeyRefs(d.forest, NONE), KeyRefs(Cut(d.forest, id), NONE);
    if d.index.Listed? {
      forall r ensures r in Struck(d.index.refs, refs - rest) <==> StillFound(d, id, r) {
        if r in d.index.refs && r in refs - rest { assert Goes(r, r.parent, r.text); }
      }
    }
  }

  /** jes_delete_element on NULL or on any node but the root. */
  lemma ElementDeleted(d: Doc, id: nat)
    requires Sound(d) && (id == NONE || (id in Ids(d.forest) && id != Head(d.forest)))
    ensures var r := DeletedElement(d, id);
      && r.node == NONE && r.status == (if id == NONE then InvalidParameter else NoError)
      && if id == NONE then r.doc == d
         else BranchGone(d, id, r.doc) && Sound(r.doc) && (Regular(d) ==> Regular(r.doc))
  {
    if id != NONE {
      CutIds(d.forest, id);
      CutSize(d.forest, id);
      FoundAfter(d, id);
      DeletedSound(d, id);
      if Regular(d) { RegularDeleted(d, id); }
      forall x | x in Ids(Deleted(d, id).forest)
        ensures x in Ids(d.forest) && SpotAt(Deleted(d, id).forest, x) == SpotWithout(d.forest, x, id)
      { DeleteTakesBranch(d, id, x); }
    }
  }

  // ----- new keys -----

  /** A key of this name can be found in the object. */
  ghost predicate Taken(d: Doc, obj: nat, name: string) {
    exists e: nat :: e != NONE && KeyRef(obj, e, name) in Findable(d)
  }

  /** The answer to putting a key of this name into the object. A key for which a table has no room
      is in the tree all the same, but cannot be found. */
  ghost predicate KeyAnswer(d: Doc, obj: nat, name: string, cap: nat, r: Outcome) {
    && r.status == (if Taken(d, obj, name) then DuplicateKey
                    else if Size(d.forest) >= cap || NoRoom(d.index) then OutOfMemory else NoError)
    && (r.node != NONE <==> !Taken(d, obj, name) && Size(d.forest) < cap)
    && (r.node == NONE ==> r.doc == d)
    && (r.node == NONE || NoRoom(d.index) ==> Findable(r.doc) == Findable(d))
    && (r.node != NONE && !NoRoom(d.index) ==> Findable(r.doc) == Findable(d) + {KeyRef(obj, r.node, name)})
  }

  lemma FoundIsTaken(d: Doc, obj: nat, name: string)
    requires Searchable(d)
    ensures Found(d, obj, name) != NONE <==> Taken(d, obj, name)
  {
    if Found(d, obj, name) != NONE { FoundIsFindable(d, obj, name, Found(d, obj, name)); }
    if e: nat :| e != NONE && KeyRef(obj, e, name) in Findable(d) { FoundIsFindable(d, obj, name, e); }
  }

  lemma KeyAnswered(d: Doc, obj: nat, a: nat, name: string, cap: nat)
    requires Searchable(d) && d.next <= cap < NONE && KeyPlace(d.forest, obj, a)
    ensures KeyAnswer(d, obj, name, cap, PutKey(d, obj, a, name, cap))
  {
    hide Nested, Slots, KeyRefs, Found, Ids, Size, InsertFirst, InsertAfter, At, Taken;
    FoundIsTaken(d, obj, name);
    FirstFree(d);
    if Size(d.forest) < cap { KeyInserted(d, obj, a, name); }
  }

  lemma KeyInserted(d: Doc, obj: nat, a: nat, name: string)
    requires Sound(d) && NewId(d) != NONE && KeyPlace(d.forest, obj, a)
    ensures KeyRefs(Inserted(d, obj, a, Key, name).forest, NONE)
         == KeyRefs(d.forest, NONE) + {KeyRef(obj, NewId(d), name)}
  {
    InsertedNest(d, obj, a, Key, name);
  }

  /** jes_add_key_before and jes_add_key_after: the name itself is not checked. */
  lemma KeyBesideAnswered(d: Doc, key: nat, keyword: string, cap: nat)
    requires Searchable(d) && d.next <= cap < NONE
    ensures var f, before, after := d.forest, AddedKeyBefore(d, key, keyword, cap), AddedKeyAfter(d, key, keyword, cap);
      if KindAt(f, key) != Key then
        before == after == Refused(d, InvalidParameter)
      else
        && KeyAnswer(d, Parent(f, key, NONE), Clip(keyword), cap, before)
        && KeyAnswer(d, Parent(f, key, NONE), Clip(keyword), cap, after)
  {
    if KindAt(d.forest, key) == Key {
      BeforePlace(d.forest, key);
      KeyAnswered(d, Parent(d.forest, key, NONE), Prev(d.forest, key, NONE), Clip(keyword), cap);
      KeyAnswered(d, Parent(d.forest, key, NONE), key, Clip(keyword), cap);
    }
  }

  /** The key has no value, and the call has to make it an object. */
  ghost predicate Makes(f: Forest, parent: nat) { KindAt(f, parent) == Key && ChildrenOf(f, parent) == [] }

  /** Making the object and putting the key into it takes two slots. With one, the object stays. */
  ghost predicate MadeAnswer(d: Doc, parent: nat, name: string, cap: nat, r: Outcome) {
    && r.status == (if Size(d.forest) + 2 > cap || NoRoom(d.index) then OutOfMemory else NoError)
    && (r.node != NONE <==> Size(d.forest) + 2 <= cap)
    && (Size(d.forest) >= cap ==> r.doc == d)
    && (r.node == NONE || NoRoom(d.index) ==> Findable(r.doc) == Findable(d))
    && (r.node != NONE && !NoRoom(d.index) ==> Findable(r.doc) == Findable(d) + {KeyRef(NewId(d), r.node, name)})
  }

  /** The object is made, and the key is put into it. */
  lemma BothMade(d: Doc, parent: nat, name: string)
    requires Sound(d) && KindAt(d.forest, parent) == Key && KidsAt(d.forest, parent).Nil?
    requires NewId(d) != NONE
    ensures var o, obj := Inserted(d, parent, NONE, Object, "{"), NewId(d);
      && Size(o.forest) == Size(d.forest) + 1 && KeyRefs(o.forest, NONE) == KeyRefs(d.forest, NONE)
      && Found(o, obj, name) == NONE && Sound(o)
      && var put := Inserted(o, obj, NONE, Key, name).forest;
         NewId(o) != NONE ==> KeyRefs(put, NONE) == KeyRefs(d.forest, NONE) + {KeyRef(obj, NewId(o), name)}
  {
    ObjectMade(d, parent);
    NothingInNew(d, parent);
    ValueSound(d, parent, NONE, Object, "{");
    var o, obj := Inserted(d, parent, NONE, Object, "{"), NewId(d);
    hide Sound, Inserted, KeyRefs, Found, SpotAt, OthersKept;
    assert Found(o, obj, name) == NONE;
    if NewId(o) != NONE { KeyInserted(o, obj, NONE, name); }
  }

  lemma SlotTaken(d: Doc, cap: nat)
    requires Sound(d) && d.next <= cap && Size(d.forest) < cap
    ensures NextRest(d) <= cap
  {
  }

  lemma MadeAnswered(d: Doc, parent: nat, keyword: string, cap: nat)
    requires Searchable(d) && d.next <= cap < NONE && KindAt(d.forest, parent) == Key
    requires KidsAt(d.forest, parent).Nil? && keyword != ""
    ensures MadeAnswer(d, parent, Clip(keyword), cap, AddedKey(d, parent, keyword, true, cap))
  {
    hide Nested, Slots, KeyRefs, Found, Ids, Size, InsertFirst, Clip;
    var name := Clip(keyword);
    FirstFree(d);
    if Size(d.forest) < cap {
      SlotTaken(d, cap);
      var o := Inserted(d, parent, NONE, Object, "{");
      BothMade(d, parent, name);
      if Size(d.forest) + 1 < cap {
        FirstFree(o);
      }
    }
  }

  lemma NoValue(f: Forest, parent: nat)
    ensures ChildrenOf(f, parent) == [] <==> KidsAt(f, parent).Nil?
  {
  }

  /** Names that jes_add_key does not take, and parents below which it puts nothing. */
  predicate Rejects(f: Forest, parent: nat, keyword: string, accepted: bool) {
    (KindAt(f, parent) != Object && KindAt(f, parent) != Key) || keyword == "" || !accepted
  }

  /** What jes_add_key answers. */
  lemma AddKeyAnswered(d: Doc, parent: nat, keyword: string, accepted: bool, cap: nat, o: nat)
    requires Searchable(d) && d.next <= cap < NONE
    ensures var r, f := AddedKey(d, parent, keyword, accepted, cap), d.forest;
      if Rejects(f, parent, keyword, accepted) then r == Refused(d, InvalidParameter)
      else if Makes(f, parent) then MadeAnswer(d, parent, Clip(keyword), cap, r)
      else Within(f, parent, o) ==>
        if KindAt(f, o) == Object then KeyAnswer(d, o, Clip(keyword), cap, r)
        else r == Refused(d, UnexpectedElement)
  {
    var f := d.forest;
    if !Rejects(f, parent, keyword, accepted) {
      if Makes(f, parent) {
        NoValue(f, parent);
        MadeAnswered(d, parent, keyword, cap);
      } else if Within(f, parent, o) {
        ObjectAnswered(d, parent, keyword, accepted, cap, o);
      }
    }
  }

  lemma ObjectAnswered(d: Doc, parent: nat, keyword: string, accepted: bool, cap: nat, o: nat)
    requires Searchable(d) && d.next <= cap < NONE && !Rejects(d.forest, parent, keyword, accepted)
    requires !Makes(d.forest, parent) && Within(d.forest, parent, o)
    ensures var r := AddedKey(d, parent, keyword, accepted, cap);
      if KindAt(d.forest, o) == Object then KeyAnswer(d, o, Clip(keyword), cap, r)
      else r == Refused(d, UnexpectedElement)
  {
    var f := d.forest;
    NoValue(f, parent);
    WithinScope(f, parent, o);
    if KindAt(f, parent) == Key { FirstChild(f, parent); }
    if KindAt(f, o) == Object {
      LastPlace(f, o);
      KeyAnswered(d, o, Last(KidsAt(f, o)), Clip(keyword), cap);
    }
  }

  /** When jes_add_key adds a key: the name is neither empty nor rejected, the object is there or can
      be made, no key of the name can be found in it, and the slots are free. */
  lemma AddKeyTaken(d: Doc, parent: nat, keyword: string, accepted: bool, cap: nat)
    requires Searchable(d) && d.next <= cap < NONE
    ensures var f, name := d.forest, Clip(keyword);
      AddedKey(d, parent, keyword, accepted, cap).node != NONE <==>
        && keyword != "" && accepted
        && ((Makes(f, parent) && Size(f) + 2 <= cap)
            || (exists o: nat :: Within(f, parent, o) && KindAt(f, o) == Object && !Taken(d, o, name) && Size(f) < cap))
  {
    var f, o := d.forest, Scope(d.forest, parent);
    ScopeWithin(f, parent);
    AddKeyAnswered(d, parent, keyword, accepted, cap, o);
    hide AddedKey, Searchable, Scope, Makes, Within, Taken, Clip, Size, KindAt;
  }

  /** The scope is the one object there can be for a new key, if there is one yet. */
  lemma ScopeWithin(f: Forest, parent: nat)
    requires Nested(f, Unknown) && Distinct(f) && NONE !in Ids(f)
    ensures KindAt(f, parent) == Object ==> Within(f, parent, Scope(f, parent))
    ensures KindAt(f, parent) == Key ==> Makes(f, parent) || Within(f, parent, Scope(f, parent))
    ensures Makes(f, parent) ==> forall o: nat :: !Within(f, parent, o)
    ensures forall o: nat :: Within(f, parent, o) ==> o == Scope(f, parent)
    ensures KindAt(f, parent) != Object && KindAt(f, parent) != Key ==>
        forall o: nat :: Within(f, parent, o) ==> KindAt(f, o) != Object
  {
    NoValue(f, parent);
    if KindAt(f, parent) == Key && KidsAt(f, parent).Cons? { FirstChild(f, parent); }
    forall o: nat ensures Within(f, parent, o) ==> o == Scope(f, parent) { WithinScope(f, parent, o); }
    WithinScope(f, parent, Scope(f, parent));
  }
}
