/** When the hash table is a faithful index of a set of keys. */
module KeyIndex {
  import opened Forests
  import opened Pool
  import opened Shapes
  import opened HashTable
  import opened Fnv

  /** Every listed key has one table entry, hashed from its parent and name, and nothing else has. */
  ghost predicate Indexed(slots: seq<Slot>, refs: set<KeyRef>, h: KeyHasher) {
    && (forall r | r in refs :: r.parent < 0x1_0000 && HasSlot(slots, h(r.parent, r.text), r.id))
    && (forall i | 0 <= i < |slots| && slots[i].Live? :: HasRef(refs, h, slots[i].hash, slots[i].elem))
  }

  ghost predicate HasSlot(slots: seq<Slot>, hash: nat, elem: nat) {
    exists i :: 0 <= i < |slots| && slots[i] == Live(hash, elem)
  }

  ghost predicate HasRef(refs: set<KeyRef>, h: KeyHasher, hash: nat, elem: nat) {
    exists r :: r in refs && h(r.parent, r.text) == hash && r.id == elem
  }

  ghost predicate TextsOk(cells: seq<Cell>, refs: set<KeyRef>) {
    forall r :: r in refs ==> r.id < |cells| && cells[r.id].text == r.text
  }

  /** The table indexes the keys `refs`, and its counter is their number. */
  ghost predicate IndexRep(slots: seq<Slot>, count: nat, cells: seq<Cell>, refs: set<KeyRef>, h: KeyHasher) {
    SlotsOk(slots, count, cells) && Indexed(slots, refs, h) && count == |refs|
  }

  // ----- names -----

  ghost predicate Goes(r: KeyRef, p: nat, text: string) { r.parent == p && r.text == text }

  /** The listed key of that parent and name. */
  ghost function Named(refs: set<KeyRef>, p: nat, text: string): nat {
    if r :| r in refs && Goes(r, p, text) then r.id else NONE
  }

  ghost predicate NameIn(refs: set<KeyRef>, r: KeyRef) { exists g :: g in refs && Goes(g, r.parent, r.text) }

  /** The keys whose names are not among `gone`. */
  ghost function Struck(refs: set<KeyRef>, gone: set<KeyRef>): set<KeyRef> {
    set r | r in refs && !NameIn(gone, r)
  }

  /** No two keys of one parent have the same name. */
  ghost predicate OneName(refs: set<KeyRef>) {
    forall r, s | r in refs && s in refs && Goes(s, r.parent, r.text) :: r == s
  }

  lemma NamedIs(refs: set<KeyRef>, p: nat, text: string, e: nat)
    requires OneName(refs) && e != NONE && KeyRef(p, e, text) in refs
    ensures Named(refs, p, text) == e
  {
    assert Goes(KeyRef(p, e, text), p, text);
    var r :| r in refs && Goes(r, p, text) && Named(refs, p, text) == r.id;
  }

  lemma NamedNone(refs: set<KeyRef>, p: nat, text: string)
    requires forall r :: r in refs ==> !Goes(r, p, text)
    ensures Named(refs, p, text) == NONE
  {
  }

  lemma NotNamed(refs: set<KeyRef>, p: nat, text: string)
    requires Named(refs, p, text) == NONE && forall r :: r in refs ==> r.id != NONE
    ensures forall r :: r in refs ==> !Goes(r, p, text)
  {
  }

  lemma NamedIn(refs: set<KeyRef>, p: nat, text: string)
    requires Named(refs, p, text) != NONE
    ensures KeyRef(p, Named(refs, p, text), text) in refs
  {
    var r :| r in refs && Goes(r, p, text) && Named(refs, p, text) == r.id;
    assert r == KeyRef(p, r.id, text);
  }

  /** Where every key is listed and names are distinct, a listed key is what the linear search finds. */
  lemma NamedIsFound(f: Forest, p: nat, text: string)
    requires Shaped(f, Unknown) && Distinct(f) && NONE !in Ids(f)
    ensures Named(KeyRefs(f, NONE), p, text) == FindKey(f, p, text)
  {
    var refs, e, k := KeyRefs(f, NONE), Named(KeyRefs(f, NONE), p, text), FindKey(f, p, text);
    if e != NONE {
      NamedIn(refs, p, text);
      FindKeyRef(f, p, text, e);
    } else if k != NONE {
      FindKeyRef(f, p, text, k);
      assert Goes(KeyRef(p, k, text), p, text);
      forall r | r in refs ensures r.id != NONE { KeyRefIds(f, NONE, r); }
      NotNamed(refs, p, text);
    }
  }

  lemma DistinctOneName(f: Forest)
    requires Shaped(f, Unknown) && Distinct(f) && NONE !in Ids(f)
    ensures OneName(KeyRefs(f, NONE))
  {
    forall r, s | r in KeyRefs(f, NONE) && s in KeyRefs(f, NONE) && Goes(s, r.parent, r.text) ensures r == s {
      KeyRefIds(f, NONE, r);
      KeyRefIds(f, NONE, s);
      assert r == KeyRef(r.parent, r.id, r.text) && s == KeyRef(r.parent, s.id, r.text);
      FindKeyRef(f, r.parent, r.text, r.id);
      FindKeyRef(f, r.parent, r.text, s.id);
    }
  }

  lemma StruckTwice(refs: set<KeyRef>, a: set<KeyRef>, b: set<KeyRef>)
    ensures Struck(Struck(refs, a), b) == Struck(refs, a + b)
  {
    forall r ensures NameIn(a + b, r) <==> NameIn(a, r) || NameIn(b, r) {
      if g :| g in a && Goes(g, r.parent, r.text) { assert g in a + b; }
      if g :| g in b && Goes(g, r.parent, r.text) { assert g in a + b; }
    }
  }

  lemma StruckNone(refs: set<KeyRef>)
    ensures Struck(refs, {}) == refs
  {
  }

  lemma StruckRest(refs: set<KeyRef>, gone: set<KeyRef>)
    requires OneName(refs) && gone <= refs
    ensures Struck(refs, gone) == refs - gone
  {
    forall r | r in refs ensures NameIn(gone, r) <==> r in gone {
      if r in gone { assert Goes(r, r.parent, r.text); }
      if g :| g in gone && Goes(g, r.parent, r.text) { assert g == r; }
    }
  }

  // ----- the table and its keys -----

  lemma RefTexts(cells: seq<Cell>, f: Forest, refs: set<KeyRef>)
    requires Rep(cells, f, NONE) && Distinct(f) && refs <= KeyRefs(f, NONE)
    ensures TextsOk(cells, refs)
  {
    forall r | r in refs ensures r.id < |cells| && cells[r.id].text == r.text {
      KeyRefAt(f, NONE, r);
      RepAt(cells, f, NONE, r.id);
    }
  }

  /** Two listed keys of one parent and name would share one entry. */
  lemma IndexedNames(slots: seq<Slot>, cells: seq<Cell>, refs: set<KeyRef>, h: KeyHasher)
    requires Indexed(slots, refs, h) && Unique(slots, cells) && TextsOk(cells, refs)
    ensures OneName(refs)
  {
    forall r, s | r in refs && s in refs && Goes(s, r.parent, r.text) ensures r == s {
      assert HasSlot(slots, h(r.parent, r.text), r.id) && HasSlot(slots, h(s.parent, s.text), s.id);
      var i :| 0 <= i < |slots| && slots[i] == Live(h(r.parent, r.text), r.id);
      var j :| 0 <= j < |slots| && slots[j] == Live(h(s.parent, s.text), s.id);
      assert i == j;
    }
  }

  lemma IndexNames(slots: seq<Slot>, count: nat, cells: seq<Cell>, f: Forest, refs: set<KeyRef>, h: KeyHasher)
    requires IndexRep(slots, count, cells, refs, h) && Rep(cells, f, NONE) && Distinct(f) && refs <= KeyRefs(f, NONE)
    ensures OneName(refs)
  {
    RefTexts(cells, f, refs);
    IndexedNames(slots, cells, refs, h);
  }

  /** A lookup answers with the listed key of that parent and name. The entries carry no parent:
      that the right object is meant rests on the hash being injective in it. */
  lemma IndexLookup(cells: seq<Cell>, slots: seq<Slot>, refs: set<KeyRef>, h: KeyHasher, p: nat, text: string, e: nat)
    requires Indexed(slots, refs, h) && Unique(slots, cells) && TextsOk(cells, refs)
    requires SeparatesParents(h) && p < 0x1_0000
    requires e == NONE <==> !Stored(slots, h(p, text), text, cells)
    requires e != NONE ==> HasSlot(slots, h(p, text), e) && TextOf(cells, e) == text
    ensures e == Named(refs, p, text)
  {
    if e != NONE {
      IndexedNames(slots, cells, refs, h);
      var i :| 0 <= i < |slots| && slots[i] == Live(h(p, text), e);
      assert HasRef(refs, h, slots[i].hash, slots[i].elem);
      var r :| r in refs && h(r.parent, r.text) == h(p, text) && r.id == e;
      assert r == KeyRef(p, e, text);
      NamedIs(refs, p, text, e);
    } else {
      forall r | r in refs ensures !Goes(r, p, text) {
        if Goes(r, p, text) { StoredKey(slots, cells, refs, h, r); }
      }
      NamedNone(refs, p, text);
    }
  }

  lemma SlotsFrame(slots: seq<Slot>, count: nat, cells: seq<Cell>, cells': seq<Cell>, refs: set<KeyRef>, h: KeyHasher)
    requires SlotsOk(slots, count, cells) && Indexed(slots, refs, h)
    requires TextsOk(cells, refs) && TextsOk(cells', refs)
    ensures SlotsOk(slots, count, cells')
  {
    forall i | 0 <= i < |slots| && slots[i].Live?
      ensures slots[i].elem < |cells'| && TextOf(cells', slots[i].elem) == TextOf(cells, slots[i].elem)
    {
      assert HasRef(refs, h, slots[i].hash, slots[i].elem);
    }
  }

  lemma NotStored(slots: seq<Slot>, cells: seq<Cell>, refs: set<KeyRef>, h: KeyHasher, p: nat, text: string)
    requires Indexed(slots, refs, h) && TextsOk(cells, refs) && SeparatesParents(h) && p < 0x1_0000
    requires forall r :: r in refs ==> !Goes(r, p, text)
    ensures !Stored(slots, h(p, text), text, cells)
  {
    forall i | 0 <= i < |slots| ensures !Match(slots[i], h(p, text), text, cells) {
      if slots[i].Live? {
        assert HasRef(refs, h, slots[i].hash, slots[i].elem);
      }
    }
  }

  lemma StoredKey(slots: seq<Slot>, cells: seq<Cell>, refs: set<KeyRef>, h: KeyHasher, r: KeyRef)
    requires Indexed(slots, refs, h) && TextsOk(cells, refs) && r in refs
    ensures Stored(slots, h(r.parent, r.text), r.text, cells)
  {
    assert HasSlot(slots, h(r.parent, r.text), r.id);
    var i :| 0 <= i < |slots| && slots[i] == Live(h(r.parent, r.text), r.id);
    assert Match(slots[i], h(r.parent, r.text), r.text, cells);
  }

  lemma IndexedAdd(slots: seq<Slot>, refs: set<KeyRef>, h: KeyHasher, at: nat, r: KeyRef)
    requires Indexed(slots, refs, h) && at < |slots| && !slots[at].Live? && r.parent < 0x1_0000
    ensures Indexed(slots[at := Live(h(r.parent, r.text), r.id)], refs + {r}, h)
  {
    var now := slots[at := Live(h(r.parent, r.text), r.id)];
    forall s | s in refs + {r} ensures HasSlot(now, h(s.parent, s.text), s.id) {
      if s == r {
        assert now[at] == Live(h(s.parent, s.text), s.id);
      } else {
        assert HasSlot(slots, h(s.parent, s.text), s.id);
        var i :| 0 <= i < |slots| && slots[i] == Live(h(s.parent, s.text), s.id);
        assert now[i] == Live(h(s.parent, s.text), s.id);
      }
    }
    forall i | 0 <= i < |now| && now[i].Live? ensures HasRef(refs + {r}, h, now[i].hash, now[i].elem) {
      if i == at {
        assert r in refs + {r};
      } else {
        assert HasRef(refs, h, slots[i].hash, slots[i].elem);
        var s :| s in refs && h(s.parent, s.text) == slots[i].hash && s.id == slots[i].elem;
        assert s in refs + {r};
      }
    }
  }

  /** The entry that a removal hits is the entry of the listed key of that parent and name, and of
      no other. */
  lemma IndexedRemove(slots: seq<Slot>, cells: seq<Cell>, refs: set<KeyRef>, h: KeyHasher, at: nat, r: KeyRef)
    requires Indexed(slots, refs, h) && Unique(slots, cells) && TextsOk(cells, refs) && SeparatesParents(h) && r in refs
    requires at < |slots| && Match(slots[at], h(r.parent, r.text), r.text, cells)
    ensures Indexed(slots[at := Tombstone], refs - {r}, h)
  {
    var now := slots[at := Tombstone];
    assert HasSlot(slots, h(r.parent, r.text), r.id);
    var o :| 0 <= o < |slots| && slots[o] == Live(h(r.parent, r.text), r.id);
    assert o == at;
    forall s | s in refs - {r} ensures HasSlot(now, h(s.parent, s.text), s.id) {
      assert HasSlot(slots, h(s.parent, s.text), s.id);
      var i :| 0 <= i < |slots| && slots[i] == Live(h(s.parent, s.text), s.id);
      assert cells[s.id].text == s.text && cells[r.id].text == r.text;
      assert i != at;
      assert now[i] == Live(h(s.parent, s.text), s.id);
    }
    forall i | 0 <= i < |now| && now[i].Live? ensures HasRef(refs - {r}, h, now[i].hash, now[i].elem) {
      assert HasRef(refs, h, slots[i].hash, slots[i].elem);
      var s :| s in refs && h(s.parent, s.text) == slots[i].hash && s.id == slots[i].elem;
      assert s != r;
      assert s in refs - {r};
    }
  }

  // ----- what the edits of a document do to its index -----

  /** Before an insertion into the table: the new key is not in it. */
  lemma BeforeAdd(slots: seq<Slot>, count: nat, cells: seq<Cell>, cells': seq<Cell>, refs: set<KeyRef>, h: KeyHasher,
      r: KeyRef)
    requires IndexRep(slots, count, cells, refs, h) && SeparatesParents(h) && r.parent < 0x1_0000
    requires TextsOk(cells, refs) && TextsOk(cells', refs + {r})
    requires Named(refs, r.parent, r.text) == NONE && forall s :: s in refs ==> s.id != NONE
    ensures SlotsOk(slots, count, cells') && !Stored(slots, h(r.parent, r.text), r.text, cells')
    ensures r.id < |cells'| && TextOf(cells', r.id) == r.text && r !in refs
  {
    assert r in refs + {r};
    assert TextsOk(cells', refs) by { assert forall s :: s in refs ==> s in refs + {r}; }
    SlotsFrame(slots, count, cells, cells', refs, h);
    NotNamed(refs, r.parent, r.text);
    NotStored(slots, cells', refs, h, r.parent, r.text);
    assert Goes(r, r.parent, r.text);
  }

  lemma AfterAdd(slots: seq<Slot>, slots': seq<Slot>, count: nat, cells': seq<Cell>, refs: set<KeyRef>, h: KeyHasher,
      at: nat, r: KeyRef)
    requires Indexed(slots, refs, h) && count == |refs| && r !in refs && r.parent < 0x1_0000
    requires at < |slots| && !slots[at].Live? && slots' == slots[at := Live(h(r.parent, r.text), r.id)]
    requires SlotsOk(slots', count + 1, cells')
    ensures IndexRep(slots', count + 1, cells', refs + {r}, h)
  {
    IndexedAdd(slots, refs, h, at, r);
  }

  /** Where the listed keys keep their texts, the table stays as it is. */
  lemma SameKeys(slots: seq<Slot>, count: nat, cells: seq<Cell>, cells': seq<Cell>, refs: set<KeyRef>, h: KeyHasher)
    requires IndexRep(slots, count, cells, refs, h) && TextsOk(cells, refs) && TextsOk(cells', refs)
    ensures IndexRep(slots, count, cells', refs, h)
  {
    SlotsFrame(slots, count, cells, cells', refs, h);
  }

  /** A removal takes the name of `r` out of the index, whether `r` itself is listed or not. */
  lemma AfterRemove(slots: seq<Slot>, slots': seq<Slot>, count: nat, count': nat, cells: seq<Cell>, refs: set<KeyRef>,
      h: KeyHasher, at: nat, r: KeyRef)
    requires IndexRep(slots, count, cells, refs, h) && TextsOk(cells, refs)
    requires SeparatesParents(h) && r.parent < 0x1_0000
    requires SlotsOk(slots', count', cells)
    requires Stored(slots, h(r.parent, r.text), r.text, cells) ==> (
               && at < |slots| && Match(slots[at], h(r.parent, r.text), r.text, cells)
               && slots' == slots[at := Tombstone] && count' + 1 == count)
    requires !Stored(slots, h(r.parent, r.text), r.text, cells) ==> slots' == slots && count' == count
    ensures IndexRep(slots', count', cells, Struck(refs, {r}), h)
  {
    IndexedNames(slots, cells, refs, h);
    if Stored(slots, h(r.parent, r.text), r.text, cells) {
      assert HasRef(refs, h, slots[at].hash, slots[at].elem);
      var s :| s in refs && h(s.parent, s.text) == slots[at].hash && s.id == slots[at].elem;
      assert s.text == r.text && s.parent == r.parent;
      IndexedRemove(slots, cells, refs, h, at, s);
      StruckOne(refs, r, s);
    } else {
      forall s | s in refs ensures !Goes(s, r.parent, r.text) {
        if Goes(s, r.parent, r.text) { StoredKey(slots, cells, refs, h, s); }
      }
      StruckAbsent(refs, r);
    }
  }

  lemma StruckOne(refs: set<KeyRef>, r: KeyRef, s: KeyRef)
    requires OneName(refs) && s in refs && Goes(s, r.parent, r.text)
    ensures Struck(refs, {r}) == refs - {s} && |refs| == |Struck(refs, {r})| + 1
  {
    forall t | t in refs ensures NameIn({r}, t) <==> t == s {
      if t == s { assert r in {r} && Goes(r, t.parent, t.text); }
      if NameIn({r}, t) { assert Goes(t, s.parent, s.text); }
    }
    assert refs == (refs - {s}) + {s};
  }

  lemma StruckAbsent(refs: set<KeyRef>, r: KeyRef)
    requires forall s :: s in refs ==> !Goes(s, r.parent, r.text)
    ensures Struck(refs, {r}) == refs
  {
    forall t | t in refs ensures !NameIn({r}, t) {
      if NameIn({r}, t) { assert Goes(t, r.parent, r.text); }
    }
  }

  /** What cutting a childless node means for the keys. */
  lemma CutKey(f: Forest, id: nat)
    requires Distinct(f) && id in Ids(f) && At(f, id).kids.Nil?
    ensures At(f, id).kind != Key ==> KeyRefs(Cut(f, id), NONE) == KeyRefs(f, NONE)
    ensures At(f, id).kind == Key ==>
      var r := KeyRef(Parent(f, id, NONE), id, At(f, id).text);
      r in KeyRefs(f, NONE) && KeyRefs(Cut(f, id), NONE) == KeyRefs(f, NONE) - {r}
  {
    var r := KeyRef(Parent(f, id, NONE), id, At(f, id).text);
    CutRefs(f, NONE, id);
    if At(f, id).kind == Key {
      AtKeyRef(f, NONE, id);
    } else if r in KeyRefs(f, NONE) {
      KeyRefAt(f, NONE, r);
    }
  }

  /** What that does to an index of the keys. */
  lemma CutIndex(f: Forest, id: nat, refs: set<KeyRef>)
    requires Distinct(f) && id in Ids(f) && At(f, id).kids.Nil? && refs <= KeyRefs(f, NONE)
    ensures var gone, rest := KeyRefs(f, NONE) - KeyRefs(Cut(f, id), NONE), KeyRefs(Cut(f, id), NONE);
      && Struck(refs, gone) <= rest <= KeyRefs(f, NONE)
      && (At(f, id).kind == Key ==> gone == {KeyRef(Parent(f, id, NONE), id, At(f, id).text)})
      && (At(f, id).kind != Key ==> Struck(refs, gone) == refs)
  {
    var gone, r := KeyRefs(f, NONE) - KeyRefs(Cut(f, id), NONE), KeyRef(Parent(f, id, NONE), id, At(f, id).text);
    CutKey(f, id);
    if At(f, id).kind == Key {
      assert gone == {r};
      assert NameIn({r}, r) by { assert r in {r} && Goes(r, r.parent, r.text); }
    } else {
      assert gone == {};
      StruckNone(refs);
    }
  }
}
