/** What a full index costs: names in an object stay distinct exactly as long as no key is put
    beside one of the same name that the index does not list; and a run in which that happens. */
module FullIndex {
  import opened Codes
  import opened Forests
  import opened Shapes
  import opened KeyIndex
  import opened Printer
  import opened Machine
  import opened Grammar
  import opened Spines
  import opened Tree
  import opened Api
  import opened Runs
  import opened RoundTrip
  import opened Workspace

  /** A key that is put into an object keeps the names distinct if and only if the object holds no
      key of that name, be it one that the index does not list. */
  lemma NamesStayDistinct(d: Doc, p: nat, a: nat, keyword: string, cap: nat)
    requires Kept(d, cap) && KeyPlace(d.forest, p, a) && p != NONE && PutKey(d, p, a, keyword, cap).node != NONE
    ensures Shaped(PutKey(d, p, a, keyword, cap).doc.forest, Unknown) <==>
            Shaped(d.forest, Unknown) && FindKey(d.forest, p, keyword) == NONE
  {
    NewIdBelow(d, cap);
    InsertedNames(d, p, a, Key, keyword);
  }

  function KeyNode(id: nat, text: string, sibs: Forest): Forest { Cons(id, Key, text, Nil, sibs) }

  function ObjectOf(kids: Forest): Forest { Cons(0, Object, "{", kids, Nil) }

  lemma LastOfObject(kids: Forest, leaf: Forest)
    requires NONE !in Ids(kids) && 0 !in Ids(kids) && Distinct(kids) && leaf.Cons? && leaf.sibs.Nil?
    ensures (if Last(kids) != NONE then InsertAfter(ObjectOf(kids), Last(kids), leaf)
        else InsertFirst(ObjectOf(kids), 0, leaf))
         == ObjectOf(Concat(kids, leaf))
  {
    if kids.Cons? {
      LastIn(kids);
      InsertAfterEnd(kids, leaf);
    }
  }

  lemma AddLast(kids: Forest, refs: set<KeyRef>, free: seq<nat>, next: nat, keyword: string)
    requires |keyword| < 0x1_0000 && keyword != "" && NONE !in Ids(kids) && 0 !in Ids(kids) && Size(kids) < 3
    requires Distinct(kids) && forall r :: r in refs ==> !Goes(r, 0, keyword)
    ensures var d := Doc(ObjectOf(kids), free, next, Listed(refs, 2));
      AddedKey(d, 0, keyword, true, 4) == Outcome(
        Doc(ObjectOf(Concat(kids, Leaf(NewId(d), Key, keyword))), FreeRest(d), NextRest(d),
            Listed(if |refs| < 2 then refs + {KeyRef(0, NewId(d), keyword)} else refs, 2)),
        if |refs| < 2 then NoError else OutOfMemory, NewId(d))
  {
    var d := Doc(ObjectOf(kids), free, next, Listed(refs, 2));
    hide Inserted, AddedKey, InsertAfter, InsertFirst, Concat, KeyIndex.Named, Last, Ids, Distinct, KindAt, KidsAt;
    hide Size, Clip;
    NamedNone(refs, 0, keyword);
    ShortClip(keyword);
    ObjectShape(kids);
    InsertedLast(d, kids, keyword);
    PutLast(d, kids, keyword);
  }

  lemma ShortClip(keyword: string)
    requires |keyword| < 0x1_0000
    ensures Clip(keyword) == keyword
  {
  }

  lemma ObjectShape(kids: Forest)
    ensures KindAt(ObjectOf(kids), 0) == Object && KidsAt(ObjectOf(kids), 0) == kids
    ensures Size(ObjectOf(kids)) == 1 + Size(kids)
  {
  }

  lemma InsertedLast(d: Doc, kids: Forest, keyword: string)
    requires d.forest == ObjectOf(kids) && NONE !in Ids(kids) && 0 !in Ids(kids) && Distinct(kids)
    ensures Inserted(d, 0, Last(kids), Key, keyword).forest == ObjectOf(Concat(kids, Leaf(NewId(d), Key, keyword)))
  {
    hide InsertAfter, InsertFirst, Concat, Ids, Distinct, Last;
    LastOfObject(kids, Leaf(NewId(d), Key, keyword));
  }

  lemma PutLast(d: Doc, kids: Forest, keyword: string)
    requires KindAt(d.forest, 0) == Object && KidsAt(d.forest, 0) == kids
    requires Size(d.forest) < 4 && Found(d, 0, keyword) == NONE
    requires Clip(keyword) == keyword && keyword != "" && d.index.Listed?
    ensures var n, f := NewId(d), Inserted(d, 0, Last(kids), Key, keyword).forest;
      AddedKey(d, 0, keyword, true, 4) == Outcome(
        Doc(f, FreeRest(d), NextRest(d),
            if NoRoom(d.index) then d.index else d.index.(refs := d.index.refs + {KeyRef(0, n, keyword)})),
        if NoRoom(d.index) then OutOfMemory else NoError, n)
  {
    hide InsertAfter, InsertFirst, Found, Last, KindAt, KidsAt, Size;
  }

  const REF_A := KeyRef(0, 1, "a")
  const REF_B := KeyRef(0, 2, "b")
  const REF_C := KeyRef(0, 1, "c")
  const DOC_0 := Doc(ObjectOf(Nil), [], 1, Listed({}, 2))
  const DOC_A := Doc(ObjectOf(KeyNode(1, "a", Nil)), [], 2, Listed({REF_A}, 2))
  const DOC_AB := Doc(ObjectOf(KeyNode(1, "a", KeyNode(2, "b", Nil))), [], 3, Listed({REF_A, REF_B}, 2))
  const DOC_ABC := Doc(ObjectOf(KeyNode(1, "a", KeyNode(2, "b", KeyNode(3, "c", Nil)))), [], 4,
      Listed({REF_A, REF_B}, 2))
  const DOC_BC := Doc(ObjectOf(KeyNode(2, "b", KeyNode(3, "c", Nil))), [1], 4, Listed({REF_B}, 2))
  const DOC_BCC := Doc(ObjectOf(KeyNode(2, "b", KeyNode(3, "c", KeyNode(1, "c", Nil)))), [], 4,
      Listed({REF_B, REF_C}, 2))

  lemma AddA()
    ensures AddedKey(DOC_0, 0, "a", true, 4) == Outcome(DOC_A, NoError, 1)
  {
    AddLast(Nil, {}, [], 1, "a");
    assert {} + {REF_A} == {REF_A};
    hide AddedKey;
  }

  lemma AddB()
    ensures AddedKey(DOC_A, 0, "b", true, 4) == Outcome(DOC_AB, NoError, 2)
  {
    AddLast(KeyNode(1, "a", Nil), {REF_A}, [], 2, "b");
    assert {REF_A} + {REF_B} == {REF_A, REF_B};
    hide AddedKey;
  }

  lemma AddC()
    ensures AddedKey(DOC_AB, 0, "c", true, 4) == Outcome(DOC_ABC, OutOfMemory, 3)
  {
    AddLast(KeyNode(1, "a", KeyNode(2, "b", Nil)), {REF_A, REF_B}, [], 3, "c");
    assert REF_A != REF_B;
    hide AddedKey;
  }

  lemma AddSecondC()
    ensures AddedKey(DOC_BC, 0, "c", true, 4) == Outcome(DOC_BCC, NoError, 1)
  {
    AddLast(KeyNode(2, "b", KeyNode(3, "c", Nil)), {REF_B}, [1], 4, "c");
    assert {REF_B} + {REF_C} == {REF_B, REF_C};
    hide AddedKey;
  }

  lemma DeleteA()
    ensures 1 in Ids(DOC_ABC.forest) && Deleted(DOC_ABC, 1) == DOC_BC
  {
    var c := KeyRef(0, 3, "c");
    assert KeyRefs(DOC_ABC.forest, NONE) == {REF_A, REF_B, c} && KeyRefs(DOC_BC.forest, NONE) == {REF_B, c};
    assert KeyRefs(DOC_ABC.forest, NONE) - KeyRefs(DOC_BC.forest, NONE) == {REF_A};
    assert Goes(REF_A, REF_A.parent, REF_A.text);
    assert Struck({REF_A, REF_B}, {REF_A}) == {REF_B};
    assert [1] + Reverse([]) + [] == [1];
  }

  const FIVE_CALLS := [PutKeyLast(0, "a", true), PutKeyLast(0, "b", true), PutKeyLast(0, "c", true), Delete(1),
      PutKeyLast(0, "c", true)]

  lemma FiveCalls()
    ensures Apply(DOC_0, FIVE_CALLS[0], 4) == Outcome(DOC_A, NoError, 1)
    ensures Apply(DOC_A, FIVE_CALLS[1], 4) == Outcome(DOC_AB, NoError, 2)
    ensures Apply(DOC_AB, FIVE_CALLS[2], 4) == Outcome(DOC_ABC, OutOfMemory, 3)
    ensures Apply(DOC_ABC, FIVE_CALLS[3], 4) == Refused(DOC_BC, NoError)
    ensures Apply(DOC_BC, FIVE_CALLS[4], 4) == Outcome(DOC_BCC, NoError, 1)
  {
    AddA();
    AddB();
    AddC();
    DeleteA();
    AddSecondC();
    hide AddedKey, Deleted, Ids;
  }

  lemma FiveInARow(d: Doc, ops: seq<Op>, r: Outcome, s: Outcome, t: Outcome, u: Outcome, v: Outcome)
    requires |ops| == 5 && r == Apply(d, ops[0], 4) && s == Apply(r.doc, ops[1], 4) && t == Apply(s.doc, ops[2], 4)
    requires u == Apply(t.doc, ops[3], 4) && v == Apply(u.doc, ops[4], 4)
    requires Permitted(d, ops[0]) && Permitted(r.doc, ops[1]) && Permitted(s.doc, ops[2])
    requires Permitted(t.doc, ops[3]) && Permitted(u.doc, ops[4])
    ensures AllPermitted(d, ops, 4)
    ensures Answers(d, ops, 4) == [AnswerOf(r), AnswerOf(s), AnswerOf(t), AnswerOf(u), AnswerOf(v)]
    ensures After(d, ops, 4) == v.doc
  {
    hide Apply, Permitted;
    assert ops[1..][1..] == ops[2..] && ops[2..][1..] == ops[3..] && ops[3..][1..] == ops[4..] && ops[4..][1..] == [];
    assert AllPermitted(u.doc, ops[4..], 4) && AllPermitted(t.doc, ops[3..], 4) && AllPermitted(s.doc, ops[2..], 4);
    assert After(u.doc, ops[4..], 4) == v.doc;
    assert After(t.doc, ops[3..], 4) == After(u.doc, ops[4..], 4);
    assert After(s.doc, ops[2..], 4) == After(t.doc, ops[3..], 4);
    assert After(r.doc, ops[1..], 4) == After(s.doc, ops[2..], 4);
    assert Answers(u.doc, ops[4..], 4) == [AnswerOf(v)] + [];
    assert Answers(t.doc, ops[3..], 4) == [AnswerOf(u)] + [AnswerOf(v)];
    assert Answers(s.doc, ops[2..], 4) == [AnswerOf(t)] + [AnswerOf(u), AnswerOf(v)];
    assert Answers(r.doc, ops[1..], 4) == [AnswerOf(s)] + [AnswerOf(t), AnswerOf(u), AnswerOf(v)];
  }

  const EMPTY := Doc(Nil, [], 0, Listed({}, 2))

  /** An empty object, loaded from its text. */
  lemma LoadObject()
    ensures Apply(EMPTY, LoadText("{}"), 4) == Refused(DOC_0, NoError)
  {
    var t := ObjectOf(Nil);
    EmptyObject();
    PrintThenParse(t, true, 4);
    DriveInHolds(INITIAL, "{}", 0, 4, AtMost(2));
  }

  lemma EmptyObject()
    ensures var t := ObjectOf(Nil);
      CompleteDocument(t) && Print(t, 0, true) == "{}" && Fresh(t, 0) == t && KeyRefs(t, NONE) == {} && Size(t) == 1
  {
    assert Print(ObjectOf(Nil), 0, true) == Item(ObjectOf(Nil), 0, true);
  }

  const SIX_CALLS := [LoadText("{}")] + FIVE_CALLS

  /** Four slots for nodes and two for keys, as in a workspace of 376 bytes: behind the load of an
      empty object, the third key finds no room in the index; behind the deletion of the first one it
      can be added again, and the object holds it twice. */
  lemma NameTwice(start: nat)
    requires start % ALIGNMENT == 0
    ensures Capacity(PoolBytes(376), NODE_SIZE) == 4 && TableBytes(start, 376) >= ENTRY_SIZE
    ensures EMPTY == Doc(Nil, [], 0, Listed({}, Capacity(TableBytes(start, 376), ENTRY_SIZE)))
    ensures Answers(EMPTY, SIX_CALLS, 4) == [Answer(NONE, NoError)] +
      [Answer(1, NoError), Answer(2, NoError), Answer(3, OutOfMemory), Answer(NONE, NoError), Answer(1, NoError)]
    ensures AllPermitted(EMPTY, SIX_CALLS, 4)
    ensures After(EMPTY, SIX_CALLS, 4).forest == ObjectOf(KeyNode(2, "b", KeyNode(3, "c", KeyNode(1, "c", Nil))))
    ensures !NamesDistinct(After(EMPTY, SIX_CALLS, 4).forest)
  {
    FourAndTwo(start);
    hide Apply, NamesDistinct, After, Answers, Permitted, AllPermitted;
    TwoNames();
    FiveCalls();
    FiveLive();
    FiveInARow(DOC_0, FIVE_CALLS, Outcome(DOC_A, NoError, 1), Outcome(DOC_AB, NoError, 2),
        Outcome(DOC_ABC, OutOfMemory, 3), Refused(DOC_BC, NoError), Outcome(DOC_BCC, NoError, 1));
    LoadObject();
    LoadPermitted(EMPTY, "{}");
    OneMore(EMPTY, LoadText("{}"), FIVE_CALLS);
  }

  lemma LoadPermitted(d: Doc, json: string)
    ensures Permitted(d, LoadText(json))
  {
  }

  lemma FiveLive()
    ensures Permitted(DOC_0, FIVE_CALLS[0]) && Permitted(DOC_A, FIVE_CALLS[1]) && Permitted(DOC_AB, FIVE_CALLS[2])
    ensures Permitted(DOC_ABC, FIVE_CALLS[3]) && Permitted(DOC_BC, FIVE_CALLS[4])
  {
  }

  lemma OneMore(d: Doc, op: Op, ops: seq<Op>)
    requires Permitted(d, op) && AllPermitted(Apply(d, op, 4).doc, ops, 4)
    ensures AllPermitted(d, [op] + ops, 4)
    ensures var r := Apply(d, op, 4);
      && After(d, [op] + ops, 4) == After(r.doc, ops, 4)
      && Answers(d, [op] + ops, 4) == [AnswerOf(r)] + Answers(r.doc, ops, 4)
  {
    hide Apply;
    assert ([op] + ops)[1..] == ops;
  }

  lemma TwoNames()
    ensures !NamesDistinct(DOC_BCC.forest)
  {
    assert !DistinctTexts(KeyNode(3, "c", KeyNode(1, "c", Nil)));
  }
}
