/** Whole runs of calls. What a call does to a document is a function of the document; every state
    a run reaches is sound, whatever failed on the way; and in hashed mode a context goes through
    the same documents and gives the same answers as in linear mode, up to the first "out of
    memory". */
module Runs {
  import opened Codes
  import opened Forests
  import opened Pool
  import opened Shapes
  import opened KeyIndex
  import opened Machine
  import opened Spines
  import opened Tree
  import opened Parser
  import opened Tokenizer
  import opened Api
  import opened Children

  datatype Op =
    | LoadText(json: string)
    | PutKeyLast(parent: nat, keyword: string, accepted: bool)
    | PutKeyBefore(key: nat, keyword: string)
    | PutKeyAfter(key: nat, keyword: string)
    | SetValue(key: nat, kind: Kind, value: Argument, accepted: bool)
    | Append(list: nat, kind: Kind, value: Argument)
    | Delete(element: nat)
    | Find(parent: nat, path: string, separator: char)

  function RoomIn(ix: Index): Room { if ix.Listed? then AtMost(ix.size) else Unlimited }

  /** What one call does to a document. */
  ghost function Apply(d: Doc, op: Op, cap: nat): Outcome {
    match op
    case LoadText(json) =>
      if json == "" then Refused(d, InvalidParameter)
      else
        var r := DriveIn(INITIAL, json, 0, cap, RoomIn(d.index));
        Outcome(Doc(Plug(r.spine), [], r.next, IndexOf(r.spine, RoomIn(d.index))), r.status, NONE)
    case PutKeyLast(parent, keyword, accepted) => AddedKey(d, parent, keyword, accepted, cap)
    case PutKeyBefore(key, keyword) => AddedKeyBefore(d, key, keyword, cap)
    case PutKeyAfter(key, keyword) => AddedKeyAfter(d, key, keyword, cap)
    case SetValue(key, kind, value, accepted) => UpdatedKeyValue(d, key, kind, value, accepted, cap)
    case Append(list, kind, value) => AppendedValue(d, list, kind, value, cap)
    case Delete(element) => DeletedElement(d, element)
    case Find(parent, path, separator) =>
      var (key, status) := FoundKey(d, parent, path, separator);
      Outcome(d, status, key)
  }

  predicate LiveNode(d: Doc, id: nat) { id == NONE || id in Ids(d.forest) }

  /** What a caller owes: live handles, values of a value type, no deletion of the root. */
  predicate Permitted(d: Doc, op: Op) {
    match op
    case LoadText(_) => true
    case PutKeyLast(parent, _, _) => LiveNode(d, parent)
    case PutKeyBefore(key, _) => LiveNode(d, key)
    case PutKeyAfter(key, _) => LiveNode(d, key)
    case SetValue(key, kind, _, _) => LiveNode(d, key) && kind != Key && (key != NONE ==> KindAt(d.forest, key) == Key)
    case Append(list, kind, _) => LiveNode(d, list) && (IsScalar(kind) || IsContainer(kind))
    case Delete(element) => LiveNode(d, element) && element != Head(d.forest)
    case Find(parent, _, _) => LiveNode(d, parent)
  }

  /** One call on a context, in either mode and behind any errors. */
  method Perform(ctx: Context, tok: TokenizerContext, op: Op) returns (n: nat)
    requires ctx.Sane() && ctx.Usable() && Permitted(ctx.Value(), op)
    modifies ctx, ctx.pool, ctx.table, ctx.table.slots, tok
    ensures ctx.Sane() && Done(ctx, n, Apply(old(ctx.Value()), op, ctx.pool.Length))
  {
    ctx.Bounds();
    n := NONE;
    match op {
      case LoadText(json) => var _ := Load(ctx, tok, json);
      case PutKeyLast(parent, keyword, accepted) => n := AddKey(ctx, parent, keyword, accepted);
      case PutKeyBefore(key, keyword) => n := AddKeyBefore(ctx, key, keyword);
      case PutKeyAfter(key, keyword) => n := AddKeyAfter(ctx, key, keyword);
      case SetValue(key, kind, value, accepted) => n := UpdateKeyValue(ctx, key, kind, value, accepted);
      case Append(list, kind, value) => n := AppendArrayValue(ctx, list, kind, value);
      case Delete(element) => DeleteElement(ctx, element);
      case Find(parent, path, separator) => n := GetKey(ctx, parent, path, separator);
    }
  }

  /** The answer of a call, as the caller sees it. */
  datatype Answer = Answer(node: nat, status: Status)

  function AnswerOf(r: Outcome): Answer { Answer(r.node, r.status) }

  /** The document after a sequence of calls. */
  ghost function After(d: Doc, ops: seq<Op>, cap: nat): Doc
    decreases |ops|
  {
    if ops == [] then d else After(Apply(d, ops[0], cap).doc, ops[1..], cap)
  }

  /** The answers to a sequence of calls. */
  ghost function Answers(d: Doc, ops: seq<Op>, cap: nat): seq<Answer>
    decreases |ops|
  {
    if ops == [] then []
    else
      var r := Apply(d, ops[0], cap);
      [AnswerOf(r)] + Answers(r.doc, ops[1..], cap)
  }

  ghost predicate AllPermitted(d: Doc, ops: seq<Op>, cap: nat)
    decreases |ops|
  {
    ops == [] || (Permitted(d, ops[0]) && AllPermitted(Apply(d, ops[0], cap).doc, ops[1..], cap))
  }

  /** Calls are made one after the other, whatever they answer. */
  method Execute(ctx: Context, tok: TokenizerContext, ops: seq<Op>) returns (answers: seq<Answer>)
    requires ctx.Sane() && ctx.Usable() && AllPermitted(ctx.Value(), ops, ctx.pool.Length)
    modifies ctx, ctx.pool, ctx.table, ctx.table.slots, tok
    ensures ctx.Sane() && ctx.Value() == After(old(ctx.Value()), ops, ctx.pool.Length)
    ensures answers == Answers(old(ctx.Value()), ops, ctx.pool.Length)
    decreases |ops|
  {
    answers := [];
    if ops != [] {
      var n := Perform(ctx, tok, ops[0]);
      answers := [Answer(n, ctx.status)];
      var rest := Execute(ctx, tok, ops[1..]);
      answers := answers + rest;
    }
  }

  // ----- every reachable state -----

  ghost predicate Kept(d: Doc, cap: nat) { Sound(d) && d.next <= cap < NONE }

  /** Regular documents stay regular until a key finds the index full. */
  ghost predicate KeepsRegular(d: Doc, r: Outcome) {
    Regular(d) && (d.index.Whole? || r.status != OutOfMemory) ==> Regular(r.doc)
  }

  lemma NewIdBelow(d: Doc, cap: nat)
    requires Kept(d, cap) && Size(d.forest) < cap
    ensures NewId(d) < cap
  {
    if d.free != [] { assert d.free[0] in d.free; }
  }

  lemma PutKeyKept(d: Doc, p: nat, a: nat, keyword: string, cap: nat)
    requires Kept(d, cap) && KeyPlace(d.forest, p, a) && p != NONE
    ensures var r := PutKey(d, p, a, keyword, cap); Kept(r.doc, cap) && KeepsRegular(d, r)
  {
    if Found(d, p, keyword) == NONE && Size(d.forest) < cap {
      NewIdBelow(d, cap);
      ValueSound(d, p, a, Key, keyword);
      if Regular(d) { RegularInserted(d, p, a, Key, keyword); }
      ListedSound(Inserted(d, p, a, Key, keyword), KeyRef(p, NewId(d), keyword));
      hide Sound, Regular, Found;
    }
  }

  /** A key of the tree may enter the index. */
  lemma ListedSound(d: Doc, r: KeyRef)
    requires Sound(d) && r in KeyRefs(d.forest, NONE)
    requires d.index.Listed? ==> Named(d.index.refs, r.parent, r.text) == NONE
    ensures Sound(WithKey(d, r))
  {
    if d.index.Listed? {
      forall s | s in d.index.refs ensures s.id != NONE { KeyRefIds(d.forest, NONE, s); }
      NotNamed(d.index.refs, r.parent, r.text);
    }
  }

  lemma PutValueKept(d: Doc, p: nat, a: nat, kind: Kind, text: string, cap: nat)
    requires Kept(d, cap) && CanInsert(d.forest, p, a, kind) && p != NONE && kind != Key
    ensures var r := PutValue(d, p, a, kind, text, cap); Kept(r.doc, cap) && KeepsRegular(d, r)
  {
    if Size(d.forest) < cap {
      NewIdBelow(d, cap);
      ValueSound(d, p, a, kind, text);
      if Regular(d) { RegularInserted(d, p, a, kind, text); }
    }
  }

  lemma DeletedKept(d: Doc, id: nat, cap: nat)
    requires Kept(d, cap) && id in Ids(d.forest) && id != Head(d.forest)
    ensures Kept(Deleted(d, id), cap) && (Regular(d) ==> Regular(Deleted(d, id)))
  {
    DeletedSound(d, id);
    if Regular(d) { RegularDeleted(d, id); }
  }

  lemma LoadKept(d: Doc, json: string, cap: nat)
    requires Kept(d, cap)
    ensures var r := Apply(d, LoadText(json), cap); Kept(r.doc, cap) && KeepsRegular(d, r)
  {
    if json != "" { TextKept(json, cap, RoomIn(d.index)); }
  }

  lemma TextKept(json: string, cap: nat, room: Room)
    requires cap < NONE
    ensures var r := DriveIn(INITIAL, json, 0, cap, room);
      var d := Doc(Plug(r.spine), [], r.next, IndexOf(r.spine, room));
      Kept(d, cap) && (room.Unlimited? || r.status != OutOfMemory ==> Regular(d))
  {
    hide DriveIn, Drive, Plug, Shaped, Distinct, KeyCount, Regular, IndexOf;
    var r := DriveIn(INITIAL, json, 0, cap, room);
    InitialOk(cap);
    hide Inv, Numbered, KeysOn, Stopped;
    DriveInKeeps(INITIAL, json, 0, cap, room);
    DriveInHolds(INITIAL, json, 0, cap, room);
    LoadedSound(r.spine, r.next, room);
  }

  lemma InitialOk(cap: nat)
    ensures Inv(INITIAL, cap) && Numbered(INITIAL.spine, INITIAL.next) && !Stopped(INITIAL)
    ensures KeysOn(INITIAL.spine) == 0
  {
  }

  lemma LoadedSound(s: Spine, next: nat, room: Room)
    requires Shaped(Plug(s), Unknown) && Slots(Doc(Plug(s), [], next, Whole)) && NONE !in Ids(Plug(s))
    requires Plug(s).Cons? ==> Plug(s).sibs.Nil?
    ensures var d := Doc(Plug(s), [], next, IndexOf(s, room)); Sound(d) && (HasRoom(room, Plug(s)) ==> Regular(d))
  {
    ShapedSplits(Plug(s), Unknown);
    DistinctOneName(Plug(s));
    hide Plug, Shaped, Nested, Distinct, KeyRefs, KeyCount, Ids;
  }

  lemma AddedKept(d: Doc, parent: nat, keyword: string, accepted: bool, cap: nat)
    requires Kept(d, cap) && LiveNode(d, parent)
    ensures var r := AddedKey(d, parent, keyword, accepted, cap); Kept(r.doc, cap) && KeepsRegular(d, r)
  {
    var k, kids := KindAt(d.forest, parent), KidsAt(d.forest, parent);
    if k == Object {
      LastPlace(d.forest, parent);
      PutKeyKept(d, parent, Last(kids), Clip(keyword), cap);
    } else if k == Key && kids.Nil? {
      PutValueKept(d, parent, NONE, Object, "{", cap);
      if Size(d.forest) < cap {
        var o := PutValue(d, parent, NONE, Object, "{", cap);
        NewObject(d.forest, parent, o.node);
        PutKeyKept(o.doc, o.node, NONE, Clip(keyword), cap);
      }
    } else if k == Key && kids.kind == Object {
      FirstChild(d.forest, parent);
      LastPlace(d.forest, kids.id);
      PutKeyKept(d, kids.id, Last(kids.kids), Clip(keyword), cap);
    }
  }

  lemma UpdatedKept(d: Doc, key: nat, kind: Kind, value: Argument, accepted: bool, cap: nat)
    requires Kept(d, cap) && Permitted(d, SetValue(key, kind, value, accepted))
    ensures var r := UpdatedKeyValue(d, key, kind, value, accepted, cap); Kept(r.doc, cap) && KeepsRegular(d, r)
  {
    if key != NONE && value.Given? {
      var kids := KidsAt(d.forest, key);
      OldValueKept(d, key, cap);
      var d' := if kids.Nil? then d else Deleted(d, kids.id);
      assert ElementAccepted(kind, value.text, accepted) ==> kind != Unknown;
      hide Kept, Regular, Deleted, ElementAccepted, PutValue, Ids, At, Clip, CanInsert;
      if ElementAccepted(kind, value.text, accepted) {
        KeyTakes(d'.forest, key, kind);
        PutValueKept(d', key, NONE, kind, Clip(value.text), cap);
      }
    }
  }

  /** The document without the old value of a key. */
  lemma OldValueKept(d: Doc, key: nat, cap: nat)
    requires Kept(d, cap) && KindAt(d.forest, key) == Key
    ensures var kids := KidsAt(d.forest, key);
      && (kids.Cons? ==> kids.id in Ids(d.forest))
      && var d' := if kids.Nil? then d else Deleted(d, kids.id);
        && Kept(d', cap) && (Regular(d) ==> Regular(d')) && d'.index.Whole? == d.index.Whole?
        && key in Ids(d'.forest) && At(d'.forest, key).kind == Key && At(d'.forest, key).kids.Nil?
  {
    hide Regular, Cut;
    var kids := KidsAt(d.forest, key);
    if kids.Cons? {
      ValueGone(d.forest, key);
      DeletedKept(d, kids.id, cap);
    }
  }

  lemma KeyTakes(f: Forest, key: nat, kind: Kind)
    requires key in Ids(f) && At(f, key).kind == Key && At(f, key).kids.Nil? && key != NONE
    requires kind != Unknown && kind != Key
    ensures CanInsert(f, key, NONE, kind)
  {
  }

  /** Every call, also one that fails, leaves a sound document: slots are conserved, nodes nest as
      JSON allows, and the index leads to live keys only. And it leaves a regular one, with
      distinct names and a complete index, as long as no key finds the index full. */
  lemma ApplyKept(d: Doc, op: Op, cap: nat)
    requires Kept(d, cap) && Permitted(d, op)
    ensures Kept(Apply(d, op, cap).doc, cap) && KeepsRegular(d, Apply(d, op, cap))
  {
    match op
    case LoadText(json) => LoadKept(d, json, cap);
    case PutKeyLast(parent, keyword, accepted) => AddedKept(d, parent, keyword, accepted, cap);
    case PutKeyBefore(key, keyword) =>
      if KindAt(d.forest, key) == Key {
        BeforePlace(d.forest, key);
        PutKeyKept(d, Parent(d.forest, key, NONE), Prev(d.forest, key, NONE), Clip(keyword), cap);
      }
    case PutKeyAfter(key, keyword) =>
      if KindAt(d.forest, key) == Key {
        KeyParent(d.forest, key);
        PutKeyKept(d, Parent(d.forest, key, NONE), key, Clip(keyword), cap);
      }
    case SetValue(key, kind, value, accepted) => UpdatedKept(d, key, kind, value, accepted, cap);
    case Append(list, kind, value) =>
      if KindAt(d.forest, list) == Array && value.Given? {
        LastChild(d.forest, list);
        PutValueKept(d, list, Last(KidsAt(d.forest, list)), kind, Clip(value.text), cap);
      }
    case Delete(element) => if element != NONE { DeletedKept(d, element, cap); }
    case Find(_, _, _) =>
  }

  /** So does every run. */
  lemma {:induction false} RunKept(d: Doc, ops: seq<Op>, cap: nat)
    requires Kept(d, cap) && AllPermitted(d, ops, cap)
    ensures Kept(After(d, ops, cap), cap)
    ensures Regular(d) && (d.index.Whole? || NoneOutOfMemory(Answers(d, ops, cap))) ==> Regular(After(d, ops, cap))
    decreases |ops|
  {
    if ops != [] {
      var r := Apply(d, ops[0], cap);
      ApplyKept(d, ops[0], cap);
      RunKept(r.doc, ops[1..], cap);
      SameIndexKind(d, ops[0], cap);
      NoneFirst(AnswerOf(r), Answers(r.doc, ops[1..], cap));
    }
  }

  predicate NoneOutOfMemory(answers: seq<Answer>) { forall a :: a in answers ==> a.status != OutOfMemory }

  lemma NoneFirst(a: Answer, rest: seq<Answer>)
    ensures NoneOutOfMemory([a] + rest) <==> a.status != OutOfMemory && NoneOutOfMemory(rest)
  {
    assert a in [a] + rest;
    assert forall b :: b in rest ==> b in [a] + rest;
  }

  lemma SameIndexKind(d: Doc, op: Op, cap: nat)
    ensures RoomIn(Apply(d, op, cap).doc.index) == RoomIn(d.index)
  {
    hide InsertAfter, InsertFirst, Cut, Found, Size, KeyRefs, DriveIn, Lookup, ElementAccepted, Clip;
  }

  // ----- the two modes -----

  /** The same document, once with every key to be found and once with a table that lists every key. */
  ghost predicate Twins(d: Doc, e: Doc) {
    && d.forest == e.forest && d.free == e.free && d.next == e.next && d.index.Whole? && e.index.Listed?
    && Regular(d) && Regular(e)
  }

  /** The call on the twin does the same. */
  ghost predicate SameOutcome(r: Outcome, r': Outcome) {
    && r.status == r'.status && r.node == r'.node
    && r.doc.forest == r'.doc.forest && r.doc.free == r'.doc.free && r.doc.next == r'.doc.next
  }

  lemma TwinsFind(d: Doc, e: Doc, p: nat, text: string)
    requires Twins(d, e) && Sound(e)
    ensures Found(d, p, text) == Found(e, p, text)
  {
    RegularFound(d, p, text);
    RegularFound(e, p, text);
  }

  lemma {:induction false} TwinsLookup(d: Doc, e: Doc, start: nat, path: string, separator: char)
    requires Twins(d, e) && Sound(e)
    ensures Lookup(d, start, path, separator) == Lookup(e, start, path, separator)
    decreases |path|
  {
    hide Found, Regular, Sound;
    var n := SegmentLength(path, separator);
    TwinsFind(d, e, Scope(d.forest, start), path[..n]);
    var key := Found(d, Scope(d.forest, start), path[..n]);
    if key != NONE && n < |path| { TwinsLookup(d, e, key, path[n + 1..], separator); }
  }

  lemma TwinsPutKey(d: Doc, e: Doc, p: nat, a: nat, keyword: string, cap: nat)
    requires Twins(d, e) && Sound(e) && PutKey(e, p, a, keyword, cap).status != OutOfMemory
    ensures SameOutcome(PutKey(d, p, a, keyword, cap), PutKey(e, p, a, keyword, cap))
  {
    TwinsFind(d, e, p, keyword);
  }

  lemma TwinsAdded(d: Doc, e: Doc, parent: nat, keyword: string, accepted: bool, cap: nat)
    requires Twins(d, e) && Kept(d, cap) && Kept(e, cap) && LiveNode(e, parent)
    requires AddedKey(e, parent, keyword, accepted, cap).status != OutOfMemory
    ensures SameOutcome(AddedKey(d, parent, keyword, accepted, cap), AddedKey(e, parent, keyword, accepted, cap))
  {
    hide PutKey, Sound, Regular, Inserted, Clip;
    var k, kids := KindAt(d.forest, parent), KidsAt(d.forest, parent);
    if keyword == "" || !accepted {
    } else if k == Object {
      TwinsPutKey(d, e, parent, Last(kids), Clip(keyword), cap);
    } else if k == Key && kids.Cons? && kids.kind == Object {
      TwinsPutKey(d, e, kids.id, Last(kids.kids), Clip(keyword), cap);
    } else if k == Key && kids.Nil? && Size(d.forest) < cap {
      TwinsMade(d, e, parent, Clip(keyword), cap);
    }
  }

  /** The key of a new object. */
  lemma TwinsMade(d: Doc, e: Doc, parent: nat, keyword: string, cap: nat)
    requires Twins(d, e) && Kept(d, cap) && Kept(e, cap)
    requires KindAt(d.forest, parent) == Key && KidsAt(d.forest, parent).Nil?
    ensures var o, o', n := Inserted(d, parent, NONE, Object, "{"), Inserted(e, parent, NONE, Object, "{"), NewId(d);
      PutKey(o', n, NONE, keyword, cap).status != OutOfMemory ==>
      SameOutcome(PutKey(o, n, NONE, keyword, cap), PutKey(o', n, NONE, keyword, cap))
  {
    var o, o', n := Inserted(d, parent, NONE, Object, "{"), Inserted(e, parent, NONE, Object, "{"), NewId(d);
    NothingInNew(e, parent);
    NothingInNew(d, parent);
    TwinsAre(d, e);
    assert o.forest == o'.forest && o.free == o'.free && o.next == o'.next;
    hide Found, Sound, Regular, Inserted, PutKey, SameOutcome, Twins, Kept;
    TwinsPut(o, o', n, keyword, cap);
  }

  /** Where no key of that name is found, a key is put alike. */
  lemma TwinsPut(d: Doc, e: Doc, p: nat, keyword: string, cap: nat)
    requires d.forest == e.forest && d.free == e.free && d.next == e.next
    requires Found(d, p, keyword) == Found(e, p, keyword) == NONE && d.index.Whole?
    ensures PutKey(e, p, NONE, keyword, cap).status != OutOfMemory ==>
      SameOutcome(PutKey(d, p, NONE, keyword, cap), PutKey(e, p, NONE, keyword, cap))
  {
    hide Found, InsertFirst, InsertAfter;
  }

  lemma TwinsLoad(d: Doc, e: Doc, json: string, cap: nat)
    requires Twins(d, e) && Apply(e, LoadText(json), cap).status != OutOfMemory
    ensures SameOutcome(Apply(d, LoadText(json), cap), Apply(e, LoadText(json), cap))
  {
    if json != "" {
      DriveInHolds(INITIAL, json, 0, cap, Unlimited);
      DriveInHolds(INITIAL, json, 0, cap, RoomIn(e.index));
    }
  }

  /** A call that does not run out of memory with an index does the same without one. */
  lemma TwinsApply(d: Doc, e: Doc, op: Op, cap: nat)
    requires Twins(d, e) && Kept(d, cap) && Kept(e, cap) && Permitted(e, op) && Apply(e, op, cap).status != OutOfMemory
    ensures SameOutcome(Apply(d, op, cap), Apply(e, op, cap))
  {
    hide PutKey, Found, Sound, Lookup, AddedKey, DriveIn, UpdatedKeyValue, AppendedValue, DeletedElement, Twins;
    match op
    case LoadText(json) => TwinsLoad(d, e, json, cap);
    case PutKeyLast(parent, keyword, accepted) => TwinsAdded(d, e, parent, keyword, accepted, cap);
    case PutKeyBefore(key, keyword) =>
      TwinsAre(d, e);
      if KindAt(d.forest, key) == Key {
        TwinsPutKey(d, e, Parent(d.forest, key, NONE), Prev(d.forest, key, NONE), Clip(keyword), cap);
      }
    case PutKeyAfter(key, keyword) =>
      TwinsAre(d, e);
      if KindAt(d.forest, key) == Key { TwinsPutKey(d, e, Parent(d.forest, key, NONE), key, Clip(keyword), cap); }
    case Find(parent, path, separator) =>
      TwinsLookup(d, e, parent, path, separator);
      TwinsAre(d, e);
    case _ => TwinsValue(d, e, op, cap);
  }

  lemma TwinsAre(d: Doc, e: Doc)
    requires Twins(d, e)
    ensures d.forest == e.forest && d.free == e.free && d.next == e.next
  {
  }

  /** Values and deletions do not ask the index. */
  lemma TwinsValue(d: Doc, e: Doc, op: Op, cap: nat)
    requires Twins(d, e) && (op.SetValue? || op.Append? || op.Delete?)
    ensures SameOutcome(Apply(d, op, cap), Apply(e, op, cap))
  {
    TwinsAre(d, e);
    hide UpdatedKeyValue, AppendedValue, DeletedElement, Twins;
    match op
    case SetValue(key, kind, value, accepted) => TwinsSet(d, e, key, kind, value, accepted, cap);
    case Append(list, kind, value) => TwinsAppend(d, e, list, kind, value, cap);
    case Delete(element) => TwinsDelete(d, e, element);
  }

  lemma TwinsSet(d: Doc, e: Doc, key: nat, kind: Kind, value: Argument, accepted: bool, cap: nat)
    requires d.forest == e.forest && d.free == e.free && d.next == e.next
    ensures SameOutcome(UpdatedKeyValue(d, key, kind, value, accepted, cap), UpdatedKeyValue(e, key, kind, value,
        accepted, cap))
  {
    hide KeyRefs, Cut, Post, Clip, Reverse, ElementAccepted, InsertFirst, InsertAfter, Size, Ids;
  }

  lemma TwinsAppend(d: Doc, e: Doc, list: nat, kind: Kind, value: Argument, cap: nat)
    requires d.forest == e.forest && d.free == e.free && d.next == e.next
    ensures SameOutcome(AppendedValue(d, list, kind, value, cap), AppendedValue(e, list, kind, value, cap))
  {
    hide Clip, InsertFirst, InsertAfter, Size;
  }

  lemma TwinsDelete(d: Doc, e: Doc, element: nat)
    requires d.forest == e.forest && d.free == e.free && d.next == e.next
    ensures SameOutcome(DeletedElement(d, element), DeletedElement(e, element))
  {
    hide KeyRefs, Cut, Post, Reverse;
  }

  /** And leaves twins behind. */
  lemma TwinsStay(d: Doc, e: Doc, op: Op, cap: nat)
    requires Twins(d, e) && Kept(d, cap) && Kept(e, cap) && Permitted(e, op) && Apply(e, op, cap).status != OutOfMemory
    ensures SameOutcome(Apply(d, op, cap), Apply(e, op, cap)) && Twins(Apply(d, op, cap).doc, Apply(e, op, cap).doc)
  {
    TwinsApply(d, e, op, cap);
    ApplyKept(d, op, cap);
    ApplyKept(e, op, cap);
    SameIndexKind(d, op, cap);
    SameIndexKind(e, op, cap);
    hide Apply, Regular, Kept;
  }

  /** Equal answers, up to the first in `b` that reports that memory ran out. */
  predicate Agree(a: seq<Answer>, b: seq<Answer>)
    decreases |b|
  {
    b == [] || b[0].status == OutOfMemory || (a != [] && a[0] == b[0] && Agree(a[1..], b[1..]))
  }

  /** The same calls on twins: the answers are the same until memory runs out with the index, and
      if it never does, both end as twins. */
  lemma {:induction false} SameAnswers(d: Doc, e: Doc, ops: seq<Op>, cap: nat)
    requires Twins(d, e) && Kept(d, cap) && Kept(e, cap) && AllPermitted(e, ops, cap)
    ensures Agree(Answers(d, ops, cap), Answers(e, ops, cap))
    ensures NoneOutOfMemory(Answers(e, ops, cap)) ==>
      Answers(d, ops, cap) == Answers(e, ops, cap) && Twins(After(d, ops, cap), After(e, ops, cap))
    decreases |ops|
  {
    if ops != [] {
      var r, r' := Apply(d, ops[0], cap), Apply(e, ops[0], cap);
      NoneFirst(AnswerOf(r'), Answers(r'.doc, ops[1..], cap));
      assert Answers(d, ops, cap)[1..] == Answers(r.doc, ops[1..], cap);
      assert Answers(e, ops, cap)[1..] == Answers(r'.doc, ops[1..], cap);
      if r'.status != OutOfMemory {
        TwinsStay(d, e, ops[0], cap);
        ApplyKept(e, ops[0], cap);
        PermittedTwin(d, e, ops[0]);
        ApplyKept(d, ops[0], cap);
        SameAnswers(r.doc, r'.doc, ops[1..], cap);
      }
    }
  }

  lemma PermittedTwin(d: Doc, e: Doc, op: Op)
    requires Twins(d, e) && Permitted(e, op)
    ensures Permitted(d, op)
  {
  }

  /** Hashed search refines linear search over whole runs: two contexts of equal capacity that
      hold the same document give the same answers, node for node, and end with the same tree, up
      to the first "out of memory" of the hashed one. */
  method BothModes(linear: Context, hashed: Context, tok: TokenizerContext, ops: seq<Op>)
      returns (a: seq<Answer>, b: seq<Answer>)
    requires linear.mode == Linear && linear.Valid() && linear.Usable()
    requires hashed.mode == Hashed && hashed.Valid() && hashed.Usable()
    requires linear.pool.Length == hashed.pool.Length && linear.Bare() == hashed.Bare()
    requires linear != hashed && linear.pool != hashed.pool
    requires linear.table != hashed.table && linear.table.slots != hashed.table.slots
    requires AllPermitted(linear.Value(), ops, linear.pool.Length)
    requires AllPermitted(hashed.Value(), ops, hashed.pool.Length)
    modifies linear, linear.pool, linear.table, linear.table.slots, hashed, hashed.pool, hashed.table,
        hashed.table.slots, tok
    ensures linear.Sane() && hashed.Sane() && |a| == |b| == |ops| && Agree(a, b)
    ensures NoneOutOfMemory(b) ==> a == b && linear.Bare() == hashed.Bare() && linear.Valid() && hashed.Valid()
  {
    hide Regular, Sound, Agree, AllPermitted, IndexRep, TreeRep, Nested, KeyRefs;
    ContextSound(linear);
    ContextSound(hashed);
    ghost var d, e := linear.Value(), hashed.Value();
    a := Execute(linear, tok, ops);
    b := Execute(hashed, tok, ops);
    AnswerCount(d, ops, linear.pool.Length);
    AnswerCount(e, ops, linear.pool.Length);
    SameAnswers(d, e, ops, linear.pool.Length);
  }

  lemma {:induction false} AnswerCount(d: Doc, ops: seq<Op>, cap: nat)
    ensures |Answers(d, ops, cap)| == |ops|
    decreases |ops|
  {
    if ops != [] { AnswerCount(Apply(d, ops[0], cap).doc, ops[1..], cap); }
  }
}
