/** The editing and lookup calls of src/jes.c. Each is tied to a function on documents, in which the
    search mode shows only as what a search finds and as the room for one more key. */
module Api {
  import opened Codes
  import opened Forests
  import opened Pool
  import opened Shapes
  import opened Lexer
  import opened Fnv
  import opened KeyIndex
  import opened Machine
  import opened Tree
  import opened Parser
  import opened Tokenizer

  /** What a call leaves behind: the document, the status, and the node it returns or NONE. */
  datatype Outcome = Outcome(doc: Doc, status: Status, node: nat)

  /** A pointer to a text and its length, as callers pass it: NULL, or so many characters. */
  datatype Argument = Missing | Given(text: string)

  function Refused(d: Doc, status: Status): Outcome { Outcome(d, status, NONE) }

  /** A key for which the index has no room is in the tree all the same. */
  ghost function PutKey(d: Doc, p: nat, a: nat, keyword: string, cap: nat): Outcome {
    if Found(d, p, keyword) != NONE then Refused(d, DuplicateKey)
    else if Size(d.forest) >= cap then Refused(d, OutOfMemory)
    else
      Outcome(WithKey(Inserted(d, p, a, Key, keyword), KeyRef(p, NewId(d), keyword)),
              if NoRoom(d.index) then OutOfMemory else NoError, NewId(d))
  }

  function PutValue(d: Doc, p: nat, a: nat, kind: Kind, text: string, cap: nat): Outcome {
    if Size(d.forest) >= cap then Refused(d, OutOfMemory)
    else Outcome(Inserted(d, p, a, kind, text), NoError, NewId(d))
  }

  /** jes_add_key; `accepted` is the verdict of jes_tokenizer_validate_string on the name */
  ghost function AddedKey(d: Doc, parent: nat, keyword: string, accepted: bool, cap: nat): Outcome {
    var k, kids := KindAt(d.forest, parent), KidsAt(d.forest, parent);
    if (k != Object && k != Key) || keyword == "" || !accepted then Refused(d, InvalidParameter)
    else if k == Object then PutKey(d, parent, Last(kids), Clip(keyword), cap)
    else if kids.Nil? then
      var o := PutValue(d, parent, NONE, Object, "{", cap);
      if o.node == NONE then Refused(d, OutOfMemory) else PutKey(o.doc, o.node, NONE, Clip(keyword), cap)
    else if kids.kind != Object then Refused(d, UnexpectedElement)
    else PutKey(d, kids.id, Last(kids.kids), Clip(keyword), cap)
  }

  /** jes_add_key_before: behind the left sibling of `key`, or in front of it all */
  ghost function AddedKeyBefore(d: Doc, key: nat, keyword: string, cap: nat): Outcome {
    if KindAt(d.forest, key) != Key then Refused(d, InvalidParameter)
    else PutKey(d, Parent(d.forest, key, NONE), Prev(d.forest, key, NONE), Clip(keyword), cap)
  }

  /** jes_add_key_after */
  ghost function AddedKeyAfter(d: Doc, key: nat, keyword: string, cap: nat): Outcome {
    if KindAt(d.forest, key) != Key then Refused(d, InvalidParameter)
    else PutKey(d, Parent(d.forest, key, NONE), key, Clip(keyword), cap)
  }

  /** jes_tokenizer_validate_number: a number starts the text; what follows it is not looked at */
  predicate NumberAccepted(value: string) {
    value != "" && (IsDigit(value[0]) || value[0] == '-') && ScanNumber(value, 0).Ok?
  }

  predicate ElementAccepted(kind: Kind, value: string, accepted: bool) {
    match kind
    case Number => NumberAccepted(value)
    case Str | Key => value != "" && accepted
    case Unknown => false
    case _ => true
  }

  /** jes_update_key_value on a key: the old value goes first, even when the new one is refused */
  ghost function UpdatedKeyValue(d: Doc, key: nat, kind: Kind, value: Argument, accepted: bool, cap: nat): Outcome {
    if key !in Ids(d.forest) || value.Missing? || value.text == "" then Refused(d, InvalidParameter)
    else
      var kids := KidsAt(d.forest, key);
      var d' := if kids.Nil? || kids.id !in Ids(d.forest) then d else Deleted(d, kids.id);
      if !ElementAccepted(kind, value.text, accepted) then Refused(d', InvalidParameter)
      else PutValue(d', key, NONE, kind, Clip(value.text), cap)
  }

  /** jes_append_array_value */
  function AppendedValue(d: Doc, list: nat, kind: Kind, value: Argument, cap: nat): Outcome {
    if KindAt(d.forest, list) != Array || value.Missing? then Refused(d, InvalidParameter)
    else PutValue(d, list, Last(KidsAt(d.forest, list)), kind, Clip(value.text), cap)
  }

  /** jes_delete_element */
  ghost function DeletedElement(d: Doc, id: nat): Outcome {
    if id !in Ids(d.forest) then Refused(d, InvalidParameter) else Refused(Deleted(d, id), NoError)
  }

  /** The length of the path up to the separator. */
  function SegmentLength(path: string, separator: char): (n: nat)
    ensures n <= |path|
    ensures forall i :: 0 <= i < n ==> path[i] != separator
    ensures n < |path| ==> path[n] == separator
  {
    if path == "" || path[0] == separator then 0 else 1 + SegmentLength(path[1..], separator)
  }

  /** Following a path of names from an object, or from a key to its value. */
  ghost function Lookup(d: Doc, start: nat, path: string, separator: char): nat
    decreases |path|
  {
    var n := SegmentLength(path, separator);
    var key := Found(d, Scope(d.forest, start), path[..n]);
    if key == NONE || n == |path| then key else Lookup(d, key, path[n + 1..], separator)
  }

  /** jes_get_key */
  ghost function FoundKey(d: Doc, parent: nat, path: string, separator: char): (nat, Status) {
    if KindAt(d.forest, parent) != Object && KindAt(d.forest, parent) != Key then (NONE, InvalidParameter)
    else
      var key := Lookup(d, parent, path, separator);
      (key, if key == NONE then ElementNotFound else NoError)
  }

  /** A call did what its function says. */
  ghost predicate Done(ctx: Context, n: nat, r: Outcome)
    reads ctx
  {
    Outcome(ctx.Value(), ctx.status, n) == r
  }

  /** Where a child of `p` may be put: behind another child, or in front of all. */
  ghost predicate Place(f: Forest, p: nat, a: nat) {
    p in Ids(f) && (a != NONE ==> a in Ids(f) && Parent(f, a, NONE) == p)
  }

  ghost predicate KeyPlace(f: Forest, p: nat, a: nat) { Place(f, p, a) && At(f, p).kind == Object }

  /** jes_tree_insert_key_node, as the calls below use it */
  method InsertKey(ctx: Context, parent: nat, anchor: nat, keyword: string) returns (n: nat)
    requires ctx.Sane() && ctx.status == NoError && KeyPlace(ctx.forest, parent, anchor)
    modifies ctx`nodeCount, ctx`nextFree, ctx`freed, ctx`status, ctx`free, ctx`root, ctx`forest, ctx`indexed, ctx.pool,
        ctx.table,
             ctx.table.slots
    ensures ctx.Sane() && Done(ctx, n, PutKey(old(ctx.Value()), parent, anchor, keyword, ctx.pool.Length))
  {
    hide IndexRep, SeparatesParents, KeyHash, TreeRep, Rep, Nested;
    ghost var d := ctx.Value();
    ctx.Bounds();
    n := ctx.InsertKeyNode(parent, anchor, keyword);
    PutKeyDone(d, ctx.Value(), ctx.status, n, parent, anchor, keyword, ctx.pool.Length);
  }

  lemma PutKeyDone(d: Doc, d': Doc, status: Status, n: nat, p: nat, a: nat, keyword: string, cap: nat)
    requires Found(d, p, keyword) != NONE ==> n == NONE && status == DuplicateKey && d' == d
    requires Found(d, p, keyword) == NONE && Size(d.forest) >= cap ==> n == NONE && status == OutOfMemory && d' == d
    requires Found(d, p, keyword) == NONE && Size(d.forest) < cap ==> (
               && n == NewId(d) && d' == WithKey(Inserted(d, p, a, Key, keyword), KeyRef(p, n, keyword))
               && status == if NoRoom(d.index) then OutOfMemory else NoError)
    ensures Outcome(d', status, n) == PutKey(d, p, a, keyword, cap)
  {
  }

  /** A node handle of the caller: live, or NULL. */
  ghost predicate Handle(ctx: Context, id: nat)
    reads ctx`forest
  {
    id == NONE || id in Ids(ctx.forest)
  }

  lemma ReadNode(ctx: Context, id: nat)
    requires ctx.Sane() && Handle(ctx, id)
    ensures NONE !in Ids(ctx.forest) && (id == NONE || id < ctx.pool.Length) && Distinct(ctx.forest)
    ensures ctx.nodeCount == Size(ctx.forest) <= ctx.pool.Length && ctx.root == Head(ctx.forest)
    ensures NodeType(ctx.pool, id) == KindAt(ctx.forest, id)
    ensures id in Ids(ctx.forest) ==>
      && ctx.pool[id].first == Head(KidsAt(ctx.forest, id)) && ctx.pool[id].last == Last(KidsAt(ctx.forest, id))
      && ctx.pool[id].parent == Parent(ctx.forest, id, NONE)
      && HasChild(ctx.pool, id) == KidsAt(ctx.forest, id).Cons?
  {
    ctx.Bounds();
    if id in Ids(ctx.forest) {
      RepAt(ctx.pool[..], ctx.forest, NONE, id);
      AtIds(ctx.forest, id);
    }
  }

  /** The last child of an object is a place behind which a key may go. */
  lemma LastPlace(f: Forest, p: nat)
    requires Distinct(f) && p in Ids(f) && At(f, p).kind == Object && NONE !in Ids(f)
    ensures KeyPlace(f, p, Last(At(f, p).kids))
  {
    var kids := At(f, p).kids;
    if kids.Cons? {
      AtIds(f, p);
      LastTop(kids, p);
      Below(f, NONE, p, Last(kids));
    }
  }

  /** The end of jes_add_key: behind the last child of the object */
  method AppendKey(ctx: Context, obj: nat, keyword: string) returns (n: nat)
    requires ctx.Sane() && ctx.status == NoError && obj in Ids(ctx.forest) && At(ctx.forest, obj).kind == Object
    modifies ctx`nodeCount, ctx`nextFree, ctx`freed, ctx`status, ctx`free, ctx`root, ctx`forest, ctx`indexed, ctx.pool,
        ctx.table,
             ctx.table.slots
    ensures ctx.Sane()
    ensures Done(ctx, n, PutKey(old(ctx.Value()), obj, Last(old(KidsAt(ctx.forest, obj))), Clip(keyword),
        ctx.pool.Length))
  {
    hide IndexRep, SeparatesParents, KeyHash, TreeRep;
    ReadNode(ctx, obj);
    LastPlace(ctx.forest, obj);
    n := InsertKey(ctx, obj, if HasChild(ctx.pool, obj) then ctx.pool[obj].last else NONE, Clip(keyword));
  }

  /** jes_add_key */
  method AddKey(ctx: Context, parent: nat, keyword: string, accepted: bool) returns (n: nat)
    requires ctx.Sane() && Handle(ctx, parent)
    modifies ctx`nodeCount, ctx`nextFree, ctx`freed, ctx`status, ctx`free, ctx`root, ctx`forest, ctx`indexed, ctx.pool,
        ctx.table,
             ctx.table.slots
    ensures ctx.Sane() && Done(ctx, n, AddedKey(old(ctx.Value()), parent, keyword, accepted, ctx.pool.Length))
  {
    hide IndexRep, SeparatesParents, KeyHash, TreeRep;
    ReadNode(ctx, parent);
    ctx.status := NoError;
    var kind := NodeType(ctx.pool, parent);
    if (kind != Object && kind != Key) || keyword == "" || !accepted {
      ctx.status := InvalidParameter;
      return NONE;
    }
    if kind == Key {
      n := AddKeyBelowKey(ctx, parent, keyword);
    } else {
      n := AppendKey(ctx, parent, keyword);
    }
  }

  /** The key case of jes_add_key: the new key goes into the object that is the value of `parent`,
      or becomes one */
  method AddKeyBelowKey(ctx: Context, parent: nat, keyword: string) returns (n: nat)
    requires ctx.Sane() && ctx.status == NoError && parent in Ids(ctx.forest) && At(ctx.forest, parent).kind == Key
    requires keyword != ""
    modifies ctx`nodeCount, ctx`nextFree, ctx`freed, ctx`status, ctx`free, ctx`root, ctx`forest, ctx`indexed, ctx.pool,
        ctx.table,
             ctx.table.slots
    ensures ctx.Sane() && Done(ctx, n, AddedKey(old(ctx.Value()), parent, keyword, true, ctx.pool.Length))
  {
    hide IndexRep, SeparatesParents, KeyHash, TreeRep;
    ReadNode(ctx, parent);
    var obj := ctx.pool[parent].first;
    if obj == NONE {
      n := AddObjectAndKey(ctx, parent, keyword);
      return;
    }
    FirstChild(ctx.forest, parent);
    ReadNode(ctx, obj);
    if NodeType(ctx.pool, obj) != Object {
      ctx.status := UnexpectedElement;
      return NONE;
    }
    n := AppendKey(ctx, obj, keyword);
  }

  lemma FirstChild(f: Forest, p: nat)
    requires p in Ids(f) && Distinct(f) && At(f, p).kids.Cons?
    ensures var kids := At(f, p).kids; kids.id in Ids(f) && At(f, kids.id) == kids && Parent(f, kids.id, NONE) == p
  {
    AtIds(f, p);
    Below(f, NONE, p, At(f, p).kids.id);
  }

  /** A key without a value first gets an object for one */
  method AddObjectAndKey(ctx: Context, parent: nat, keyword: string) returns (n: nat)
    requires ctx.Sane() && ctx.status == NoError && parent in Ids(ctx.forest) && At(ctx.forest, parent).kind == Key
    requires keyword != "" && At(ctx.forest, parent).kids.Nil?
    modifies ctx`nodeCount, ctx`nextFree, ctx`freed, ctx`status, ctx`free, ctx`root, ctx`forest, ctx`indexed, ctx.pool,
        ctx.table,
             ctx.table.slots
    ensures ctx.Sane() && Done(ctx, n, AddedKey(old(ctx.Value()), parent, keyword, true, ctx.pool.Length))
  {
    hide IndexRep, SeparatesParents, KeyHash, TreeRep;
    ctx.Bounds();
    ghost var d := ctx.Value();
    var obj := ctx.InsertValue(parent, NONE, Object, "{");
    if obj == NONE {
      // Without an object the search for the name is in vain, and the insertion fails as well.
      ctx.Bounds();
      NoneFound(ctx, Clip(keyword));
      n := ctx.InsertKeyNode(NONE, NONE, Clip(keyword));
    } else {
      NewObject(d.forest, parent, NewId(d));
      n := InsertKey(ctx, obj, NONE, Clip(keyword));
    }
  }

  /** Without an object nothing is found. */
  lemma NoneFound(ctx: Context, keyword: string)
    requires ctx.Sane()
    ensures Found(ctx.Value(), NONE, keyword) == NONE
  {
    ctx.Bounds();
    if ctx.mode == Hashed {
      forall r | r in ctx.indexed ensures !Goes(r, NONE, keyword) { KeyRefParent(ctx.forest, r); }
      NamedNone(ctx.indexed, NONE, keyword);
    }
  }

  lemma {:induction false} NewObject(f: Forest, p: nat, n: nat)
    requires p in Ids(f) && n !in Ids(f) && At(f, p).kids.Nil? && Distinct(f)
    ensures var g := InsertFirst(f, p, Leaf(n, Object, "{"));
      n in Ids(g) && At(g, n) == Leaf(n, Object, "{") && Ids(g) == Ids(f) + {n}
  {
    var leaf := Leaf(n, Object, "{");
    if f.id == p {
    } else if p in Ids(f.kids) {
      NewObject(f.kids, p, n);
      AbsentInsertFirst(f.sibs, p, leaf);
    } else {
      AbsentInsertFirst(f.kids, p, leaf);
      NewObject(f.sibs, p, n);
    }
  }

  /** A key sits in an object. */
  lemma KeyParent(f: Forest, key: nat)
    requires Nested(f, Unknown) && Distinct(f) && NONE !in Ids(f) && key in Ids(f) && At(f, key).kind == Key
    ensures Parent(f, key, NONE) in Ids(f) && At(f, Parent(f, key, NONE)).kind == Object
  {
    AtKeyRef(f, NONE, key);
    KeyRefParent(f, KeyRef(Parent(f, key, NONE), key, At(f, key).text));
  }

  /** The left sibling has the same parent. */
  lemma {:induction false} PrevSibling(f: Forest, q: nat, id: nat, b: nat)
    requires id in Ids(f) && Distinct(f) && b !in Ids(f) && NONE !in Ids(f) && Prev(f, id, b) in Ids(f)
    ensures Parent(f, Prev(f, id, b), q) == Parent(f, id, q)
  {
    if id in Ids(f.kids) {
      PrevFact(f.kids, id, NONE);
      PrevSibling(f.kids, f.id, id, NONE);
    } else {
      PrevFact(f.sibs, id, f.id);
      if Prev(f.sibs, id, f.id) in Ids(f.sibs) { PrevSibling(f.sibs, q, id, f.id); }
    }
  }

  lemma BeforePlace(f: Forest, key: nat)
    requires Nested(f, Unknown) && Distinct(f) && NONE !in Ids(f) && key in Ids(f) && At(f, key).kind == Key
    ensures KeyPlace(f, Parent(f, key, NONE), Prev(f, key, NONE))
  {
    KeyParent(f, key);
    PrevFact(f, key, NONE);
    if Prev(f, key, NONE) != NONE { PrevSibling(f, NONE, key, NONE); }
  }

  /** jes_add_key_before; the loop over the keys of the object is jes_get_left_sibling's */
  method AddKeyBefore(ctx: Context, key: nat, keyword: string) returns (n: nat)
    requires ctx.Sane() && Handle(ctx, key)
    modifies ctx`nodeCount, ctx`nextFree, ctx`freed, ctx`status, ctx`free, ctx`root, ctx`forest, ctx`indexed, ctx.pool,
        ctx.table,
             ctx.table.slots
    ensures ctx.Sane() && Done(ctx, n, AddedKeyBefore(old(ctx.Value()), key, keyword, ctx.pool.Length))
  {
    hide IndexRep, SeparatesParents, KeyHash, TreeRep;
    ReadNode(ctx, key);
    ctx.status := NoError;
    if NodeType(ctx.pool, key) != Key {
      ctx.status := InvalidParameter;
      return NONE;
    }
    BeforePlace(ctx.forest, key);
    var before := ctx.GetLeftSibling(key);
    n := InsertKey(ctx, ctx.pool[key].parent, before, Clip(keyword));
  }

  /** jes_add_key_after */
  method AddKeyAfter(ctx: Context, key: nat, keyword: string) returns (n: nat)
    requires ctx.Sane() && Handle(ctx, key)
    modifies ctx`nodeCount, ctx`nextFree, ctx`freed, ctx`status, ctx`free, ctx`root, ctx`forest, ctx`indexed, ctx.pool,
        ctx.table,
             ctx.table.slots
    ensures ctx.Sane() && Done(ctx, n, AddedKeyAfter(old(ctx.Value()), key, keyword, ctx.pool.Length))
  {
    hide IndexRep, SeparatesParents, KeyHash, TreeRep;
    ReadNode(ctx, key);
    ctx.status := NoError;
    if NodeType(ctx.pool, key) != Key {
      ctx.status := InvalidParameter;
      return NONE;
    }
    KeyParent(ctx.forest, key);
    n := InsertKey(ctx, ctx.pool[key].parent, key, Clip(keyword));
  }

  /** jes_tokenizer_validate_number */
  method ValidateNumber(value: string) returns (status: Status)
    ensures status == NoError <==> NumberAccepted(value)
  {
    var cursor := new TokenizerContext();
    cursor.text := value;
    if !IsDigit(cursor.GetChar()) && cursor.GetChar() != '-' {
      return InvalidNumber;
    }
    status := cursor.ProcessInteger();
  }

  lemma PutValueDone(d: Doc, d': Doc, status: Status, n: nat, p: nat, a: nat, kind: Kind, text: string, cap: nat)
    requires Size(d.forest) < cap ==> n == NewId(d) && status == NoError && d' == Inserted(d, p, a, kind, text)
    requires Size(d.forest) >= cap ==> n == NONE && status == OutOfMemory && d' == d
    ensures Outcome(d', status, n) == PutValue(d, p, a, kind, text, cap)
  {
  }

  /** jes_tree_insert_node for a value, as the calls below use it */
  method InsertElement(ctx: Context, parent: nat, anchor: nat, kind: Kind, text: string) returns (n: nat)
    requires ctx.Sane() && ctx.status == NoError && CanInsert(ctx.forest, parent, anchor, kind) && kind != Key
    modifies ctx`nodeCount, ctx`nextFree, ctx`freed, ctx`status, ctx`free, ctx`root, ctx`forest, ctx.pool
    ensures ctx.Sane()
    ensures Done(ctx, n, PutValue(old(ctx.Value()), parent, anchor, kind, text, ctx.pool.Length))
  {
    hide IndexRep, SeparatesParents, KeyHash, TreeRep;
    ghost var d := ctx.Value();
    ctx.Bounds();
    n := ctx.InsertValue(parent, anchor, kind, text);
    PutValueDone(d, ctx.Value(), ctx.status, n, parent, anchor, kind, text, ctx.pool.Length);
  }

  /** jes_add_element below a key without a value */
  method AddElement(ctx: Context, key: nat, kind: Kind, value: string, accepted: bool) returns (n: nat)
    requires ctx.Sane() && value != "" && kind != Key
    requires key in Ids(ctx.forest) && At(ctx.forest, key).kind == Key && At(ctx.forest, key).kids.Nil?
    modifies ctx`nodeCount, ctx`nextFree, ctx`freed, ctx`status, ctx`free, ctx`root, ctx`forest, ctx.pool
    ensures ctx.Sane()
    ensures Done(ctx, n, var d := old(ctx.Value());
                         if !ElementAccepted(kind, value, accepted) then Refused(d, InvalidParameter)
                         else PutValue(d, key, NONE, kind, Clip(value), ctx.pool.Length))
  {
    hide IndexRep, SeparatesParents, KeyHash, TreeRep;
    ReadNode(ctx, key);
    ctx.status := NoError;
    var ok := CheckElement(kind, value, accepted);
    if !ok {
      ctx.status := InvalidParameter;
      return NONE;
    }
    // The last child of a key without a value is no node.
    n := InsertElement(ctx, key, NONE, kind, Clip(value));
  }

  /** The switch of jes_add_element */
  method CheckElement(kind: Kind, value: string, accepted: bool) returns (ok: bool)
    requires value != ""
    ensures ok == ElementAccepted(kind, value, accepted)
  {
    if kind == Number {
      var verdict := ValidateNumber(value);
      ok := verdict == NoError;
    } else {
      ok := if kind == Key || kind == Str then accepted else kind != Unknown;
    }
  }

  /** Deleting the value of a key leaves the key without one. */
  lemma ValueGone(f: Forest, key: nat)
    requires Nested(f, Unknown) && Distinct(f) && NONE !in Ids(f)
    requires key in Ids(f) && At(f, key).kind == Key && At(f, key).kids.Cons?
    ensures var kid := At(f, key).kids.id;
      && kid in Ids(f) && kid != f.id && key in Ids(Cut(f, kid))
      && At(Cut(f, kid), key).kind == Key && At(Cut(f, kid), key).kids.Nil?
  {
    NestedAt(f, Unknown, key);
    Below(f, NONE, key, At(f, key).kids.id);
    CutBelow(f, NONE, key, At(f, key).kids.id);
    if f.id != key && At(f, key).kids.id == f.id { AtIds(f, key); }
  }

  /** jes_update_key_value on a key */
  method UpdateKeyValue(ctx: Context, key: nat, kind: Kind, value: Argument, accepted: bool) returns (n: nat)
    requires ctx.Sane() && Handle(ctx, key) && kind != Key
    requires key != NONE ==> At(ctx.forest, key).kind == Key
    modifies ctx`nodeCount, ctx`nextFree, ctx`freed, ctx`status, ctx`free, ctx`root, ctx`forest, ctx`indexed, ctx.pool,
        ctx.table,
             ctx.table.slots
    ensures ctx.Sane()
    ensures Done(ctx, n, UpdatedKeyValue(old(ctx.Value()), key, kind, value, accepted, ctx.pool.Length))
  {
    hide IndexRep, SeparatesParents, KeyHash, TreeRep;
    ReadNode(ctx, key);
    if key == NONE || value.Missing? || value.text == "" {
      ctx.status := InvalidParameter;
      return NONE;
    }
    if At(ctx.forest, key).kids.Cons? { ValueGone(ctx.forest, key); }
    ctx.DeleteNode(ctx.pool[key].first);
    n := AddElement(ctx, key, kind, value.text, accepted);
  }

  /** jes_append_array_value with a value type */
  method AppendArrayValue(ctx: Context, list: nat, kind: Kind, value: Argument) returns (n: nat)
    requires ctx.Sane() && Handle(ctx, list) && (IsScalar(kind) || IsContainer(kind))
    modifies ctx`nodeCount, ctx`nextFree, ctx`freed, ctx`status, ctx`free, ctx`root, ctx`forest, ctx.pool
    ensures ctx.Sane()
    ensures Done(ctx, n, AppendedValue(old(ctx.Value()), list, kind, value, ctx.pool.Length))
  {
    hide IndexRep, SeparatesParents, KeyHash, TreeRep;
    ReadNode(ctx, list);
    ctx.status := NoError;
    if NodeType(ctx.pool, list) != Array || value.Missing? {
      ctx.status := InvalidParameter;
      return NONE;
    }
    LastChild(ctx.forest, list);
    n := InsertElement(ctx, list, if HasChild(ctx.pool, list) then ctx.pool[list].last else NONE, kind,
        Clip(value.text));
  }

  lemma LastChild(f: Forest, p: nat)
    requires Distinct(f) && p in Ids(f) && NONE !in Ids(f)
    ensures var a := Last(At(f, p).kids); a != NONE ==> a in Ids(f) && Parent(f, a, NONE) == p
  {
    var kids := At(f, p).kids;
    if kids.Cons? {
      AtIds(f, p);
      LastTop(kids, p);
      Below(f, NONE, p, Last(kids));
    }
  }

  /** jes_delete_element on any node but the root */
  method DeleteElement(ctx: Context, element: nat)
    requires ctx.Sane() && Handle(ctx, element) && element != ctx.root
    modifies ctx`nodeCount, ctx`freed, ctx`status, ctx`free, ctx`forest, ctx`indexed, ctx.pool, ctx.table,
        ctx.table.slots
    ensures ctx.Sane()
    ensures Done(ctx, NONE, DeletedElement(old(ctx.Value()), element))
  {
    hide IndexRep, SeparatesParents, KeyHash, TreeRep;
    ctx.Bounds();
    ctx.status := NoError;
    if element == NONE {
      ctx.status := InvalidParameter;
    } else {
      ctx.DeleteNode(element);
    }
  }

  /** Where the lookup of one name starts: below a key, in its value. */
  function Scope(f: Forest, id: nat): nat { if KindAt(f, id) == Key then Head(KidsAt(f, id)) else id }

  /** One round of the loop in jes_get_key */
  method GetSegment(ctx: Context, start: nat, name: string) returns (key: nat)
    requires ctx.Sane() && start in Ids(ctx.forest)
    modifies ctx`status
    ensures key == Found(ctx.Value(), Scope(ctx.forest, start), name) && Handle(ctx, key)
    ensures key != NONE ==> ctx.status == old(ctx.status)
  {
    hide IndexRep, SeparatesParents, KeyHash, TreeRep;
    ReadNode(ctx, start);
    var iter := start;
    if NodeType(ctx.pool, iter) == Key {
      if At(ctx.forest, iter).kids.Cons? { FirstChild(ctx.forest, iter); }
      iter := ctx.pool[iter].first;
    }
    key := ctx.Find(iter, name);
  }

  /** jes_get_key: one lookup per name on the path */
  method GetKey(ctx: Context, parent: nat, path: string, separator: char) returns (target: nat)
    requires ctx.Sane() && Handle(ctx, parent)
    modifies ctx`status
    ensures (target, ctx.status) == FoundKey(ctx.Value(), parent, path, separator)
  {
    hide IndexRep, SeparatesParents, KeyHash, TreeRep;
    ReadNode(ctx, parent);
    if NodeType(ctx.pool, parent) != Object && NodeType(ctx.pool, parent) != Key {
      ctx.status := InvalidParameter;
      return NONE;
    }
    ctx.status := NoError;
    target := WalkPath(ctx, parent, path, separator);
    if target == NONE {
      ctx.status := ElementNotFound;
    }
  }

  /** The loop of jes_get_key */
  method WalkPath(ctx: Context, parent: nat, path: string, separator: char) returns (target: nat)
    requires ctx.Sane() && parent in Ids(ctx.forest)
    modifies ctx`status
    ensures target == Lookup(ctx.Value(), parent, path, separator)
    ensures target != NONE ==> ctx.status == old(ctx.status)
  {
    hide IndexRep, SeparatesParents, KeyHash, TreeRep;
    ctx.Bounds();
    target := NONE;
    var iter, rest := parent, path;
    while iter != NONE
      invariant Handle(ctx, iter) && target == NONE && (iter != NONE ==> ctx.status == old(ctx.status))
      invariant Lookup(ctx.Value(), parent, path, separator)
             == if iter == NONE then NONE else Lookup(ctx.Value(), iter, rest, separator)
      decreases if iter == NONE then 0 else |rest| + 1
    {
      var n := SegmentLength(rest, separator);
      iter := GetSegment(ctx, iter, rest[..n]);
      if iter != NONE {
        if n == |rest| {
          target := iter;
          break;
        }
        rest := rest[n + 1..];
      }
    }
  }
}
