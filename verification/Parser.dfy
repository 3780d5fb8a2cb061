/** The parser of src/jes_parser.c: a loop over tokens that moves an iterator through the pool
    and grows the tree there, proved to follow the transition system of Machine. */
module Parser {
  import opened Codes
  import opened Forests
  import opened Pool
  import opened Shapes
  import opened HashTable
  import opened Fnv
  import opened KeyIndex
  import opened Lexer
  import opened Tokenizer
  import opened Machine
  import opened Spines
  import opened Tree

  /** NODE_TYPE */
  function NodeType(pool: array<Cell>, id: nat): Kind
    requires id == NONE || id < pool.Length
    reads pool
  {
    if id == NONE then Unknown else pool[id].kind
  }

  /** HAS_CHILD */
  predicate HasChild(pool: array<Cell>, id: nat)
    requires id == NONE || id < pool.Length
    reads pool
  {
    id != NONE && pool[id].first < NONE
  }

  /** The pool holds the tree of spine `s`. */
  ghost predicate Sits(ctx: Context, s: Spine)
    reads ctx, ctx.pool
  {
    ctx.TreeOk() && SpineOk(s) && Plug(s) == ctx.forest
  }

  /** The context is in configuration `c`; behind an error only the tree and the status are. */
  ghost predicate Mirrors(ctx: Context, c: Config)
    reads ctx
  {
    && ctx.forest == Plug(c.spine) && ctx.free == [] && ctx.nextFree == c.next && ctx.status == c.status
    && (c.status == NoError ==> ctx.iter == Iter(c.spine) && ctx.state == c.state)
  }

  lemma CellOf(ctx: Context, s: Spine)
    requires Sits(ctx, s)
    ensures s.Frame? ==>
      && s.id < ctx.pool.Length && s.id != NONE && Matches(ctx.pool[s.id], Current(s), Iter(s.up))
      && s.id in Ids(ctx.forest) && Iter(Pop(s)) == Iter(s.up) && Sits(ctx, Pop(s))
    ensures Iter(s) == NONE || Iter(s) < ctx.pool.Length
    ensures NodeType(ctx.pool, Iter(s)) == KindOf(s)
    ensures s.Frame? ==> HasChild(ctx.pool, s.id) == s.kids.Cons?
  {
    if s.Frame? {
      CurrentCell(ctx.pool[..], s);
      if s.kids.Cons? {
        RepAt(ctx.pool[..], ctx.forest, NONE, s.id);
        CurrentAt(s);
      }
    }
  }

  /** jes_tree_get_parent_node_by_type */
  method GetParentByType(ctx: Context, node: nat, kind: Kind, ghost s: Spine) returns (parent: nat)
    requires Sits(ctx, s) && s.Frame? && node == s.id
    ensures parent == Iter(Climb(s, {kind}))
  {
    CellOf(ctx, s);
    parent := ctx.pool[node].parent;
    ghost var p := Pop(s);
    CellOf(ctx, p);
    while parent != NONE && NodeType(ctx.pool, parent) != kind
      invariant Sits(ctx, p) && parent == Iter(p) && (parent == NONE || parent < ctx.pool.Length)
      invariant NodeType(ctx.pool, parent) == KindOf(p) && (parent == NONE <==> p.Top?)
      invariant Climb(s, {kind}) == if p.Top? || p.kind in {kind} then p else Climb(p, {kind})
      decreases Depth(p)
    {
      CellOf(ctx, p);
      parent := ctx.pool[parent].parent;
      p := Pop(p);
      CellOf(ctx, p);
    }
  }

  /** jes_tree_get_container_parent_node */
  method GetContainerParent(ctx: Context, node: nat, ghost s: Spine) returns (parent: nat)
    requires Sits(ctx, s) && s.Frame? && node == s.id
    ensures parent == Iter(ContainerParent(s))
  {
    CellOf(ctx, s);
    parent := ctx.pool[node].parent;
    ghost var p := Pop(s);
    CellOf(ctx, p);
    while parent != NONE && NodeType(ctx.pool, parent) != Object && NodeType(ctx.pool, parent) != Array
      invariant Sits(ctx, p) && parent == Iter(p) && (parent == NONE || parent < ctx.pool.Length)
      invariant NodeType(ctx.pool, parent) == KindOf(p) && (parent == NONE <==> p.Top?)
      invariant ContainerParent(s) == if p.Top? || p.kind in {Object, Array} then p else Climb(p, {Object, Array})
      decreases Depth(p)
    {
      CellOf(ctx, p);
      parent := ctx.pool[parent].parent;
      p := Pop(p);
      CellOf(ctx, p);
    }
  }

  /** The end of both closing handlers: from the closed container up to its own container */
  method LeaveContainer(ctx: Context, ghost c: Config, ghost s: Spine)
    requires Sits(ctx, s) && ctx.iter == Iter(s) && ctx.status == NoError
    requires ctx.free == [] && ctx.nextFree == c.next
    modifies ctx`iter, ctx`state
    ensures Mirrors(ctx, Closed(c, s))
  {
    CellOf(ctx, s);
    if s.Frame? { ClimbKeeps(s, {Object, Array}); }
    if ctx.iter != NONE {
      ctx.iter := GetContainerParent(ctx, ctx.iter, s);
    }
    if ctx.iter == NONE {
      ctx.state := ExpectEof;
      return;
    }
    ctx.state := HaveValue;
  }

  /** jes_parser_process_closing_brace */
  method ProcessClosingBrace(ctx: Context, ghost c: Config)
    requires Sits(ctx, c.spine) && Mirrors(ctx, c) && c.status == NoError && c.spine.Frame?
    modifies ctx`iter, ctx`state, ctx`status
    ensures Mirrors(ctx, CloseBrace(c))
  {
    ghost var s := c.spine;
    CellOf(ctx, s);
    if NodeType(ctx.pool, ctx.iter) == Object && ctx.state == ExpectKey && HasChild(ctx.pool, ctx.iter) {
      ctx.status := UnexpectedToken;
      return;
    }
    if NodeType(ctx.pool, ctx.iter) == Key || NodeType(ctx.pool, ctx.iter) == Array {
      ctx.status := UnexpectedToken;
      return;
    }
    if NodeType(ctx.pool, ctx.iter) != Object {
      ctx.iter := GetParentByType(ctx, ctx.iter, Object, s);
      ClimbKeeps(s, {Object});
      s := Climb(s, {Object});
    }
    LeaveContainer(ctx, c, s);
  }

  /** jes_parser_process_closing_bracket */
  method ProcessClosingBracket(ctx: Context, ghost c: Config)
    requires Sits(ctx, c.spine) && Mirrors(ctx, c) && c.status == NoError && c.spine.Frame?
    modifies ctx`iter, ctx`state, ctx`status
    ensures Mirrors(ctx, CloseBracket(c))
  {
    ghost var s := c.spine;
    CellOf(ctx, s);
    if NodeType(ctx.pool, ctx.iter) == Array && ctx.state == ExpectValue && HasChild(ctx.pool, ctx.iter) {
      ctx.status := UnexpectedToken;
      return;
    }
    if NodeType(ctx.pool, ctx.iter) != Array {
      ctx.iter := GetParentByType(ctx, ctx.iter, Array, s);
      ClimbKeeps(s, {Array});
      s := Climb(s, {Array});
    }
    LeaveContainer(ctx, c, s);
  }

  /** jes_parser_process_comma */
  method ProcessComma(ctx: Context, ghost c: Config)
    requires Sits(ctx, c.spine) && Mirrors(ctx, c) && c.status == NoError && c.spine.Frame?
    modifies ctx`iter, ctx`status
    ensures IsContainer(c.spine.kind) ==> ctx.status == if c.spine.kids.Nil? then UnexpectedToken else NoError
    ensures !IsContainer(c.spine.kind) ==> ctx.status == NoError
    ensures ctx.iter == Iter(CommaTarget(c.spine))
  {
    CellOf(ctx, c.spine);
    if NodeType(ctx.pool, ctx.iter) == Object || NodeType(ctx.pool, ctx.iter) == Array {
      if !HasChild(ctx.pool, ctx.iter) {
        ctx.status := UnexpectedToken;
      }
    } else {
      ctx.iter := GetContainerParent(ctx, ctx.iter, c.spine);
    }
  }

  /** Where a comma leads: to the current container, or to the one around the current value. */
  ghost function CommaTarget(s: Spine): Spine
    requires s.Frame?
  {
    if IsContainer(s.kind) then s else ContainerParent(s)
  }

  lemma CommaResult(c: Config)
    requires c.spine.Frame? && SpineOk(c.spine) && c.status == NoError
    ensures var r, c' := CommaTarget(c.spine), CommaStep(c);
      && SpineOk(r) && Plug(r) == Plug(c.spine) && Plug(c'.spine) == Plug(c.spine) && c'.next == c.next
      && c'.status == (if (r.Frame? ==> r.kids.Nil?) || !IsContainer(KindOf(r)) then UnexpectedToken else NoError)
      && (c'.status == NoError ==> c'.spine == r && c'.state == if r.kind == Array then ExpectValue else ExpectKey)
  {
    ClimbKeeps(c.spine, {Object, Array});
    hide SpineOk, Plug, Climb, Weight;
  }

  /** The comma case of jes_parser_process_have_value_state */
  method HaveValueComma(ctx: Context, ghost c: Config)
    requires Sits(ctx, c.spine) && Mirrors(ctx, c) && c.status == NoError && c.spine.Frame?
    modifies ctx`iter, ctx`state, ctx`status
    ensures Mirrors(ctx, CommaStep(c))
  {
    ghost var r := CommaTarget(c.spine);
    CommaResult(c);
    ProcessComma(ctx, c);
    CellOf(ctx, r);
    var kind := NodeType(ctx.pool, ctx.iter);
    if kind == Array || kind == Object {
      ctx.state := if kind == Array then ExpectValue else ExpectKey;
    } else {
      ctx.status := UnexpectedToken;
    }
  }

  // ----- growing the tree -----

  lemma LastTop(f: Forest, q: nat)
    requires f.Cons? && Distinct(f)
    ensures Last(f) in Ids(f) && Parent(f, Last(f), q) == q
  {
    if f.sibs.Cons? { LastIn(f.sibs); }
  }

  /** The node behind which a new last child goes. */
  ghost function Anchor(s: Spine): nat { if s.Frame? && s.kids.Cons? then Last(s.kids) else NONE }

  lemma Anchored(s: Spine)
    requires SpineOk(s) && Distinct(Plug(s)) && s.Frame? && s.kids.Cons?
    ensures Anchor(s) != NONE && Anchor(s) in Ids(Plug(s)) && Parent(Plug(s), Anchor(s), NONE) == Iter(s)
  {
    CurrentAt(s);
    AtIds(Plug(s), s.id);
    LastTop(s.kids, s.id);
    Below(Plug(s), NONE, s.id, Last(s.kids));
  }

  /** Inserting behind the last child of the current node is pushing on the spine. */
  lemma Pushed(d: Doc, s: Spine, kind: Kind, text: string)
    requires SpineOk(s) && d.forest == Plug(s) && Distinct(Plug(s)) && d.free == [] && (s.Top? ==> s.done.Nil?)
    ensures Inserted(d, Iter(s), Anchor(s), kind, text) == Doc(Plug(Frame(s, d.next, kind, text, Nil)), [], d.next + 1,
        d.index)
  {
    var leaf := Leaf(d.next, kind, text);
    PlugPush(s, d.next, kind, text);
    if s.Frame? {
      CurrentAt(s);
      if s.kids.Cons? {
        Anchored(s);
        LastIn(s.kids);
        InsertAfterLast(Plug(s), s.id, leaf);
      } else {
        InsertFirstIsGraft(Plug(s), s.id, leaf);
      }
    }
  }

  /** The current node takes a child of this kind and name, behind the others. */
  lemma AppendReady(ctx: Context, s: Spine, kind: Kind, text: string)
    requires ctx.Valid() && SpineOk(s) && Plug(s) == ctx.forest && Accepts(s, kind, text) && ctx.free == []
    ensures Iter(s) == NONE || Iter(s) < ctx.pool.Length
    ensures (if HasChild(ctx.pool, Iter(s)) then ctx.pool[Iter(s)].last else NONE) == Anchor(s)
    ensures CanInsert(ctx.forest, Iter(s), Anchor(s), kind)
    ensures ctx.nodeCount == ctx.nextFree && NodeType(ctx.pool, Iter(s)) == KindOf(s)
    ensures Inserted(ctx.Value(), Iter(s), Anchor(s), kind, text)
         == Doc(Plug(Frame(s, ctx.nextFree, kind, text, Nil)), [], ctx.nextFree + 1, ctx.Value().index)
  {
    CellOf(ctx, s);
    if s.Frame? { CurrentAt(s); }
    if s.Frame? && s.kids.Cons? { Anchored(s); }
    Pushed(ctx.Value(), s, kind, text);
  }

  /** What came out of an attempt to add a node: the new node is the current one of `c`. */
  ghost predicate Outcome(d: Doc, status: Status, n: nat, c: Config) {
    && d.forest == Plug(c.spine) && d.free == [] && d.next == c.next && status == c.status
    && (status == NoError ==> n == Iter(c.spine))
  }

  lemma ValueResult(c: Config, kind: Kind, text: string, state: State, cap: nat, d: Doc, d': Doc, status: Status,
      n: nat)
    requires d == Doc(Plug(c.spine), [], c.next, d.index) && c.status == NoError
    requires c.next < cap ==>
      n == c.next && status == NoError && d' == Doc(Plug(Frame(c.spine, c.next, kind, Clip(text), Nil)), [],
          c.next + 1, d.index)
    requires cap <= c.next ==> status == OutOfMemory && d' == d
    ensures Outcome(d', status, n, Insert(c, kind, text, state, cap))
  {
  }

  /** jes_tree_insert_node behind the last child of the iterator */
  method AppendValue(ctx: Context, kind: Kind, text: string, ghost c: Config) returns (n: nat)
    requires ctx.Valid() && SpineOk(c.spine) && Mirrors(ctx, c.(state := ctx.state)) && c.status == NoError
    requires kind != Key && Accepts(c.spine, kind, Clip(text))
    modifies ctx`nodeCount, ctx`nextFree, ctx`freed, ctx`status, ctx`free, ctx`root, ctx`forest, ctx.pool
    ensures ctx.Valid()
    ensures Outcome(ctx.Value(), ctx.status, n, Insert(c, kind, text, ctx.state, ctx.pool.Length))
  {
    hide IndexRep, SeparatesParents;
    ghost var d := ctx.Value();
    AppendReady(ctx, c.spine, kind, Clip(text));
    var anchor := if HasChild(ctx.pool, ctx.iter) then ctx.pool[ctx.iter].last else NONE;
    n := ctx.InsertValue(ctx.iter, anchor, kind, Clip(text));
    if n != NONE { RegularInserted(d, Iter(c.spine), Anchor(c.spine), kind, Clip(text)); }
    ValueResult(c, kind, text, ctx.state, ctx.pool.Length, d, ctx.Value(), ctx.status, n);
  }

  function RoomOf(ctx: Context): Room { if ctx.mode == Hashed then AtMost(ctx.table.slots.Length) else Unlimited }

  /** The keys of the document do not outnumber the table slots; linear search needs none. */
  predicate TableHolds(ctx: Context, f: Forest) { HasRoom(RoomOf(ctx), f) }

  /** The index of a document that was read up to the end of spine `s`: all its keys, or all but
      the last, for which there was no room. */
  ghost function IndexOf(s: Spine, room: Room): Index {
    if room.Unlimited? then Whole
    else if HasRoom(room, Plug(s)) || s.Top? then Listed(KeyRefs(Plug(s), NONE), room.n)
    else Listed(KeyRefs(Plug(s), NONE) - {KeyRef(Iter(s.up), s.id, s.text)}, room.n)
  }

  /** jes_tree_insert_key_node behind the last child of the iterator. A table that is too small
      for one more key ends the parse, with the key in the tree. */
  method AppendKey(ctx: Context, text: string, ghost c: Config) returns (n: nat)
    requires ctx.Valid() && SpineOk(c.spine) && Mirrors(ctx, c) && c.status == NoError
    requires c.spine.Frame? && c.spine.kind == Object
    modifies ctx`nodeCount, ctx`nextFree, ctx`freed, ctx`status, ctx`free, ctx`root, ctx`forest, ctx`indexed, ctx.pool,
             ctx.table, ctx.table.slots
    ensures ctx.Sane() && Shaped(ctx.forest, Unknown)
    ensures KeyOutcome(ctx.Value(), ctx.status, n, RoomOf(ctx),
        ExpectKeyStep(c, Token(StringToken, text), ctx.pool.Length))
  {
    hide IndexRep, SeparatesParents, TreeRep, Rep, Clip;
    ghost var d, p, a := ctx.Value(), Iter(c.spine), Anchor(c.spine);
    ctx.Bounds();
    KeyReady(ctx, c, Clip(text));
    var anchor := if HasChild(ctx.pool, ctx.iter) then ctx.pool[ctx.iter].last else NONE;
    n := ctx.InsertKeyNode(ctx.iter, anchor, Clip(text));
    if n != NONE { InsertedNames(d, p, a, Key, Clip(text)); }
    KeyResult(c, text, ctx.pool.Length, d, ctx.Value(), ctx.status, n, RoomOf(ctx));
  }

  /** What came out of an attempt to add a key. */
  ghost predicate KeyOutcome(d: Doc, status: Status, n: nat, room: Room, c: Config) {
    && d.forest == Plug(c.spine) && d.free == [] && d.next == c.next && d.index == IndexOf(c.spine, room)
    && status == Checked(c, room).status
    && (status == NoError ==> n == Iter(c.spine) && n != NONE && c.state == ExpectColon)
  }

  /** The outcomes of jes_tree_insert_key_node, in terms of the transition system. */
  lemma KeyResult(c: Config, text: string, cap: nat, d: Doc, d': Doc, status: Status, n: nat, room: Room)
    requires c.spine.Frame? && c.spine.kind == Object && c.status == NoError
    requires d == Doc(Plug(c.spine), [], c.next, IndexOf(c.spine, room)) && HasRoom(room, d.forest)
    requires KeyIn(c.spine.kids, Clip(text)) != NONE ==> n == NONE && status == DuplicateKey && d' == d
    requires KeyIn(c.spine.kids, Clip(text)) == NONE && cap <= c.next ==> n == NONE && status == OutOfMemory && d' == d
    requires KeyIn(c.spine.kids, Clip(text)) == NONE && c.next < cap ==> (
               var f, r := Plug(Frame(c.spine, c.next, Key, Clip(text), Nil)), KeyRef(c.spine.id, n, Clip(text));
               && n == c.next && n != NONE && r !in KeyRefs(d.forest, NONE)
               && KeyRefs(f, NONE) == KeyRefs(d.forest, NONE) + {r} && KeyCount(f) == KeyCount(d.forest) + 1
               && d' == WithKey(Doc(f, [], c.next + 1, d.index), r)
               && status == if NoRoom(d.index) then OutOfMemory else NoError)
    requires |KeyRefs(d.forest, NONE)| == KeyCount(d.forest)
    ensures KeyOutcome(d', status, n, room, ExpectKeyStep(c, Token(StringToken, text), cap))
  {
    PlugKeys(c.spine);
    hide Plug, KeyCount, KeyRefs, Clip;
    if KeyIn(c.spine.kids, Clip(text)) == NONE && c.next < cap {
      KeyEntered(c, Clip(text), d, d', status, n, room);
      hide KeyOutcome, IndexOf;
    }
  }

  /** The key is in the tree, and in the index if there is room. */
  lemma KeyEntered(c: Config, name: string, d: Doc, d': Doc, status: Status, n: nat, room: Room)
    requires c.spine.Frame? && c.status == NoError && n == c.next != NONE
    requires d.index == IndexOf(c.spine, room) && HasRoom(room, Plug(c.spine)) && d.forest == Plug(c.spine)
    requires var f, r := Plug(Frame(c.spine, c.next, Key, name, Nil)), KeyRef(c.spine.id, n, name);
      && KeyRefs(f, NONE) == KeyRefs(d.forest, NONE) + {r} && r !in KeyRefs(d.forest, NONE)
      && KeyCount(f) == KeyCount(d.forest) + 1 && |KeyRefs(d.forest, NONE)| == KeyCount(d.forest)
      && d' == WithKey(Doc(f, [], c.next + 1, d.index), r)
      && status == if NoRoom(d.index) then OutOfMemory else NoError
    ensures KeyOutcome(d', status, n, room, Config(Frame(c.spine, c.next, Key, name, Nil), c.next + 1, ExpectColon,
        NoError))
  {
    var s, r := Frame(c.spine, c.next, Key, name, Nil), KeyRef(c.spine.id, n, name);
    PlugKeys(s);
    hide Plug, KeyCount, KeyRefs, KeysOn;
    assert (KeyRefs(d.forest, NONE) + {r}) - {r} == KeyRefs(d.forest, NONE);
  }

  /** What the insertion of a key behind the last child of the current object comes to. */
  lemma KeyPushed(d: Doc, c: Config, keyword: string)
    requires d.forest == Plug(c.spine) && Slots(d) && NONE !in Ids(d.forest) && d.free == [] && c.next == d.next
    requires SpineOk(c.spine) && c.spine.Frame? && c.spine.kind == Object && Nested(d.forest, Unknown) && c.next != NONE
    requires CanInsert(d.forest, c.spine.id, Anchor(c.spine), Key)
    ensures var f, r := Plug(Frame(c.spine, c.next, Key, keyword, Nil)), KeyRef(c.spine.id, c.next, keyword);
      && Inserted(d, c.spine.id, Anchor(c.spine), Key, keyword) == Doc(f, [], c.next + 1, d.index)
      && KeyRefs(f, NONE) == KeyRefs(d.forest, NONE) + {r} && r !in KeyRefs(d.forest, NONE)
      && KeyCount(f) == KeyCount(d.forest) + 1
  {
    var r := KeyRef(c.spine.id, c.next, keyword);
    Pushed(d, c.spine, Key, keyword);
    InsertedNest(d, c.spine.id, Anchor(c.spine), Key, keyword);
    if r in KeyRefs(d.forest, NONE) { KeyRefIds(d.forest, NONE, r); }
    PlugKeys(c.spine);
    PlugKeys(Frame(c.spine, c.next, Key, keyword, Nil));
  }

  lemma KeyReady(ctx: Context, c: Config, keyword: string)
    requires ctx.Valid() && SpineOk(c.spine) && Plug(c.spine) == ctx.forest && ctx.free == [] && c.next == ctx.nextFree
    requires c.spine.Frame? && c.spine.kind == Object
    ensures ctx.nodeCount == ctx.nextFree && c.spine.id in Ids(ctx.forest)
    ensures At(ctx.forest, c.spine.id) == Current(c.spine)
    ensures c.spine.id < ctx.pool.Length < NONE && NONE !in Ids(ctx.forest) && Distinct(ctx.forest)
    ensures (if HasChild(ctx.pool, c.spine.id) then ctx.pool[c.spine.id].last else NONE) == Anchor(c.spine)
    ensures CanInsert(ctx.forest, c.spine.id, Anchor(c.spine), Key)
    ensures Found(ctx.Value(), c.spine.id, keyword) == FindKey(ctx.forest, c.spine.id, keyword)
        == KeyIn(c.spine.kids, keyword)
    ensures c.next < ctx.pool.Length ==> (
      var f, r := Plug(Frame(c.spine, c.next, Key, keyword, Nil)), KeyRef(c.spine.id, c.next, keyword);
      && Inserted(ctx.Value(), c.spine.id, Anchor(c.spine), Key, keyword) == Doc(f, [], c.next + 1, ctx.Value().index)
      && KeyRefs(f, NONE) == KeyRefs(ctx.forest, NONE) + {r} && r !in KeyRefs(ctx.forest, NONE)
      && KeyCount(f) == KeyCount(ctx.forest) + 1)
    ensures |KeyRefs(ctx.forest, NONE)| == KeyCount(ctx.forest)
    ensures TableHolds(ctx, ctx.forest) && ctx.Value().index == IndexOf(c.spine, RoomOf(ctx))
  {
    IndexReady(ctx, c);
    PlaceReady(ctx, c.spine);
    KeyFound(ctx.Value(), c.spine, keyword);
    hide IndexRep, KeyHash, IndexOf, TreeRep, Slots, Found, FindKey, KeyIn, Regular, Inserted, TableHolds, CanInsert;
    hide Shaped;
    if c.next < ctx.pool.Length { KeyPushed(ctx.Value(), c, keyword); }
  }

  lemma PlaceReady(ctx: Context, s: Spine)
    requires Sits(ctx, s) && Nested(ctx.forest, Unknown) && s.Frame? && s.kind == Object
    ensures s.id in Ids(ctx.forest) && At(ctx.forest, s.id) == Current(s)
    ensures s.id < ctx.pool.Length < NONE && NONE !in Ids(ctx.forest) && Distinct(ctx.forest)
    ensures (if HasChild(ctx.pool, s.id) then ctx.pool[s.id].last else NONE) == Anchor(s)
    ensures CanInsert(ctx.forest, s.id, Anchor(s), Key)
    ensures Slots(ctx.Value()) && (ctx.free == [] ==> ctx.nodeCount == ctx.nextFree)
  {
    ctx.Bounds();
    CellOf(ctx, s);
    CurrentAt(s);
    if s.kids.Cons? { Anchored(s); }
  }

  lemma KeyFound(d: Doc, s: Spine, keyword: string)
    requires Regular(d) && Distinct(d.forest) && NONE !in Ids(d.forest)
    requires s.Frame? && s.id in Ids(d.forest) && At(d.forest, s.id) == Current(s) && s.kind == Object
    ensures Found(d, s.id, keyword) == FindKey(d.forest, s.id, keyword) == KeyIn(s.kids, keyword)
  {
    RegularFound(d, s.id, keyword);
  }

  lemma IndexReady(ctx: Context, c: Config)
    requires ctx.Valid() && Plug(c.spine) == ctx.forest
    ensures |KeyRefs(ctx.forest, NONE)| == KeyCount(ctx.forest)
    ensures TableHolds(ctx, ctx.forest) && ctx.Value().index == IndexOf(c.spine, RoomOf(ctx))
  {
    ValidHolds(ctx);
    KeyRefsCount(ctx.forest, NONE);
  }

  lemma ValidHolds(ctx: Context)
    requires ctx.Valid()
    ensures TableHolds(ctx, ctx.forest)
  {
    KeyRefsCount(ctx.forest, NONE);
    if ctx.mode == Hashed { LiveSlotsBound(ctx.table.slots[..]); }
  }

  // ----- the state machine -----

  /** The context is where the transition system went, or where its table ran full. */
  ghost predicate Reached(ctx: Context, c: Config)
    reads ctx, ctx.pool, ctx.table, ctx.table.slots
  {
    && ctx.Sane() && Shaped(ctx.forest, Unknown)
    && Mirrors(ctx, Checked(c, RoomOf(ctx))) && ctx.Value().index == IndexOf(c.spine, RoomOf(ctx))
  }

  lemma ReachedValid(ctx: Context, c: Config)
    requires ctx.Valid() && Mirrors(ctx, c)
    ensures Reached(ctx, c) && Checked(c, RoomOf(ctx)) == c
  {
    ValidHolds(ctx);
    PlugKeys(c.spine);
  }

  /** The cases of jes_parser_process_expect_key_state that add no key */
  method KeyRefused(ctx: Context, t: Token, ghost c: Config)
    requires Sits(ctx, c.spine) && Mirrors(ctx, c) && c.status == NoError && c.spine.Frame? && t.kind != StringToken
    modifies ctx`status, ctx`iter, ctx`state
    ensures Mirrors(ctx, ExpectKeyStep(c, t, ctx.pool.Length))
  {
    if t.kind == ClosingBrace {
      ProcessClosingBrace(ctx, c);
    } else {
      ctx.status := if t.kind == EofToken then UnexpectedEof else UnexpectedToken;
    }
  }

  /** jes_parser_process_expect_key_state */
  method ProcessExpectKey(ctx: Context, t: Token, ghost c: Config)
    requires ctx.Valid() && SpineOk(c.spine) && Mirrors(ctx, c) && c.status == NoError
    requires c.state == ExpectKey && c.spine.Frame? && c.spine.kind == Object
    modifies ctx`nodeCount, ctx`nextFree, ctx`freed, ctx`status, ctx`free, ctx`root, ctx`forest, ctx`indexed, ctx`iter,
             ctx`state, ctx.pool, ctx.table, ctx.table.slots
    ensures Reached(ctx, ExpectKeyStep(c, t, ctx.pool.Length))
  {
    hide IndexRep, SeparatesParents, TreeRep, Rep, KeyHash, Nested, Shaped, SpineOk, CloseBrace;
    if t.kind == StringToken {
      var n := AppendKey(ctx, t.text, c);
      ctx.iter, ctx.state := n, if n != NONE then ExpectColon else ctx.state;
    } else {
      KeyRefused(ctx, t, c);
      ReachedValid(ctx, ExpectKeyStep(c, t, ctx.pool.Length));
    }
  }

  /** jes_parser_process_expect_colon_state */
  method ProcessExpectColon(ctx: Context, t: Token, ghost c: Config)
    requires Mirrors(ctx, c) && c.status == NoError && c.state == ExpectColon
    modifies ctx`status, ctx`state
    ensures Mirrors(ctx, Step(c, t, ctx.pool.Length))
  {
    if t.kind != TokenKind.Colon {
      ctx.status := UnexpectedToken;
    } else {
      ctx.state := ExpectValue;
    }
  }

  /** The type of the element that a token starts. */
  function ElementType(t: TokenKind): Kind {
    if t == OpeningBracket then Array else if t == OpeningBrace then Object else ScalarKind(t)
  }

  function StateBehind(k: Kind): State {
    if k == Array then ExpectValue else if k == Object then ExpectKey else HaveValue
  }

  /** The cases of jes_parser_process_expect_value_state that start no element */
  method ValueRefused(ctx: Context, t: Token, ghost c: Config)
    requires Sits(ctx, c.spine) && Mirrors(ctx, c) && c.status == NoError && c.state == ExpectValue
    requires ElementType(t.kind) == Unknown
    modifies ctx`status, ctx`iter, ctx`state
    ensures Mirrors(ctx, ExpectValueStep(c, t, ctx.pool.Length))
  {
    CellOf(ctx, c.spine);
    if t.kind == EofToken {
      ctx.status := UnexpectedEof;
    } else if ctx.iter != NONE && t.kind == ClosingBracket {
      ProcessClosingBracket(ctx, c);
    } else if ctx.iter != NONE && t.kind == ClosingBrace {
      ProcessClosingBrace(ctx, c);
    } else {
      ctx.status := UnexpectedToken;
    }
  }

  /** The cases of jes_parser_process_expect_value_state that start an element */
  method StartElement(ctx: Context, t: Token, ghost c: Config)
    requires ctx.Valid() && Inv(c, ctx.pool.Length) && Mirrors(ctx, c) && c.status == NoError && c.state == ExpectValue
    requires ElementType(t.kind) != Unknown
    modifies ctx`nodeCount, ctx`nextFree, ctx`freed, ctx`status, ctx`free, ctx`root, ctx`forest, ctx`iter, ctx`state,
        ctx.pool
    ensures ctx.Valid()
    ensures Mirrors(ctx, ExpectValueStep(c, t, ctx.pool.Length))
  {
    hide IndexRep, SeparatesParents, TreeRep, Regular, KeyHash, Clip;
    ctx.state := StateBehind(ElementType(t.kind));
    ElementInserted(c, t, ctx.pool.Length);
    ctx.iter := AppendValue(ctx, ElementType(t.kind), t.text, c);
  }

  /** jes_parser_process_expect_value_state */
  method ProcessExpectValue(ctx: Context, t: Token, ghost c: Config)
    requires ctx.Valid() && Inv(c, ctx.pool.Length) && Mirrors(ctx, c) && c.status == NoError && c.state == ExpectValue
    modifies ctx`nodeCount, ctx`nextFree, ctx`freed, ctx`status, ctx`free, ctx`root, ctx`forest, ctx`iter, ctx`state,
        ctx.pool
    ensures ctx.Valid()
    ensures Mirrors(ctx, ExpectValueStep(c, t, ctx.pool.Length))
  {
    hide IndexRep, SeparatesParents;
    if ElementType(t.kind) != Unknown {
      StartElement(ctx, t, c);
    } else {
      ValueRefused(ctx, t, c);
    }
  }

  lemma ElementInserted(c: Config, t: Token, cap: nat)
    requires Inv(c, cap) && c.state == ExpectValue && ElementType(t.kind) != Unknown
    ensures var k := ElementType(t.kind);
      k != Key && Accepts(c.spine, k, Clip(t.text)) && ExpectValueStep(c, t, cap)
          == Insert(c, k, t.text, StateBehind(k), cap)
  {
  }

  /** jes_parser_process_have_value_state */
  method ProcessHaveValue(ctx: Context, t: Token, ghost c: Config)
    requires Sits(ctx, c.spine) && Mirrors(ctx, c) && c.status == NoError && c.spine.Frame?
    modifies ctx`status, ctx`iter, ctx`state
    ensures Mirrors(ctx, HaveValueStep(c, t))
  {
    CellOf(ctx, c.spine);
    match t.kind {
      case ClosingBrace => ProcessClosingBrace(ctx, c);
      case ClosingBracket => ProcessClosingBracket(ctx, c);
      case Comma => HaveValueComma(ctx, c);
      case EofToken =>
        if ctx.pool[ctx.iter].parent == NONE && !HasChild(ctx.pool, ctx.iter) {
          ctx.state := End;
        } else {
          ctx.status := UnexpectedEof;
        }
      case _ => ctx.status := UnexpectedToken;
    }
  }

  /** The switch of jes_parser_state_machine */
  method Dispatch(ctx: Context, t: Token, ghost c: Config)
    requires ctx.Valid() && Inv(c, ctx.pool.Length) && Mirrors(ctx, c) && !Stopped(c)
    modifies ctx`nodeCount, ctx`nextFree, ctx`freed, ctx`status, ctx`free, ctx`root, ctx`forest, ctx`indexed, ctx`iter,
             ctx`state, ctx.pool, ctx.table, ctx.table.slots
    ensures Reached(ctx, Step(c, t, ctx.pool.Length))
  {
    hide IndexRep, SeparatesParents, TreeRep, KeyHash;
    if ctx.state == ExpectKey {
      ProcessExpectKey(ctx, t, c);
    } else {
      match ctx.state {
        case ExpectColon => ProcessExpectColon(ctx, t, c);
        case ExpectValue => ProcessExpectValue(ctx, t, c);
        case HaveValue => ProcessHaveValue(ctx, t, c);
        case ExpectEof =>
          if t.kind == EofToken { ctx.state := End; } else { ctx.status := UnexpectedToken; }
        case _ => assert false;
      }
      ReachedValid(ctx, Step(c, t, ctx.pool.Length));
    }
  }

  /** jes_parse as a transition system, on this context's pool and table. */
  function RunOn(ctx: Context, c: Config, text: string, pos: nat): Config {
    DriveIn(c, text, pos, ctx.pool.Length, RoomOf(ctx))
  }

  /** How far the loop got: on the run from the start of the text. */
  ghost predicate Underway(ctx: Context, c: Config, text: string, pos: nat)
    reads ctx, ctx.pool, ctx.table, ctx.table.slots
  {
    && ctx.Valid() && Inv(c, ctx.pool.Length) && Mirrors(ctx, c) && !Stopped(c) && pos <= |text|
    && RunOn(ctx, c, text, pos) == RunOn(ctx, INITIAL, text, 0)
  }

  /** What a parse leaves behind: the result of the transition system. */
  ghost predicate Parsed(ctx: Context, text: string)
    reads ctx, ctx.pool, ctx.table, ctx.table.slots
  {
    var r := RunOn(ctx, INITIAL, text, 0);
    ctx.Sane() && Shaped(ctx.forest, Unknown) && Mirrors(ctx, r) && ctx.Value().index == IndexOf(r.spine, RoomOf(ctx))
  }

  /** If the index has room for all keys, the search mode makes no difference. */
  lemma ParsedHolds(ctx: Context, text: string)
    requires Parsed(ctx, text)
    ensures var r := Drive(INITIAL, text, 0, ctx.pool.Length);
      if TableHolds(ctx, Plug(r.spine)) then ctx.Valid() && Mirrors(ctx, r) else ctx.status == OutOfMemory
  {
    DriveInHolds(INITIAL, text, 0, ctx.pool.Length, RoomOf(ctx));
  }

  /** The situation behind a step of the transition system. */
  lemma AfterStep(ctx: Context, c: Config, text: string, pos: nat)
    requires Inv(c, ctx.pool.Length) && !Stopped(c) && pos <= |text| && Lex(text, pos).Lexed? && ctx.pool.Length < NONE
    requires RunOn(ctx, c, text, pos) == RunOn(ctx, INITIAL, text, 0)
    requires Reached(ctx, Step(c, Lex(text, pos).token, ctx.pool.Length))
    ensures if ctx.status == NoError && ctx.state != End
            then Underway(ctx, Step(c, Lex(text, pos).token, ctx.pool.Length), text, Lex(text, pos).end)
                && pos < Lex(text, pos).end
            else Parsed(ctx, text)
  {
    var cap, w := ctx.pool.Length, Lex(text, pos);
    var c' := Step(c, w.token, cap);
    hide IndexRep, TreeRep, KeyHash, SeparatesParents, Shaped;
    StepKeeps(c, w.token, cap);
    PlugKeys(c'.spine);
    if w.token.kind == EofToken {
      assert Stopped(c');
    }
  }

  /** A scanner error ends the run with the tree as it is. */
  lemma AfterFailure(ctx: Context, c: Config, text: string, pos: nat)
    requires ctx.Valid() && pos <= |text| && Lex(text, pos).Failed?
    requires RunOn(ctx, c, text, pos) == RunOn(ctx, INITIAL, text, 0)
    requires Mirrors(ctx, c.(status := ctx.status)) && ctx.status == Lex(text, pos).status
    ensures Parsed(ctx, text)
  {
    ReachedValid(ctx, Refuse(c, ctx.status));
  }

  /** One round of jes_parser_state_machine */
  method Round(ctx: Context, tok: TokenizerContext, ghost c: Config) returns (ghost c': Config)
    requires Underway(ctx, c, tok.text, tok.pos)
    modifies ctx`nodeCount, ctx`nextFree, ctx`freed, ctx`status, ctx`free, ctx`root, ctx`forest, ctx`indexed, ctx`iter,
             ctx`state, ctx.pool, ctx.table, ctx.table.slots
    modifies tok`pos, tok`length, tok`start, tok`kind
    ensures if ctx.status == NoError && ctx.state != End then
        Underway(ctx, c', tok.text, tok.pos) && tok.pos > old(tok.pos)
            else Parsed(ctx, tok.text)
  {
    hide IndexRep, SeparatesParents, TreeRep, KeyHash, Reached, Parsed, Shaped, Step, Lex;
    ghost var pos := tok.pos;
    ctx.Bounds();
    var status := tok.GetToken();
    ctx.status := status;
    c' := c;
    if status != NoError {
      AfterFailure(ctx, c, tok.text, pos);
      return;
    }
    c' := Step(c, Lex(tok.text, pos).token, ctx.pool.Length);
    Dispatch(ctx, Token(tok.kind, tok.TokenText()), c);
    AfterStep(ctx, c, tok.text, pos);
  }

  /** jes_parser_state_machine; it is left only with an error or in the end state */
  method StateMachine(ctx: Context, tok: TokenizerContext)
    requires Underway(ctx, INITIAL, tok.text, tok.pos)
    modifies ctx`nodeCount, ctx`nextFree, ctx`freed, ctx`status, ctx`free, ctx`root, ctx`forest, ctx`indexed, ctx`iter,
             ctx`state, ctx.pool, ctx.table, ctx.table.slots
    modifies tok`pos, tok`length, tok`start, tok`kind
    ensures Parsed(ctx, tok.text) && (ctx.status == NoError ==> ctx.state == End)
  {
    hide IndexRep, SeparatesParents;
    ghost var c := INITIAL;
    while true
      invariant Underway(ctx, c, tok.text, tok.pos)
      decreases |tok.text| - tok.pos
    {
      c := Round(ctx, tok, c);
      if ctx.status != NoError || ctx.state == End { break; }
    }
  }

  /** jes_parse on a context that was just reset. Its last test, for a machine that stopped
      without an error before the end, never applies. */
  method Parse(ctx: Context, tok: TokenizerContext)
    requires ctx.Valid() && ctx.Value() == Doc(Nil, [], 0, ctx.NoKeys()) && ctx.status == NoError
    modifies ctx`nodeCount, ctx`nextFree, ctx`freed, ctx`status, ctx`free, ctx`root, ctx`forest, ctx`indexed, ctx`iter,
             ctx`state, ctx.pool, ctx.table, ctx.table.slots
    modifies tok`pos, tok`length, tok`start, tok`kind
    ensures Parsed(ctx, tok.text) && (ctx.status == NoError ==> ctx.state == End)
  {
    ctx.state, ctx.iter := ExpectValue, NONE;
    tok.pos := 0;
    StateMachine(ctx, tok);
  }

  /** jes_load: a reset, then the parser. */
  method Load(ctx: Context, tok: TokenizerContext, json: string) returns (status: Status)
    requires ctx.Usable()
    modifies ctx, ctx.pool, ctx.table, ctx.table.slots, tok
    ensures json == "" ==> status == ctx.status == InvalidParameter && ctx.Value() == old(ctx.Value())
    ensures json == "" && old(ctx.Sane()) ==> ctx.Sane()
    ensures json != "" ==> status == ctx.status && Parsed(ctx, json)
  {
    if json == "" {
      ctx.status := InvalidParameter;
      return ctx.status;
    }
    ctx.Reset();
    tok.text := json;
    Parse(ctx, tok);
    status := ctx.status;
  }
}
