/** Node management of src/jes_tree.c: allocation, insertion, deletion and key search
    over a fixed pool of linked cells. */
module Tree {
  import opened Codes
  import opened Forests
  import opened Pool
  import opened Shapes
  import opened HashTable
  import opened Fnv
  import opened KeyIndex

  /** The keys that a search can find: all of them, or those listed in a table of `size` slots. */
  datatype Index = Whole | Listed(refs: set<KeyRef>, size: nat)

  /** What a context holds, as a value: the tree, the freed slots in the order in which they
      will be reused, the first slot never used, and the key index. */
  datatype Doc = Doc(forest: Forest, free: seq<nat>, next: nat, index: Index)

  function NewId(d: Doc): nat { if d.free != [] then d.free[0] else d.next }

  function FreeRest(d: Doc): seq<nat> { if d.free != [] then d.free[1..] else [] }

  function NextRest(d: Doc): nat { if d.free != [] then d.next else d.next + 1 }

  /** Allocating one node and linking it below `p`, behind `a` or in front. */
  function Inserted(d: Doc, p: nat, a: nat, kind: Kind, text: string): Doc {
    var leaf := Leaf(NewId(d), kind, text);
    Doc(if p == NONE then leaf else if a != NONE then InsertAfter(d.forest, a, leaf)
        else InsertFirst(d.forest, p, leaf),
        FreeRest(d), NextRest(d), d.index)
  }

  function Reverse(s: seq<nat>): seq<nat> { if s == [] then [] else Reverse(s[1..]) + [s[0]] }

  /** The key that a search for this name below `p` answers with. */
  ghost function Found(d: Doc, p: nat, text: string): nat {
    if d.index.Whole? then FindKey(d.forest, p, text) else Named(d.index.refs, p, text)
  }

  predicate NoRoom(ix: Index) { ix.Listed? && |ix.refs| >= ix.size }

  /** A key of the tree enters the index, if there is room. */
  function WithKey(d: Doc, r: KeyRef): Doc {
    if d.index.Whole? || NoRoom(d.index) then d else d.(index := d.index.(refs := d.index.refs + {r}))
  }

  /** The index when the keys `gone` are taken out: their names go, whichever keys they led to. */
  ghost function Strike(ix: Index, gone: set<KeyRef>): Index {
    if ix.Whole? then ix else ix.(refs := Struck(ix.refs, gone))
  }

  /** Deleting a branch: it is cut out, its slots are freed bottom-up, last freed first out, and the
      names of its keys leave the index. */
  ghost function Deleted(d: Doc, id: nat): Doc
    requires id in Ids(d.forest)
  {
    Doc(Cut(d.forest, id), [id] + Reverse(Post(At(d.forest, id).kids)) + d.free, d.next,
        Strike(d.index, KeyRefs(d.forest, NONE) - KeyRefs(Cut(d.forest, id), NONE)))
  }

  /** Names are distinct, and every key is in the index. */
  ghost predicate Regular(d: Doc) {
    Shaped(d.forest, Unknown) && (d.index.Listed? ==> d.index.refs == KeyRefs(d.forest, NONE))
  }

  /** A regular document is searched as the tree is. */
  lemma RegularFound(d: Doc, p: nat, text: string)
    requires Regular(d) && Distinct(d.forest) && NONE !in Ids(d.forest)
    ensures Found(d, p, text) == FindKey(d.forest, p, text)
  {
    if d.index.Listed? { NamedIsFound(d.forest, p, text); }
  }

  /** The free list: a chain through the `next` fields of the freed cells. */
  ghost predicate Chain(cells: seq<Cell>, head: nat, free: seq<nat>)
    decreases |free|
  {
    if free == [] then head == NONE
    else head == free[0] && head < |cells| && Chain(cells, cells[head].next, free[1..])
  }

  lemma ChainFrame(cells: seq<Cell>, cells': seq<Cell>, head: nat, free: seq<nat>)
    requires Chain(cells, head, free) && |cells'| == |cells|
    requires forall i :: i in free && i < |cells| ==> cells'[i].next == cells[i].next
    ensures Chain(cells', head, free)
    decreases |free|
  {
    if free != [] {
      ChainFrame(cells, cells', cells[head].next, free[1..]);
    }
  }

  ghost predicate NoRepeats(s: seq<nat>) { forall i, j :: 0 <= i < j < |s| ==> s[i] != s[j] }

  /** The slots below `next` are the live ones and the freed ones, each exactly once. */
  ghost predicate Slots(d: Doc) {
    && Distinct(d.forest) && NoRepeats(d.free)
    && (forall i :: i in Ids(d.forest) ==> i !in d.free && i < d.next)
    && (forall i :: i in d.free ==> i < d.next)
    && d.next == Size(d.forest) + |d.free|
  }

  lemma {:induction false} IdsCount(f: Forest)
    requires Distinct(f)
    ensures |Ids(f)| == Size(f)
  {
    if f.Cons? {
      IdsCount(f.kids);
      IdsCount(f.sibs);
      assert Ids(f) == {f.id} + Ids(f.kids) + Ids(f.sibs);
    }
  }

  function Members(s: seq<nat>): set<nat> { set i | i in s }

  lemma {:induction false} MembersCount(s: seq<nat>)
    requires NoRepeats(s)
    ensures |Members(s)| == |s|
  {
    if s != [] {
      MembersCount(s[1..]);
      assert Members(s) == {s[0]} + Members(s[1..]);
      assert s[0] !in Members(s[1..]);
    }
  }

  /** Pool conservation: every slot that was ever handed out is either live or on the free list,
      never both, and no other slot is. */
  lemma PoolConservation(d: Doc)
    requires Slots(d)
    ensures forall i: nat :: i < d.next <==> i in Ids(d.forest) || i in d.free
    ensures forall i :: !(i in Ids(d.forest) && i in d.free)
    ensures d.next == |Ids(d.forest)| + |d.free|
  {
    IdsCount(d.forest);
    MembersCount(d.free);
    var live, free := Ids(d.forest), Members(d.free);
    assert live !! free;
    SubsetSize(live + free, Range(d.next));
    assert |live + free| == |live| + |free|;
  }

  /** The cells, the list heads and the counter hold document `d`. */
  ghost predicate TreeRep(cells: seq<Cell>, d: Doc, root: nat, freed: nat, count: nat) {
    && |cells| < NONE
    && Rep(cells, d.forest, NONE) && Slots(d)
    && (d.forest.Cons? ==> d.forest.sibs.Nil?)
    && root == Head(d.forest)
    && count == Size(d.forest) <= |cells| && d.next <= |cells|
    && Chain(cells, freed, d.free)
  }

  /** A pool without nodes. */
  lemma EmptyTree(cells: seq<Cell>)
    requires |cells| < NONE
    ensures TreeRep(cells, Doc(Nil, [], 0, Whole), NONE, NONE, 0) && KeyRefs(Nil, NONE) == {}
    ensures Nested(Nil, Unknown) && Shaped(Nil, Unknown)
  {
  }

  /** A table without entries. */
  lemma EmptyIndex(slots: seq<Slot>, count: nat, cells: seq<Cell>, h: KeyHasher)
    requires SlotsOk(slots, count, cells) && forall i :: 0 <= i < |slots| ==> slots[i] == Empty
    ensures IndexRep(slots, count, cells, {}, h)
  {
    assert LiveSlots(slots) == {};
  }

  lemma TreeFacts(cells: seq<Cell>, d: Doc, root: nat, freed: nat, count: nat)
    requires TreeRep(cells, d, root, freed, count)
    ensures (forall i :: i in Ids(d.forest) ==> i < |cells|) && |cells| < NONE && NONE !in Ids(d.forest)
    ensures Distinct(d.forest) && Rep(cells, d.forest, NONE)
    ensures count == Size(d.forest) <= |cells| && root == Head(d.forest)
  {
    RepBound(cells, d.forest, NONE);
  }

  /** Cell `n` was filled in and linked below `p`, behind `a` or in front. */
  ghost predicate LinkedIn(before: seq<Cell>, after: seq<Cell>, p: nat, a: nat, n: nat, kind: Kind, text: string) {
    && |after| == |before| && n < |before| && (p == NONE || p < |before|) && (a == NONE || a < |before|)
    && (forall i :: 0 <= i < |before| && i != n && i != p && i != a ==> after[i] == before[i])
    && (if p == NONE then after[n] == before[n].(kind := kind, text := text)
        else if a != NONE then
          && after[n] == before[n].(kind := kind, text := text, parent := p, sibling := before[a].sibling)
          && after[a] == before[a].(sibling := n)
          && after[p] == before[p].(last := if before[p].last == a then n else before[p].last)
        else
          && after[n] == before[n].(kind := kind, text := text, parent := p, sibling := before[p].first)
          && after[p] == before[p].(first := n, last := if before[p].first < NONE then before[p].last else n))
  }

  lemma {:induction false} LinkKeeps(before: seq<Cell>, after: seq<Cell>, d: Doc, free: seq<nat>, p: nat, a: nat,
      n: nat, kind: Kind, text: string, freed: nat)
    requires |before| < NONE && Rep(before, d.forest, NONE) && Distinct(d.forest)
    requires d.forest.Cons? ==> d.forest.sibs.Nil?
    requires n !in Ids(d.forest) && n !in free && (forall i :: i in free ==> i !in Ids(d.forest))
    requires p == NONE ==> a == NONE && d.forest.Nil?
    requires p != NONE ==> p in Ids(d.forest)
    requires a != NONE ==> a in Ids(d.forest) && Parent(d.forest, a, NONE) == p
    requires LinkedIn(before, after, p, a, n, kind, text)
    requires before[n].parent == before[n].sibling == before[n].first == before[n].last == NONE
    requires Chain(before, freed, free)
    ensures var f := Inserted(d, p, a, kind, text).forest;
            NewId(d) == n ==> (
              && Rep(after, f, NONE) && Ids(f) == Ids(d.forest) + {n} && Distinct(f) && Size(f) == Size(d.forest) + 1
              && f.Cons? && f.sibs.Nil? && (d.forest.Cons? ==> Head(f) == Head(d.forest)))
    ensures Chain(after, freed, free)
  {
    RepBound(before, d.forest, NONE);
    ChainFrame(before, after, freed, free);
    if NewId(d) == n {
      if p == NONE {
        assert Rep(after, Nil, NONE) && Rep(after, Nil, n);
      } else if a != NONE {
        RepAt(before, d.forest, NONE, a);
        InsertAfterRep(before, after, d.forest, NONE, a, n, kind, text);
        InsertAfterIds(d.forest, a, n, kind, text);
        SingleRoot(d.forest, a, n, kind, text);
      } else {
        RepAt(before, d.forest, NONE, p);
        RepBound(before, At(d.forest, p).kids, p);
        InsertFirstRep(before, after, d.forest, NONE, p, n, kind, text);
        InsertFirstIds(d.forest, p, n, kind, text);
      }
    }
  }

  /** Allocation moves one slot from the free list, or from the unused end, to the tree. */
  lemma SlotsAfterInsert(d: Doc, p: nat, a: nat, kind: Kind, text: string)
    requires Slots(d)
    requires var f := Inserted(d, p, a, kind, text).forest;
             Ids(f) == Ids(d.forest) + {NewId(d)} && Distinct(f) && Size(f) == Size(d.forest) + 1
    ensures Slots(Inserted(d, p, a, kind, text))
    ensures NewId(d) !in Ids(d.forest) && NewId(d) !in Inserted(d, p, a, kind, text).free
  {
    var d' := Inserted(d, p, a, kind, text);
    if d.free != [] {
      assert d.free[0] in d.free;
      forall i | i in d'.free ensures i in d.free && i != d.free[0] {
        var j :| 0 <= j < |d'.free| && d'.free[j] == i;
        assert d.free[j + 1] == i;
      }
    }
  }

  lemma InsertKeeps(before: seq<Cell>, taken: seq<Cell>, after: seq<Cell>, d: Doc, root: nat, freed: nat, freed': nat,
      count: nat, p: nat, a: nat, n: nat, kind: Kind, text: string)
    requires TreeRep(before, d, root, freed, count) && count < |before|
    requires n == NewId(d) && n < |before| && n !in Ids(d.forest)
    requires taken == before[n := before[n].(parent := NONE, sibling := NONE, first := NONE, last := NONE)]
    requires p == NONE ==> a == NONE && d.forest.Nil?
    requires p != NONE ==> p in Ids(d.forest)
    requires a != NONE ==> a in Ids(d.forest) && Parent(d.forest, a, NONE) == p
    requires LinkedIn(taken, after, p, a, n, kind, text)
    requires var d' := Inserted(d, p, a, kind, text); d'.next <= |before| && Chain(taken, freed', d'.free)
    ensures TreeRep(after, Inserted(d, p, a, kind, text), if p == NONE then n else root, freed', count + 1)
  {
    var d' := Inserted(d, p, a, kind, text);
    RepFrame(before, taken, d.forest, NONE);
    NewIdLeavesFree(d);
    LinkKeeps(taken, after, d, d'.free, p, a, n, kind, text, freed');
    SlotsAfterInsert(d, p, a, kind, text);
  }

  lemma AnchorBelow(f: Forest, a: nat, p: nat)
    requires Distinct(f) && NONE !in Ids(f) && (a != NONE ==> a in Ids(f) && Parent(f, a, NONE) == p)
    requires p != NONE ==> p in Ids(f)
    ensures a != NONE ==> a != p
  {
    if a != NONE { ParentFact(f, a, NONE); }
  }

  lemma NewIdLeavesFree(d: Doc)
    requires Slots(d)
    ensures NewId(d) !in Ids(d.forest) && NewId(d) !in FreeRest(d)
    ensures forall i :: i in FreeRest(d) ==> i in d.free
  {
  }

  class Context {
    const mode: Mode
    const bigEndian: bool
    /** jes_fnv1a_compound_hash, as a function */
    ghost const hashFn: KeyHasher
    const pool: array<Cell>
    const table: Table
    var nodeCount: nat
    var nextFree: nat
    var freed: nat
    var root: nat
    var status: Status
    var state: State
    var iter: nat
    ghost var forest: Forest
    ghost var free: seq<nat>
    ghost var indexed: set<KeyRef>

    ghost function Value(): Doc
      reads `forest, `free, `nextFree, `indexed
    {
      Doc(forest, free, nextFree, if mode == Linear then Whole else Listed(indexed, table.slots.Length))
    }

    /** The document without its index. */
    ghost function Bare(): Doc
      reads `forest, `free, `nextFree
    {
      Doc(forest, free, nextFree, Whole)
    }

    ghost predicate TreeOk()
      reads `forest, `free, `nextFree, `root, `freed, `nodeCount, pool
    {
      TreeRep(pool[..], Bare(), root, freed, nodeCount)
    }

    /** The table lists keys of tree `f`, with the texts that the cells hold, and nothing else. */
    ghost predicate Keeps(cells: seq<Cell>, f: Forest)
      reads `indexed, table, table.slots
    {
      mode == Hashed ==>
        && IndexRep(table.slots[..], table.entryCount, cells, indexed, hashFn) && indexed <= KeyRefs(f, NONE)
        && SeparatesParents(hashFn) && hashFn == KeyHash(bigEndian)
    }

    /** What every call keeps, whatever went wrong before. */
    ghost predicate Sane()
      reads `forest, `free, `nextFree, `indexed, `root, `freed, `nodeCount, pool, table, table.slots
    {
      TreeOk() && Nested(forest, Unknown) && Keeps(pool[..], forest)
    }

    /** What every call keeps as long as no key found the table full. */
    ghost predicate Valid()
      reads `forest, `free, `nextFree, `indexed, `root, `freed, `nodeCount, pool, table, table.slots
    {
      Sane() && Regular(Value())
    }

    /** What the set-up of a context fixes for good. */
    ghost predicate Usable() {
      pool.Length < NONE &&
      (mode == Hashed ==> table.slots.Length > 0 && SeparatesParents(hashFn) && hashFn == KeyHash(bigEndian))
    }

    /** An empty index. */
    ghost function NoKeys(): Index { if mode == Linear then Whole else Listed({}, table.slots.Length) }

    lemma Bounds()
      requires TreeOk()
      ensures forall i :: i in Ids(forest) ==> i < pool.Length
      ensures NONE !in Ids(forest) && Distinct(forest) && Rep(pool[..], forest, NONE) && pool.Length < NONE
      ensures nodeCount == Size(forest) <= pool.Length && root == Head(forest)
    {
      TreeFacts(pool[..], Bare(), root, freed, nodeCount);
    }

    /** jes_tree_init followed by jes_hash_table_init */
    constructor (mode: Mode, bigEndian: bool, capacity: nat, tableCapacity: nat)
      requires capacity < NONE && (mode == Hashed ==> tableCapacity > 0)
      ensures Valid() && fresh(pool) && fresh(table) && fresh(table.slots)
      ensures this.mode == mode && this.bigEndian == bigEndian && pool.Length == capacity
      ensures table.slots.Length == tableCapacity
      ensures Value() == Doc(Nil, [], 0, NoKeys()) && status == NoError && Usable()
    {
      this.mode, this.bigEndian := mode, bigEndian;
      hashFn := KeyHash(bigEndian);
      pool := new Cell[capacity](_ => Cell(Unknown, "", 0, 0, 0, 0, 0));
      table := new Table(tableCapacity);
      nodeCount, nextFree, freed, root := 0, 0, NONE, NONE;
      status, state, iter := NoError, Start, NONE;
      forest, free, indexed := Nil, [], {};
      new;
      assert LiveSlots(table.slots[..]) == {};
      KeyHashSeparates(hashFn, bigEndian);
    }

    /** jes_reset: the pool and the table are partitioned anew, whatever they held */
    method Reset()
      requires Usable()
      modifies this, table, table.slots
      ensures Valid() && Value() == Doc(Nil, [], 0, NoKeys()) && status == NoError && iter == NONE
    {
      EmptyTree(pool[..]);
      hide TreeRep, IndexRep, Nested, Shaped, KeyRefs, SeparatesParents, KeyHash;
      iter := NONE;
      nodeCount, nextFree, freed, root := 0, 0, NONE, NONE;
      forest, free := Nil, [];
      ClearIndex();
      status := NoError;
      assert TreeOk() && Sane();
    }

    /** jes_hash_table_init */
    method ClearIndex()
      requires Usable()
      modifies this`indexed, table, table.slots
      ensures indexed == {} && Keeps(pool[..], Nil)
    {
      hide KeyHash, SeparatesParents, SlotsOk;
      indexed := {};
      if mode == Hashed {
        table.Clear(pool[..]);
        EmptyIndex(table.slots[..], table.entryCount, pool[..], hashFn);
      }
    }

    /** jes_allocate */
    method Allocate() returns (n: nat)
      requires TreeOk()
      modifies this`nodeCount, this`nextFree, this`freed, this`status, this`free, pool
      ensures old(nodeCount) < pool.Length ==> (
        && n == NewId(old(Value())) && n < pool.Length && n !in Ids(forest)
        && pool[..] == old(pool[..])[n := old(pool[n]).(parent := NONE, sibling := NONE, first := NONE, last := NONE)]
        && nodeCount == old(nodeCount) + 1 && status == old(status)
        && free == FreeRest(old(Value())) && nextFree == NextRest(old(Value()))
        && nextFree <= pool.Length && Chain(pool[..], freed, free))
      ensures old(nodeCount) == pool.Length ==>
        n == NONE && status == OutOfMemory && Value() == old(Value()) && nodeCount == old(nodeCount)
            && pool[..] == old(pool[..]) && TreeOk()
    {
      Bounds();
      if nodeCount < pool.Length {
        if freed != NONE {
          n := freed;
          freed := pool[freed].next;
          free := free[1..];
        } else {
          assert nextFree < pool.Length;
          n := nextFree;
          nextFree := nextFree + 1;
        }
        ghost var before := pool[..];
        pool[n] := pool[n].(parent := NONE, sibling := NONE, first := NONE, last := NONE);
        assert pool[..] == before[n := before[n].(parent := NONE, sibling := NONE, first := NONE, last := NONE)];
        nodeCount := nodeCount + 1;
        ChainFrame(before, pool[..], freed, free);
      } else {
        status := OutOfMemory;
        n := NONE;
      }
    }

    /** The link updates of jes_tree_insert_node on a freshly allocated node */
    method Link(parent: nat, anchor: nat, n: nat, kind: Kind, text: string)
      requires n < pool.Length && n != parent && n != anchor
      requires parent != NONE ==> parent < pool.Length && parent != anchor
      requires anchor != NONE ==> anchor < pool.Length && parent != NONE
      modifies this`root, pool
      ensures LinkedIn(old(pool[..]), pool[..], parent, anchor, n, kind, text)
      ensures root == if parent == NONE then n else old(root)
    {
      if parent != NONE {
        pool[n] := pool[n].(parent := parent);
        if anchor != NONE {
          pool[n] := pool[n].(sibling := pool[anchor].sibling);
          pool[anchor] := pool[anchor].(sibling := n);
          if pool[parent].last == anchor {
            pool[parent] := pool[parent].(last := n);
          }
        } else {
          pool[n] := pool[n].(sibling := pool[parent].first);
          if !(pool[parent].first < NONE) {
            pool[parent] := pool[parent].(last := n);
          }
          pool[parent] := pool[parent].(first := n);
        }
      } else {
        root := n;
      }
      pool[n] := pool[n].(kind := kind, text := text);
    }

    /** jes_tree_insert_node */
    method InsertNode(parent: nat, anchor: nat, kind: Kind, text: string) returns (n: nat)
      requires TreeOk()
      requires parent == NONE ==> anchor == NONE && (forest.Nil? || nodeCount == pool.Length)
      requires parent != NONE && nodeCount < pool.Length ==> parent in Ids(forest)
      requires anchor != NONE && nodeCount < pool.Length ==>
        anchor in Ids(forest) && Parent(forest, anchor, NONE) == parent
      modifies this`nodeCount, this`nextFree, this`freed, this`status, this`free, this`root, this`forest, pool
      ensures TreeOk()
      ensures old(nodeCount) < pool.Length ==> (
                && n == NewId(old(Value())) && n < NONE && n !in old(Ids(forest)) && status == old(status)
                && Value() == Inserted(old(Value()), parent, anchor, kind, text))
      ensures old(nodeCount) == pool.Length ==>
                n == NONE && status == OutOfMemory && Value() == old(Value()) && pool[..] == old(pool[..])
    {
      hide TreeRep, Rep, Chain, Slots, Distinct, InsertAfter, InsertFirst;
      ghost var before := pool[..];
      ghost var d, h, c := Bare(), freed, nodeCount;
      Bounds();
      n := Allocate();
      if n != NONE {
        Attach(parent, anchor, n, kind, text, before, d, h, c);
      }
    }

    /** The rest of it, with the slot taken: links, type and text */
    method Attach(parent: nat, anchor: nat, n: nat, kind: Kind, text: string, ghost before: seq<Cell>, ghost d: Doc,
        ghost freed0: nat, ghost count0: nat)
      requires TreeRep(before, d, root, freed0, count0) && count0 < |before| && d == Doc(forest, d.free, d.next, Whole)
      requires n == NewId(d) && n < |before| && n !in Ids(forest) && nodeCount == count0 + 1
      requires pool[..] == before[n := before[n].(parent := NONE, sibling := NONE, first := NONE, last := NONE)]
      requires free == FreeRest(d) && nextFree == NextRest(d) <= |before| && Chain(pool[..], freed, free)
      requires if parent == NONE then anchor == NONE && forest.Nil? else parent in Ids(forest)
      requires anchor != NONE ==> anchor in Ids(forest) && Parent(forest, anchor, NONE) == parent
      modifies this`root, this`forest, pool
      ensures TreeOk() && Bare() == Inserted(d, parent, anchor, kind, text)
    {
      hide Rep, Slots, Distinct, InsertAfter, InsertFirst;
      ghost var taken, r := pool[..], root;
      TreeFacts(before, d, root, freed0, count0);
      AnchorBelow(forest, anchor, parent);
      Link(parent, anchor, n, kind, text);
      forest := Inserted(d, parent, anchor, kind, text).forest;
      InsertKeeps(before, taken, pool[..], d, r, freed0, freed, count0, parent, anchor, n, kind, text);
    }

    /** jes_free: push a slot on the free list */
    method Free(id: nat)
      requires id < pool.Length && nodeCount > 0
      modifies this`nodeCount, this`freed, pool
      ensures nodeCount == old(nodeCount) - 1 && freed == id
      ensures pool[..] == old(pool[..])[id := old(pool[id]).(kind := Unknown, next := old(freed))]
    {
      ghost var before := pool[..];
      pool[id] := pool[id].(kind := Unknown, next := NONE);
      nodeCount := nodeCount - 1;
      if freed != NONE {
        pool[id] := pool[id].(next := freed);
      }
      freed := id;
      assert pool[..] == before[id := before[id].(kind := Unknown, next := old(freed))];
    }

    /** jes_tree_insert_node for the element types other than keys */
    method InsertValue(parent: nat, anchor: nat, kind: Kind, text: string) returns (n: nat)
      requires Sane() && CanInsert(forest, parent, anchor, kind) && kind != Key
      modifies this`nodeCount, this`nextFree, this`freed, this`status, this`free, this`root, this`forest, pool
      ensures Sane()
      ensures old(nodeCount) < pool.Length ==> (
                && n == NewId(old(Value())) && n < NONE && n !in old(Ids(forest)) && status == old(status)
                && Value() == Inserted(old(Value()), parent, anchor, kind, text))
      ensures old(nodeCount) == pool.Length ==>
                n == NONE && status == OutOfMemory && Value() == old(Value())
    {
      hide IndexRep, SeparatesParents, TreeRep, Rep, Nested, KeyHash, Distinct, KeyRefs, TextsOk;
      hide InsertAfter, InsertFirst;
      ghost var before, d := pool[..], Value();
      Bounds();
      n := InsertNode(parent, anchor, kind, text);
      Bounds();
      InsertedNest(d, parent, anchor, kind, text);
      IndexStays(before, d.forest);
    }

    /** The table stays when the listed keys are in another tree as well. */
    lemma IndexStays(before: seq<Cell>, f: Forest)
      requires Keeps(before, f) && Rep(before, f, NONE) && Distinct(f)
      requires Rep(pool[..], forest, NONE) && Distinct(forest)
      requires mode == Hashed ==> indexed <= KeyRefs(forest, NONE)
      ensures Keeps(pool[..], forest)
    {
      if mode == Hashed {
        RefTexts(before, f, indexed);
        RefTexts(pool[..], forest, indexed);
        SameKeys(table.slots[..], table.entryCount, before, pool[..], indexed, hashFn);
      }
    }

    /** jes_tree_insert_key_node: no key that a search finds is added again, and the table is kept
        up to date as long as it has room */
    method InsertKeyNode(parent: nat, anchor: nat, keyword: string) returns (n: nat)
      requires Sane() && (parent != NONE ==> status == NoError)
      requires parent != NONE ==> parent in Ids(forest) && At(forest, parent).kind == Object
      requires parent == NONE ==> anchor == NONE && nodeCount == pool.Length
      requires anchor != NONE ==> anchor in Ids(forest) && Parent(forest, anchor, NONE) == parent
      modifies this`nodeCount, this`nextFree, this`freed, this`status, this`free, this`root, this`forest, this`indexed,
          pool,
               table, table.slots
      ensures Sane()
      ensures old(Found(Value(), parent, keyword)) != NONE ==>
                n == NONE && status == DuplicateKey && Value() == old(Value())
      ensures old(Found(Value(), parent, keyword)) == NONE && old(nodeCount) == pool.Length ==>
                n == NONE && status == OutOfMemory && Value() == old(Value())
      ensures old(Found(Value(), parent, keyword)) == NONE && old(nodeCount) < pool.Length ==> (
                && n == NewId(old(Value())) && n < NONE && n !in old(Ids(forest))
                && Value() == WithKey(Inserted(old(Value()), parent, anchor, Key, keyword), KeyRef(parent, n, keyword))
                && status == if NoRoom(old(Value()).index) then OutOfMemory else NoError)
    {
      hide IndexRep, SeparatesParents, Rep, Nested, Distinct, KeyRefs, FindKey, Named, Inserted, KeyHash, TreeRep;
      hide Ids, At, Parent;
      Bounds();
      var duplicate := Find(parent, keyword);
      n := NONE;
      if duplicate != NONE {
        status := DuplicateKey;
      } else {
        n := InsertAbsentKey(parent, anchor, keyword);
      }
      if n != NONE && mode == Hashed {
        Bounds();
        ghost var d := Value();
        AddToIndex(parent, n, keyword);
        assert Value() == WithKey(d, KeyRef(parent, n, keyword));
      }
    }

    /** jes_tree_insert_node for a key; the table does not list it yet */
    method InsertAbsentKey(parent: nat, anchor: nat, keyword: string) returns (n: nat)
      requires Sane()
      requires parent != NONE ==> parent in Ids(forest) && At(forest, parent).kind == Object
      requires parent == NONE ==> anchor == NONE && nodeCount == pool.Length
      requires anchor != NONE ==> anchor in Ids(forest) && Parent(forest, anchor, NONE) == parent
      modifies this`nodeCount, this`nextFree, this`freed, this`status, this`free, this`root, this`forest, pool
      ensures Sane()
      ensures old(nodeCount) == pool.Length ==> n == NONE && status == OutOfMemory && Value() == old(Value())
      ensures old(nodeCount) < pool.Length ==> (
                && n == NewId(old(Value())) && n < NONE && n !in old(Ids(forest)) && status == old(status)
                && Value() == Inserted(old(Value()), parent, anchor, Key, keyword)
                && KeyRef(parent, n, keyword) in KeyRefs(forest, NONE))
    {
      hide IndexRep, SeparatesParents, TreeRep, Rep, Nested, KeyHash, Distinct, Ids, Parent, KeyRefs, TextsOk;
      ghost var before, d := pool[..], Value();
      Bounds();
      n := InsertNode(parent, anchor, Key, keyword);
      if n != NONE {
        InsertedNest(d, parent, anchor, Key, keyword);
        Bounds();
        IndexStays(before, d.forest);
      }
    }

    /** hash_table.add_fn on a key that was just linked into the tree */
    method AddToIndex(parent: nat, n: nat, keyword: string)
      requires mode == Hashed && Keeps(pool[..], forest) && Rep(pool[..], forest, NONE)
      requires Distinct(forest) && NONE !in Ids(forest)
      requires parent < NONE && KeyRef(parent, n, keyword) in KeyRefs(forest, NONE)
      requires Named(indexed, parent, keyword) == NONE
      modifies this`status, this`indexed, table, table.slots
      ensures Keeps(pool[..], forest)
      ensures status == if old(|indexed|) >= table.slots.Length then OutOfMemory else NoError
      ensures indexed == if status == NoError then old(indexed) + {KeyRef(parent, n, keyword)} else old(indexed)
    {
      hide Rep, Distinct, KeyRefs, Ids, SlotsOk, Stored, TextsOk, Indexed, KeyHash, SeparatesParents, Named;
      ghost var slots, cells, r := table.slots[..], pool[..], KeyRef(parent, n, keyword);
      RefTexts(cells, forest, indexed + {r});
      RefTexts(cells, forest, indexed);
      forall s | s in indexed ensures s.id != NONE { KeyRefIds(forest, NONE, s); }
      BeforeAdd(slots, table.entryCount, cells, cells, indexed, hashFn, r);
      var hash := HashOf(parent, keyword);
      ghost var at;
      status, at := table.Add(hash, n, pool);
      if status == NoError {
        AfterAdd(slots, table.slots[..], table.entryCount - 1, cells, indexed, hashFn, at, r);
        indexed := indexed + {r};
      }
    }

    /** hash_fn */
    method HashOf(parent: nat, keyword: string) returns (hash: nat)
      requires parent < 0x1_0000 && hashFn == KeyHash(bigEndian)
      ensures hash == hashFn(parent, keyword)
    {
      hash := ParentHash(parent, keyword, bigEndian);
    }

    /** jes_tree_find_key: linear search among the children of an object */
    method FindKeyLinear(parent: nat, keyword: string) returns (key: nat)
      requires TreeOk() && (parent == NONE || parent in Ids(forest))
      modifies this`status
      ensures key == FindKey(forest, parent, keyword)
      ensures status == if parent != NONE && At(forest, parent).kind == Object then old(status) else UnexpectedElement
    {
      Bounds();
      if parent != NONE { RepAt(pool[..], forest, NONE, parent); }
      if parent == NONE || pool[parent].kind != Object {
        status := UnexpectedElement;
        return NONE;
      }
      key := NONE;
      var i := pool[parent].first;
      ghost var rest := At(forest, parent).kids;
      while i != NONE && pool[i].kind == Key
        invariant Rep(pool[..], rest, parent) && i == Head(rest) && (rest.Cons? ==> rest.id < pool.Length)
        invariant key == NONE && KeyIn(At(forest, parent).kids, keyword) == KeyIn(rest, keyword)
        decreases rest
      {
        if pool[i].text == keyword {
          key := i;
          break;
        }
        i := pool[i].sibling;
        rest := rest.sibs;
      }
    }

    /** jes_hash_table_find_key */
    method FindKeyHashed(parent: nat, keyword: string) returns (key: nat)
      requires Sane() && mode == Hashed && parent < 0x1_0000
      ensures key == Named(indexed, parent, keyword)
    {
      hide TreeRep, Rep, Distinct, Nested, Indexed, KeyHash, KeyRefs, Ids, Named;
      TreeFacts(pool[..], Bare(), root, freed, nodeCount);
      var hash := HashOf(parent, keyword);
      key := table.Find(hash, keyword, pool);
      RefTexts(pool[..], forest, indexed);
      IndexLookup(pool[..], table.slots[..], indexed, hashFn, parent, keyword, key);
    }

    /** find_key_fn: linear or through the hash table, as chosen when the context was set up */
    method Find(parent: nat, keyword: string) returns (key: nat)
      requires Sane() && (parent == NONE || parent in Ids(forest))
      modifies this`status
      ensures key == Found(Value(), parent, keyword)
      ensures key != NONE ==> key in Ids(forest) && At(forest, key).kind == Key
      ensures key != NONE || (parent != NONE && At(forest, parent).kind == Object) ==> status == old(status)
    {
      Bounds();
      hide TreeRep, Rep, Distinct, Nested, IndexRep, KeyHash, SeparatesParents, KeyRefs, FindKey, Named;
      if mode == Linear {
        key := FindKeyLinear(parent, keyword);
        if key != NONE { FoundIsKey(forest, parent, keyword); }
      } else {
        key := FindKeyHashed(parent, keyword);
        if key != NONE {
          NamedIn(indexed, parent, keyword);
          KeyRefAt(forest, NONE, KeyRef(parent, key, keyword));
        }
      }
    }

    /** jes_get_leaf: follow first children down from `parent` */
    method GetLeaf(parent: nat) returns (leaf: nat)
      requires TreeOk() && parent in Ids(forest)
      ensures leaf == if At(forest, parent).kids.Nil? then NONE else LeafId(At(forest, parent).kids)
      ensures leaf == NONE <==> At(forest, parent).kids.Nil?
    {
      Bounds();
      RepAt(pool[..], forest, NONE, parent);
      leaf := pool[parent].first;
      ghost var g := At(forest, parent).kids;
      if leaf == NONE { return; }
      ghost var q := parent;
      while pool[leaf].first != NONE
        invariant g.Cons? && Rep(pool[..], g, q) && leaf == g.id < pool.Length
        invariant LeafId(g) == LeafId(At(forest, parent).kids)
        decreases g
      {
        q := g.id;
        leaf := pool[leaf].first;
        g := g.kids;
      }
    }

    /** jes_get_left_sibling */
    method GetLeftSibling(node: nat) returns (prev: nat)
      requires TreeOk() && node in Ids(forest)
      ensures prev == Prev(forest, node, NONE)
    {
      Bounds();
      RepAt(pool[..], forest, NONE, node);
      prev := NONE;
      var parent := pool[node].parent;
      if parent != NONE {
        ParentFact(forest, node, NONE);
        RepAt(pool[..], forest, NONE, parent);
        AtIds(forest, parent);
        ChildOf(forest, NONE, node);
        PrevBelow(forest, parent, node, NONE);
        var i := pool[parent].first;
        ghost var rest := At(forest, parent).kids;
        while i != NONE && i != node
          invariant Rep(pool[..], rest, parent) && i == Head(rest) && (rest.Cons? ==> rest.id < pool.Length)
          invariant Distinct(rest) && parent !in Ids(rest)
          invariant node in Ids(rest) && Parent(rest, node, parent) == parent
          invariant Prev(rest, node, prev) == Prev(forest, node, NONE)
          decreases rest
        {
          if node in Ids(rest.kids) { ParentFact(rest.kids, node, rest.id); }
          prev := i;
          i := pool[i].sibling;
          rest := rest.sibs;
        }
      } else {
        RootPrev(forest, node);
      }
    }

    /** hash_table.remove_fn for node `id`, which was unlinked from `parent` */
    method RemoveFromIndex(parent: nat, id: nat, ghost before: seq<Cell>)
      requires mode == Hashed && Keeps(before, forest)
      requires Rep(before, forest, NONE) && Distinct(forest) && LinksOnly(before, pool[..]) && |before| < NONE
      requires id in Ids(forest) && At(forest, id).kids.Nil? && parent == Parent(forest, id, NONE) < NONE
      modifies this`indexed, table, table.slots
      ensures indexed == Struck(old(indexed), KeyRefs(forest, NONE) - KeyRefs(Cut(forest, id), NONE))
      ensures Keeps(pool[..], Cut(forest, id))
    {
      hide Rep, Distinct, KeyRefs, SlotsOk, Stored, Match, TextsOk, Struck, Indexed, KeyHash, SeparatesParents, Ids;
      hide Cut;
      ghost var slots, count, refs := table.slots[..], table.entryCount, indexed;
      RepAt(before, forest, NONE, id);
      IndexStaysOn(before, pool[..]);
      CutIndex(forest, id, refs);
      if pool[id].kind == Key {
        ghost var r := KeyRef(parent, id, pool[id].text);
        var hash := HashOf(parent, pool[id].text);
        ghost var at := table.Remove(hash, pool[id].text, pool);
        AfterRemove(slots, table.slots[..], count, table.entryCount, pool[..], refs, hashFn, at, r);
        indexed := Struck(refs, {r});
      }
    }

    /** The table stays when only links are rewritten. */
    lemma IndexStaysOn(before: seq<Cell>, after: seq<Cell>)
      requires Keeps(before, forest) && Rep(before, forest, NONE) && Distinct(forest) && LinksOnly(before, after)
      ensures Keeps(after, forest)
      ensures mode == Hashed ==> TextsOk(after, indexed)
    {
      if mode == Hashed {
        RefTexts(before, forest, indexed);
        SameKeys(table.slots[..], table.entryCount, before, after, indexed, hashFn);
      }
    }

    /** The end of both phases of a deletion: node `id` is unlinked and leaves table and pool */
    method Release(parent: nat, id: nat, ghost before: seq<Cell>)
      requires TreeRep(before, Bare(), root, freed, nodeCount) && Nested(forest, Unknown) && Keeps(before, forest)
      requires LinksOnly(before, pool[..]) && Rep(pool[..], Cut(forest, id), NONE)
      requires id in Ids(forest) && At(forest, id).kids.Nil? && parent == Parent(forest, id, NONE) != NONE
      modifies this`nodeCount, this`freed, this`free, this`forest, this`indexed, pool, table, table.slots
      ensures Sane()
      ensures Value() == Doc(Cut(old(forest), id), [id] + old(free), nextFree,
                             Strike(old(Value()).index,
                                 KeyRefs(old(forest), NONE) - KeyRefs(Cut(old(forest), id), NONE)))
    {
      hide IndexRep, SeparatesParents, Struck, KeyRefs, TreeRep, Rep, Nested, Distinct, KeyHash;
      ghost var unlinked, d, h, c := pool[..], Bare(), freed, nodeCount;
      TreeFacts(before, d, root, h, c);
      ParentFact(forest, id, NONE);
      if mode == Hashed {
        RemoveFromIndex(parent, id, before);
      }
      Free(id);
      ReleaseKeeps(before, unlinked, pool[..], d, root, h, c, id);
      forest, free := Cut(forest, id), [id] + free;
      assert TreeOk();
      IndexStays(unlinked, forest);
    }

    /** Detach the first child of `parent` */
    method DetachFirst(parent: nat, leaf: nat)
      requires leaf < pool.Length && parent < pool.Length && parent != leaf
      requires pool[parent].first == leaf && pool.Length < NONE
      modifies pool
      ensures UnlinkedIn(old(pool[..]), pool[..], leaf, parent, NONE)
    {
      if pool[parent].first == pool[parent].last {
        pool[parent] := pool[parent].(last := NONE);
      }
      pool[parent] := pool[parent].(first := pool[leaf].sibling);
    }

    /** Detach `node` from its left sibling `prev`, or from `parent` when it is the first child */
    method Detach(parent: nat, prev: nat, node: nat)
      requires node < pool.Length && parent < pool.Length && parent != node && pool.Length < NONE
      requires if prev == NONE then pool[parent].first == node else prev < pool.Length && prev != node && prev != parent
      modifies pool
      ensures UnlinkedIn(old(pool[..]), pool[..], node, parent, prev)
    {
      if prev != NONE {
        pool[prev] := pool[prev].(sibling := pool[node].sibling);
        if pool[parent].last == node {
          pool[parent] := pool[parent].(last := prev);
        }
      } else {
        if pool[parent].last == pool[parent].first {
          pool[parent] := pool[parent].(last := NONE);
        }
        pool[parent] := pool[parent].(first := pool[node].sibling);
      }
    }

    /** One round of the first phase of jes_tree_delete_node: the leftmost leaf below `node` goes */
    method DeleteLeaf(node: nat, leaf: nat) returns (parent: nat)
      requires Sane() && node in Ids(forest) && At(forest, node).kids.Cons?
      requires leaf == LeafId(At(forest, node).kids)
      modifies this`nodeCount, this`freed, this`free, this`forest, this`indexed, pool, table, table.slots
      ensures Sane() && free == [leaf] + old(free)
      ensures LeafGone(old(forest), forest, node, leaf) && OnSpine(At(forest, node), parent)
      ensures IndexCut(old(Value()), forest, Value().index)
    {
      Bounds();
      ghost var before, f := pool[..], forest;
      LeafBelow(f, node);
      RepAt(before, f, NONE, leaf);
      parent := pool[leaf].parent;
      RepAt(before, f, NONE, parent);
      DetachFirst(parent, leaf);
      UnlinkRep(before, pool[..], f, leaf);
      LeafRound(f, node);
      CutKey(f, leaf);
      Release(parent, leaf, before);
    }

    /** The second phase: unlink the childless node itself from its siblings and its parent */
    method DeleteLast(node: nat)
      requires Sane() && node in Ids(forest) && node != root && At(forest, node).kids.Nil?
      modifies this`nodeCount, this`freed, this`free, this`forest, this`indexed, pool, table, table.slots
      ensures Sane() && forest == Cut(old(forest), node) && free == [node] + old(free)
      ensures IndexCut(old(Value()), forest, Value().index)
    {
      hide IndexRep, SeparatesParents;
      Bounds();
      ghost var before, f := pool[..], forest;
      RepAt(before, f, NONE, node);
      NotRoot(f, node);
      PrevLinks(f, node);
      var parent := pool[node].parent;
      RepAt(before, f, NONE, parent);
      var prev := GetLeftSibling(node);
      Detach(parent, prev, node);
      UnlinkRep(before, pool[..], f, node);
      CutKey(f, node);
      Release(parent, node, before);
    }

    /** The first phase: everything below `node` is freed, bottom-up */
    method DeleteChildren(node: nat)
      requires Sane() && node in Ids(forest) && node != root
      modifies this`nodeCount, this`freed, this`free, this`forest, this`indexed, pool, table, table.slots
      ensures Sane() && node in Ids(forest) && node != root && At(forest, node).kids.Nil?
      ensures Cut(forest, node) == Cut(old(forest), node) && IndexCut(old(Value()), forest, Value().index)
      ensures [node] + free == [node] + Reverse(Post(At(old(forest), node).kids)) + old(free)
    {
      hide IndexRep, SeparatesParents, TreeRep, PartlyDeleted, IndexCut, Nested, Rep;
      ghost var d := Value();
      ghost var removed: seq<nat> := [];
      Bounds();
      IndexUncut(d);
      DeletionStart(d, node);
      var parent := node;
      while true
        invariant Sane() && node in Ids(forest) && node != root && OnSpine(At(forest, node), parent)
        invariant PartlyDeleted(d, node, removed, forest, free) && IndexCut(d, forest, Value().index)
        decreases Size(At(forest, node).kids), if parent == node then 0 else 1
      {
        Bounds();
        SpineAt(forest, node, parent);
        var toRemove := GetLeaf(parent);
        if toRemove == NONE {
          if parent == node { break; }
          parent := node;
          continue;
        }
        ghost var f, fr, now := forest, free, Value();
        parent := DeleteLeaf(node, toRemove);
        IndexCutTwice(d, now, forest, Value().index);
        DeletionRound(d, node, removed, f, fr, forest, toRemove);
        removed := removed + [toRemove];
      }
      DeletionDone(d, node, removed, forest, free);
    }

    /** jes_tree_delete_node on any node but the root */
    method DeleteNode(node: nat)
      requires Sane() && (node != NONE ==> node in Ids(forest) && node != root)
      modifies this`nodeCount, this`freed, this`free, this`forest, this`indexed, pool, table, table.slots
      ensures Sane()
      ensures Value() == if node == NONE then old(Value()) else Deleted(old(Value()), node)
    {
      if node != NONE {
        ghost var d := Value();
        DeleteChildren(node);
        ghost var now := Value();
        DeleteLast(node);
        IndexCutTwice(d, now, forest, Value().index);
      }
    }
  }

  /** The index `ix` of a part `f` of a document: the names of the missing keys are struck out. */
  ghost predicate IndexCut(d: Doc, f: Forest, ix: Index) {
    KeyRefs(f, NONE) <= KeyRefs(d.forest, NONE) && ix == Strike(d.index, KeyRefs(d.forest, NONE) - KeyRefs(f, NONE))
  }

  lemma IndexCutTwice(d: Doc, d': Doc, f: Forest, ix: Index)
    requires IndexCut(d, d'.forest, d'.index) && IndexCut(d', f, ix)
    ensures IndexCut(d, f, ix)
  {
    var a, b := KeyRefs(d.forest, NONE) - KeyRefs(d'.forest, NONE), KeyRefs(d'.forest, NONE) - KeyRefs(f, NONE);
    assert a + b == KeyRefs(d.forest, NONE) - KeyRefs(f, NONE);
    if d.index.Listed? { StruckTwice(d.index.refs, a, b); }
  }

  lemma IndexUncut(d: Doc)
    ensures IndexCut(d, d.forest, d.index)
  {
    assert KeyRefs(d.forest, NONE) - KeyRefs(d.forest, NONE) == {};
    if d.index.Listed? { StruckNone(d.index.refs); }
  }

  lemma FoundIsKey(f: Forest, p: nat, text: string)
    requires Distinct(f) && NONE !in Ids(f) && FindKey(f, p, text) != NONE
    ensures FindKey(f, p, text) in Ids(f) && At(f, FindKey(f, p, text)).kind == Key
  {
    var e := FindKey(f, p, text);
    AtIds(f, p);
    KeyInTop(At(f, p).kids, p, text);
    RefAboveChild(f, NONE, p, KeyRef(p, e, text));
    KeyRefAt(f, NONE, KeyRef(p, e, text));
  }

  /** Where a node of this kind may go. */
  ghost predicate CanInsert(f: Forest, p: nat, a: nat, kind: Kind) {
    && (p == NONE ==> a == NONE && f.Nil? && Allowed(Unknown, kind))
    && (p != NONE ==> p in Ids(f) && Takes(At(f, p), kind))
    && (a != NONE ==> a in Ids(f) && Parent(f, a, NONE) == p)
  }

  lemma InsertedNest(d: Doc, p: nat, a: nat, kind: Kind, text: string)
    requires Nested(d.forest, Unknown) && Distinct(d.forest) && NONE !in Ids(d.forest)
    requires CanInsert(d.forest, p, a, kind)
    ensures var f := Inserted(d, p, a, kind, text).forest;
            && Nested(f, Unknown)
            && KeyRefs(f, NONE) == KeyRefs(d.forest, NONE) + NewRef(kind, p, NewId(d), text)
  {
    var n := NewId(d);
    if p == NONE {
      assert KeyRefs(Leaf(n, kind, text), NONE) == NewRef(kind, p, n, text);
    } else if a != NONE {
      NestedInsertAfter(d.forest, NONE, Unknown, a, n, kind, text);
      InsertAfterRefs(d.forest, NONE, a, n, kind, text);
    } else {
      NestedInsertFirst(d.forest, Unknown, p, n, kind, text);
      InsertFirstRefs(d.forest, NONE, p, n, kind, text);
    }
  }

  /** An insertion keeps the names distinct if and only if the object does not hold the name yet. */
  lemma InsertedNames(d: Doc, p: nat, a: nat, kind: Kind, text: string)
    requires Nested(d.forest, Unknown) && Distinct(d.forest) && NONE !in Ids(d.forest) && NewId(d) != NONE
    requires CanInsert(d.forest, p, a, kind)
    ensures Shaped(Inserted(d, p, a, kind, text).forest, Unknown) <==>
            Shaped(d.forest, Unknown) && FindKey(d.forest, p, text) == NONE
  {
    var n := NewId(d);
    InsertedNest(d, p, a, kind, text);
    ShapedSplits(d.forest, Unknown);
    ShapedSplits(Inserted(d, p, a, kind, text).forest, Unknown);
    if p == NONE {
    } else if a != NONE {
      NamesInsertAfter(d.forest, NONE, Unknown, a, n, kind, text);
    } else {
      NamesInsertFirst(d.forest, p, n, kind, text);
    }
  }

  /** A value or a key that is not found leaves a regular document regular, if the index has room. */
  lemma RegularInserted(d: Doc, p: nat, a: nat, kind: Kind, text: string)
    requires Regular(d) && Distinct(d.forest) && NONE !in Ids(d.forest) && NewId(d) != NONE
    requires CanInsert(d.forest, p, a, kind) && (kind == Key ==> Found(d, p, text) == NONE)
    ensures kind != Key ==> Regular(Inserted(d, p, a, kind, text))
    ensures kind == Key && !NoRoom(d.index) ==>
        Regular(WithKey(Inserted(d, p, a, kind, text), KeyRef(p, NewId(d), text)))
  {
    ShapedSplits(d.forest, Unknown);
    RegularFound(d, p, text);
    InsertedNest(d, p, a, kind, text);
    InsertedNames(d, p, a, kind, text);
  }

  lemma RegularDeleted(d: Doc, id: nat)
    requires Regular(d) && Distinct(d.forest) && NONE !in Ids(d.forest) && id in Ids(d.forest)
    requires KeyRefs(Cut(d.forest, id), NONE) <= KeyRefs(d.forest, NONE)
    ensures Regular(Deleted(d, id))
  {
    var refs, rest := KeyRefs(d.forest, NONE), KeyRefs(Cut(d.forest, id), NONE);
    ShapedSplits(d.forest, Unknown);
    NestedCut(d.forest, Unknown, id);
    NamesCut(d.forest, Unknown, id);
    ShapedSplits(Cut(d.forest, id), Unknown);
    DistinctOneName(d.forest);
    StruckRest(refs, refs - rest);
    assert refs - (refs - rest) == rest;
  }

  /** Only links were rewritten. */
  ghost predicate LinksOnly(before: seq<Cell>, after: seq<Cell>) {
    && |after| == |before|
    && forall i :: 0 <= i < |before| ==>
         after[i].kind == before[i].kind && after[i].text == before[i].text && after[i].next == before[i].next
  }

  /** An unlinked, childless node moves from the tree to the head of the free list. */
  lemma ReleaseKeeps(before: seq<Cell>, unlinked: seq<Cell>, after: seq<Cell>, d: Doc, root: nat, freed: nat,
      count: nat, id: nat)
    requires TreeRep(before, d, root, freed, count) && Nested(d.forest, Unknown) && LinksOnly(before, unlinked)
    requires Rep(unlinked, Cut(d.forest, id), NONE) && id < |before|
    requires id in Ids(d.forest) && At(d.forest, id).kids.Nil? && Parent(d.forest, id, NONE) != NONE
    requires after == unlinked[id := unlinked[id].(kind := Unknown, next := freed)]
    ensures count > 0 && TreeRep(after, Doc(Cut(d.forest, id), [id] + d.free, d.next, d.index), root, id, count - 1)
    ensures Nested(Cut(d.forest, id), Unknown)
    ensures Rep(after, Cut(d.forest, id), NONE) && Distinct(Cut(d.forest, id))
  {
    var f := Cut(d.forest, id);
    RepBound(before, d.forest, NONE);
    CutIds(d.forest, id);
    CutSize(d.forest, id);
    NestedCut(d.forest, Unknown, id);
    RepFrame(unlinked, after, f, NONE);
    ChainFrame(before, after, freed, d.free);
    assert ([id] + d.free)[1..] == d.free;
    SlotReleased(d, id);
    hide Rep, Distinct, Nested, Slots, Ids, Cut;
  }

  lemma SlotReleased(d: Doc, id: nat)
    requires Slots(d) && id in Ids(d.forest) && At(d.forest, id).kids.Nil?
    ensures Slots(Doc(Cut(d.forest, id), [id] + d.free, d.next, d.index)) && id < d.next
  {
    CutIds(d.forest, id);
    CutSize(d.forest, id);
    hide Distinct;
    assert forall i :: i in [id] + d.free <==> i == id || i in d.free;
  }

  lemma {:induction false} ReverseAppend(s: seq<nat>, x: nat)
    ensures Reverse(s + [x]) == [x] + Reverse(s)
    decreases |s|
  {
    if s != [] {
      assert (s + [x])[1..] == s[1..] + [x];
      ReverseAppend(s[1..], x);
    }
  }

  /** The leftmost leaf below a node: where it hangs and what it touches. */
  lemma LeafBelow(f: Forest, node: nat)
    requires node in Ids(f) && Distinct(f) && NONE !in Ids(f) && At(f, node).kids.Cons?
    ensures var l := LeafId(At(f, node).kids);
            && l in Ids(f) && l != node && At(f, l).kids.Nil? && l in Ids(At(f, node).kids)
            && l != f.id && Parent(f, l, NONE) in Ids(f) && Parent(f, l, NONE) != l && Prev(f, l, NONE) == NONE
            && At(f, Parent(f, l, NONE)).kids.Cons? && At(f, Parent(f, l, NONE)).kids.id == l
            && OnSpine(At(f, node).(kids := Cut(At(f, node).kids, l)), Parent(f, l, NONE))
  {
    var g := At(f, node);
    var l := LeafId(g.kids);
    AtIds(f, node);
    LeafParent(g, NONE);
    PostLeaf(g.kids);
    LeafPrev(g.kids);
    Below(f, NONE, node, l);
    PrevBelow(f, node, l, NONE);
    ParentFact(g.kids, l, g.id);
    ParentFact(f, l, NONE);
    PrevLinks(f, l);
  }

  /** The left sibling and the parent of a node; a node without left sibling is a first child. */
  lemma PrevLinks(f: Forest, node: nat)
    requires node in Ids(f) && Distinct(f) && NONE !in Ids(f) && Parent(f, node, NONE) != NONE
    ensures var p, l := Parent(f, node, NONE), Prev(f, node, NONE);
            && p in Ids(f) && At(f, p).kids.Cons?
            && (l == NONE ==> At(f, p).kids.id == node)
            && (l != NONE ==> l in Ids(f) && l != p && l != node)
  {
    var p := Parent(f, node, NONE);
    ChildOf(f, NONE, node);
    AtIds(f, p);
    PrevBelow(f, p, node, NONE);
    PrevFact(At(f, p).kids, node, NONE);
    CutTop(At(f, p).kids, p, node, NONE);
  }

  /** The two cells that unlinking `id` rewrites, and that nothing else changes. */
  ghost predicate UnlinkedIn(before: seq<Cell>, after: seq<Cell>, id: nat, p: nat, l: nat) {
    && |after| == |before| && id < |before| && p < |before|
    && Unlinked(before, after, id, p, l)
    && LinksOnly(before, after)
    && forall i :: 0 <= i < |before| && i != p && i != l ==> after[i] == before[i]
  }

  lemma UnlinkRep(before: seq<Cell>, after: seq<Cell>, f: Forest, id: nat)
    requires Rep(before, f, NONE) && Distinct(f) && NONE !in Ids(f) && id in Ids(f)
    requires UnlinkedIn(before, after, id, Parent(f, id, NONE), Prev(f, id, NONE))
    ensures Rep(after, Cut(f, id), NONE)
  {
    CutRep(before, after, f, NONE, id, NONE);
  }

  /** The effect of one round of a deletion on the branch being deleted. */
  ghost predicate LeafGone(f: Forest, f': Forest, node: nat, leaf: nat) {
    && node in Ids(f) && node in Ids(f')
    && Head(f') == Head(f)
    && Cut(f', node) == Cut(f, node)
    && Post(At(f, node).kids) == [leaf] + Post(At(f', node).kids)
    && Size(At(f', node).kids) < Size(At(f, node).kids)
  }

  /** What a deletion under way has in common with the document it started from. */
  ghost predicate PartlyDeleted(d: Doc, node: nat, removed: seq<nat>, f: Forest, free: seq<nat>) {
    && node in Ids(d.forest) && node in Ids(f)
    && Cut(f, node) == Cut(d.forest, node)
    && Post(At(d.forest, node).kids) == removed + Post(At(f, node).kids)
    && free == Reverse(removed) + d.free
  }

  lemma DeletionRound(d: Doc, node: nat, removed: seq<nat>, f: Forest, free: seq<nat>, f': Forest, leaf: nat)
    requires PartlyDeleted(d, node, removed, f, free) && LeafGone(f, f', node, leaf)
    ensures PartlyDeleted(d, node, removed + [leaf], f', [leaf] + free)
  {
    ReverseAppend(removed, leaf);
    assert removed + ([leaf] + Post(At(f', node).kids)) == (removed + [leaf]) + Post(At(f', node).kids);
    assert [leaf] + (Reverse(removed) + d.free) == Reverse(removed + [leaf]) + d.free;
  }

  lemma DeletionStart(d: Doc, node: nat)
    requires node in Ids(d.forest)
    ensures PartlyDeleted(d, node, [], d.forest, d.free)
  {
    assert [] + Post(At(d.forest, node).kids) == Post(At(d.forest, node).kids);
    assert Reverse([]) + d.free == d.free;
  }

  lemma DeletionDone(d: Doc, node: nat, removed: seq<nat>, f: Forest, free: seq<nat>)
    requires PartlyDeleted(d, node, removed, f, free) && At(f, node).kids.Nil?
    ensures [node] + free == [node] + Reverse(Post(At(d.forest, node).kids)) + d.free
    ensures Cut(f, node) == Cut(d.forest, node)
  {
    assert removed + [] == removed;
  }

  lemma LeafRound(f: Forest, node: nat)
    requires node in Ids(f) && Distinct(f) && NONE !in Ids(f) && At(f, node).kids.Cons?
    ensures var l := LeafId(At(f, node).kids);
            && l in Ids(f) && LeafGone(f, Cut(f, l), node, l)
            && OnSpine(At(Cut(f, l), node), Parent(f, l, NONE))
  {
    var l := LeafId(At(f, node).kids);
    LeafBelow(f, node);
    AtIds(f, node);
    CutBelow(f, NONE, node, l);
    PostLeaf(At(f, node).kids);
    CutSize(At(f, node).kids, l);
  }

  lemma NotRoot(f: Forest, node: nat)
    requires f.Cons? && f.sibs.Nil? && node in Ids(f) && node != f.id && NONE !in Ids(f)
    ensures Parent(f, node, NONE) != NONE
  {
    ParentFact(f.kids, node, f.id);
  }

  /** Every node is a child of its parent. */
  lemma {:induction false} ChildOf(f: Forest, q: nat, id: nat)
    requires id in Ids(f) && Distinct(f) && q !in Ids(f) && Parent(f, id, q) != q
    ensures var p := Parent(f, id, q); p in Ids(f) && id in Ids(At(f, p).kids) && Parent(At(f, p).kids, id, p) == p
  {
    if id in Ids(f.kids) {
      if Parent(f.kids, id, f.id) != f.id {
        ChildOf(f.kids, f.id, id);
      }
    } else {
      ChildOf(f.sibs, q, id);
    }
  }

  lemma {:induction false} RootPrev(f: Forest, id: nat)
    requires f.Cons? && f.sibs.Nil? && id in Ids(f) && Distinct(f) && NONE !in Ids(f) && Parent(f, id, NONE) == NONE
    ensures Prev(f, id, NONE) == NONE
  {
    if id in Ids(f.kids) { ParentFact(f.kids, id, f.id); }
  }

  lemma SingleRoot(f: Forest, a: nat, n: nat, kind: Kind, text: string)
    requires f.Cons? && f.sibs.Nil? && a in Ids(f) && Parent(f, a, NONE) in Ids(f) && Distinct(f) && NONE !in Ids(f)
    ensures InsertAfter(f, a, Leaf(n, kind, text)).Cons? && InsertAfter(f, a, Leaf(n, kind, text)).sibs.Nil?
  {
  }

  /** The table lists at most one key of each name in an object. */
  lemma SaneNames(ctx: Context)
    requires ctx.Sane()
    ensures ctx.mode == Hashed ==> OneName(ctx.indexed)
  {
    hide IndexRep, Rep, Chain, SeparatesParents, KeyHash, OneName;
    if ctx.mode == Hashed {
      IndexNames(ctx.table.slots[..], ctx.table.entryCount, ctx.pool[..], ctx.forest, ctx.indexed, ctx.hashFn);
    }
  }
}
