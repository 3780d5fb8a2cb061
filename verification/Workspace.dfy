/** How src/jes.c divides the workspace between node pool and key index, and why the index then
    has room for the keys of every complete document that fits the pool. */
module Workspace {
  import opened Codes
  import opened Forests
  import opened Shapes
  import opened Printer
  import opened Machine
  import opened Grammar
  import opened Spines
  import opened Tree
  import opened Tokenizer
  import opened RoundTrip
  import LoadRender

  /** sizeof(struct jes_context), sizeof(struct jes_node), sizeof(struct jes_hash_entry) and
      JES_ALIGNMENT with 8-byte pointers and 16-bit node descriptors */
  const CONTEXT_SIZE: nat := 248
  const NODE_SIZE: nat := 24
  const ENTRY_SIZE: nat := 16
  const ALIGNMENT: nat := 8

  /** JES_WORKSPACE_NODE_POOL_PERCENT */
  const POOL_PERCENT: nat := 75

  /** JES_ALIGN_PTR */
  function Align(address: nat): (r: nat)
    ensures address <= r < address + ALIGNMENT && r % ALIGNMENT == 0
  {
    (address + (ALIGNMENT - 1)) / ALIGNMENT * ALIGNMENT
  }

  /** How many elements a partition holds: NONE stays free as a sentinel. */
  function Capacity(bytes: nat, element: nat): (n: nat)
    requires element > 0
    ensures n < NONE
  {
    if bytes / element < NONE then bytes / element else NONE - 1
  }

  function PoolBytes(size: nat): nat
    requires size >= CONTEXT_SIZE
  {
    (size - CONTEXT_SIZE) * POOL_PERCENT / 100
  }

  /** What is left behind the pool and the padding; it can be negative in a workspace that is
      too small for a single node. */
  function TableBytes(start: nat, size: nat): int
    requires size >= CONTEXT_SIZE
  {
    start + size - Align(start + CONTEXT_SIZE + PoolBytes(size))
  }

  /** jes_init with jes_partition_workspace, on a workspace of `size` bytes at address `start` */
  method Init(start: nat, size: nat, mode: Mode, bigEndian: bool) returns (ctx: Context?)
    ensures size < CONTEXT_SIZE ==> ctx == null
    ensures mode == Linear && size >= CONTEXT_SIZE ==>
      if size - CONTEXT_SIZE < NODE_SIZE then ctx == null
      else ctx != null && ctx.pool.Length == Capacity(size - CONTEXT_SIZE, NODE_SIZE)
    ensures mode == Hashed && size >= CONTEXT_SIZE ==>
      if PoolBytes(size) < NODE_SIZE || TableBytes(start, size) < ENTRY_SIZE then ctx == null
      else
        && ctx != null && ctx.pool.Length == Capacity(PoolBytes(size), NODE_SIZE)
        && ctx.table.slots.Length == Capacity(TableBytes(start, size), ENTRY_SIZE)
    ensures ctx != null ==>
      && fresh(ctx) && fresh(ctx.pool) && fresh(ctx.table) && fresh(ctx.table.slots)
      && ctx.mode == mode && ctx.Valid() && ctx.Usable() && ctx.Bare() == Doc(Nil, [], 0, Whole)
  {
    ctx := null;
    if size < CONTEXT_SIZE { return; }
    if mode == Linear {
      var capacity := Capacity(size - CONTEXT_SIZE, NODE_SIZE);
      if capacity != 0 {
        ctx := new Context(mode, bigEndian, capacity, 0);
      }
    } else {
      var poolSize := PoolBytes(size);
      var table := Align(start + CONTEXT_SIZE + poolSize);
      var capacity := Capacity(poolSize, NODE_SIZE);
      if capacity != 0 {
        TableStarts(start, size);
        assert table < start + size;
        var tableSize := start + size - table;
        var slots := Capacity(tableSize, ENTRY_SIZE);
        if slots != 0 {
          ctx := new Context(mode, bigEndian, capacity, slots);
        }
      }
    }
  }

  /** With room for one node the table starts inside the workspace. */
  lemma TableStarts(start: nat, size: nat)
    requires size >= CONTEXT_SIZE && PoolBytes(size) >= NODE_SIZE
    ensures TableBytes(start, size) > 0
  {
  }

  /** A workspace of 376 aligned bytes has four nodes and two table slots. */
  lemma FourAndTwo(start: nat)
    requires start % ALIGNMENT == 0
    ensures PoolBytes(376) >= NODE_SIZE && Capacity(PoolBytes(376), NODE_SIZE) == 4
    ensures TableBytes(start, 376) >= ENTRY_SIZE && Capacity(TableBytes(start, 376), ENTRY_SIZE) == 2
  {
    assert PoolBytes(376) == 96;
    assert Align(start + 344) == start + 344;
  }

  /** The nodes of a chain, and of them the keys. */
  function Length(f: Forest): nat { if f.Nil? then 0 else 1 + Length(f.sibs) }

  /** In a complete tree every key comes with a value that is no key. */
  lemma {:induction false} KeysAndValues(f: Forest, k: Kind)
    requires Shaped(f, k) && Full(f)
    ensures Size(f) >= 2 * KeyCount(f) + if k == Object then 0 else Length(f)
  {
    if f.Cons? {
      KeysAndValues(f.kids, f.kind);
      KeysAndValues(f.sibs, k);
    }
  }

  /** Three quarters of the bytes for the pool and the rest, up to seven bytes of padding, for the
      index: `k` keys with their values and one more node in the pool have `k` slots. */
  lemma SlotsForKeys(start: nat, size: nat, k: nat)
    requires size >= CONTEXT_SIZE && 0 < k && 2 * k + 1 <= Capacity(PoolBytes(size), NODE_SIZE)
    ensures TableBytes(start, size) >= ENTRY_SIZE && k <= Capacity(TableBytes(start, size), ENTRY_SIZE)
  {
    var a, pool := size - CONTEXT_SIZE, PoolBytes(size);
    assert pool >= NODE_SIZE * (2 * k + 1);
    assert 100 * pool <= 75 * a;
    assert TableBytes(start, size) > a - pool - 8;
    assert a - pool >= 16 * k + 8;
  }

  /** In a context that was set up for hashed search, every complete document that fits the node
      pool has at most as many keys as the table has slots. */
  lemma CompleteFits(start: nat, size: nat, t: Forest, slots: nat)
    requires size >= CONTEXT_SIZE && TableBytes(start, size) >= ENTRY_SIZE
    requires slots == Capacity(TableBytes(start, size), ENTRY_SIZE)
    requires t.Cons? && Shaped(t, Unknown) && Full(t) && Size(t) <= Capacity(PoolBytes(size), NODE_SIZE)
    ensures KeyCount(t) <= slots
  {
    KeysAndValues(t, Unknown);
    if KeyCount(t) > 0 { SlotsForKeys(start, size, KeyCount(t)); }
  }

  /** So a load in hashed mode has room in the table for whatever it reads, if that is complete. */
  lemma LoadFits(start: nat, size: nat, text: string, slots: nat)
    requires size >= CONTEXT_SIZE && TableBytes(start, size) >= ENTRY_SIZE
    requires slots == Capacity(TableBytes(start, size), ENTRY_SIZE)
    ensures var f := Plug(Drive(INITIAL, text, 0, Capacity(PoolBytes(size), NODE_SIZE)).spine);
      Full(f) ==> KeyCount(f) <= slots
  {
    var cap := Capacity(PoolBytes(size), NODE_SIZE);
    var f := Plug(Drive(INITIAL, text, 0, cap).spine);
    DriveKeeps(INITIAL, text, 0, cap);
    if f.Cons? && Full(f) { CompleteFits(start, size, f, slots); }
  }

  /** A hashed load of the printed text of a complete document never fails because the table is
      full. */
  method InitAndLoad(start: nat, size: nat, bigEndian: bool, text: string, compact: bool, ghost t: Forest)
      returns (ctx: Context?, status: Status)
    requires CompleteDocument(t) && text == Print(t, 0, compact)
    requires size >= CONTEXT_SIZE && Size(t) <= Capacity(PoolBytes(size), NODE_SIZE)
    requires TableBytes(start, size) >= ENTRY_SIZE
    ensures ctx != null && status == NoError && ctx.Valid() && ctx.Bare() == Doc(Fresh(t, 0), [], Size(t), Whole)
  {
    ctx := Init(start, size, Hashed, bigEndian);
    CompleteFits(start, size, t, ctx.table.slots.Length);
    var tok := new TokenizerContext();
    status := LoadRender.Reload(ctx, tok, text, compact, t);
  }
}
