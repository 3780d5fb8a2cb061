/** The open-addressing key index of src/jes_hash_table.c: linear probing with tombstones. */
module HashTable {
  import opened Codes
  import opened Forests
  import opened Pool

  datatype Slot = Empty | Tombstone | Live(hash: nat, elem: nat)

  /** The text behind a table entry, read through the node it points to. */
  function TextOf(cells: seq<Cell>, e: nat): string {
    if e < |cells| then cells[e].text else ""
  }

  predicate Match(s: Slot, h: nat, text: string, cells: seq<Cell>) {
    s.Live? && s.hash == h && TextOf(cells, s.elem) == text
  }

  /** The slot probed `k` steps after `start` in a table of `n` slots. */
  function Probe(start: nat, k: nat, n: nat): nat
    requires start < n && k < n
  {
    if start + k < n then start + k else start + k - n
  }

  function Dist(start: nat, i: nat, n: nat): nat
    requires start < n && i < n
  {
    if start <= i then i - start else i + n - start
  }

  /** No empty slot lies between an entry's home slot and the slot it sits in. */
  ghost predicate Chained(slots: seq<Slot>) {
    var n := |slots|;
    forall i, k | 0 <= i < n && slots[i].Live? && 0 <= k < Dist(slots[i].hash % n, i, n)
      :: slots[Probe(slots[i].hash % n, k, n)] != Empty
  }

  /** No two entries have equal hash and text. */
  ghost predicate Unique(slots: seq<Slot>, cells: seq<Cell>) {
    forall i, j | 0 <= i < |slots| && 0 <= j < |slots| && slots[i].Live? && slots[j].Live?
      && slots[i].hash == slots[j].hash && TextOf(cells, slots[i].elem) == TextOf(cells, slots[j].elem) :: i == j
  }

  function LiveSlots(slots: seq<Slot>): set<nat> { set i | 0 <= i < |slots| && slots[i].Live? }

  ghost predicate Stored(slots: seq<Slot>, h: nat, text: string, cells: seq<Cell>) {
    exists i :: 0 <= i < |slots| && Match(slots[i], h, text, cells)
  }

  lemma NextProbe(start: nat, k: nat, n: nat)
    requires start < n && k < n
    ensures (Probe(start, k, n) + 1) % n == if k + 1 < n then Probe(start, k + 1, n) else start
  {
    var p := Probe(start, k, n);
    if p + 1 == n {
      assert n % n == 0;
    } else {
      assert (p + 1) % n == p + 1;
    }
  }

  function Range(n: nat): (r: set<nat>)
    ensures forall i: nat :: i in r <==> i < n
    ensures |r| == n
  {
    if n == 0 then {} else Range(n - 1) + {n - 1}
  }

  lemma LiveSlotsBound(slots: seq<Slot>)
    ensures |LiveSlots(slots)| <= |slots|
    ensures |LiveSlots(slots)| == |slots| <==> forall i :: 0 <= i < |slots| ==> slots[i].Live?
  {
    var all := Range(|slots|);
    SubsetSize(LiveSlots(slots), all);
    if forall i :: 0 <= i < |slots| ==> slots[i].Live? {
      assert LiveSlots(slots) == all;
    }
    if |LiveSlots(slots)| == |slots| {
      forall i | 0 <= i < |slots| ensures slots[i].Live? {
        assert i in all;
      }
    }
  }

  lemma SubsetSize<T>(a: set<T>, b: set<T>)
    requires a <= b
    ensures |a| <= |b| && (|a| == |b| ==> a == b)
  {
    var d := b - a;
    assert b == a + d;
    if |a| == |b| { assert d == {}; }
  }

  /** The table invariant; `cells` is the node pool that the entries point into. */
  ghost predicate SlotsOk(slots: seq<Slot>, count: nat, cells: seq<Cell>) {
    && |slots| > 0
    && (forall i :: 0 <= i < |slots| && slots[i].Live? ==> slots[i].elem < |cells|)
    && Chained(slots) && Unique(slots, cells)
    && count == |LiveSlots(slots)|
  }

  class Table {
    const slots: array<Slot>
    var entryCount: nat

    constructor (n: nat)
      ensures slots.Length == n && fresh(slots) && entryCount == 0
      ensures forall i :: 0 <= i < n ==> slots[i] == Empty
    {
      slots := new Slot[n](_ => Empty);
      entryCount := 0;
    }

    ghost predicate Valid(cells: seq<Cell>)
      reads this, slots
    {
      SlotsOk(slots[..], entryCount, cells)
    }

    /** jes_hash_table_resize on a partition of the same size */
    method Clear(ghost cells: seq<Cell>)
      requires slots.Length > 0
      modifies this, slots
      ensures Valid(cells) && forall i :: 0 <= i < slots.Length ==> slots[i] == Empty
    {
      forall i | 0 <= i < slots.Length {
        slots[i] := Empty;
      }
      entryCount := 0;
      assert LiveSlots(slots[..]) == {};
    }

    /** The probing loop shared by jes_hash_table_find_key and jes_hash_table_remove:
        the slot of the entry with this hash and text, or `slots.Length`. */
    method Search(hash: nat, text: string, cells: array<Cell>) returns (found: nat)
      requires Valid(cells[..])
      ensures found < slots.Length ==> Match(slots[found], hash, text, cells[..])
      ensures found >= slots.Length ==> !Stored(slots[..], hash, text, cells[..])
    {
      var n := slots.Length;
      var index := hash % n;
      var startIndex := index;
      ghost var k := 0;
      while slots[index] != Empty
        invariant 0 <= k < n && index == Probe(startIndex, k, n)
        invariant forall j :: 0 <= j < k ==> !Match(slots[Probe(startIndex, j, n)], hash, text, cells[..])
        decreases n - k
      {
        if slots[index].Live? && slots[index].hash == hash && cells[slots[index].elem].text == text {
          return index;
        }
        NextProbe(startIndex, k, n);
        index := (index + 1) % n;
        if startIndex == index {
          forall i | 0 <= i < n ensures !Match(slots[i], hash, text, cells[..]) {
            assert i == Probe(startIndex, Dist(startIndex, i, n), n);
          }
          return n;
        }
        k := k + 1;
      }
      forall i | 0 <= i < n ensures !Match(slots[i], hash, text, cells[..]) {
        var d := Dist(startIndex, i, n);
        assert i == Probe(startIndex, d, n);
        if slots[i].Live? && slots[i].hash == hash {
          EntryBeforeGap(slots[..], i, k);
        }
      }
      return n;
    }

    /** jes_hash_table_find_key, with the hash already computed */
    method Find(hash: nat, text: string, cells: array<Cell>) returns (elem: nat)
      requires Valid(cells[..])
      requires cells.Length <= NONE
      ensures elem == NONE <==> !Stored(slots[..], hash, text, cells[..])
      ensures elem != NONE ==>
        exists i :: 0 <= i < slots.Length && slots[i] == Live(hash, elem) && TextOf(cells[..], elem) == text
    {
      var i := Search(hash, text, cells);
      if i < slots.Length {
        elem := slots[i].elem;
      } else {
        elem := NONE;
      }
    }

    /** jes_hash_table_add, with the hash already computed. A key that is not stored yet is
        refused only by a table without a free slot. */
    method Add(hash: nat, elem: nat, cells: array<Cell>) returns (status: Status, ghost at: nat)
      requires Valid(cells[..]) && elem < cells.Length
      modifies this, slots
      ensures status == NoError || status == OutOfMemory || status == DuplicateKey
      ensures status == NoError ==> (
                && at < slots.Length && !old(slots[at]).Live?
                && slots[..] == old(slots[..])[at := Live(hash, elem)] && entryCount == old(entryCount) + 1)
      ensures status != NoError ==> slots[..] == old(slots[..]) && entryCount == old(entryCount)
      ensures !old(Stored(slots[..], hash, cells[elem].text, cells[..])) ==>
                Valid(cells[..]) && status == if old(entryCount) < slots.Length then NoError else OutOfMemory
    {
      hide Chained, Unique;
      var n := slots.Length;
      var index := hash % n;
      var startIndex := index;
      ghost var k := 0;
      ghost var before := slots[..];
      LiveSlotsBound(before);
      status, at := OutOfMemory, n;
      while true
        invariant 0 <= k < n && index == Probe(startIndex, k, n)
        invariant slots[..] == before && entryCount == old(entryCount) && status == OutOfMemory
        invariant forall j :: 0 <= j < k ==> slots[Probe(startIndex, j, n)].Live?
        decreases n - k
      {
        if slots[index] == Empty || slots[index] == Tombstone {
          slots[index] := Live(hash, elem);
          entryCount := entryCount + 1;
          status, at := NoError, index;
          assert slots[..] == before[index := Live(hash, elem)];
          if !Stored(before, hash, TextOf(cells[..], elem), cells[..]) {
            AddKeeps(before, cells[..], hash, elem, index, k);
          }
          break;
        }
        if slots[index].hash == hash && cells[slots[index].elem].text == cells[elem].text {
          status := DuplicateKey;
          assert Match(before[index], hash, TextOf(cells[..], elem), cells[..]);
          break;
        }
        NextProbe(startIndex, k, n);
        index := (index + 1) % n;
        if index == startIndex {
          forall i | 0 <= i < n ensures slots[i].Live? {
            assert i == Probe(startIndex, Dist(startIndex, i, n), n);
          }
          break;
        }
        k := k + 1;
      }
    }

    /** jes_hash_table_remove, with the hash already computed */
    method Remove(hash: nat, text: string, cells: array<Cell>) returns (ghost at: nat)
      requires Valid(cells[..])
      modifies this, slots
      ensures Valid(cells[..])
      ensures old(Stored(slots[..], hash, text, cells[..])) ==>
        && at < slots.Length && Match(old(slots[at]), hash, text, cells[..])
        && slots[..] == old(slots[..])[at := Tombstone] && entryCount + 1 == old(entryCount)
      ensures !old(Stored(slots[..], hash, text, cells[..])) ==>
        slots[..] == old(slots[..]) && entryCount == old(entryCount)
    {
      var i := Search(hash, text, cells);
      at := i;
      if i < slots.Length {
        ghost var before := slots[..];
        assert Match(before[i], hash, text, cells[..]);
        assert i in LiveSlots(before);
        entryCount := entryCount - 1;
        slots[i] := Tombstone;
        assert slots[..] == before[i := Tombstone];
        assert LiveSlots(slots[..]) == LiveSlots(before) - {i};
      }
    }
  }

  /** A new entry in a free slot keeps every chain, its own included, and the uniqueness. */
  lemma AddKeeps(slots: seq<Slot>, cells: seq<Cell>, hash: nat, elem: nat, index: nat, k: nat)
    requires Chained(slots) && Unique(slots, cells)
    requires k < |slots| && index == Probe(hash % |slots|, k, |slots|) && !slots[index].Live?
    requires forall j :: 0 <= j < k ==> slots[Probe(hash % |slots|, j, |slots|)].Live?
    requires !Stored(slots, hash, TextOf(cells, elem), cells)
    ensures var now := slots[index := Live(hash, elem)];
            Chained(now) && Unique(now, cells) && |LiveSlots(now)| == |LiveSlots(slots)| + 1
            && |LiveSlots(slots)| < |slots|
  {
    hide Chained, Unique;
    LiveSlotsBound(slots);
    assert LiveSlots(slots[index := Live(hash, elem)]) == LiveSlots(slots) + {index};
    assert index !in LiveSlots(slots);
    AddChained(slots, hash, elem, index, k);
    AddUnique(slots, cells, hash, elem, index);
  }

  lemma AddChained(slots: seq<Slot>, hash: nat, elem: nat, index: nat, k: nat)
    requires Chained(slots)
    requires k < |slots| && index == Probe(hash % |slots|, k, |slots|) && !slots[index].Live?
    requires forall j :: 0 <= j < k ==> slots[Probe(hash % |slots|, j, |slots|)].Live?
    ensures Chained(slots[index := Live(hash, elem)])
  {
  }

  lemma AddUnique(slots: seq<Slot>, cells: seq<Cell>, hash: nat, elem: nat, index: nat)
    requires Unique(slots, cells) && index < |slots| && !slots[index].Live?
    requires !Stored(slots, hash, TextOf(cells, elem), cells)
    ensures Unique(slots[index := Live(hash, elem)], cells)
  {
    assert forall i | 0 <= i < |slots| && i != index && slots[i].Live?
      :: slots[i].hash == hash && TextOf(cells, slots[i].elem) == TextOf(cells, elem) ==>
          Match(slots[i], hash, TextOf(cells, elem), cells);
  }

  lemma EntryBeforeGap(slots: seq<Slot>, i: nat, k: nat)
    requires Chained(slots) && i < |slots| && slots[i].Live? && k < |slots|
    requires slots[Probe(slots[i].hash % |slots|, k, |slots|)] == Empty
    ensures Dist(slots[i].hash % |slots|, i, |slots|) <= k
  {
  }

  /** What a table stores: hash and text of every live entry. */
  ghost function KeysOf(slots: seq<Slot>, cells: seq<Cell>): set<(nat, string)> {
    set i | 0 <= i < |slots| && slots[i].Live? :: (slots[i].hash, TextOf(cells, slots[i].elem))
  }

  /** A search succeeds exactly for what is stored; adding stores one key, removing takes out one
      key and no other, whatever mix of both came before. */
  lemma StoredKeys(slots: seq<Slot>, cells: seq<Cell>, at: nat, hash: nat, elem: nat)
    requires Unique(slots, cells) && at < |slots|
    ensures forall h: nat, t :: Stored(slots, h, t, cells) <==> (h, t) in KeysOf(slots, cells)
    ensures !slots[at].Live? ==>
      KeysOf(slots[at := Live(hash, elem)], cells) == KeysOf(slots, cells) + {(hash, TextOf(cells, elem))}
    ensures slots[at].Live? ==>
      KeysOf(slots[at := Tombstone], cells) == KeysOf(slots, cells) - {(slots[at].hash, TextOf(cells, slots[at].elem))}
  {
    if !slots[at].Live? {
      var now := slots[at := Live(hash, elem)];
      assert now[at].Live?;
      forall k | k in KeysOf(slots, cells) ensures k in KeysOf(now, cells) {
        var i :| 0 <= i < |slots| && slots[i].Live? && k == (slots[i].hash, TextOf(cells, slots[i].elem));
        assert now[i] == slots[i];
      }
    } else {
      var now := slots[at := Tombstone];
      var gone := (slots[at].hash, TextOf(cells, slots[at].elem));
      forall k | k in KeysOf(slots, cells) && k != gone ensures k in KeysOf(now, cells) {
        var i :| 0 <= i < |slots| && slots[i].Live? && k == (slots[i].hash, TextOf(cells, slots[i].elem));
        assert now[i] == slots[i];
      }
      forall k | k in KeysOf(now, cells) ensures k in KeysOf(slots, cells) && k != gone {
        var i :| 0 <= i < |now| && now[i].Live? && k == (now[i].hash, TextOf(cells, now[i].elem));
        assert now[i] == slots[i] && i != at;
      }
    }
  }

  // ----- sequences of adds and removes -----

  datatype TableOp = AddKey(hash: nat, elem: nat) | RemoveKey(hash: nat, text: string)

  /** What a table of `n` slots stores behind one call: a key that is new is stored if there is room,
      a removed key is not. */
  ghost function StoredNext(keys: set<(nat, string)>, op: TableOp, cells: seq<Cell>, n: nat): set<(nat, string)> {
    match op
    case AddKey(hash, elem) => if |keys| < n then keys + {(hash, TextOf(cells, elem))} else keys
    case RemoveKey(hash, text) => keys - {(hash, text)}
  }

  ghost function StoredAfter(keys: set<(nat, string)>, ops: seq<TableOp>, cells: seq<Cell>, n: nat): set<(nat, string)>
    decreases |ops|
  {
    if ops == [] then keys else StoredAfter(StoredNext(keys, ops[0], cells, n), ops[1..], cells, n)
  }

  /** Only keys that are not stored are added, as all callers see to. */
  ghost predicate AddsNew(keys: set<(nat, string)>, ops: seq<TableOp>, cells: seq<Cell>, n: nat)
    decreases |ops|
  {
    ops != [] ==>
      && (ops[0].AddKey? ==> ops[0].elem < |cells| && (ops[0].hash, TextOf(cells, ops[0].elem)) !in keys)
      && AddsNew(StoredNext(keys, ops[0], cells, n), ops[1..], cells, n)
  }

  /** One stored key for every live slot. */
  lemma {:induction false} KeysAndSlots(slots: seq<Slot>, cells: seq<Cell>)
    requires Unique(slots, cells)
    ensures |KeysOf(slots, cells)| == |LiveSlots(slots)|
    decreases |LiveSlots(slots)|
  {
    if i :| i in LiveSlots(slots) {
      var now, k := slots[i := Tombstone], (slots[i].hash, TextOf(cells, slots[i].elem));
      StoredKeys(slots, cells, i, 0, 0);
      assert LiveSlots(slots) == LiveSlots(now) + {i};
      assert k in KeysOf(slots, cells);
      assert KeysOf(slots, cells) == KeysOf(now, cells) + {k};
      KeysAndSlots(now, cells);
    } else {
      forall i | 0 <= i < |slots| ensures !slots[i].Live? { assert i !in LiveSlots(slots); }
      assert KeysOf(slots, cells) == {};
    }
  }

  lemma Added(before: seq<Slot>, now: seq<Slot>, cells: seq<Cell>, hash: nat, elem: nat, at: nat)
    requires Unique(before, cells) && |before| > 0
    requires if |LiveSlots(before)| < |before| then at < |before| && !before[at].Live?
        && now == before[at := Live(hash, elem)]
             else now == before
    ensures KeysOf(now, cells) == StoredNext(KeysOf(before, cells), AddKey(hash, elem), cells, |before|)
  {
    KeysAndSlots(before, cells);
    if now != before { StoredKeys(before, cells, at, hash, elem); }
  }

  lemma Removed(before: seq<Slot>, now: seq<Slot>, cells: seq<Cell>, hash: nat, text: string, at: nat)
    requires Unique(before, cells) && |before| > 0
    requires if Stored(before, hash, text, cells)
             then at < |before| && Match(before[at], hash, text, cells) && now == before[at := Tombstone]
             else now == before
    ensures KeysOf(now, cells) == StoredNext(KeysOf(before, cells), RemoveKey(hash, text), cells, |before|)
  {
    if Stored(before, hash, text, cells) {
      StoredKeys(before, cells, at, 0, 0);
    } else {
      StoredKeys(before, cells, 0, 0, 0);
    }
  }

  /** One call. */
  method Perform(table: Table, op: TableOp, cells: array<Cell>)
    requires table.Valid(cells[..]) && AddsNew(KeysOf(table.slots[..], cells[..]), [op], cells[..], table.slots.Length)
    modifies table, table.slots
    ensures table.Valid(cells[..])
    ensures KeysOf(table.slots[..], cells[..]) == StoredNext(old(KeysOf(table.slots[..], cells[..])), op, cells[..],
        table.slots.Length)
  {
    hide Chained, KeysOf, StoredNext;
    ghost var before := table.slots[..];
    StoredKeys(before, cells[..], 0, 0, 0);
    ghost var at;
    match op {
      case AddKey(hash, elem) =>
        var status;
        status, at := table.Add(hash, elem, cells);
        Added(before, table.slots[..], cells[..], hash, elem, at);
      case RemoveKey(hash, text) =>
        at := table.Remove(hash, text, cells);
        Removed(before, table.slots[..], cells[..], hash, text, at);
    }
  }

  /** After any sequence of adds and removes, over tombstones and through a full table, the table
      stores what the sequence says, and a search succeeds exactly on that. */
  method PerformAll(table: Table, ops: seq<TableOp>, cells: array<Cell>)
    requires table.Valid(cells[..]) && AddsNew(KeysOf(table.slots[..], cells[..]), ops, cells[..], table.slots.Length)
    modifies table, table.slots
    ensures table.Valid(cells[..])
    ensures KeysOf(table.slots[..], cells[..]) == StoredAfter(old(KeysOf(table.slots[..], cells[..])), ops, cells[..],
        table.slots.Length)
    ensures forall h: nat, t :: Stored(table.slots[..], h, t, cells[..]) <==>
        (h, t) in KeysOf(table.slots[..], cells[..])
    decreases |ops|
  {
    hide Chained, Unique, StoredNext, LiveSlots;
    if ops != [] {
      Perform(table, ops[0], cells);
      PerformAll(table, ops[1..], cells);
    }
    StoredKeys(table.slots[..], cells[..], 0, 0, 0);
  }
}
