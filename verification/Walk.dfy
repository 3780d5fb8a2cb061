/** The stackless pre-order walk of src/jes_serializer.c and the census of src/jes.c that uses it. */
module Walk {
  import opened Codes
  import opened Forests
  import opened Pool
  import opened Shapes
  import opened Printer
  import opened Tree

  /** The cells hold the tree `f`. */
  ghost predicate Holds(cells: seq<Cell>, root: nat, f: Forest) {
    && |cells| < NONE && Rep(cells, f, NONE) && Distinct(f) && root == Head(f)
    && (f.Cons? ==> f.sibs.Nil?)
  }

  /** The nodes still to be visited, in document order. */
  ghost function Upcoming(f: Forest, iter: nat): seq<nat>
    requires iter == NONE || iter in Ids(f)
  {
    if iter == NONE then Pre(f) else Pre(At(f, iter).kids) + RestIds(f, iter)
  }

  lemma UpcomingDown(f: Forest, iter: nat)
    requires iter in Ids(f) && Distinct(f) && NONE !in Ids(f) && At(f, iter).kids.Cons?
    ensures At(f, iter).kids.id in Ids(f)
    ensures Upcoming(f, iter) == [At(f, iter).kids.id] + Upcoming(f, At(f, iter).kids.id)
  {
    StepDown(f, NONE, iter, 0);
    var g := At(f, iter).kids;
    assert Pre(g) == [g.id] + Pre(g.kids) + Pre(g.sibs);
    hide Pre, RestIds, At, Indent, Parent, Distinct, Ids;
    OneAhead(g.id, Pre(g.kids), Pre(g.sibs), RestIds(f, iter));
  }

  lemma OneAhead(x: nat, a: seq<nat>, b: seq<nat>, c: seq<nat>)
    ensures ([x] + a + b) + c == [x] + (a + (b + c))
  {
  }

  lemma UpcomingRight(f: Forest, iter: nat)
    requires iter in Ids(f) && Distinct(f) && NONE !in Ids(f) && At(f, iter).sibs.Cons?
    ensures At(f, iter).sibs.id in Ids(f)
    ensures RestIds(f, iter) == [At(f, iter).sibs.id] + Upcoming(f, At(f, iter).sibs.id)
  {
    StepRight(f, NONE, iter, 0);
    var s := At(f, iter).sibs;
    hide Pre, RestIds, At, Indent, Parent, Distinct, Ids;
    OneAhead(s.id, Pre(s.kids), [], RestIds(f, s.id));
    assert [s.id] + Pre(s.kids) + [] == [s.id] + Pre(s.kids) && [] + RestIds(f, s.id) == RestIds(f, s.id);
  }

  /** The last branch of jes_serializer_get_node: up to the first ancestor with a sibling,
      and to that sibling */
  method Backtrack(ctx: Context, ghost f: Forest)
    requires Holds(ctx.pool[..], ctx.root, f) && ctx.iter in Ids(f) && At(f, ctx.iter).sibs.Nil?
    modifies ctx`iter
    ensures old(RestIds(f, ctx.iter)) == [] ==> ctx.iter == NONE
    ensures old(RestIds(f, ctx.iter)) != [] ==>
              ctx.iter in Ids(f) && old(RestIds(f, ctx.iter)) == [ctx.iter] + Upcoming(f, ctx.iter)
  {
    RepBound(ctx.pool[..], f, NONE);
    ghost var from := ctx.iter;
    RepAt(ctx.pool[..], f, NONE, ctx.iter);
    StepUp(f, NONE, ctx.iter, 0);
    ctx.iter := ctx.pool[ctx.iter].parent;
    while ctx.iter != NONE
      invariant ctx.iter == NONE || ctx.iter in Ids(f)
      invariant RestIds(f, from) == if ctx.iter == NONE then [] else RestIds(f, ctx.iter)
      decreases if ctx.iter == NONE then 0 else 1 + Depth(f, ctx.iter)
    {
      RepAt(ctx.pool[..], f, NONE, ctx.iter);
      if ctx.pool[ctx.iter].sibling != NONE {
        UpcomingRight(f, ctx.iter);
        ctx.iter := ctx.pool[ctx.iter].sibling;
        break;
      }
      StepUp(f, NONE, ctx.iter, 0);
      ParentDepth(f, NONE, ctx.iter);
      ctx.iter := ctx.pool[ctx.iter].parent;
    }
  }

  /** jes_serializer_get_node: the next node in document order */
  method GetNode(ctx: Context, ghost f: Forest)
    requires Holds(ctx.pool[..], ctx.root, f) && (ctx.iter == NONE || ctx.iter in Ids(f))
    modifies ctx`iter, ctx`state
    ensures old(Upcoming(f, ctx.iter)) == [] ==> ctx.iter == NONE && ctx.state == End
    ensures old(Upcoming(f, ctx.iter)) != [] ==> (
              && ctx.iter in Ids(f) && ctx.state == old(ctx.state)
              && old(Upcoming(f, ctx.iter)) == [ctx.iter] + Upcoming(f, ctx.iter))
  {
    RepBound(ctx.pool[..], f, NONE);
    if ctx.iter == NONE {
      ctx.iter := ctx.root;
    } else {
      RepAt(ctx.pool[..], f, NONE, ctx.iter);
      if ctx.pool[ctx.iter].first != NONE {
        UpcomingDown(f, ctx.iter);
        ctx.iter := ctx.pool[ctx.iter].first;
      } else if ctx.pool[ctx.iter].sibling != NONE {
        UpcomingRight(f, ctx.iter);
        ctx.iter := ctx.pool[ctx.iter].sibling;
      } else {
        Backtrack(ctx, f);
      }
    }
    if ctx.iter == NONE {
      ctx.state := End;
    }
  }

  ghost function Depth(f: Forest, id: nat): nat
    requires id in Ids(f)
  {
    if f.id == id then 0 else if id in Ids(f.kids) then 1 + Depth(f.kids, id) else Depth(f.sibs, id)
  }

  lemma {:induction false} ParentDepth(f: Forest, q: nat, id: nat)
    requires id in Ids(f) && Distinct(f) && q !in Ids(f)
    ensures var p := Parent(f, id, q);
            if p == q then Depth(f, id) == 0 else p in Ids(f) && Depth(f, id) == Depth(f, p) + 1
  {
    if f.id == id {
    } else if id in Ids(f.kids) {
      ParentDepth(f.kids, f.id, id);
      ParentFact(f.kids, id, f.id);
    } else {
      ParentDepth(f.sibs, q, id);
      ParentFact(f.sibs, id, q);
    }
  }

  // ----- counting -----

  datatype Stat = Stat(objects: nat, keys: nat, arrays: nat, values: nat)

  predicate IsObject(k: Kind) { k == Object }

  predicate IsKey(k: Kind) { k == Key }

  predicate IsArray(k: Kind) { k == Array }

  /** How many nodes of a forest are of a kind in `p`. */
  function Count(f: Forest, p: Kind -> bool): nat {
    if f.Nil? then 0 else (if p(f.kind) then 1 else 0) + Count(f.kids, p) + Count(f.sibs, p)
  }

  function Census(f: Forest): Stat {
    Stat(Count(f, IsObject), Count(f, IsKey), Count(f, IsArray), Count(f, IsScalar))
  }

  /** The nodes `ids` counted one by one. */
  ghost function Tally(f: Forest, ids: seq<nat>, p: Kind -> bool): nat {
    if ids == [] then 0 else (if p(KindAt(f, ids[0])) then 1 else 0) + Tally(f, ids[1..], p)
  }

  lemma TallyFirst(f: Forest, id: nat, ids: seq<nat>, p: Kind -> bool)
    ensures Tally(f, [id] + ids, p) == (if p(KindAt(f, id)) then 1 else 0) + Tally(f, ids, p)
  {
    assert ([id] + ids)[1..] == ids;
  }

  lemma {:induction false} TallyConcat(f: Forest, a: seq<nat>, b: seq<nat>, p: Kind -> bool)
    ensures Tally(f, a + b, p) == Tally(f, a, p) + Tally(f, b, p)
    decreases |a|
  {
    if a == [] {
      assert a + b == b;
    } else {
      assert a + b == [a[0]] + (a[1..] + b);
      TallyFirst(f, a[0], a[1..] + b, p);
      TallyConcat(f, a[1..], b, p);
    }
  }

  lemma {:induction false} TallyPart(f: Forest, g: Forest, ids: seq<nat>, p: Kind -> bool)
    requires forall i :: i in ids ==> KindAt(f, i) == KindAt(g, i)
    ensures Tally(f, ids, p) == Tally(g, ids, p)
    decreases |ids|
  {
    if ids != [] {
      TallyPart(f, g, ids[1..], p);
    }
  }

  lemma PreIds(f: Forest)
    ensures forall i :: i in Pre(f) <==> i in Ids(f)
    ensures |Pre(f)| == Size(f)
  {
  }

  lemma TallyKids(f: Forest, p: Kind -> bool)
    requires f.Cons? && Distinct(f)
    ensures Tally(f, Pre(f.kids), p) == Tally(f.kids, Pre(f.kids), p)
    ensures Tally(f, Pre(f.sibs), p) == Tally(f.sibs, Pre(f.sibs), p)
  {
    PreIds(f.kids);
    PreIds(f.sibs);
    TallyPart(f, f.kids, Pre(f.kids), p);
    TallyPart(f, f.sibs, Pre(f.sibs), p);
  }

  /** Counting along the document order counts every node once. */
  lemma {:induction false} TallyPre(f: Forest, p: Kind -> bool)
    requires Distinct(f)
    ensures Tally(f, Pre(f), p) == Count(f, p)
  {
    if f.Cons? {
      TallyPre(f.kids, p);
      TallyPre(f.sibs, p);
      TallyKids(f, p);
      TallyConcat(f, Pre(f.kids), Pre(f.sibs), p);
      TallyFirst(f, f.id, Pre(f.kids) + Pre(f.sibs), p);
      assert Pre(f) == [f.id] + (Pre(f.kids) + Pre(f.sibs));
    }
  }

  function Bit(b: bool): nat { if b then 1 else 0 }

  lemma {:induction false} CountPartition(f: Forest, k: Kind, p: Kind -> bool, q: Kind -> bool, r: Kind -> bool,
      s: Kind -> bool)
    requires Nested(f, k)
    requires forall c: Kind :: c != Unknown ==> Bit(p(c)) + Bit(q(c)) + Bit(r(c)) + Bit(s(c)) == 1
    ensures Count(f, p) + Count(f, q) + Count(f, r) + Count(f, s) == Size(f)
  {
    if f.Cons? {
      CountPartition(f.kids, f.kind, p, q, r, s);
      CountPartition(f.sibs, k, p, q, r, s);
      assert Bit(p(f.kind)) + Bit(q(f.kind)) + Bit(r(f.kind)) + Bit(s(f.kind)) == 1;
    }
  }

  /** In a document every node is counted in exactly one of the four groups. */
  lemma CensusTotal(f: Forest, k: Kind)
    requires Nested(f, k)
    ensures Census(f).objects + Census(f).keys + Census(f).arrays + Census(f).values == Size(f)
  {
    CountPartition(f, k, IsObject, IsKey, IsArray, IsScalar);
  }

  /** How far a counter got when the nodes `todo` are still to come. */
  ghost predicate Counting(f: Forest, n: nat, todo: seq<nat>, p: Kind -> bool) { n + Tally(f, todo, p) == Count(f, p) }

  lemma CountOne(f: Forest, n: nat, id: nat, rest: seq<nat>, p: Kind -> bool)
    requires Counting(f, n, [id] + rest, p)
    ensures Counting(f, if p(KindAt(f, id)) then n + 1 else n, rest, p)
  {
    TallyFirst(f, id, rest, p);
  }

  /** The switch of jes_get_stat. */
  function Counted(s: Stat, k: Kind): Stat {
    if k == Object then s.(objects := s.objects + 1)
    else if k == Key then s.(keys := s.keys + 1)
    else if k == Array then s.(arrays := s.arrays + 1)
    else if IsScalar(k) then s.(values := s.values + 1)
    else s
  }

  ghost predicate Counters(f: Forest, s: Stat, todo: seq<nat>) {
    && Counting(f, s.objects, todo, IsObject) && Counting(f, s.keys, todo, IsKey)
    && Counting(f, s.arrays, todo, IsArray) && Counting(f, s.values, todo, IsScalar)
  }

  lemma CountersStart(f: Forest)
    requires Distinct(f)
    ensures Counters(f, Stat(0, 0, 0, 0), Pre(f))
  {
    TallyPre(f, IsObject);
    TallyPre(f, IsKey);
    TallyPre(f, IsArray);
    TallyPre(f, IsScalar);
  }

  lemma CountersStep(f: Forest, s: Stat, id: nat, rest: seq<nat>)
    requires Counters(f, s, [id] + rest)
    ensures Counters(f, Counted(s, KindAt(f, id)), rest)
  {
    CountOne(f, s.objects, id, rest, IsObject);
    CountOne(f, s.keys, id, rest, IsKey);
    CountOne(f, s.arrays, id, rest, IsArray);
    CountOne(f, s.values, id, rest, IsScalar);
  }

  lemma CountersDone(f: Forest, s: Stat)
    requires Counters(f, s, [])
    ensures s == Census(f)
  {
  }

  /** jes_get_stat: the walk counts every node exactly once */
  method GetStat(ctx: Context, ghost f: Forest) returns (stat: Stat)
    requires Holds(ctx.pool[..], ctx.root, f)
    modifies ctx`iter, ctx`state
    ensures stat == Census(f) && ctx.iter == NONE
  {
    hide Counters, Rep, Distinct, Census;
    RepBound(ctx.pool[..], f, NONE);
    CountersStart(f);
    stat := Stat(0, 0, 0, 0);
    ctx.iter := NONE;
    ghost var todo := Pre(f);
    GetNode(ctx, f);
    while ctx.iter != NONE
      invariant ctx.iter == NONE || ctx.iter in Ids(f)
      invariant todo == if ctx.iter == NONE then [] else [ctx.iter] + Upcoming(f, ctx.iter)
      invariant Counters(f, stat, todo)
      decreases |todo|
    {
      RepAt(ctx.pool[..], f, NONE, ctx.iter);
      todo := Upcoming(f, ctx.iter);
      CountersStep(f, stat, ctx.iter, todo);
      stat := Counted(stat, ctx.pool[ctx.iter].kind);
      GetNode(ctx, f);
    }
    CountersDone(f, stat);
  }
}
