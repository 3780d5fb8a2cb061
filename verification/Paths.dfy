/** What jes_get_key finds: the key to which a path of names leads, among the keys that can be found. */
module Paths {
  import opened Codes
  import opened Forests
  import opened Shapes
  import opened KeyIndex
  import opened Tree
  import opened Api
  import opened Children

  /** The keys that a search can find: all of them, or those that the table lists. */
  ghost function Findable(d: Doc): set<KeyRef> {
    if d.index.Whole? then KeyRefs(d.forest, NONE) else d.index.refs
  }

  /** Without a table, names must be distinct; behind a full table they need not be. */
  ghost predicate Searchable(d: Doc) { Sound(d) && (d.index.Whole? ==> Shaped(d.forest, Unknown)) }

  /** A search finds a key if and only if it is among these. */
  lemma FoundIsFindable(d: Doc, p: nat, text: string, e: nat)
    requires Searchable(d) && e != NONE
    ensures Found(d, p, text) == e <==> KeyRef(p, e, text) in Findable(d)
  {
    if d.index.Whole? {
      FindKeyRef(d.forest, p, text, e);
    } else if KeyRef(p, e, text) in d.index.refs {
      NamedIs(d.index.refs, p, text, e);
    } else if Found(d, p, text) == e {
      NamedIn(d.index.refs, p, text);
    }
  }

  /** The node in which a name is looked up: the start itself, or the value of a key. */
  ghost predicate Within(f: Forest, start: nat, o: nat) {
    if KindAt(f, start) == Key then ChildrenOf(f, start) == [o] else o == start
  }

  /** Key `k` can be found where a name is looked up from the start. */
  ghost predicate NextKey(d: Doc, start: nat, k: nat) {
    && k in Ids(d.forest) && Within(d.forest, start, Parent(d.forest, k, NONE))
    && KeyRef(Parent(d.forest, k, NONE), k, At(d.forest, k).text) in Findable(d)
  }

  lemma OneSibling(g: Forest, o: nat)
    requires Siblings(g) == [o]
    ensures Head(g) == o
  {
    assert Siblings(g)[0] == o;
  }

  lemma WithinScope(f: Forest, start: nat, o: nat)
    requires Nested(f, Unknown) && Distinct(f)
    ensures Within(f, start, o) ==> o == Scope(f, start)
    ensures o == Scope(f, start) != NONE ==> Within(f, start, o)
  {
    if KindAt(f, start) == Key {
      var g := KidsAt(f, start);
      NestedAt(f, Unknown, start);
      if Siblings(g) == [o] { OneSibling(g, o); }
      if g.Cons? { assert g.sibs.Nil? && Siblings(g) == [g.id]; }
    }
  }

  /** It is the key that the search below that node can find. */
  lemma NextKeyIs(d: Doc, start: nat, k: nat)
    requires Searchable(d) && k in Ids(d.forest)
    ensures NextKey(d, start, k) <==> KeyRef(Scope(d.forest, start), k, At(d.forest, k).text) in Findable(d)
  {
    var f := d.forest;
    var r, s := KeyRef(Scope(f, start), k, At(f, k).text), KeyRef(Parent(f, k, NONE), k, At(f, k).text);
    assert Findable(d) <= KeyRefs(f, NONE);
    WithinScope(f, start, Parent(f, k, NONE));
    if r in Findable(d) {
      KeyRefAt(f, NONE, r);
      KeyRefParent(f, r);
      assert r == s;
    }
  }

  /** From the start each key leads to the next: it can be found in the object that the one before
      has for a value. */
  ghost predicate KeyChain(d: Doc, start: nat, keys: seq<nat>)
    decreases |keys|
  {
    keys == [] || (NextKey(d, start, keys[0]) && KeyChain(d, keys[0], keys[1..]))
  }

  /** The names of the keys, joined by the separator. */
  function PathOf(f: Forest, keys: seq<nat>, separator: char): string
    requires forall k :: k in keys ==> k in Ids(f)
  {
    if keys == [] then ""
    else if |keys| == 1 then At(f, keys[0]).text
    else At(f, keys[0]).text + [separator] + PathOf(f, keys[1..], separator)
  }

  /** `path` spells the names on a chain of keys from the start to key `e`; the separator stands
      between the names and in none of them. */
  ghost predicate SpelledBy(d: Doc, start: nat, path: string, separator: char, e: nat, keys: seq<nat>) {
    && keys != [] && keys[|keys| - 1] == e && KeyChain(d, start, keys) && (forall k :: k in keys ==> k in Ids(d.forest))
    && (forall k :: k in keys ==> separator !in At(d.forest, k).text)
    && PathOf(d.forest, keys, separator) == path
  }

  lemma {:induction false} SegmentOf(name: string, rest: string, separator: char)
    requires separator !in name
    ensures SegmentLength(name, separator) == |name|
    ensures SegmentLength(name + [separator] + rest, separator) == |name|
  {
    if name != "" {
      assert (name + [separator] + rest)[1..] == name[1..] + [separator] + rest;
      SegmentOf(name[1..], rest, separator);
    }
  }

  /** What spells a path is found. */
  lemma {:induction false} SpelledFound(d: Doc, start: nat, path: string, separator: char, e: nat, keys: seq<nat>)
    requires Searchable(d) && SpelledBy(d, start, path, separator, e, keys)
    ensures Lookup(d, start, path, separator) == e
    decreases |path|
  {
    var f, k := d.forest, keys[0];
    var name, rest := At(f, k).text, PathOf(f, keys[1..], separator);
    NextKeyIs(d, start, k);
    FoundIsFindable(d, Scope(f, start), name, k);
    SegmentOf(name, rest, separator);
    hide Searchable, Found, Findable, NextKey, Scope;
    if |keys| == 1 {
      assert path[..|name|] == name;
    } else {
      assert path[..|name|] == name && path[|name| + 1..] == rest;
      assert forall i :: i in keys[1..] ==> i in keys;
      SpelledFound(d, k, rest, separator, e, keys[1..]);
    }
  }

  /** The first key on the way. */
  lemma FirstFound(d: Doc, start: nat, path: string, separator: char, k: nat)
    requires Searchable(d) && k != NONE
    requires k == Found(d, Scope(d.forest, start), path[..SegmentLength(path, separator)])
    ensures var name := path[..SegmentLength(path, separator)];
      && k in Ids(d.forest) && At(d.forest, k).text == name && separator !in name
      && NextKey(d, start, k)
  {
    var name := path[..SegmentLength(path, separator)];
    FoundIsFindable(d, Scope(d.forest, start), name, k);
    KeyRefAt(d.forest, NONE, KeyRef(Scope(d.forest, start), k, name));
    NextKeyIs(d, start, k);
  }

  lemma SpelledOne(d: Doc, start: nat, k: nat, name: string, separator: char)
    requires k in Ids(d.forest) && At(d.forest, k).text == name && separator !in name
    requires NextKey(d, start, k)
    ensures SpelledBy(d, start, name, separator, k, [k])
  {
  }

  /** What is found spells the path. */
  lemma {:induction false} FoundSpelled(d: Doc, start: nat, path: string, separator: char) returns (keys: seq<nat>)
    requires Searchable(d) && Lookup(d, start, path, separator) != NONE
    ensures keys != [] && keys[|keys| - 1] == Lookup(d, start, path, separator)
    ensures SpelledBy(d, start, path, separator, Lookup(d, start, path, separator), keys)
    decreases |path|
  {
    hide SpelledBy, KeyRefs, Ids, Distinct, Found, Searchable, Findable;
    var n := SegmentLength(path, separator);
    var k := Found(d, Scope(d.forest, start), path[..n]);
    FirstFound(d, start, path, separator, k);
    if n == |path| {
      keys := [k];
      SpelledOne(d, start, k, path[..n], separator);
      assert path[..n] == path;
    } else {
      var more := FoundSpelled(d, k, path[n + 1..], separator);
      keys := [k] + more;
      SpelledMore(d, start, k, path[..n], path[n + 1..], separator, more);
      assert path == path[..n] + [separator] + path[n + 1..];
    }
  }

  lemma SpelledMore(d: Doc, start: nat, k: nat, name: string, rest: string, separator: char, more: seq<nat>)
    requires k in Ids(d.forest) && At(d.forest, k).text == name && separator !in name
    requires NextKey(d, start, k)
    requires more != [] && SpelledBy(d, k, rest, separator, more[|more| - 1], more)
    ensures SpelledBy(d, start, name + [separator] + rest, separator, more[|more| - 1], [k] + more)
  {
    var keys := [k] + more;
    assert keys[1..] == more && keys[|keys| - 1] == more[|more| - 1];
    assert forall i :: i in keys <==> i == k || i in more;
  }

  /** `path` leads to key `e`. */
  ghost predicate Leads(d: Doc, start: nat, path: string, separator: char, e: nat) {
    (KindAt(d.forest, start) == Object || KindAt(d.forest, start) == Key)
    && exists keys :: SpelledBy(d, start, path, separator, e, keys)
  }

  /** jes_get_key: a path finds exactly the key that it spells the way to, over keys that can be
      found. Behind a full table these are the keys that the table lists. */
  lemma PathFinds(d: Doc, start: nat, path: string, separator: char, e: nat)
    requires Searchable(d) && e != NONE
    ensures FoundKey(d, start, path, separator).0 == e <==> Leads(d, start, path, separator, e)
  {
    if FoundKey(d, start, path, separator).0 == e {
      var keys := FoundSpelled(d, start, path, separator);
    }
    if Leads(d, start, path, separator, e) {
      var keys :| SpelledBy(d, start, path, separator, e, keys);
      SpelledFound(d, start, path, separator, e, keys);
    }
  }

  /** What jes_get_key answers: success exactly when the path leads to a key. */
  lemma PathAnswered(d: Doc, start: nat, path: string, separator: char)
    requires Searchable(d)
    ensures var (e, status) := FoundKey(d, start, path, separator);
      && (status == NoError <==> exists k: nat :: k != NONE && Leads(d, start, path, separator, k))
      && (e != NONE <==> status == NoError)
      && (KindAt(d.forest, start) == Object || KindAt(d.forest, start) == Key ==>
            status == NoError || status == ElementNotFound)
      && (KindAt(d.forest, start) != Object && KindAt(d.forest, start) != Key ==> status == InvalidParameter)
  {
    var e := FoundKey(d, start, path, separator).0;
    if e != NONE { PathFinds(d, start, path, separator, e); }
    if k :| k != NONE && Leads(d, start, path, separator, k) { PathFinds(d, start, path, separator, k); }
  }
}
