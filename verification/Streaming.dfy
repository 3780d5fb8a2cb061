/** The streaming serializer of src/jes_serializer.c: calls instead of a tree, a small stack of
    containers, and a sticky error. */
module Streaming {
  import opened Codes
  import opened Forests
  import opened Shapes
  import opened Printer

  /** JES_STREAMING_SERIALIZER_MAX_DEPTH */
  const MAX_DEPTH: nat := 10

  /** stack_size, which is kept in bytes, four for a container, and compared as a number of containers */
  const STACK_LIMIT: nat := MAX_DEPTH * 4

  /** The 16-bit member counter. */
  function Bump(m: nat): nat { (m + 1) % 0x1_0000 }

  /** struct jes_streaming_container; the count is kept in 16 bits */
  datatype Container = Container(kind: Kind, members: nat)

  /** One call. A value carries the text it is written as. */
  datatype Event =
    | ObjectStart
    | ObjectEnd
    | ArrayStart
    | ArrayEnd
    | Name(name: string)
    | Value(kind: Kind, text: string)

  /** struct jes_streaming_serializer_context as a value: what was written, the open containers
      with the innermost first, the state, and the sticky error. */
  datatype Stream = Stream(text: string, stack: seq<Container>, state: State, error: Status)

  const EMPTY := Stream("", [], Start, NoError)

  /** What the `%s` conversion of snprintf writes: a string ends at the first NUL. */
  function CString(s: string): (r: string)
    ensures |r| <= |s|
    ensures |r| == |s| ==> r == s
  {
    if s == "" || s[0] == NUL then "" else [s[0]] + CString(s[1..])
  }

  function TopKind(s: seq<Container>): Kind { if s == [] then Unknown else s[0].kind }

  function Members(s: seq<Container>): nat { if s == [] then 0 else s[0].members }

  /** jes_streaming_serializer_stack_add_member on a stack that is not empty */
  function AddMember(s: seq<Container>): seq<Container> {
    if s == [] then s else [s[0].(members := Bump(s[0].members))] + s[1..]
  }

  /** The state that the innermost open container calls for. */
  function StateFor(s: seq<Container>): State { StateIn(TopKind(s)) }

  function StateIn(k: Kind): State {
    match k
    case Object => ExpectKey
    case Array => ExpectArrayValue
    case _ => End
  }

  function Failed(s: Stream, error: Status): Stream { s.(error := error) }

  /** Writing succeeds when the text and its NUL fit a buffer of `size` characters. */
  function Write(s: Stream, piece: string, stack: seq<Container>, state: State, size: nat): Stream {
    if |s.text| + |piece| < size then Stream(s.text + piece, stack, state, NoError) else Failed(s, RenderFailed)
  }

  /** The comma that jes_render_key and jes_streaming_serializer_render_value_pre write; the start
      of a container writes none. */
  function CommaFor(s: seq<Container>): string { if Members(s) > 0 then "," else "" }

  function ValueText(kind: Kind, text: string): string { if kind == Str then Quoted(CString(text)) else text }

  /** snprintf wrote what the caller asked for. */
  predicate Intact(kind: Kind, text: string) { if kind == Str then |CString(text)| == |text| else text != "" }

  /** One call on a stream. */
  function Step(s: Stream, e: Event, size: nat): Stream {
    if s.error != NoError then s
    else
      match e
      case ObjectStart | ArrayStart =>
        var kind := if e.ObjectStart? then Object else Array;
        var stack := [Container(kind, 0)] + s.stack;
        if s.state != Start && s.state != ExpectValue && s.state != ExpectArrayValue then Failed(s, UnexpectedState)
        else if |s.stack| == STACK_LIMIT then Failed(s, MaxDepthExceeded)
        else Write(s, if kind == Object then "{" else "[", stack, StateFor(stack), size)
      case ObjectEnd =>
        var stack := if s.stack == [] then [] else s.stack[1..];
        if s.state != ExpectKey then Failed(s, UnexpectedState) else Write(s, "}", stack, StateFor(stack), size)
      case ArrayEnd =>
        var stack := if s.stack == [] then [] else s.stack[1..];
        if s.state != ExpectArrayValue then Failed(s, UnexpectedState) else Write(s, "]", stack, StateFor(stack), size)
      case Name(name) =>
        if s.state != ExpectKey then Failed(s, UnexpectedState)
        else if s.stack == [] then Failed(s, InvalidOperation)
        else if |CString(name)| != |name| then Failed(s, RenderFailed)
        else Write(s, CommaFor(s.stack) + KeyText(name, true), AddMember(s.stack), ExpectValue, size)
      case Value(kind, text) =>
        if s.state != ExpectValue && s.state != ExpectArrayValue then Failed(s, UnexpectedState)
        else if !Intact(kind, text) then Failed(s, RenderFailed)
        else if TopKind(s.stack) == Array then
          Write(s, CommaFor(s.stack) + ValueText(kind, text), AddMember(s.stack), ExpectArrayValue, size)
        else Write(s, ValueText(kind, text), s.stack, if TopKind(s.stack) == Object then ExpectKey else s.state, size)
  }

  function Run(s: Stream, es: seq<Event>, size: nat): Stream
    decreases |es|
  {
    if es == [] then s else Run(Step(s, es[0], size), es[1..], size)
  }

  // ----- what every call keeps -----

  /** The state matches the innermost open container. */
  predicate Consistent(s: Stream) {
    && (forall i :: 0 <= i < |s.stack| ==> IsContainer(s.stack[i].kind))
    && match s.state
       case Start | End => s.stack == []
       case ExpectKey | ExpectValue => TopKind(s.stack) == Object
       case ExpectArrayValue => TopKind(s.stack) == Array
       case _ => false
  }

  /** One call keeps state and innermost container in step, and an end call takes a container of its
      own kind off the stack. */
  lemma StepConsistent(s: Stream, e: Event, size: nat)
    requires Consistent(s) && s.error == NoError
    ensures var r := Step(s, e, size);
      r.error == NoError ==>
        && Consistent(r)
        && (e == ObjectEnd ==> s.stack != [] && s.stack[0].kind == Object && r.stack == s.stack[1..])
        && (e == ArrayEnd ==> s.stack != [] && s.stack[0].kind == Array && r.stack == s.stack[1..])
  {
  }

  lemma {:induction false} RunConsistent(s: Stream, es: seq<Event>, size: nat)
    requires Consistent(s)
    ensures Run(s, es, size).error == NoError ==> s.error == NoError && Consistent(Run(s, es, size))
    decreases |es|
  {
    if es != [] {
      if s.error == NoError { StepConsistent(s, es[0], size); }
      if s.error == NoError && Step(s, es[0], size).error == NoError {
        RunConsistent(Step(s, es[0], size), es[1..], size);
      } else {
        StuckRun(Step(s, es[0], size), es[1..], size);
      }
    }
  }

  /** Before the first error the state always matches the innermost open container, so that an
      end call closes a container of its own kind. */
  lemma EndCloses(es: seq<Event>, e: Event, size: nat)
    requires Run(EMPTY, es + [e], size).error == NoError
    ensures var s, r := Run(EMPTY, es, size), Run(EMPTY, es + [e], size);
      && s.error == NoError && Consistent(s) && Consistent(r)
      && (e == ObjectEnd ==> s.stack != [] && s.stack[0].kind == Object && r.stack == s.stack[1..])
      && (e == ArrayEnd ==> s.stack != [] && s.stack[0].kind == Array && r.stack == s.stack[1..])
  {
    var s := Run(EMPTY, es, size);
    RunConcat(EMPTY, es, [e], size);
    if s.error != NoError { StuckRun(s, [e], size); }
    RunOne(s, e, size);
    RunConsistent(EMPTY, es, size);
    StepConsistent(s, e, size);
  }

  /** The first error sticks. */
  lemma {:induction false} StuckRun(s: Stream, es: seq<Event>, size: nat)
    requires s.error != NoError
    ensures Run(s, es, size) == s
    decreases |es|
  {
    if es != [] { StuckRun(s, es[1..], size); }
  }

  // ----- the calls that describe a tree, and what they write -----

  /** A closed document: one container in which every key has a value. The calls do not compare
      names: they may repeat. */
  ghost predicate Closed(t: Forest) {
    t.Cons? && t.sibs.Nil? && IsContainer(t.kind) && Nested(t, Unknown) && Full(t)
  }

  function Events(f: Forest): seq<Event>
    decreases f, 1
  {
    if f.Nil? then [] else ItemEvents(f) + Events(f.sibs)
  }

  function ItemEvents(f: Forest): seq<Event>
    requires f.Cons?
    decreases f, 0
  {
    match f.kind
    case Object => [ObjectStart] + Events(f.kids) + [ObjectEnd]
    case Array => [ArrayStart] + Events(f.kids) + [ArrayEnd]
    case Key => [Name(f.text)] + Events(f.kids)
    case _ => [Value(f.kind, f.text)]
  }

  /** Whether a member is counted: keys of objects and scalars of arrays. */
  predicate Counted(f: Forest)
    requires f.Cons?
  {
    !IsContainer(f.kind)
  }

  /** The counter behind a member. */
  function CounterPast(f: Forest, m: nat): nat
    requires f.Cons?
  {
    if Counted(f) then Bump(m) else m
  }

  /** The counter behind a chain. */
  function CountBehind(f: Forest, m: nat): nat { if f.Nil? then m else CountBehind(f.sibs, CounterPast(f, m)) }

  /** What the calls for a chain write where the counter stands at `m`. */
  function Streamed(f: Forest, m: nat): string
    decreases f, 1
  {
    if f.Nil? then ""
    else (if Counted(f) && m > 0 then "," else "") + ItemStreamed(f) + Streamed(f.sibs, CounterPast(f, m))
  }

  function ItemStreamed(f: Forest): string
    requires f.Cons?
    decreases f, 0
  {
    match f.kind
    case Object => "{" + Streamed(f.kids, 0) + "}"
    case Array => "[" + Streamed(f.kids, 0) + "]"
    case Key => KeyText(f.text, true) + Streamed(f.kids, 0)
    case Str => Quoted(f.text)
    case _ => f.text
  }

  function Count(f: Forest): nat { if f.Nil? then 0 else (if Counted(f) then 1 else 0) + Count(f.sibs) }

  /** How deeply containers nest. */
  function Height(f: Forest): nat {
    if f.Nil? then 0
    else
      var own := if IsContainer(f.kind) then 1 + Height(f.kids) else if f.kind == Key then Height(f.kids) else 0;
      if own >= Height(f.sibs) then own else Height(f.sibs)
  }

  /** Texts that are written as they are. */
  predicate Plain(f: Forest) {
    f.Cons? ==>
      && ((f.kind == Key || f.kind == Str) ==> |CString(f.text)| == |f.text|)
      && (IsScalar(f.kind) ==> Intact(f.kind, f.text))
      && Plain(f.kids) && Plain(f.sibs)
  }

  /** No container has more than 65536 counted members. */
  predicate FewMembers(f: Forest) {
    f.Cons? ==> (IsContainer(f.kind) ==> Count(f.kids) <= 0x1_0000) && FewMembers(f.kids) && FewMembers(f.sibs)
  }

  lemma {:induction false} RunConcat(s: Stream, a: seq<Event>, b: seq<Event>, size: nat)
    ensures Run(s, a + b, size) == Run(Run(s, a, size), b, size)
    decreases |a|
  {
    if a == [] {
      assert a + b == b;
    } else {
      assert (a + b)[1..] == a[1..] + b;
      RunConcat(Step(s, a[0], size), a[1..], b, size);
    }
  }

  lemma RunOne(s: Stream, e: Event, size: nat)
    ensures Run(s, [e], size) == Step(s, e, size)
  {
    assert [e][1..] == [];
  }

  /** A value may start here. */
  predicate Open(s: Stream) {
    && s.error == NoError
    && match s.state
       case Start => s.stack == []
       case ExpectValue => TopKind(s.stack) == Object
       case ExpectArrayValue => TopKind(s.stack) == Array
       case _ => false
  }

  /** Behind the text of a container: the stack is as before. */
  function Behind(s: Stream, piece: string): Stream { Stream(s.text + piece, s.stack, StateFor(s.stack), NoError) }

  function SetMembers(s: seq<Container>, m: nat): seq<Container>
    requires s != []
  {
    [s[0].(members := m)] + s[1..]
  }

  lemma RunWrapped(s: Stream, open: Event, mid: seq<Event>, close: Event, size: nat)
    ensures Run(s, [open] + mid + [close], size) == Step(Run(Step(s, open, size), mid, size), close, size)
  {
    RunOne(s, open, size);
    RunConcat(s, [open], mid, size);
    RunConcat(s, [open] + mid, [close], size);
    RunOne(Run(Step(s, open, size), mid, size), close, size);
  }

  /** Inside a container that was just opened. */
  function Inside(s: Stream, k: Kind): Stream {
    Stream(s.text + (if k == Object then "{" else "["), [Container(k, 0)] + s.stack,
        if k == Object then ExpectKey else ExpectArrayValue, NoError)
  }

  lemma OpenStep(s: Stream, k: Kind, size: nat)
    requires IsContainer(k) && Open(s) && |s.text| + 1 < size && |s.stack| < MAX_DEPTH
    ensures Step(s, if k == Object then ObjectStart else ArrayStart, size) == Inside(s, k)
  {
  }

  lemma CloseStep(s: Stream, k: Kind, inner: string, n: nat, size: nat)
    requires IsContainer(k) && |s.text| + |inner| + 2 < size
    ensures var i := Inside(s, k);
      Step(Stream(i.text + inner, SetMembers(i.stack, n), i.state, NoError),
          if k == Object then ObjectEnd else ArrayEnd, size)
        == Behind(s, if k == Object then "{" + inner + "}" else "[" + inner + "]")
  {
    var o, c := if k == Object then "{" else "[", if k == Object then "}" else "]";
    assert s.text + o + inner + c == s.text + (o + inner + c);
    assert SetMembers(Inside(s, k).stack, n)[1..] == s.stack;
  }

  /** The calls for a container. */
  lemma {:induction false} RunContainer(s: Stream, f: Forest, size: nat)
    requires f.Cons? && IsContainer(f.kind) && Open(s) && |s.text| + |ItemStreamed(f)| < size
    requires Nested(f.kids, f.kind) && Full(f.kids) && Plain(f.kids)
    requires |s.stack| + 1 + Height(f.kids) <= MAX_DEPTH
    ensures Run(s, ItemEvents(f), size) == Behind(s, ItemStreamed(f))
    decreases f, 0
  {
    OpenStep(s, f.kind, size);
    RunChain(Inside(s, f.kind), f.kids, f.kind, 0, size);
    CloseStep(s, f.kind, Streamed(f.kids, 0), CountBehind(f.kids, 0), size);
    if f.kind == Object {
      RunWrapped(s, ObjectStart, Events(f.kids), ObjectEnd, size);
    } else {
      RunWrapped(s, ArrayStart, Events(f.kids), ArrayEnd, size);
    }
  }

  /** Behind one member: the comma if one was due, the member, and one more on the count. */
  function Further(s: Stream, f: Forest, m: nat): Stream
    requires f.Cons? && s.stack != []
  {
    Stream(s.text + ((if Counted(f) && m > 0 then "," else "") + ItemStreamed(f)),
           SetMembers(s.stack, CounterPast(f, m)), s.state, NoError)
  }

  /** A stream inside container `k` that has `m` counted members. */
  predicate At(s: Stream, k: Kind, m: nat) {
    s.error == NoError && s.stack != [] && s.stack[0] == Container(k, m) && s.state == StateFor(s.stack)
  }

  /** A chain that still fits buffer, stack and counter. */
  ghost predicate Fits(s: Stream, f: Forest, k: Kind, m: nat, size: nat) {
    && IsContainer(k) && Nested(f, k) && Full(f) && Plain(f)
    && |s.text| + |Streamed(f, m)| < size && |s.stack| + Height(f) <= MAX_DEPTH
  }

  lemma FitsFurther(s: Stream, f: Forest, k: Kind, m: nat, size: nat)
    requires At(s, k, m) && f.Cons? && Fits(s, f, k, m, size)
    ensures var r, m' := Further(s, f, m), CounterPast(f, m); At(r, k, m') && Fits(r, f.sibs, k, m', size)
  {
  }

  /** Where the calls for a chain end. */
  function AllDone(s: Stream, f: Forest, m: nat): Stream
    requires s.stack != []
  {
    Stream(s.text + Streamed(f, m), SetMembers(s.stack, CountBehind(f, m)), s.state, NoError)
  }

  lemma DoneFurther(s: Stream, f: Forest, m: nat)
    requires s.stack != [] && f.Cons?
    ensures AllDone(Further(s, f, m), f.sibs, CounterPast(f, m)) == AllDone(s, f, m)
  {
    var piece := (if Counted(f) && m > 0 then "," else "") + ItemStreamed(f);
    var rest := Streamed(f.sibs, CounterPast(f, m));
    assert s.text + piece + rest == s.text + (piece + rest);
  }

  /** The calls for the members of an open container. */
  lemma {:induction false} RunChain(s: Stream, f: Forest, k: Kind, m: nat, size: nat)
    requires At(s, k, m) && Fits(s, f, k, m, size)
    ensures Run(s, Events(f), size) == AllDone(s, f, m)
    decreases f, 2
  {
    if f.Nil? {
      assert s.text + "" == s.text && SetMembers(s.stack, m) == s.stack;
    } else {
      assert Run(s, Events(f), size) == Run(Further(s, f, m), Events(f.sibs), size) by {
        RunMember(s, f, k, m, size);
        RunConcat(s, ItemEvents(f), Events(f.sibs), size);
      }
      FitsFurther(s, f, k, m, size);
      RunChain(Further(s, f, m), f.sibs, k, CounterPast(f, m), size);
      DoneFurther(s, f, m);
    }
  }

  /** The calls for one member of an open container. */
  lemma {:induction false} RunMember(s: Stream, f: Forest, k: Kind, m: nat, size: nat)
    requires At(s, k, m) && f.Cons? && Fits(s, f, k, m, size)
    ensures Run(s, ItemEvents(f), size) == Further(s, f, m)
    decreases f, 1
  {
    if IsContainer(f.kind) {
      RunContainer(s, f, size);
      assert SetMembers(s.stack, m) == s.stack;
      assert "" + ItemStreamed(f) == ItemStreamed(f);
    } else if f.kind == Key {
      RunNamed(s, f, m, size);
    } else {
      CStringWhole(f);
      RunOne(s, Value(f.kind, f.text), size);
      assert AddMember(s.stack) == SetMembers(s.stack, Bump(m));
    }
  }

  lemma CStringWhole(f: Forest)
    requires f.Cons? && IsScalar(f.kind) && Plain(f)
    ensures ValueText(f.kind, f.text) == ItemStreamed(f)
  {
  }

  /** Behind a name. */
  function Named(s: Stream, name: string, m: nat): Stream
    requires s.stack != []
  {
    Stream(s.text + ((if m > 0 then "," else "") + KeyText(name, true)), SetMembers(s.stack, Bump(m)), ExpectValue,
        NoError)
  }

  lemma NameStep(s: Stream, name: string, m: nat, size: nat)
    requires At(s, Object, m) && |CString(name)| == |name| && |Named(s, name, m).text| < size
    ensures Step(s, Name(name), size) == Named(s, name, m)
  {
    assert AddMember(s.stack) == SetMembers(s.stack, Bump(m));
  }

  /** The value of a key. */
  lemma {:induction false} RunValue(s: Stream, v: Forest, size: nat)
    requires Open(s) && s.state == ExpectValue && v.Cons? && (IsScalar(v.kind) || IsContainer(v.kind))
    requires Nested(v.kids, v.kind) && Full(v.kids) && Plain(v) && |s.text| + |ItemStreamed(v)| < size
    requires |s.stack| + Height(v) <= MAX_DEPTH
    ensures Run(s, ItemEvents(v), size) == Behind(s, ItemStreamed(v))
    decreases v, 1
  {
    if IsContainer(v.kind) {
      RunContainer(s, v, size);
    } else {
      CStringWhole(v);
      RunOne(s, Value(v.kind, v.text), size);
    }
  }

  /** The calls for a key and its value. */
  lemma {:induction false} RunNamed(s: Stream, f: Forest, m: nat, size: nat)
    requires At(s, Object, m) && f.Cons? && f.kind == Key && Fits(s, f, Object, m, size)
    ensures Run(s, ItemEvents(f), size) == Further(s, f, m)
    decreases f, 0
  {
    MemberFacts(f);
    OnlyValue(f.kids);
    NamedDone(s, f, m);
    NameStep(s, f.text, m, size);
    assert Run(s, ItemEvents(f), size) == Run(Named(s, f.text, m), ItemEvents(f.kids), size) by {
      RunOne(s, Name(f.text), size);
      RunConcat(s, [Name(f.text)], Events(f.kids), size);
    }
    RunValue(Named(s, f.text, m), f.kids, size);
  }

  lemma NamedDone(s: Stream, f: Forest, m: nat)
    requires At(s, Object, m) && f.Cons? && f.kind == Key && f.kids.Cons? && f.kids.sibs.Nil?
    ensures Behind(Named(s, f.text, m), ItemStreamed(f.kids)) == Further(s, f, m)
    ensures |Streamed(f, m)| >= |(if m > 0 then "," else "") + KeyText(f.text, true)| + |ItemStreamed(f.kids)|
  {
    OnlyValue(f.kids);
    var comma, key, v := if m > 0 then "," else "", KeyText(f.text, true), ItemStreamed(f.kids);
    assert ItemStreamed(f) == key + v;
    Glue(s.text, comma, key, v, Streamed(f.sibs, Bump(m)));
  }

  lemma Glue(t: string, comma: string, key: string, v: string, rest: string)
    ensures t + (comma + key) + v == t + (comma + (key + v))
    ensures |comma + (key + v) + rest| >= |comma + key| + |v|
  {
  }

  lemma MemberFacts(f: Forest)
    requires f.Cons? && Nested(f, Object) && Full(f) && Plain(f)
    ensures f.kind == Key && |CString(f.text)| == |f.text|
    ensures var v := f.kids;
      && v.Cons? && v.sibs.Nil? && (IsScalar(v.kind) || IsContainer(v.kind))
      && Nested(v.kids, v.kind) && Full(v.kids) && Plain(v) && Height(v) <= Height(f)
  {
    assert Nested(f.kids, Key) && Full(f.kids);
  }

  lemma OnlyValue(v: Forest)
    requires v.Cons? && v.sibs.Nil?
    ensures Events(v) == ItemEvents(v)
    ensures Streamed(v, 0) == ItemStreamed(v)
  {
    assert ItemEvents(v) + [] == ItemEvents(v);
    assert "" + ItemStreamed(v) + "" == ItemStreamed(v);
  }

  /** The calls that describe a closed document write what `ItemStreamed` says, and end the stream. */
  lemma StreamsTree(t: Forest, size: nat)
    requires Closed(t)
    requires Plain(t) && Height(t) <= MAX_DEPTH && |ItemStreamed(t)| < size
    ensures Run(EMPTY, Events(t), size) == Stream(ItemStreamed(t), [], End, NoError)
  {
    OnlyValue(t);
    RunContainer(EMPTY, t, size);
    assert "" + ItemStreamed(t) == ItemStreamed(t);
  }

  // ----- when that is the compact rendering -----

  predicate AllScalars(f: Forest) { f.Cons? ==> IsScalar(f.kind) && AllScalars(f.sibs) }

  /** Every array holds only scalars, or exactly one element, or nothing. */
  predicate Clean(f: Forest)
    decreases f, 1
  {
    f.Cons? ==> CleanItem(f) && Clean(f.sibs)
  }

  predicate CleanItem(f: Forest)
    requires f.Cons?
    decreases f, 0
  {
    (f.kind == Array && f.kids.Cons? ==> AllScalars(f.kids) || f.kids.sibs.Nil?) && Clean(f.kids)
  }

  predicate FewItems(f: Forest)
    requires f.Cons?
  {
    (IsContainer(f.kind) ==> Count(f.kids) <= 0x1_0000) && FewMembers(f.kids)
  }

  /** A chain behind `i` siblings, of which `m` are counted, gets all its commas. */
  predicate CommasKept(f: Forest, i: nat, m: nat) {
    f.Cons? ==> (i > 0 <==> Counted(f) && m > 0) && CommasKept(f.sibs, i + 1, CounterPast(f, m))
  }

  lemma {:induction false} ScalarsKept(f: Forest, i: nat, m: nat)
    requires Nested(f, Array) && 0 < i <= 0x1_0000 && m == i % 0x1_0000
    ensures CommasKept(f, i, m) <==> AllScalars(f) && i + Count(f) <= 0x1_0000
  {
    if f.Cons? && i < 0x1_0000 { ScalarsKept(f.sibs, i + 1, Bump(m)); }
  }

  lemma {:induction false} KeysKept(f: Forest, i: nat, m: nat)
    requires Nested(f, Object) && i <= 0x1_0000 && m == i % 0x1_0000
    ensures CommasKept(f, i, m) <==> i + Count(f) <= 0x1_0000
  {
    if f.Cons? && i < 0x1_0000 { KeysKept(f.sibs, i + 1, Bump(m)); }
  }

  /** The elements of an array keep their commas when they are scalars, as many as the counter can
      count, or when there is one. */
  lemma ElementsKept(f: Forest)
    requires Nested(f, Array)
    ensures CommasKept(f, 0, 0) <==> (f.Nil? || AllScalars(f) || f.sibs.Nil?) && Count(f) <= 0x1_0000
  {
    if f.Cons? { ScalarsKept(f.sibs, 1, 1); }
  }

  function Lead(f: Forest, i: nat): string { if i > 0 && f.Cons? then "," else "" }

  /** The compact rendering of a chain behind `i` siblings. */
  function Compact(f: Forest, indent: nat, i: nat): string { Lead(f, i) + Print(f, indent, true) }

  lemma CompactNext(f: Forest, indent: nat, i: nat)
    requires f.Cons?
    ensures Compact(f, indent, i) == (if i > 0 then "," else "") + Item(f, indent, true)
        + Compact(f.sibs, indent, i + 1)
  {
    assert Tail(f.sibs, indent, true) == Compact(f.sibs, indent, i + 1) by {
      if f.sibs.Cons? { assert "," + "" == ","; }
    }
  }

  /** The calls never write more than the compact rendering has, and exactly that when every comma
      is kept and everything below is clean. */
  lemma {:induction false} StreamedGap(f: Forest, k: Kind, indent: nat, i: nat, m: nat)
    requires Nested(f, k) && Full(f) && m <= i
    ensures |Streamed(f, m)| <= |Compact(f, indent, i)|
    ensures Streamed(f, m) == Compact(f, indent, i) <==> CommasKept(f, i, m) && Clean(f) && FewMembers(f)
    ensures Streamed(f, m) != Compact(f, indent, i) ==> |Streamed(f, m)| < |Compact(f, indent, i)|
    decreases f, 1
  {
    if f.Cons? {
      var m' := CounterPast(f, m);
      ItemGap(f, k, indent);
      StreamedGap(f.sibs, k, indent, i + 1, m');
      CompactNext(f, indent, i);
      PiecesGap(if Counted(f) && m > 0 then "," else "", ItemStreamed(f), Streamed(f.sibs, m'),
                if i > 0 then "," else "", Item(f, indent, true), Compact(f.sibs, indent, i + 1));
    }
  }

  /** Three pieces, none longer than its counterpart. */
  lemma PiecesGap(a: string, b: string, c: string, a': string, b': string, c': string)
    requires |a| <= |a'| && |b| <= |b'| && |c| <= |c'|
    requires (a != a' ==> |a| < |a'|) && (b != b' ==> |b| < |b'|) && (c != c' ==> |c| < |c'|)
    ensures |a + b + c| <= |a' + b' + c'|
    ensures a + b + c == a' + b' + c' <==> a == a' && b == b' && c == c'
    ensures a + b + c != a' + b' + c' ==> |a + b + c| < |a' + b' + c'|
  {
  }

  lemma {:induction false} ItemGap(f: Forest, k: Kind, indent: nat)
    requires f.Cons? && Nested(f, k) && Full(f)
    ensures |ItemStreamed(f)| <= |Item(f, indent, true)|
    ensures ItemStreamed(f) == Item(f, indent, true) <==> CleanItem(f) && FewItems(f)
    ensures ItemStreamed(f) != Item(f, indent, true) ==> |ItemStreamed(f)| < |Item(f, indent, true)|
    decreases f, 0
  {
    var inner := KidIndent(f.kind, indent);
    StreamedGap(f.kids, f.kind, inner, 0, 0);
    KidsKept(f, k);
    var a, c := ItemEnds(f).0, ItemEnds(f).1;
    PiecesGap(a, Streamed(f.kids, 0), c, a, Compact(f.kids, inner, 0), c);
    ItemAround(f, indent);
  }

  /** What stands around the children of a node. */
  function ItemEnds(f: Forest): (string, string)
    requires f.Cons?
  {
    match f.kind
    case Object => ("{", "}")
    case Array => ("[", "]")
    case Key => (KeyText(f.text, true), "")
    case Str => (Quoted(f.text), "")
    case _ => (f.text, "")
  }

  lemma ItemAround(f: Forest, indent: nat)
    requires f.Cons? && (IsScalar(f.kind) ==> f.kids.Nil?) && (f.kind == Key ==> f.kids.Cons?) && f.kind != Unknown
    ensures ItemStreamed(f) == ItemEnds(f).0 + Streamed(f.kids, 0) + ItemEnds(f).1
    ensures Item(f, indent, true) == ItemEnds(f).0 + Compact(f.kids, KidIndent(f.kind, indent), 0) + ItemEnds(f).1
  {
    var (a, c) := ItemEnds(f);
    var p := Print(f.kids, KidIndent(f.kind, indent), true);
    assert "" + p == p;
    if IsScalar(f.kind) {
      assert a + "" + c == a;
    } else if f.kind == Key {
      assert a + Streamed(f.kids, 0) + "" == a + Streamed(f.kids, 0);
    } else if f.kids.Cons? {
      EndsText(f, indent);
    }
  }

  lemma EndsText(f: Forest, indent: nat)
    requires f.Cons? && IsContainer(f.kind)
    ensures Opening(f, indent, true) == ItemEnds(f).0 && Closing(f, indent, true) == ItemEnds(f).1
  {
  }

  lemma KidsKept(f: Forest, k: Kind)
    requires f.Cons? && Nested(f, k)
    ensures CommasKept(f.kids, 0, 0) <==>
      (f.kind == Array && f.kids.Cons? ==> AllScalars(f.kids) || f.kids.sibs.Nil?)
      && (IsContainer(f.kind) ==> Count(f.kids) <= 0x1_0000)
  {
    if f.kind == Object { KeysKept(f.kids, 0, 0); }
    if f.kind == Array { ElementsKept(f.kids); }
  }

  /** For an error-free sequence of calls that describes a closed document of at most ten levels,
      the output is the compact rendering of that document if and only if every array holds only
      scalars or at most one element, and the counter reaches for every container. */
  lemma StreamingTheorem(t: Forest, size: nat)
    requires Closed(t)
    requires Plain(t) && Height(t) <= MAX_DEPTH && |Print(t, 0, true)| < size
    ensures var r := Run(EMPTY, Events(t), size);
      && r.error == NoError && r.state == End && r.stack == [] && |r.text| <= |Print(t, 0, true)|
      && (r.text == Print(t, 0, true) <==> Clean(t) && FewMembers(t))
  {
    ItemGap(t, Unknown, 0);
    assert (Clean(t) <==> CleanItem(t)) && (FewMembers(t) <==> FewItems(t));
    assert Print(t, 0, true) == Item(t, 0, true) + "" == Item(t, 0, true);
    StreamsTree(t, size);
  }

  // ----- how deep the calls go -----

  /** From depth `n` on no container is opened beyond the depth of the stack. */
  predicate DepthOk(n: nat, es: seq<Event>)
    decreases |es|
  {
    es == [] ||
    match es[0]
    case ObjectStart | ArrayStart => n < MAX_DEPTH && DepthOk(n + 1, es[1..])
    case ObjectEnd | ArrayEnd => DepthOk(if n > 0 then n - 1 else 0, es[1..])
    case _ => DepthOk(n, es[1..])
  }

  lemma DepthFirst(n: nat, e: Event, es: seq<Event>)
    ensures DepthOk(n, [e] + es) == match e
      case ObjectStart | ArrayStart => n < MAX_DEPTH && DepthOk(n + 1, es)
      case ObjectEnd | ArrayEnd => DepthOk(if n > 0 then n - 1 else 0, es)
      case _ => DepthOk(n, es)
  {
    assert ([e] + es)[1..] == es;
  }

  /** The calls for a tree go as deep as its containers nest. */
  lemma {:induction false} EventsDepth(f: Forest, n: nat, rest: seq<Event>)
    requires n <= MAX_DEPTH
    ensures DepthOk(n, Events(f) + rest) <==> n + Height(f) <= MAX_DEPTH && DepthOk(n, rest)
    decreases f, 1
  {
    if f.Nil? {
      assert Events(f) + rest == rest;
    } else {
      var after := Events(f.sibs) + rest;
      EventsDepth(f.sibs, n, rest);
      assert Events(f) + rest == ItemEvents(f) + after;
      if IsContainer(f.kind) {
        ContainerDepth(f, n, after);
      } else if f.kind == Key {
        EventsDepth(f.kids, n, after);
        DepthFirst(n, Name(f.text), Events(f.kids) + after);
        assert ItemEvents(f) + after == [Name(f.text)] + (Events(f.kids) + after);
      } else {
        DepthFirst(n, Value(f.kind, f.text), after);
      }
    }
  }

  lemma {:induction false} ContainerDepth(f: Forest, n: nat, after: seq<Event>)
    requires f.Cons? && IsContainer(f.kind) && n <= MAX_DEPTH
    ensures DepthOk(n, ItemEvents(f) + after) <==> n + 1 + Height(f.kids) <= MAX_DEPTH && DepthOk(n, after)
    decreases f, 0
  {
    var open := if f.kind == Object then ObjectStart else ArrayStart;
    var close := if f.kind == Object then ObjectEnd else ArrayEnd;
    DepthFirst(n + 1, close, after);
    if n < MAX_DEPTH { EventsDepth(f.kids, n + 1, [close] + after); }
    DepthFirst(n, open, Events(f.kids) + ([close] + after));
    assert ItemEvents(f) + after == [open] + (Events(f.kids) + ([close] + after));
  }

  /** A call without an error moves the depth as expected. */
  lemma StepDepth(s: Stream, e: Event, es: seq<Event>, size: nat)
    requires DepthOk(|s.stack|, [e] + es) && s.error == NoError && Step(s, e, size).error == NoError
    ensures DepthOk(|Step(s, e, size).stack|, es)
  {
    DepthFirst(|s.stack|, e, es);
  }

  // ----- the depth limit -----

  function Starts(n: nat): seq<Event> { seq(n, _ => ArrayStart) }

  /** A start call is refused for its depth when forty containers are open. */
  lemma PushRefused(s: Stream, size: nat)
    requires Open(s) && |s.text| + 1 < size
    ensures Step(s, ObjectStart, size).error == MaxDepthExceeded <==> |s.stack| == STACK_LIMIT
    ensures Step(s, ArrayStart, size).error == MaxDepthExceeded <==> |s.stack| == STACK_LIMIT
  {
  }

  lemma {:induction false} ManyStarts(n: nat, size: nat)
    requires n <= STACK_LIMIT && n < size
    ensures var r := Run(EMPTY, Starts(n), size);
      && r.error == NoError && |r.stack| == n == |r.text|
      && (n == 0 ==> r == EMPTY)
      && (n > 0 ==> r.state == ExpectArrayValue && r.stack[0].kind == Array)
  {
    if n > 0 {
      ManyStarts(n - 1, size);
      assert Starts(n) == Starts(n - 1) + [ArrayStart];
      RunConcat(EMPTY, Starts(n - 1), [ArrayStart], size);
      RunOne(Run(EMPTY, Starts(n - 1), size), ArrayStart, size);
    }
  }

  /** An eleventh container is opened without an error, though ten are the documented limit. */
  lemma EleventhAccepted()
    ensures MAX_DEPTH == 10 && Run(EMPTY, Starts(11), 100).error == NoError && |Run(EMPTY, Starts(11), 100).stack| == 11
  {
    ManyStarts(11, 100);
  }
}
