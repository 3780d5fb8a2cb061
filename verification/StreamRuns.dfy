/** Every run of streaming calls without an error: while it lasts the calls describe a document in
    the making, and a run that ends describes a closed one. */
module StreamRuns {
  import opened Codes
  import opened Forests
  import opened Shapes
  import opened Printer
  import opened Streaming
  import Machine

  type Spine = Machine.Spine

  /** The call that opened an unfinished node. */
  function Opener(kind: Kind, text: string): Event {
    if kind == Object then ObjectStart else if kind == Array then ArrayStart else Name(text)
  }

  function Closer(kind: Kind): Event { if kind == Object then ObjectEnd else ArrayEnd }

  /** The calls that were made on the way to a document in the making. */
  function Made(s: Spine): seq<Event> {
    if s.Top? then Events(s.done) else Made(s.up) + [Opener(s.kind, s.text)] + Events(s.kids)
  }

  /** The kinds of the containers around, innermost first. */
  function OpenKinds(s: Spine): seq<Kind> {
    if s.Top? then [] else (if IsContainer(s.kind) then [s.kind] else []) + OpenKinds(s.up)
  }

  function KindsOf(stack: seq<Container>): seq<Kind> {
    if stack == [] then [] else [stack[0].kind] + KindsOf(stack[1..])
  }

  /** A key is finished with its value. */
  function Settle(s: Spine): Spine { if s.Frame? && s.kind == Key then Machine.Pop(s) else s }

  /** What a call adds to the document. */
  function Feed(s: Spine, e: Event): Spine {
    match e
    case ObjectStart => Machine.Frame(s, 0, Object, "", Nil)
    case ArrayStart => Machine.Frame(s, 0, Array, "", Nil)
    case ObjectEnd | ArrayEnd => if s.Frame? then Settle(Machine.Pop(s)) else s
    case Name(name) => Machine.Frame(s, 0, Key, name, Nil)
    case Value(kind, text) => Settle(Machine.Extend(s, Leaf(0, kind, text)))
  }

  function FeedAll(s: Spine, es: seq<Event>): Spine
    decreases |es|
  {
    if es == [] then s else FeedAll(Feed(s, es[0]), es[1..])
  }

  /** Finished nodes below a node of kind `k`. */
  ghost predicate Finished(f: Forest, k: Kind) { Nested(f, k) && Full(f) && Plain(f) }

  /** The document in the making: finished nodes, and unfinished ones that may hold them. */
  ghost predicate Woven(s: Spine) {
    && Finished(Machine.Kids(s), Machine.KindOf(s))
    && if s.Top? then s.done.Cons? ==> s.done.sibs.Nil? && IsContainer(s.done.kind)
       else
         && Allowed(Machine.KindOf(s.up), s.kind) && (IsContainer(s.kind) || s.kind == Key)
         && (s.kind == Key ==> s.kids.Nil? && |CString(s.text)| == |s.text|)
         && (s.up.Top? ==> s.up.done.Nil? && IsContainer(s.kind))
         && Woven(s.up)
  }

  /** The state fixes the kind of the current node. */
  predicate StateFits(state: State, s: Spine) {
    match state
    case Start => s == Machine.Top(Nil)
    case End => s.Top? && s.done.Cons?
    case ExpectKey => s.Frame? && s.kind == Object
    case ExpectArrayValue => s.Frame? && s.kind == Array
    case ExpectValue => s.Frame? && s.kind == Key && s.up.Frame? && s.up.kind == Object
    case _ => false
  }

  /** A stream without an error and the document that its calls describe so far. */
  ghost predicate Describes(c: Stream, s: Spine) {
    c.error == NoError && KindsOf(c.stack) == OpenKinds(s) && StateFits(c.state, s) && Woven(s)
  }

  lemma {:induction false} EventsConcat(f: Forest, g: Forest)
    ensures Events(Concat(f, g)) == Events(f) + Events(g)
  {
    if f.Cons? { EventsConcat(f.sibs, g); }
  }

  lemma {:induction false} FinishedConcat(f: Forest, g: Forest, k: Kind)
    requires Finished(f, k) && Finished(g, k)
    ensures Finished(Concat(f, g), k)
  {
    if f.Cons? { FinishedConcat(f.sibs, g, k); }
  }

  lemma ExtendMade(s: Spine, g: Forest)
    ensures Made(Machine.Extend(s, g)) == Made(s) + Events(g)
  {
    EventsConcat(Machine.Kids(s), g);
  }

  lemma CurrentEvents(s: Spine)
    requires s.Frame?
    ensures Events(Machine.Current(s)) == ItemEvents(Machine.Current(s))
  {
    assert ItemEvents(Machine.Current(s)) + [] == ItemEvents(Machine.Current(s));
  }

  lemma ExtendContainer(s: Spine, g: Forest)
    requires Woven(s) && s.Frame? && IsContainer(s.kind) && Finished(g, s.kind)
    ensures Woven(Machine.Extend(s, g)) && OpenKinds(Machine.Extend(s, g)) == OpenKinds(s)
  {
    FinishedConcat(s.kids, g, s.kind);
  }

  /** A key with its value, seen from the object around. */
  lemma KeyWhole(s: Spine, g: Forest)
    requires Woven(s) && s.Frame? && s.kind == Key && g.Cons? && g.sibs.Nil? && Finished(g, Key)
    ensures s.up.Frame? && s.up.kind == Object
    ensures var k := Machine.Current(Machine.Extend(s, g));
      Finished(k, Object) && Made(s.up) + Events(k) == Made(s) + Events(g)
  {
    var k := Machine.Extend(s, g);
    assert k.kids == g;
    CurrentEvents(k);
    var a, n, v := Made(s.up), [Name(s.text)], Events(g);
    assert a + (n + v) == a + n + [] + v;
  }

  /** A value is finished below the current node, and with it the key it belongs to. */
  lemma ValueFinished(s: Spine, g: Forest)
    requires Woven(s) && g.Cons? && g.sibs.Nil? && Finished(g, Machine.KindOf(s)) && g.kind != Key
    requires s.Top? ==> s.done.Nil? && IsContainer(g.kind)
    ensures var r := Settle(Machine.Extend(s, g));
      && Woven(r) && Made(r) == Made(s) + Events(g) && OpenKinds(r) == OpenKinds(s)
      && (if s.Top? then r.Top? && r.done.Cons? else r.Frame? && r.kind == if s.kind == Key then Object else s.kind)
  {
    hide Finished;
    ExtendMade(s, g);
    if s.Frame? && IsContainer(s.kind) {
      ExtendContainer(s, g);
    } else if s.Frame? {
      KeyWhole(s, g);
      var k := Machine.Current(Machine.Extend(s, g));
      ExtendContainer(s.up, k);
      ExtendMade(s.up, k);
    }
  }

  lemma Regrouped(a: seq<Event>, o: Event, k: seq<Event>, c: Event)
    ensures a + ([o] + k + [c]) == a + [o] + k + [c]
  {
  }

  lemma ContainerMade(s: Spine)
    requires s.Frame? && IsContainer(s.kind)
    ensures Made(s) == Made(s.up) + [Opener(s.kind, s.text)] + Events(s.kids)
    ensures ItemEvents(Machine.Current(s)) == [Opener(s.kind, s.text)] + Events(s.kids) + [Closer(s.kind)]
  {
  }

  lemma ContainerPlain(s: Spine)
    requires Woven(s) && s.Frame? && IsContainer(s.kind)
    ensures Finished(Machine.Current(s), Machine.KindOf(s.up))
  {
  }

  /** An open container, once it is closed, is a finished node. */
  lemma ContainerWhole(s: Spine)
    requires Woven(s) && s.Frame? && IsContainer(s.kind)
    ensures var g := Machine.Current(s);
      && Finished(g, Machine.KindOf(s.up))
      && Made(s.up) + Events(g) == Made(s) + [Closer(s.kind)]
  {
    hide Finished, Woven, Events, Made, ItemEvents;
    ContainerPlain(s);
    CurrentEvents(s);
    ContainerMade(s);
    Regrouped(Made(s.up), Opener(s.kind, s.text), Events(s.kids), Closer(s.kind));
  }

  /** The innermost container is closed: it becomes a finished value. */
  lemma ContainerFinished(s: Spine)
    requires Woven(s) && s.Frame? && IsContainer(s.kind)
    ensures var r := Settle(Machine.Pop(s));
      && Woven(r) && Made(r) == Made(s) + [Closer(s.kind)] && OpenKinds(r) == OpenKinds(s.up)
      && (s.up.Top? ==> r.Top? && r.done.Cons?)
      && (s.up.Frame? ==> r.Frame? && r.kind == if s.up.kind == Key then Object else s.up.kind)
  {
    ContainerWhole(s);
    hide Finished, Made, OpenKinds;
    ValueFinished(s.up, Machine.Current(s));
  }

  lemma InnermostKind(stack: seq<Container>, s: Spine)
    requires KindsOf(stack) == OpenKinds(s) && Woven(s)
    ensures s.Top? ==> stack == []
    ensures s.Frame? && IsContainer(s.kind) ==>
      stack != [] && TopKind(stack) == s.kind && KindsOf(stack[1..]) == OpenKinds(s.up)
          && KindsOf(AddMember(stack)) == OpenKinds(s)
    ensures s.Frame? && s.kind == Key ==> TopKind(stack) == Object
  {
    if stack != [] && s.Frame? && IsContainer(s.kind) {
      assert KindsOf(stack)[1..] == KindsOf(stack[1..]) && OpenKinds(s)[1..] == OpenKinds(s.up);
      assert AddMember(stack)[1..] == stack[1..];
    }
  }

  lemma ClosingCall(c: Stream, s: Spine, e: Event, size: nat)
    requires Describes(c, s) && Step(c, e, size).error == NoError && (e == ObjectEnd || e == ArrayEnd)
    ensures Describes(Step(c, e, size), Feed(s, e)) && Made(Feed(s, e)) == Made(s) + [e]
  {
    InnermostKind(c.stack, s);
    ContainerFinished(s);
    InnermostKind(c.stack[1..], s.up);
  }

  lemma OpeningCall(c: Stream, s: Spine, e: Event, size: nat)
    requires Describes(c, s) && Step(c, e, size).error == NoError && (e == ObjectStart || e == ArrayStart)
    ensures Describes(Step(c, e, size), Feed(s, e)) && Made(Feed(s, e)) == Made(s) + [e]
  {
    var stack := Step(c, e, size).stack;
    assert stack[1..] == c.stack;
    assert Made(s) + [e] + [] == Made(s) + [e];
  }

  lemma NamingCall(c: Stream, s: Spine, name: string, size: nat)
    requires Describes(c, s) && Step(c, Name(name), size).error == NoError
    ensures Describes(Step(c, Name(name), size), Feed(s, Name(name)))
    ensures Made(Feed(s, Name(name))) == Made(s) + [Name(name)]
  {
    InnermostKind(c.stack, s);
    assert Made(s) + [Name(name)] + [] == Made(s) + [Name(name)];
  }

  lemma ValueCall(c: Stream, s: Spine, kind: Kind, text: string, size: nat)
    requires Describes(c, s) && Step(c, Value(kind, text), size).error == NoError && IsScalar(kind)
    ensures Describes(Step(c, Value(kind, text), size), Feed(s, Value(kind, text)))
    ensures Made(Feed(s, Value(kind, text))) == Made(s) + [Value(kind, text)]
  {
    var g := Leaf(0, kind, text);
    InnermostKind(c.stack, s);
    ValueStacked(c, kind, text, size);
    assert Allowed(Machine.KindOf(s), kind) && s.Frame?;
    hide Step, Made, OpenKinds, Finished, Settle, Events, Woven;
    LeafWoven(s, kind, text);
    ValueFinished(s, g);
  }

  lemma LeafWoven(s: Spine, kind: Kind, text: string)
    requires IsScalar(kind) && Intact(kind, text) && Allowed(Machine.KindOf(s), kind)
    ensures Events(Leaf(0, kind, text)) == [Value(kind, text)] && Finished(Leaf(0, kind, text), Machine.KindOf(s))
  {
    var g := Leaf(0, kind, text);
    assert Nested(g.kids, kind) && Nested(g.sibs, Machine.KindOf(s));
    assert Plain(g) && Full(g);
  }

  /** What a value does to stack and state. */
  lemma ValueStacked(c: Stream, kind: Kind, text: string, size: nat)
    requires c.error == NoError && Step(c, Value(kind, text), size).error == NoError
    ensures var r := Step(c, Value(kind, text), size);
      && Intact(kind, text) && (c.state == ExpectValue || c.state == ExpectArrayValue)
      && r.stack == (if TopKind(c.stack) == Array then AddMember(c.stack) else c.stack)
      && r.state == if TopKind(c.stack) == Array then ExpectArrayValue
         else if TopKind(c.stack) == Object then ExpectKey else c.state
  {
  }

  /** The values are scalars, as the calls make them. */
  predicate Typed(es: seq<Event>) { forall e :: e in es && e.Value? ==> IsScalar(e.kind) }

  /** A call without an error adds to the document what it says. */
  lemma OneCall(c: Stream, s: Spine, e: Event, size: nat)
    requires Describes(c, s) && Step(c, e, size).error == NoError && (e.Value? ==> IsScalar(e.kind))
    ensures Describes(Step(c, e, size), Feed(s, e)) && Made(Feed(s, e)) == Made(s) + [e]
  {
    match e
    case ObjectStart | ArrayStart => OpeningCall(c, s, e, size);
    case ObjectEnd | ArrayEnd => ClosingCall(c, s, e, size);
    case Name(name) => NamingCall(c, s, name, size);
    case Value(kind, text) => ValueCall(c, s, kind, text, size);
  }

  lemma {:induction false} AllCalls(c: Stream, s: Spine, es: seq<Event>, size: nat)
    requires Describes(c, s) && Typed(es) && Run(c, es, size).error == NoError
    ensures Describes(Run(c, es, size), FeedAll(s, es)) && Made(FeedAll(s, es)) == Made(s) + es
    decreases |es|
  {
    hide Describes, Made, Feed, Step;
    if es == [] {
      assert Made(s) + [] == Made(s);
    } else {
      if Step(c, es[0], size).error != NoError { StuckRun(Step(c, es[0], size), es[1..], size); }
      assert es[0] in es && Typed(es[1..]);
      OneCall(c, s, es[0], size);
      AllCalls(Step(c, es[0], size), Feed(s, es[0]), es[1..], size);
      assert Made(s) + [es[0]] + es[1..] == Made(s) + es;
    }
  }

  /** A run of calls that ends without an error is the description of a closed document. */
  lemma EndedRun(es: seq<Event>, size: nat) returns (t: Forest)
    requires Typed(es) && Run(EMPTY, es, size).error == NoError && Run(EMPTY, es, size).state == End
    ensures Closed(t) && Plain(t) && Events(t) == es
  {
    AllCalls(EMPTY, Machine.Top(Nil), es, size);
    t := FeedAll(Machine.Top(Nil), es).done;
    assert [] + es == es;
  }

  // ----- what a call that fails is answered with -----

  /** What may come next in the document in the making: a container at the very start, a value where
      a key waits for one or in an array, a name or the end in an object, the end in an array. */
  predicate MayFollow(s: Spine, e: Event) {
    match e
    case ObjectStart | ArrayStart => s == Machine.Top(Nil) || (s.Frame? && s.kind != Object)
    case Value(_, _) => s.Frame? && s.kind != Object
    case ObjectEnd | Name(_) => s.Frame? && s.kind == Object
    case ArrayEnd => s.Frame? && s.kind == Array
  }

  /** The text of the call is written as it was given. */
  predicate Whole(e: Event) {
    match e
    case Name(name) => |CString(name)| == |name|
    case Value(kind, text) => Intact(kind, text)
    case _ => true
  }

  predicate TooDeep(s: Spine, e: Event) { (e.ObjectStart? || e.ArrayStart?) && |OpenKinds(s)| == STACK_LIMIT }

  /** The answer to a call, from the document in the making: a call out of place, a container too
      many, or a text that is cut or does not fit the buffer, in this order. */
  ghost predicate CallAnswer(s: Spine, e: Event, c: Stream, size: nat) {
    var error := Step(c, e, size).error;
    && (error == UnexpectedState <==> !MayFollow(s, e))
    && (error == MaxDepthExceeded <==> MayFollow(s, e) && TooDeep(s, e))
    && (MayFollow(s, e) && !TooDeep(s, e) ==> error == NoError || error == RenderFailed)
    && (error == NoError ==> Whole(e))
    && (forall n: nat :: Step(c, e, n).error == NoError ==> (error == NoError <==> |Step(c, e, n).text| < size))
    && (MayFollow(s, e) && !TooDeep(s, e) && Whole(e) ==> exists n: nat :: Step(c, e, n).error == NoError)
  }

  lemma {:induction false} KindsCount(stack: seq<Container>)
    ensures |KindsOf(stack)| == |stack|
  {
    if stack != [] { KindsCount(stack[1..]); }
  }

  lemma EnoughRoom(c: Stream, e: Event) returns (n: nat)
    requires c.error == NoError
    ensures Step(c, e, n).error != RenderFailed || !Whole(e)
  {
    var piece := match e
      case Name(name) => CommaFor(c.stack) + KeyText(name, true)
      case Value(kind, text) => CommaFor(c.stack) + ValueText(kind, text)
      case _ => "{";
    n := |c.text| + |piece| + 1;
  }

  lemma CallAnswered(c: Stream, s: Spine, e: Event, size: nat)
    requires Describes(c, s)
    ensures CallAnswer(s, e, c, size)
  {
    hide Step, OpenKinds, KindsOf, Whole, MayFollow, Woven, StateFits, InPlace;
    InnermostKind(c.stack, s);
    KindsCount(c.stack);
    PlaceTold(c, s, e);
    ErrorKinds(c, e, size);
    var room := EnoughRoom(c, e);
    ErrorKinds(c, e, room);
    forall n: nat | Step(c, e, n).error == NoError
      ensures Step(c, e, size).error == NoError <==> |Step(c, e, n).text| < size
    {
      RoomNeeded(c, e, size, n);
    }
  }

  /** The state tells what the document in the making can go on with. */
  lemma PlaceTold(c: Stream, s: Spine, e: Event)
    requires Describes(c, s)
    ensures MayFollow(s, e) <==> InPlace(c.state, e)
    ensures e.Name? && MayFollow(s, e) ==> c.stack != []
  {
    InnermostKind(c.stack, s);
  }

  /** The states in which the calls go on. */
  predicate InPlace(state: State, e: Event) {
    match e
    case ObjectStart | ArrayStart => state == Start || state == ExpectValue || state == ExpectArrayValue
    case Value(_, _) => state == ExpectValue || state == ExpectArrayValue
    case ObjectEnd | Name(_) => state == ExpectKey
    case ArrayEnd => state == ExpectArrayValue
  }

  lemma RoomNeeded(c: Stream, e: Event, size: nat, n: nat)
    requires c.error == NoError && Step(c, e, n).error == NoError
    ensures Step(c, e, size).error == NoError <==> |Step(c, e, n).text| < size
  {
    hide Quoted, CString, KeyText;
  }

  lemma ErrorKinds(c: Stream, e: Event, size: nat)
    requires c.error == NoError && (e.Name? && InPlace(c.state, e) ==> c.stack != [])
    ensures var error := Step(c, e, size).error;
      var deep := (e.ObjectStart? || e.ArrayStart?) && |c.stack| == STACK_LIMIT;
      && (error == UnexpectedState <==> !InPlace(c.state, e))
      && (error == MaxDepthExceeded <==> InPlace(c.state, e) && deep)
      && (InPlace(c.state, e) && !deep ==> error == NoError || error == RenderFailed)
      && (error == NoError ==> Whole(e))
  {
    hide Quoted, CString, KeyText;
  }

  /** The answer to a call behind any run without an error. */
  lemma NextAnswered(es: seq<Event>, e: Event, size: nat)
    requires Typed(es) && Run(EMPTY, es, size).error == NoError
    ensures Run(EMPTY, es + [e], size) == Step(Run(EMPTY, es, size), e, size)
    ensures CallAnswer(FeedAll(Machine.Top(Nil), es), e, Run(EMPTY, es, size), size)
  {
    AllCalls(EMPTY, Machine.Top(Nil), es, size);
    CallAnswered(Run(EMPTY, es, size), FeedAll(Machine.Top(Nil), es), e, size);
    RunConcat(EMPTY, es, [e], size);
    RunOne(Run(EMPTY, es, size), e, size);
  }

  lemma {:induction false} LargerBuffer(s: Stream, es: seq<Event>, size: nat, size': nat)
    requires size <= size' && Run(s, es, size).error == NoError
    ensures Run(s, es, size') == Run(s, es, size)
    decreases |es|
  {
    if es != [] {
      if Step(s, es[0], size).error != NoError { StuckRun(Step(s, es[0], size), es[1..], size); }
      LargerBuffer(Step(s, es[0], size), es[1..], size, size');
    }
  }

  /** What a finished run comes to: its calls describe the closed document `t`, and the output is
      the compact rendering of `t` if and only if every array of it holds only scalars or at most
      one element, and no container has more members than the counter can count. */
  ghost predicate Renders(t: Forest, es: seq<Event>, text: string) {
    Closed(t) && Events(t) == es && (text == Print(t, 0, true) <==> Clean(t) && FewMembers(t))
  }

  /** Streaming refines printing: whatever calls are made within the depth of the stack, if none
      fails and the stream has ended, they describe a closed document, and this is what is
      written. */
  lemma StreamingRefinement(es: seq<Event>, size: nat)
    requires Typed(es) && DepthOk(0, es) && Run(EMPTY, es, size).error == NoError && Run(EMPTY, es, size).state == End
    ensures exists t :: Renders(t, es, Run(EMPTY, es, size).text)
  {
    var t := EndedRun(es, size);
    assert Events(t) + [] == es;
    EventsDepth(t, 0, []);
    var n := |Print(t, 0, true)| + 1;
    var room := if n < size then size else n;
    LargerBuffer(EMPTY, es, size, room);
    StreamingTheorem(t, room);
    assert Renders(t, es, Run(EMPTY, es, size).text);
  }
}
