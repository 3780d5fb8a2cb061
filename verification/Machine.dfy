/** The parser of src/jes_parser.c as a transition system on tokens. Its "stack" is the parent
    chain of the partly built tree, kept here as a zipper: the chain of unfinished nodes above
    the current one, each with the children it has so far. */
module Machine {
  import opened Codes
  import opened Forests
  import opened Shapes
  import opened Lexer

  /** `Top` is the level above the root: serdes.iter is NULL there. */
  datatype Spine =
    | Top(done: Forest)
    | Frame(up: Spine, id: nat, kind: Kind, text: string, kids: Forest)

  function Depth(s: Spine): nat { if s.Top? then 0 else 1 + Depth(s.up) }

  function KindOf(s: Spine): Kind { if s.Top? then Unknown else s.kind }

  /** serdes.iter */
  function Iter(s: Spine): nat { if s.Top? then NONE else s.id }

  function Kids(s: Spine): Forest { if s.Top? then s.done else s.kids }

  function Extend(s: Spine, g: Forest): (r: Spine)
    ensures Depth(r) == Depth(s) && r.Top? == s.Top?
  {
    if s.Top? then Top(Concat(s.done, g)) else s.(kids := Concat(s.kids, g))
  }

  /** The current node, as far as it is built. */
  function Current(s: Spine): Forest
    requires s.Frame?
  {
    Cons(s.id, s.kind, s.text, s.kids, Nil)
  }

  /** One step up the parent chain. */
  function Pop(s: Spine): (r: Spine)
    requires s.Frame?
    ensures Depth(r) == Depth(s) - 1
  {
    Extend(s.up, Current(s))
  }

  /** The whole tree built so far. */
  function Plug(s: Spine): Forest
    decreases Depth(s)
  {
    if s.Top? then s.done else Plug(Pop(s))
  }

  /** jes_tree_get_parent_node_by_type and jes_tree_get_container_parent_node: the first
      ancestor with a kind in `stop`, or the level above the root. */
  function Climb(s: Spine, stop: set<Kind>): (r: Spine)
    requires s.Frame?
    ensures Depth(r) < Depth(s) && (r.Top? || r.kind in stop)
    decreases Depth(s)
  {
    var p := Pop(s);
    if p.Top? || p.kind in stop then p else Climb(p, stop)
  }

  function ContainerParent(s: Spine): Spine
    requires s.Frame?
  {
    Climb(s, {Object, Array})
  }

  /** The parser: current node, next pool slot, state, status. */
  datatype Config = Config(spine: Spine, next: nat, state: State, status: Status)

  /** A text length is stored in 16 bits. */
  function Clip(text: string): string { text[..|text| % 0x1_0000] }

  /** jes_tree_insert_node below the current node, which becomes the parent of the new one. */
  function Insert(c: Config, kind: Kind, text: string, state: State, cap: nat): Config {
    if c.next < cap then Config(Frame(c.spine, c.next, kind, Clip(text), Nil), c.next + 1, state, NoError)
    else c.(status := OutOfMemory)
  }

  function Refuse(c: Config, status: Status): Config { c.(status := status) }

  /** Behind a closed container: back in its own container, or at the end of the document. */
  function Closed(c: Config, s: Spine): Config {
    var r := if s.Frame? then ContainerParent(s) else s;
    Config(r, c.next, if r.Top? then ExpectEof else HaveValue, NoError)
  }

  /** jes_parser_process_closing_brace */
  function CloseBrace(c: Config): Config {
    var k := KindOf(c.spine);
    if k == Object && c.state == ExpectKey && Kids(c.spine).Cons? then Refuse(c, UnexpectedToken)
    else if k == Key || k == Array then Refuse(c, UnexpectedToken)
    else Closed(c, if k != Object && c.spine.Frame? then Climb(c.spine, {Object}) else c.spine)
  }

  /** jes_parser_process_closing_bracket */
  function CloseBracket(c: Config): Config {
    var k := KindOf(c.spine);
    if k == Array && c.state == ExpectValue && Kids(c.spine).Cons? then Refuse(c, UnexpectedToken)
    else Closed(c, if k != Array && c.spine.Frame? then Climb(c.spine, {Array}) else c.spine)
  }

  /** jes_parser_process_comma and the transition behind it */
  function CommaStep(c: Config): Config {
    var inside := IsContainer(KindOf(c.spine));
    if inside && Kids(c.spine).Nil? then Refuse(c, UnexpectedToken)
    else
      var r := if inside || c.spine.Top? then c.spine else ContainerParent(c.spine);
      match KindOf(r)
      case Array => c.(spine := r, state := ExpectValue)
      case Object => c.(spine := r, state := ExpectKey)
      case _ => Refuse(c, UnexpectedToken)
  }

  function ScalarKind(t: TokenKind): Kind {
    match t
    case StringToken => Str
    case NumberToken => Number
    case TrueToken => True
    case FalseToken => False
    case NullToken => Null
    case _ => Unknown
  }

  /** jes_parser_process_expect_key_state */
  function ExpectKeyStep(c: Config, t: Token, cap: nat): Config {
    match t.kind
    case StringToken =>
      if KeyIn(Kids(c.spine), Clip(t.text)) != NONE then Refuse(c, DuplicateKey)
      else Insert(c, Key, t.text, ExpectColon, cap)
    case ClosingBrace => CloseBrace(c)
    case EofToken => Refuse(c, UnexpectedEof)
    case _ => Refuse(c, UnexpectedToken)
  }

  /** jes_parser_process_expect_value_state */
  function ExpectValueStep(c: Config, t: Token, cap: nat): Config {
    match t.kind
    case OpeningBracket => Insert(c, Array, t.text, ExpectValue, cap)
    case OpeningBrace => Insert(c, Object, t.text, ExpectKey, cap)
    case ClosingBracket => if c.spine.Top? then Refuse(c, UnexpectedToken) else CloseBracket(c)
    case ClosingBrace => if c.spine.Top? then Refuse(c, UnexpectedToken) else CloseBrace(c)
    case EofToken => Refuse(c, UnexpectedEof)
    case _ =>
      if ScalarKind(t.kind) != Unknown then Insert(c, ScalarKind(t.kind), t.text, HaveValue, cap)
      else Refuse(c, UnexpectedToken)
  }

  /** jes_parser_process_have_value_state */
  function HaveValueStep(c: Config, t: Token): Config {
    match t.kind
    case ClosingBrace => CloseBrace(c)
    case ClosingBracket => CloseBracket(c)
    case Comma => CommaStep(c)
    case EofToken =>
      if (c.spine.Frame? ==> c.spine.up.Top?) && Kids(c.spine).Nil? then c.(state := End) else Refuse(c, UnexpectedEof)
    case _ => Refuse(c, UnexpectedToken)
  }

  /** One round of jes_parser_state_machine. */
  function Step(c: Config, t: Token, cap: nat): Config {
    match c.state
    case ExpectKey => ExpectKeyStep(c, t, cap)
    case ExpectColon => if t.kind == Colon then c.(state := ExpectValue) else Refuse(c, UnexpectedToken)
    case ExpectValue => ExpectValueStep(c, t, cap)
    case HaveValue => HaveValueStep(c, t)
    case ExpectEof => if t.kind == EofToken then c.(state := End) else Refuse(c, UnexpectedToken)
    case _ => Refuse(c, UnexpectedState)
  }

  predicate Stopped(c: Config) { c.status != NoError || c.state == End }

  const INITIAL := Config(Top(Nil), 0, ExpectValue, NoError)

  /** The machine on a sequence of tokens. */
  function Run(c: Config, ts: seq<Token>, cap: nat): Config
    decreases |ts|
  {
    if ts == [] || Stopped(c) then c else Run(Step(c, ts[0], cap), ts[1..], cap)
  }

  /** jes_parse: tokens are taken from the text one by one. */
  function Drive(c: Config, text: string, pos: nat, cap: nat): Config
    decreases if pos <= |text| then |text| - pos else 0
  {
    var w := Lex(text, pos);
    if w.Failed? then Refuse(c, w.status)
    else
      var c' := Step(c, w.token, cap);
      if Stopped(c') || w.end > |text| then c' else Drive(c', text, w.end, cap)
  }

  /** How many tokens a run of jes_parse reads. */
  function TokensRead(c: Config, text: string, pos: nat, cap: nat): nat
    decreases if pos <= |text| then |text| - pos else 0
  {
    var w := Lex(text, pos);
    if w.Failed? || Stopped(Step(c, w.token, cap)) || w.end > |text| then 1
    else 1 + TokensRead(Step(c, w.token, cap), text, w.end, cap)
  }

  // ----- what every step keeps -----

  /** The unfinished nodes nest as JSON allows, and all that hangs below them is well shaped. */
  ghost predicate SpineOk(s: Spine) {
    && NONE !in Ids(Kids(s))
    && Shaped(Kids(s), KindOf(s))
    && if s.Top? then s.done.Cons? ==> s.done.sibs.Nil?
       else
         && s.id != NONE
         && (IsScalar(s.kind) ==> s.kids.Nil?)
         && (s.kind == Key && s.kids.Cons? ==> s.kids.sibs.Nil?)
         && (s.kind == Object ==> DistinctTexts(s.kids))
         && Accepts(s.up, s.kind, s.text)
         && SpineOk(s.up)
  }

  /** Where a node of this kind and name may start. */
  predicate Accepts(s: Spine, kind: Kind, text: string) {
    && Allowed(KindOf(s), kind)
    && (s.Top? ==> s.done.Nil?)
    && (s.Frame? ==> IsContainer(s.kind) || (s.kind == Key && s.kids.Nil?))
    && (s.Frame? && s.kind == Object ==> KeyIn(s.kids, text) == NONE)
  }

  /** The state fixes the kind of the current node. */
  predicate StateOk(state: State, s: Spine) {
    match state
    case ExpectKey => s.Frame? && s.kind == Object
    case ExpectColon => s.Frame? && s.kind == Key && s.kids.Nil?
    case ExpectValue => if s.Top? then s.done.Nil? else s.kind == Array || (s.kind == Key && s.kids.Nil?)
    case HaveValue => s.Frame? && (IsScalar(s.kind) || (IsContainer(s.kind) && s.kids.Cons?))
    case ExpectEof => s.Top? && s.done.Cons?
    case End => if s.Top? then s.done.Cons? else IsScalar(s.kind) && s.up.Top?
    case _ => false
  }

  function Weight(s: Spine): nat { if s.Top? then Size(s.done) else 1 + Size(s.kids) + Weight(s.up) }

  ghost predicate Inv(c: Config, cap: nat) {
    SpineOk(c.spine) && StateOk(c.state, c.spine) && c.next == Weight(c.spine) <= cap
  }

  lemma {:induction false} ConcatFacts(f: Forest, g: Forest)
    ensures Ids(Concat(f, g)) == Ids(f) + Ids(g) && Size(Concat(f, g)) == Size(f) + Size(g)
    ensures Concat(f, Nil) == f
  {
    if f.Cons? { ConcatFacts(f.sibs, g); }
  }

  lemma {:induction false} ShapedConcat(f: Forest, g: Forest, k: Kind)
    requires Shaped(f, k) && Shaped(g, k)
    ensures Shaped(Concat(f, g), k)
  {
    if f.Cons? { ShapedConcat(f.sibs, g, k); }
  }

  lemma {:induction false} KeyInConcat(f: Forest, g: Forest, text: string)
    requires KeyIn(f, text) == NONE && NONE !in Ids(f) && Shaped(f, Object)
    ensures KeyIn(Concat(f, g), text) == KeyIn(g, text)
  {
    if f.Cons? { KeyInConcat(f.sibs, g, text); }
  }

  lemma {:induction false} DistinctConcat(f: Forest, g: Forest)
    requires DistinctTexts(f) && Shaped(f, Object) && NONE !in Ids(f)
    requires g.Cons? && g.kind == Key && g.sibs.Nil? && KeyIn(f, g.text) == NONE
    ensures DistinctTexts(Concat(f, g))
  {
    if f.Cons? {
      DistinctConcat(f.sibs, g);
      KeyInConcat(f.sibs, g, f.text);
    }
  }

  lemma PopKeeps(s: Spine)
    requires s.Frame? && SpineOk(s)
    ensures SpineOk(Pop(s)) && Weight(Pop(s)) == Weight(s)
    ensures Pop(s).Frame? ==> Pop(s).up == s.up.up && Pop(s).kind == s.up.kind && Pop(s).text == s.up.text
    ensures Kids(Pop(s)).Cons?
  {
    var f, g := Kids(s.up), Current(s);
    ConcatFacts(f, g);
    ShapedConcat(f, g, KindOf(s.up));
    if KindOf(s.up) == Object { DistinctConcat(f, g); }
    hide Shaped, DistinctTexts, KeyIn, Ids, Concat;
  }

  lemma {:induction false} ClimbKeeps(s: Spine, stop: set<Kind>)
    requires s.Frame? && SpineOk(s)
    ensures var r := Climb(s, stop); SpineOk(r) && Weight(r) == Weight(s) && Kids(r).Cons? && Plug(r) == Plug(s)
    decreases Depth(s)
  {
    PopKeeps(s);
    var p := Pop(s);
    if p.Frame? && p.kind !in stop { ClimbKeeps(p, stop); }
  }

  lemma ClosedKeeps(c: Config, s: Spine, cap: nat)
    requires SpineOk(s) && c.next == Weight(s) <= cap && (s.Top? ==> s.done.Cons?)
    ensures Inv(Closed(c, s), cap) && Closed(c, s).status == NoError
  {
    if s.Frame? { ClimbKeeps(s, {Object, Array}); }
  }

  lemma CloseKeeps(c: Config, cap: nat)
    requires Inv(c, cap) && c.spine.Frame? && !Stopped(c)
    ensures Inv(CloseBrace(c), cap) && Inv(CloseBracket(c), cap)
  {
    hide Closed, Climb, Weight, Shaped, DistinctTexts, Accepts;
    if c.spine.kind != Object {
      ClimbKeeps(c.spine, {Object});
      ClosedKeeps(c, Climb(c.spine, {Object}), cap);
    }
    if c.spine.kind != Array {
      ClimbKeeps(c.spine, {Array});
      ClosedKeeps(c, Climb(c.spine, {Array}), cap);
    }
    ClosedKeeps(c, c.spine, cap);
  }

  lemma CommaKeeps(c: Config, cap: nat)
    requires Inv(c, cap) && c.state == HaveValue
    ensures Inv(CommaStep(c), cap)
  {
    ClimbKeeps(c.spine, {Object, Array});
  }

  lemma InsertKeeps(c: Config, kind: Kind, text: string, state: State, cap: nat)
    requires Inv(c, cap) && cap <= NONE && Accepts(c.spine, kind, Clip(text))
    requires StateOk(state, Frame(c.spine, c.next, kind, Clip(text), Nil))
    ensures Inv(Insert(c, kind, text, state, cap), cap)
  {
  }

  lemma ExpectKeyKeeps(c: Config, t: Token, cap: nat)
    requires Inv(c, cap) && cap <= NONE && c.state == ExpectKey && !Stopped(c)
    ensures Inv(ExpectKeyStep(c, t, cap), cap)
  {
    CloseKeeps(c, cap);
    if KeyIn(c.spine.kids, Clip(t.text)) == NONE { InsertKeeps(c, Key, t.text, ExpectColon, cap); }
    hide SpineOk, CloseBrace, Insert, Weight, Accepts;
  }

  lemma ExpectValueKeeps(c: Config, t: Token, cap: nat)
    requires Inv(c, cap) && cap <= NONE && c.state == ExpectValue && !Stopped(c)
    ensures Inv(ExpectValueStep(c, t, cap), cap)
  {
    if c.spine.Frame? { CloseKeeps(c, cap); }
    match t.kind {
      case OpeningBrace => InsertKeeps(c, Object, t.text, ExpectKey, cap);
      case OpeningBracket => InsertKeeps(c, Array, t.text, ExpectValue, cap);
      case _ => if ScalarKind(t.kind) != Unknown { InsertKeeps(c, ScalarKind(t.kind), t.text, HaveValue, cap); }
    }
  }

  lemma HaveValueKeeps(c: Config, t: Token, cap: nat)
    requires Inv(c, cap) && c.state == HaveValue && !Stopped(c)
    ensures Inv(HaveValueStep(c, t), cap)
  {
    CloseKeeps(c, cap);
    CommaKeeps(c, cap);
    hide SpineOk, CloseBrace, CloseBracket, CommaStep, Weight;
  }

  /** The parser's invariant: whatever token comes, a step keeps the shape of the tree and the
      tie between state and current node; a refusal leaves both alone. */
  lemma StepKeeps(c: Config, t: Token, cap: nat)
    requires Inv(c, cap) && cap <= NONE && !Stopped(c)
    ensures Inv(Step(c, t, cap), cap)
  {
    match c.state
    case ExpectKey => ExpectKeyKeeps(c, t, cap);
    case ExpectValue => ExpectValueKeeps(c, t, cap);
    case HaveValue => HaveValueKeeps(c, t, cap);
    case _ =>
  }

  lemma {:induction false} RunKeeps(c: Config, ts: seq<Token>, cap: nat)
    requires Inv(c, cap) && cap <= NONE
    ensures Inv(Run(c, ts, cap), cap)
    decreases |ts|
  {
    if ts != [] && !Stopped(c) {
      StepKeeps(c, ts[0], cap);
      RunKeeps(Step(c, ts[0], cap), ts[1..], cap);
    }
  }

  lemma {:induction false} PlugShaped(s: Spine)
    requires SpineOk(s)
    ensures Shaped(Plug(s), Unknown) && Size(Plug(s)) == Weight(s) && NONE !in Ids(Plug(s))
    ensures Plug(s).Cons? ==> Plug(s).sibs.Nil?
    ensures s.Frame? ==> Plug(s).Cons?
    decreases Depth(s)
  {
    if s.Frame? {
      PopKeeps(s);
      PlugShaped(Pop(s));
      if Pop(s).Top? { ConcatFacts(s.up.done, Current(s)); }
    }
  }

  /** Parser safety, for every text whatsoever: the state fits the current node, objects hold
      distinctly named keys only, keys have at most one child, scalars have none, and no more
      nodes are used than the pool has. */
  lemma {:induction false} DriveKeeps(c: Config, text: string, pos: nat, cap: nat)
    requires Inv(c, cap) && cap <= NONE && !Stopped(c)
    ensures var r := Drive(c, text, pos, cap);
      Inv(r, cap) && Shaped(Plug(r.spine), Unknown) && Size(Plug(r.spine)) == r.next <= cap
    decreases if pos <= |text| then |text| - pos else 0
  {
    var w := Lex(text, pos);
    if w.Failed? {
      PlugShaped(c.spine);
    } else {
      var c' := Step(c, w.token, cap);
      StepKeeps(c, w.token, cap);
      PlugShaped(c'.spine);
      if !Stopped(c') && w.end <= |text| { DriveKeeps(c', text, w.end, cap); }
    }
  }

  /** End of text ends the run, so a text of n bytes yields at most n + 1 tokens, and the loop
      is left only with an error or at the end of the document. */
  lemma {:induction false} DriveStops(c: Config, text: string, pos: nat, cap: nat)
    requires pos <= |text| && !Stopped(c)
    ensures TokensRead(c, text, pos, cap) <= |text| - pos + 1
    ensures Stopped(Drive(c, text, pos, cap))
    decreases |text| - pos
  {
    var w := Lex(text, pos);
    if w.Lexed? && !Stopped(Step(c, w.token, cap)) && w.end <= |text| {
      DriveStops(Step(c, w.token, cap), text, w.end, cap);
    }
  }
}
