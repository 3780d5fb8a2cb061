/** The streaming calls of src/jes_serializer.c on their context: an output position, a stack of
    containers in an array, a state and a sticky error. */
module Streamer {
  import opened Codes
  import opened Forests
  import opened Shapes
  import opened Printer
  import opened Streaming
  import opened StreamRuns

  /** A value call in its parts: the comma, if one is due, and the value. */
  lemma ValueStep(s: Stream, kind: Kind, value: string, size: nat)
    requires s.error == NoError
    ensures s.state != ExpectValue && s.state != ExpectArrayValue ==>
        Step(s, Value(kind, value), size) == Failed(s, UnexpectedState)
    ensures s.state == ExpectValue || s.state == ExpectArrayValue ==>
      var inArray := TopKind(s.stack) == Array;
      var comma := if inArray then CommaFor(s.stack) else "";
      var t := (s.text + comma) + ValueText(kind, value);
      Step(s, Value(kind, value), size)
        == if Intact(kind, value) && |t| < size
           then Stream(t, if inArray then AddMember(s.stack) else s.stack,
               BehindValue(TopKind(s.stack), s.state), NoError)
           else Failed(s, RenderFailed)
  {
    var comma := if TopKind(s.stack) == Array then CommaFor(s.stack) else "";
    assert (s.text + comma) + ValueText(kind, value) == s.text + (comma + ValueText(kind, value));
    assert "" + ValueText(kind, value) == ValueText(kind, value);
  }

  /** A key call in its parts, likewise. */
  lemma KeyStep(s: Stream, name: string, size: nat)
    requires s.error == NoError
    ensures s.state != ExpectKey ==> Step(s, Name(name), size) == Failed(s, UnexpectedState)
    ensures s.state == ExpectKey && s.stack == [] ==> Step(s, Name(name), size) == Failed(s, InvalidOperation)
    ensures s.state == ExpectKey && s.stack != [] ==>
      var t := (s.text + CommaFor(s.stack)) + KeyText(CString(name), true);
      Step(s, Name(name), size)
        == if |CString(name)| == |name| && |t| < size
           then Stream(t, AddMember(s.stack), ExpectValue, NoError)
           else Failed(s, RenderFailed)
  {
    assert (s.text + CommaFor(s.stack)) + KeyText(name, true) == s.text + (CommaFor(s.stack) + KeyText(name, true));
  }

  /** jes_streaming_serializer_advance_state */
  function BehindValue(k: Kind, state: State): State {
    match k
    case Object => ExpectKey
    case Array => ExpectArrayValue
    case _ => state
  }

  /** struct jes_streaming_serializer_context */
  class StreamContext {
    const out: array<char>
    const stack: array<Container>
    var pos: nat
    var stackTop: int
    var state: State
    var stickyError: Status
    /** what was written, and the open containers with the innermost first */
    ghost var text: string
    ghost var frames: seq<Container>

    /** jes_init_streaming on a zeroed workspace */
    constructor (out: array<char>)
      ensures Valid() && View() == EMPTY && this.out == out && fresh(stack)
    {
      this.out := out;
      stack := new Container[MAX_DEPTH](_ => Container(Unknown, 0));
      pos, stackTop, state, stickyError := 0, -1, Start, NoError;
      text, frames := "", [];
    }

    ghost predicate Valid()
      reads this, out, stack
    {
      && stack.Length == MAX_DEPTH && -1 <= stackTop < MAX_DEPTH && |frames| == stackTop + 1
      && (forall i :: 0 <= i < |frames| ==> frames[i] == stack[stackTop - i])
      && pos == |text| <= out.Length && out[..pos] == text
    }

    ghost function View(): Stream
      reads this
    {
      Stream(text, frames, state, stickyError)
    }

    /** snprintf into the rest of the buffer, with the tests and updates behind it */
    method Emit(piece: string, expected: nat) returns (result: Status)
      requires Valid()
      modifies `pos, `text, out
      ensures Valid()
      ensures result == if |piece| == expected && |old(text)| + |piece| < out.Length then NoError else RenderFailed
      ensures result == NoError ==> text == old(text) + piece
    {
      var room := out.Length - pos;
      var n := if |piece| < room then |piece| else if room > 0 then room - 1 else 0;
      ghost var before := text;
      for i := 0 to n
        invariant pos == |before| && text == before && out[..pos + i] == before + piece[..i]
      {
        out[pos + i] := piece[i];
        assert out[..pos + i + 1] == out[..pos + i] + [piece[i]];
      }
      if room > 0 { out[pos + n] := NUL; }
      assert out[..pos + n] == before + piece[..n];
      assert out[..pos] == out[..pos + n][..pos] == before;
      if |piece| == expected && |piece| < room {
        pos := pos + |piece|;
        text := text + piece;
        assert piece[..n] == piece;
        result := NoError;
      } else {
        result := RenderFailed;
      }
    }

    /** jes_streaming_serializer_stack_get_container_type */
    function ContainerType(): (k: Kind)
      requires Valid()
      reads this, out, stack
      ensures k == TopKind(frames)
    {
      if stackTop != -1 then stack[stackTop].kind else Unknown
    }

    /** jes_streaming_serializer_stack_get_member_count */
    function MemberCount(): (n: nat)
      requires Valid()
      reads this, out, stack
      ensures n == Members(frames)
    {
      if stackTop != -1 then stack[stackTop].members else 0
    }

    /** jes_streaming_serializer_stack_push, within the depth that the stack has memory for */
    method Push(kind: Kind)
      requires Valid() && |frames| < MAX_DEPTH
      modifies `stackTop, `frames, stack
      ensures Valid() && frames == [Container(kind, 0)] + old(frames)
    {
      stackTop := stackTop + 1;
      stack[stackTop] := Container(kind, 0);
      frames := [Container(kind, 0)] + frames;
    }

    /** jes_streaming_serializer_stack_pop */
    method Pop()
      requires Valid()
      modifies `stackTop, `frames
      ensures Valid() && frames == if old(frames) == [] then [] else old(frames)[1..]
    {
      if stackTop != -1 {
        stackTop := stackTop - 1;
        frames := frames[1..];
      }
    }

    /** jes_streaming_serializer_stack_add_member: a 16-bit counter */
    method CountMember() returns (result: Status)
      requires Valid()
      modifies `frames, stack
      ensures Valid() && frames == AddMember(old(frames))
      ensures result == if old(frames) == [] then InvalidOperation else NoError
    {
      if stackTop != -1 {
        stack[stackTop] := stack[stackTop].(members := Bump(stack[stackTop].members));
        frames := AddMember(frames);
        result := NoError;
      } else {
        result := InvalidOperation;
      }
    }

    /** The outcome of a call: its status sticks, and without an error the stream went on as `Step` says. */
    ghost predicate Did(before: Stream, e: Event, result: Status)
      reads this
    {
      var r := Step(before, e, out.Length);
      result == stickyError == r.error && (r.error == NoError ==> View() == r)
    }

    /** jes_render_object_start and jes_render_array_start */
    method StartContainer(kind: Kind) returns (result: Status)
      requires Valid() && IsContainer(kind) && (stickyError == NoError ==> |frames| < MAX_DEPTH)
      modifies this, out, stack
      ensures Valid()
      ensures Did(old(View()), if kind == Object then ObjectStart else ArrayStart, result)
    {
      if stickyError != NoError { return stickyError; }
      if state == Start || state == ExpectValue || state == ExpectArrayValue {
        Push(kind);
        result := Emit(if kind == Object then "{" else "[", 1);
      } else {
        result := UnexpectedState;
      }
      if result == NoError {
        state := if kind == Object then ExpectKey else ExpectArrayValue;
      }
      stickyError := result;
    }

    /** jes_render_object_end and jes_render_array_end */
    method EndContainer(kind: Kind) returns (result: Status)
      requires Valid() && IsContainer(kind)
      modifies this, out, stack
      ensures Valid()
      ensures Did(old(View()), if kind == Object then ObjectEnd else ArrayEnd, result)
    {
      if stickyError != NoError { return stickyError; }
      if state == if kind == Object then ExpectKey else ExpectArrayValue {
        Pop();
        result := Emit(if kind == Object then "}" else "]", 1);
      } else {
        result := UnexpectedState;
      }
      if result == NoError {
        state := StateIn(ContainerType());
      }
      stickyError := result;
    }

    /** jes_render_key */
    method RenderKey(key: string) returns (result: Status)
      requires Valid()
      modifies this, out, stack
      ensures Valid()
      ensures Did(old(View()), Name(key), result)
    {
      if stickyError != NoError { return stickyError; }
      hide Step, KeyText, AddMember, CommaFor;
      KeyStep(View(), key, out.Length);
      result := WriteKey(key);
      if result == NoError {
        state := ExpectValue;
      }
      stickyError := result;
    }

    /** The comma that is due, the count and the key */
    method WriteKey(key: string) returns (result: Status)
      requires Valid()
      modifies `pos, `text, `frames, out, stack
      ensures Valid()
      ensures state != ExpectKey ==> result == UnexpectedState
      ensures state == ExpectKey && old(frames) == [] ==> result == InvalidOperation
      ensures state == ExpectKey && old(frames) != [] ==> (
                var t := (old(text) + CommaFor(old(frames))) + KeyText(CString(key), true);
                && result == (if |CString(key)| == |key| && |t| < out.Length then NoError else RenderFailed)
                && (result == NoError ==> text == t && frames == AddMember(old(frames))))
    {
      if state != ExpectKey { return UnexpectedState; }
      result := CommaAndCount();
      if result == NoError {
        result := Emit(KeyText(CString(key), true), |key| + 3);
      }
    }

    /** A comma behind an earlier member, and one more on the count */
    method CommaAndCount() returns (result: Status)
      requires Valid()
      modifies `pos, `text, `frames, out, stack
      ensures Valid()
      ensures result == NoError ==>
        && old(frames) != [] && text == old(text) + CommaFor(old(frames))
        && frames == AddMember(old(frames))
      ensures old(frames) == [] ==> result == InvalidOperation
      ensures old(frames) != [] ==>
        result == if |old(text)| + |CommaFor(old(frames))| < out.Length || CommaFor(old(frames)) == "" then NoError
            else RenderFailed
    {
      result := NoError;
      if MemberCount() > 0 {
        result := Emit(",", 1);
      } else {
        assert text + "" == text;
      }
      if result == NoError {
        result := CountMember();
      }
    }
  
    /** The calls for values: jes_render_string, the numbers, whose text is given, and the literals */
    method RenderValue(kind: Kind, value: string) returns (result: Status)
      requires Valid() && IsScalar(kind)
      modifies this, out, stack
      ensures Valid()
      ensures Did(old(View()), Value(kind, value), result)
    {
      if stickyError != NoError { return stickyError; }
      hide Step, ValueText, Intact, AddMember, CommaFor;
      ValueStep(View(), kind, value, out.Length);
      result := WriteValue(kind, value);
      if result == NoError {
        state := BehindValue(ContainerType(), state);
      }
      stickyError := result;
    }

    /** The comma that is due and the value */
    method WriteValue(kind: Kind, value: string) returns (result: Status)
      requires Valid() && IsScalar(kind)
      modifies `pos, `text, `frames, out, stack
      ensures Valid()
      ensures state != ExpectValue && state != ExpectArrayValue ==> result == UnexpectedState
      ensures state == ExpectValue || state == ExpectArrayValue ==> (
                var inArray := TopKind(old(frames)) == Array;
                var t := (old(text) + if inArray then CommaFor(old(frames)) else "") + ValueText(kind, value);
                && result == (if Intact(kind, value) && |t| < out.Length then NoError else RenderFailed)
                && (result == NoError ==> text == t)
                && (result == NoError ==> frames == if inArray then AddMember(old(frames)) else old(frames)))
    {
      result := BeforeValue();
      if result == NoError {
        result := EmitValue(kind, value);
      }
    }

    /** The text of a value: between quotes for a string, and not empty otherwise */
    method EmitValue(kind: Kind, value: string) returns (result: Status)
      requires Valid() && IsScalar(kind)
      modifies `pos, `text, out
      ensures Valid()
      ensures result == if Intact(kind, value) && |old(text)| + |ValueText(kind, value)| < out.Length then NoError
          else RenderFailed
      ensures result == NoError ==> text == old(text) + ValueText(kind, value)
    {
      if kind == Str {
        result := Emit(Quoted(CString(value)), |value| + 2);
      } else {
        result := Emit(value, if value == "" then 1 else |value|);
      }
    }

    /** jes_streaming_serializer_render_value_pre */
    method BeforeValue() returns (result: Status)
      requires Valid()
      modifies `pos, `text, `frames, out, stack
      ensures Valid()
      ensures state != ExpectValue && state != ExpectArrayValue ==> result == UnexpectedState
      ensures state == ExpectValue || state == ExpectArrayValue ==> (
                var comma := if TopKind(old(frames)) == Array then CommaFor(old(frames)) else "";
                && result == (if |old(text)| + |comma| < out.Length || comma == "" then NoError else RenderFailed)
                && (result == NoError ==>
                      && text == old(text) + comma
                      && frames == if TopKind(old(frames)) == Array then AddMember(old(frames)) else old(frames)))
    {
      result := NoError;
      if state != ExpectValue && state != ExpectArrayValue {
        return UnexpectedState;
      }
      if ContainerType() == Array {
        result := CommaAndCount();
      } else {
        assert text + "" == text;
      }
    }

    /** One call */
    method Call(e: Event) returns (result: Status)
      requires Valid() && (stickyError == NoError ==> DepthOk(|frames|, [e])) && (e.Value? ==> IsScalar(e.kind))
      modifies this, out, stack
      ensures Valid()
      ensures Did(old(View()), e, result)
    {
      match e
      case ObjectStart => result := StartContainer(Object);
      case ArrayStart => result := StartContainer(Array);
      case ObjectEnd => result := EndContainer(Object);
      case ArrayEnd => result := EndContainer(Array);
      case Name(name) => result := RenderKey(name);
      case Value(kind, value) => result := RenderValue(kind, value);
    }

    /** A sequence of calls ends as `Run` says. */
    method Replay(es: seq<Event>)
      requires Valid() && stickyError == NoError && DepthOk(|frames|, es) && Typed(es)
      modifies this, out, stack
      ensures Valid() && stickyError == Run(old(View()), es, out.Length).error
      ensures stickyError == NoError ==> View() == Run(old(View()), es, out.Length)
    {
      ghost var start := View();
      for i := 0 to |es|
        invariant Valid()
        invariant stickyError == NoError ==> DepthOk(|frames|, es[i..])
        invariant stickyError == NoError ==>
          Run(start, es, out.Length) == Run(View(), es[i..], out.Length)
        invariant stickyError != NoError ==> Run(start, es, out.Length).error == stickyError
      {
        ghost var before := View();
        assert es[i..] == [es[i]] + es[i + 1..] && es[i..][1..] == es[i + 1..];
        if stickyError == NoError {
          DepthFirst(|frames|, es[i], es[i + 1..]);
          DepthFirst(|frames|, es[i], []);
          assert [es[i]] + [] == [es[i]];
        }
        var _ := Call(es[i]);
        if before.error == NoError {
          if stickyError == NoError {
            StepDepth(before, es[i], es[i + 1..], out.Length);
          } else {
            StuckRun(Step(before, es[i], out.Length), es[i + 1..], out.Length);
          }
        }
      }
    }
  }

  lemma {:induction false} EventKinds(f: Forest, k: Kind)
    requires Nested(f, k)
    ensures Typed(Events(f))
    decreases f
  {
    if f.Cons? {
      EventKinds(f.kids, f.kind);
      EventKinds(f.sibs, k);
    }
  }

  /** The calls that describe a closed document, on a fresh context with enough room: none fails,
      and what is in the buffer is the compact rendering of the document if and only if every
      array holds only scalars or at most one element. */
  method StreamDocument(ctx: StreamContext, t: Forest)
    requires ctx.Valid() && ctx.View() == EMPTY
    requires Closed(t)
    requires Plain(t) && Height(t) <= MAX_DEPTH && |Print(t, 0, true)| < ctx.out.Length
    modifies ctx, ctx.out, ctx.stack
    ensures ctx.Valid() && ctx.stickyError == NoError && ctx.state == End
    ensures ctx.out[..ctx.pos] == Print(t, 0, true) <==> Clean(t) && FewMembers(t)
  {
    EventKinds(t, Unknown);
    EventsDepth(t, 0, []);
    assert Events(t) + [] == Events(t);
    StreamingTheorem(t, ctx.out.Length);
    ctx.Replay(Events(t));
  }

  /** Any calls on a fresh context, within the depth of the stack: if none fails and the stream has
      ended, the buffer holds what `Renders` says of the document that the calls describe. */
  method StreamCalls(ctx: StreamContext, es: seq<Event>)
    requires ctx.Valid() && ctx.View() == EMPTY && DepthOk(0, es) && Typed(es)
    modifies ctx, ctx.out, ctx.stack
    ensures ctx.Valid()
    ensures ctx.stickyError == NoError && ctx.state == End ==> exists t :: Renders(t, es, ctx.out[..ctx.pos])
  {
    ctx.Replay(es);
    if ctx.stickyError == NoError && ctx.state == End {
      StreamingRefinement(es, ctx.out.Length);
    }
  }
}
