/** The two-pass serializer of src/jes_serializer.c. The first pass measures, the second
    writes; in each, one walk over the cells finds the next node and another one emits the
    closers, and neither keeps a stack. */
module Serializer {
  import opened Codes
  import opened Forests
  import opened Pool
  import opened Shapes
  import opened Printer
  import opened Tree
  import opened Walk
  import opened Passes

  /** struct jes_serializer, with the renderer set chosen by `rendering` and `compact` */
  class Writer {
    const compact: bool
    const buffer: array<char>
    var rendering: bool
    var evaluatedLength: nat
    var indention: nat
    var outPos: nat
    /** the text emitted in the current pass, and what the buffer held before */
    ghost var text: string
    ghost const spare: string

    constructor (compact: bool, buffer: array<char>)
      ensures this.compact == compact && this.buffer == buffer && spare == buffer[..]
      ensures !rendering && text == "" && Ok()
    {
      this.compact, this.buffer, this.spare := compact, buffer, buffer[..];
      rendering, evaluatedLength, indention, outPos := false, 0, 0, 0;
      text := "";
    }

    /** Measuring, the length is that of the text; writing, the text stands at the front of the
        buffer. Nothing else is written. */
    ghost predicate Ok()
      reads this, buffer
    {
      if rendering then outPos == |text| <= |spare| && buffer[..] == text + spare[|text|..]
      else evaluatedLength == |text| && buffer[..] == spare
    }

    /** The assertion of every render function: the piece fits and leaves room for the NUL. */
    ghost predicate Fits(n: nat)
      reads this
    {
      rendering ==> |text| + n < buffer.Length
    }

    /** memcpy into the output buffer */
    method Copy(piece: string)
      requires rendering && Ok() && Fits(|piece|)
      modifies this`outPos, this`text, buffer
      ensures Ok() && text == old(text) + piece
    {
      ghost var before := text;
      for i := 0 to |piece|
        invariant text == before && outPos == |before| && |before| + |piece| < buffer.Length == |spare|
        invariant buffer[..] == (before + piece[..i]) + spare[|before| + i..]
      {
        buffer[outPos + i] := piece[i];
        assert piece[..i + 1] == piece[..i] + [piece[i]];
      }
      assert piece[..|piece|] == piece;
      outPos := outPos + |piece|;
      text := text + piece;
    }

    /** calculate_delimiter, and the render functions for a brace, a bracket or a comma */
    method Delimiter(c: char)
      requires Ok() && Fits(1)
      modifies this`evaluatedLength, this`outPos, this`text, buffer
      ensures Ok() && text == old(text) + [c] && (rendering ==> evaluatedLength == old(evaluatedLength))
    {
      if rendering {
        Copy([c]);
      } else {
        evaluatedLength := evaluatedLength + 1;
        text := text + [c];
      }
    }

    /** calculate_number, calculate_literal and their render counterparts */
    method Verbatim(value: string)
      requires Ok() && Fits(|value|)
      modifies this`evaluatedLength, this`outPos, this`text, buffer
      ensures Ok() && text == old(text) + value && (rendering ==> evaluatedLength == old(evaluatedLength))
    {
      if rendering {
        Copy(value);
      } else {
        evaluatedLength := evaluatedLength + |value|;
        text := text + value;
      }
    }

    /** calculate_string, render_string */
    method StringValue(value: string)
      requires Ok() && Fits(|value| + 2)
      modifies this`evaluatedLength, this`outPos, this`text, buffer
      ensures Ok() && text == old(text) + Quoted(value) && (rendering ==> evaluatedLength == old(evaluatedLength))
    {
      if rendering {
        Copy("\"");
        Copy(value);
        Copy("\"");
      } else {
        evaluatedLength := evaluatedLength + |value| + 2;
        text := text + Quoted(value);
      }
    }

    /** calculate_key, calculate_compact_key, render_key, render_compact_key */
    method KeyName(name: string)
      requires Ok() && Fits(|name| + if compact then 3 else 4)
      modifies this`evaluatedLength, this`outPos, this`text, buffer
      ensures Ok() && text == old(text) + KeyText(name, compact)
      ensures rendering ==> evaluatedLength == old(evaluatedLength)
    {
      if rendering {
        Copy("\"");
        Copy(name);
        Copy("\":");
        if !compact { Copy(" "); }
        assert text == old(text) + KeyText(name, compact);
      } else {
        evaluatedLength := evaluatedLength + |name| + if compact then 3 else 4;
        text := text + KeyText(name, compact);
      }
    }

    /** calculate_new_line, render_new_line; in the compact form both do nothing */
    method LineBreak()
      requires Ok() && Fits(if compact then 0 else indention + 1)
      modifies this`evaluatedLength, this`outPos, this`text, buffer
      ensures Ok() && text == old(text) + NewLine(indention, compact)
      ensures rendering ==> evaluatedLength == old(evaluatedLength)
    {
      if compact {
        assert text + "" == text;
      } else if rendering {
        Copy("\n");
        Copy(Blanks(indention));
        assert text == old(text) + NewLine(indention, compact);
      } else {
        evaluatedLength := evaluatedLength + indention + 1;
        text := text + NewLine(indention, compact);
      }
    }

    /** An opening brace or bracket; the contents come on a line of their own, and a container
        without contents is closed at once */
    method Open(open: char, close: char, hasChild: bool)
      requires Ok() && Fits(if !hasChild then 2 else if compact then 1 else indention + TAB + 2)
      modifies this`evaluatedLength, this`outPos, this`text, this`indention, buffer
      ensures Ok() && (rendering ==> evaluatedLength == old(evaluatedLength))
      ensures indention == old(indention) + if hasChild then TAB else 0
      ensures text == old(text) + ([open] + if hasChild then NewLine(indention, compact) else [close])
    {
      ghost var t := text;
      Delimiter(open);
      indention := indention + TAB;
      if hasChild {
        LineBreak();
        assert (t + [open]) + NewLine(indention, compact) == t + ([open] + NewLine(indention, compact));
      } else {
        Delimiter(close);
        indention := indention - TAB;
        assert (t + [open]) + [close] == t + ([open] + [close]);
      }
    }

    /** A closing brace or bracket on a line of its own */
    method Close(close: char)
      requires Ok() && indention >= TAB && Fits(if compact then 1 else indention - TAB + 2)
      modifies this`evaluatedLength, this`outPos, this`text, this`indention, buffer
      ensures Ok() && (rendering ==> evaluatedLength == old(evaluatedLength))
      ensures indention == old(indention) - TAB
      ensures text == old(text) + (NewLine(indention, compact) + [close])
    {
      ghost var t := text;
      indention := indention - TAB;
      LineBreak();
      Delimiter(close);
      assert (t + NewLine(indention, compact)) + [close] == t + (NewLine(indention, compact) + [close]);
    }

    /** The second pass starts at the front of the buffer */
    method Rewind()
      requires !rendering && buffer[..] == spare
      modifies this`rendering, this`outPos, this`text
      ensures rendering && Ok() && text == ""
    {
      rendering, outPos, text := true, 0, "";
      assert spare[0..] == spare;
    }

    /** The terminating NUL */
    method Terminate()
      requires rendering && Ok() && |text| < buffer.Length
      modifies this`outPos, buffer
      ensures outPos == old(outPos) + 1 && buffer[..] == text + [NUL] + spare[|text| + 1..]
    {
      buffer[outPos] := NUL;
      outPos := outPos + 1;
    }

    /** A comma and a new line */
    method Separate()
      requires Ok() && Fits(if compact then 1 else indention + 2)
      modifies this`evaluatedLength, this`outPos, this`text, buffer
      ensures Ok() && (rendering ==> evaluatedLength == old(evaluatedLength))
      ensures text == old(text) + ("," + NewLine(indention, compact))
    {
      ghost var t := text;
      Delimiter(',');
      LineBreak();
      assert (t + ",") + NewLine(indention, compact) == t + ("," + NewLine(indention, compact));
    }
  }

  // ----- the state machine -----

  /** The cells hold a tree that a pass can walk. Keys may be without a value. */
  ghost predicate Drawable(cells: seq<Cell>, root: nat, f: Forest) { Holds(cells, root, f) && Walkable(f) }

  /** What is out and what the rest of the pass emits make up the whole. */
  ghost predicate Leads(f: Forest, compact: bool, text: string, rest: Pass)
    requires Walkable(f)
  {
    text + rest.text == FullPass(f, compact).text && rest.ok == FullPass(f, compact).ok
  }

  /** Where the machine stands; the indentation is never below that of the next node. */
  ghost predicate OnTrack(f: Forest, compact: bool, state: State, iter: nat, indention: nat, text: string)
    requires Walkable(f)
  {
    match state
    case ExpectKey | ExpectValue =>
      && (iter == NONE || iter in Ids(f))
      && (Upcoming(f, iter) != [] ==> Upcoming(f, iter)[0] in Ids(f) && Indent(f, Upcoming(f, iter)[0], 0) <= indention)
      && Leads(f, compact, text, Flow(f, Upcoming(f, iter), state == ExpectKey, indention, compact))
    case HaveValue => iter in Ids(f) && At(f, iter).kids.Nil? && Climbing(f, compact, iter, iter, indention, text)
    case End => Leads(f, compact, text, Pass("", true))
    case _ => false
  }

  /** The walk up from the value `iter` reached node `n`. */
  ghost predicate Climbing(f: Forest, compact: bool, iter: nat, n: nat, indention: nat, text: string)
    requires Walkable(f) && iter in Ids(f)
  {
    && n in Ids(f) && RestIds(f, n) == Upcoming(f, iter) && Indent(f, n, 0) <= indention
    && Leads(f, compact, text, Onward(f, ClimbFrom(f, n, indention, compact), Upcoming(f, iter), compact))
  }

  /** The machine is about to emit node `iter`, or to find that there is none. */
  ghost predicate Facing(f: Forest, compact: bool, key: bool, iter: nat, indention: nat, text: string)
    requires Walkable(f)
  {
    if iter == NONE then Leads(f, compact, text, Pass("", false))
    else
      && iter in Ids(f) && Indent(f, iter, 0) <= indention
      && Leads(f, compact, text, Flow(f, [iter] + Upcoming(f, iter), key, indention, compact))
  }

  lemma Appended(f: Forest, compact: bool, text: string, piece: string, rest: Pass)
    requires Walkable(f) && Leads(f, compact, text, rest.Behind(piece))
    ensures Leads(f, compact, text + piece, rest) && |text + piece| <= |FullPass(f, compact).text|
  {
    assert (text + piece) + rest.text == text + (piece + rest.text);
  }

  /** The node after next is indented no deeper than what the machine has opened. */
  lemma NextIndent(f: Forest, n: nat)
    requires Walkable(f) && n in Ids(f) && Upcoming(f, n) != []
    ensures var m := Upcoming(f, n)[0];
      m in Ids(f) && Indent(f, m, 0) <= if At(f, n).kids.Cons? then KidIndent(At(f, n).kind, Indent(f, n, 0))
          else Indent(f, n, 0)
  {
    if At(f, n).kids.Cons? { StepDown(f, NONE, n, 0); } else { ClimbEnds(f, n, 0, true); }
  }

  lemma AfterKey(f: Forest, compact: bool, n: nat, i: nat, text: string)
    requires Walkable(f) && n in Ids(f) && At(f, n).kind == Key && Facing(f, compact, true, n, i, text)
    ensures var out := text + KeyText(At(f, n).text, compact);
      OnTrack(f, compact, ExpectValue, n, i, out) && |out| <= |FullPass(f, compact).text|
  {
    var rest := Upcoming(f, n);
    assert ([n] + rest)[1..] == rest;
    Appended(f, compact, text, KeyText(At(f, n).text, compact), Flow(f, rest, false, i, compact));
    if rest != [] { NextIndent(f, n); }
  }

  lemma AfterOpening(f: Forest, compact: bool, n: nat, i: nat, text: string)
    requires Walkable(f) && n in Ids(f) && IsContainer(At(f, n).kind)
    requires At(f, n).kids.Cons? && Facing(f, compact, false, n, i, text)
    ensures var g := At(f, n);
      var out := text + ([Opener(g.kind)] + NewLine(i + TAB, compact));
      && OnTrack(f, compact, if g.kind == Object then ExpectKey else ExpectValue, n, i + TAB, out)
      && |out| <= |FullPass(f, compact).text|
  {
    var g, rest := At(f, n), Upcoming(f, n);
    assert ([n] + rest)[1..] == rest;
    FirstKind(f, n);
    NextIndent(f, n);
    Appended(f, compact, text, [Opener(g.kind)] + NewLine(i + TAB, compact),
        Flow(f, rest, g.kind == Object, i + TAB, compact));
  }

  lemma AfterLeaf(f: Forest, compact: bool, n: nat, i: nat, text: string)
    requires Walkable(f) && n in Ids(f) && At(f, n).kind != Key
    requires At(f, n).kids.Nil? && Facing(f, compact, false, n, i, text)
    ensures var out := text + Childless(At(f, n), compact);
      OnTrack(f, compact, HaveValue, n, i, out) && |out| <= |FullPass(f, compact).text|
  {
    var rest := Upcoming(f, n);
    assert ([n] + rest)[1..] == rest && rest == RestIds(f, n);
    Appended(f, compact, text, Childless(At(f, n), compact), Onward(f, ClimbFrom(f, n, i, compact), rest, compact));
  }

  /** A node of the wrong kind, or none: the pass ends here, with an error. */
  lemma Derailed(f: Forest, compact: bool, key: bool, iter: nat, i: nat, text: string)
    requires Walkable(f) && Facing(f, compact, key, iter, i, text)
    requires iter == NONE || (KindAt(f, iter) == Key) != key
    ensures text == FullPass(f, compact).text && !FullPass(f, compact).ok
  {
    assert text + "" == text;
  }

  /** The text fits the buffer when it is written. */
  ghost predicate Roomy(f: Forest, w: Writer)
    requires Walkable(f)
    reads w
  {
    w.rendering ==> |FullPass(f, w.compact).text| < w.buffer.Length
  }

  /** What both handlers of the expecting states leave behind. */
  ghost predicate Emitted(f: Forest, ctx: Context, w: Writer)
    requires Walkable(f)
    reads ctx, w, w.buffer
  {
    w.Ok() &&
    if ctx.status == NoError
    then ctx.iter in Ids(f) && ctx.state in {ExpectKey, ExpectValue, HaveValue}
      && OnTrack(f, w.compact, ctx.state, ctx.iter, w.indention, w.text)
    else ctx.status == UnexpectedElement && w.text == FullPass(f, w.compact).text && !FullPass(f, w.compact).ok
  }

  /** jes_serializer_process_expect_key_state */
  method ProcessExpectKey(ctx: Context, w: Writer, ghost f: Forest)
    requires Drawable(ctx.pool[..], ctx.root, f) && ctx.status == NoError && w.Ok() && Roomy(f, w)
    requires Facing(f, w.compact, true, ctx.iter, w.indention, w.text)
    modifies ctx`state, ctx`status, w`evaluatedLength, w`outPos, w`text, w.buffer
    ensures Emitted(f, ctx, w) && (w.rendering ==> w.evaluatedLength == old(w.evaluatedLength))
    ensures ctx.status == NoError <==> ctx.iter != NONE && At(f, ctx.iter).kind == Key
  {
    hide Flow, Nested, Distinct, FullPass, Rep, OnTrack, Ids;
    if ctx.iter != NONE { RepAt(ctx.pool[..], f, NONE, ctx.iter); }
    if ctx.iter != NONE && ctx.pool[ctx.iter].kind == Key {
      AfterKey(f, w.compact, ctx.iter, w.indention, w.text);
      w.KeyName(ctx.pool[ctx.iter].text);
      ctx.state := ExpectValue;
    } else {
      Derailed(f, w.compact, true, ctx.iter, w.indention, w.text);
      ctx.status := UnexpectedElement;
    }
  }

  lemma ChildHead(f: Forest, n: nat)
    requires Walkable(f) && n in Ids(f)
    ensures Head(At(f, n).kids) == NONE <==> At(f, n).kids.Nil?
  {
    AtIds(f, n);
  }

  /** The cases of the expect-value state for strings, numbers and literals */
  method ProcessScalar(ctx: Context, w: Writer, ghost f: Forest)
    requires Drawable(ctx.pool[..], ctx.root, f) && ctx.status == NoError && w.Ok() && Roomy(f, w)
    requires Facing(f, w.compact, false, ctx.iter, w.indention, w.text)
    requires ctx.iter in Ids(f) && IsScalar(At(f, ctx.iter).kind)
    modifies ctx`state, w`evaluatedLength, w`outPos, w`text, w.buffer
    ensures Emitted(f, ctx, w) && (w.rendering ==> w.evaluatedLength == old(w.evaluatedLength))
  {
    hide OnTrack, Facing, Flow, Nested, Distinct, Rep, FullPass;
    RepAt(ctx.pool[..], f, NONE, ctx.iter);
    FirstKind(f, ctx.iter);
    var cell := ctx.pool[ctx.iter];
    AfterLeaf(f, w.compact, ctx.iter, w.indention, w.text);
    if cell.kind == Str { w.StringValue(cell.text); } else { w.Verbatim(cell.text); }
    ctx.state := HaveValue;
  }

  /** The object and array cases of the expect-value state */
  method ProcessContainer(ctx: Context, w: Writer, ghost f: Forest)
    requires Drawable(ctx.pool[..], ctx.root, f) && ctx.status == NoError && w.Ok() && Roomy(f, w)
    requires Facing(f, w.compact, false, ctx.iter, w.indention, w.text)
    requires ctx.iter in Ids(f) && IsContainer(At(f, ctx.iter).kind)
    modifies ctx`state, w`evaluatedLength, w`outPos, w`text, w`indention, w.buffer
    ensures Emitted(f, ctx, w) && (w.rendering ==> w.evaluatedLength == old(w.evaluatedLength))
  {
    hide OnTrack, Facing, Flow, Nested, Distinct, Rep, Walkable, FullPass, Depth;
    ghost var n, g, i, t := ctx.iter, At(f, ctx.iter), w.indention, w.text;
    RepAt(ctx.pool[..], f, NONE, n);
    ChildHead(f, n);
    var kind := ctx.pool[ctx.iter].kind;
    var hasChild := ctx.pool[ctx.iter].first != NONE;
    if hasChild {
      AfterOpening(f, w.compact, n, i, t);
      assert |t + ([Opener(g.kind)] + NewLine(i + TAB, w.compact))| == |t| + 1 + if w.compact then 0 else i + TAB + 1;
      assert w.Fits(if !w.compact then i + TAB + 2 else 1);
    } else {
      AfterLeaf(f, w.compact, n, i, t);
      assert |t + Childless(g, w.compact)| == |t| + 2;
      assert Childless(g, w.compact) == [Opener(g.kind)] + [Closer(g.kind)];
    }
    w.Open(Opener(kind), Closer(kind), hasChild);
    ctx.state := if !hasChild then HaveValue else if kind == Object then ExpectKey else ExpectValue;
  }

  /** jes_serializer_process_expect_value_state */
  method ProcessExpectValue(ctx: Context, w: Writer, ghost f: Forest)
    requires Drawable(ctx.pool[..], ctx.root, f) && ctx.status == NoError && w.Ok() && Roomy(f, w)
    requires Facing(f, w.compact, false, ctx.iter, w.indention, w.text)
    modifies ctx`state, ctx`status, w`evaluatedLength, w`outPos, w`text, w`indention, w.buffer
    ensures Emitted(f, ctx, w) && (w.rendering ==> w.evaluatedLength == old(w.evaluatedLength))
    ensures ctx.status == NoError <==> ctx.iter != NONE && At(f, ctx.iter).kind != Key
  {
    hide Flow, Nested, Distinct, FullPass, Rep, OnTrack;
    if ctx.iter == NONE {
      Derailed(f, w.compact, false, ctx.iter, w.indention, w.text);
      ctx.status := UnexpectedElement;
      return;
    }
    RepAt(ctx.pool[..], f, NONE, ctx.iter);
    FirstKind(f, ctx.iter);
    var cell := ctx.pool[ctx.iter];
    if IsContainer(cell.kind) {
      ProcessContainer(ctx, w, f);
    } else if IsScalar(cell.kind) {
      ProcessScalar(ctx, w, f);
    } else {
      Derailed(f, w.compact, false, ctx.iter, w.indention, w.text);
      ctx.status := UnexpectedElement;
    }
  }

  /** jes_serializer_process_have_value_state: commas and closers, up to the next sibling */
  method ProcessHaveValue(ctx: Context, w: Writer, ghost f: Forest)
    requires Drawable(ctx.pool[..], ctx.root, f) && w.Ok() && Roomy(f, w)
    requires ctx.state == HaveValue && OnTrack(f, w.compact, HaveValue, ctx.iter, w.indention, w.text)
    modifies ctx`state, w`evaluatedLength, w`outPos, w`text, w`indention, w.buffer
    ensures w.Ok() && (w.rendering ==> w.evaluatedLength == old(w.evaluatedLength))
    ensures ctx.state in {ExpectKey, ExpectValue, End}
    ensures OnTrack(f, w.compact, ctx.state, ctx.iter, w.indention, w.text)
  {
    hide Flow, Nested, Distinct, FullPass, Rep, Leads, Onward;
    var i := ctx.iter;
    while i != NONE
      invariant w.Ok() && (w.rendering ==> w.evaluatedLength == old(w.evaluatedLength))
      invariant if i == NONE then ctx.state == End && OnTrack(f, w.compact, End, ctx.iter, w.indention, w.text)
                else i in Ids(f) && Climbing(f, w.compact, ctx.iter, i, w.indention, w.text)
      decreases if i == NONE then 0 else 1 + Depth(f, i)
    {
      RepAt(ctx.pool[..], f, NONE, i);
      AtIds(f, i);
      if ctx.pool[i].sibling != NONE {
        EmitComma(ctx, w, i, f);
        break;
      }
      ParentDepth(f, NONE, i);
      i := EmitClosing(ctx, w, i, f);
    }
  }

  lemma AfterComma(f: Forest, compact: bool, iter: nat, n: nat, i: nat, text: string)
    requires Walkable(f) && iter in Ids(f) && Climbing(f, compact, iter, n, i, text) && At(f, n).sibs.Cons?
    ensures Parent(f, n, NONE) in Ids(f)
    ensures var out := text + ("," + NewLine(i, compact));
      && OnTrack(f, compact, if At(f, Parent(f, n, NONE)).kind == Array then ExpectValue else ExpectKey, iter, i, out)
      && |out| <= |FullPass(f, compact).text|
  {
    ClimbRight(f, n, i, compact);
    RootHasNoSibling(f, n);
    SiblingKind(f, NONE, Unknown, n);
    var c := ClimbFrom(f, n, i, compact);
    Appended(f, compact, text, c.text, Flow(f, Upcoming(f, iter), c.key, c.indent, compact));
  }

  /** A sibling follows: comma, line break, and the state that its parent calls for */
  method EmitComma(ctx: Context, w: Writer, i: nat, ghost f: Forest)
    requires Drawable(ctx.pool[..], ctx.root, f) && w.Ok() && Roomy(f, w) && i in Ids(f) && At(f, i).sibs.Cons?
    requires ctx.iter in Ids(f) && Climbing(f, w.compact, ctx.iter, i, w.indention, w.text)
    modifies ctx`state, w`evaluatedLength, w`outPos, w`text, w.buffer
    ensures w.Ok() && (w.rendering ==> w.evaluatedLength == old(w.evaluatedLength))
    ensures ctx.state in {ExpectKey, ExpectValue} && OnTrack(f, w.compact, ctx.state, ctx.iter, w.indention, w.text)
  {
    RepAt(ctx.pool[..], f, NONE, i);
    AfterComma(f, w.compact, ctx.iter, i, w.indention, w.text);
    RepAt(ctx.pool[..], f, NONE, Parent(f, i, NONE));
    ctx.state := if ctx.pool[ctx.pool[i].parent].kind == Array then ExpectValue else ExpectKey;
    w.Separate();
  }

  lemma AfterClosing(f: Forest, compact: bool, iter: nat, n: nat, i: nat, text: string)
    requires Walkable(f) && iter in Ids(f) && Climbing(f, compact, iter, n, i, text) && At(f, n).sibs.Nil?
    ensures var p := Parent(f, n, NONE);
      if p == NONE then OnTrack(f, compact, End, iter, i, text)
      else if p in Ids(f) && IsContainer(At(f, p).kind) then
        && TAB <= i
        && var out := text + (NewLine(i - TAB, compact) + [Closer(At(f, p).kind)]);
           Climbing(f, compact, iter, p, i - TAB, out) && |out| <= |FullPass(f, compact).text|
      else p in Ids(f) && Climbing(f, compact, iter, p, i, text)
  {
    StepUp(f, NONE, n, 0);
    var p, rest := Parent(f, n, NONE), Upcoming(f, iter);
    ClimbUp(f, n, i, compact);
    hide Flow, Nested, Distinct, FullPass, NewLine, Upcoming, ClimbFrom, Onward;
    if p == NONE {
      NothingOnward(f, rest, compact);
    } else if IsContainer(At(f, p).kind) {
      var e, c := NewLine(i - TAB, compact) + [Closer(At(f, p).kind)], ClimbFrom(f, p, i - TAB, compact);
      OnwardBehind(f, c, e, rest, compact);
      Appended(f, compact, text, e, Onward(f, c, rest, compact));
    }
  }

  lemma ClimbUp(f: Forest, n: nat, i: nat, compact: bool)
    requires Walkable(f) && n in Ids(f) && At(f, n).sibs.Nil? && Indent(f, n, 0) <= i
    ensures var p := Parent(f, n, NONE);
      if p == NONE then ClimbFrom(f, n, i, compact) == Ascent("", i, true, false)
      else if p in Ids(f) && IsContainer(At(f, p).kind) then
        && TAB <= i
        && ClimbFrom(f, n, i, compact)
             == ClimbFrom(f, p, i - TAB, compact).Behind(NewLine(i - TAB, compact) + [Closer(At(f, p).kind)])
      else p in Ids(f) && ClimbFrom(f, n, i, compact) == ClimbFrom(f, p, i, compact)
  {
    StepUp(f, NONE, n, 0);
    ParentDepth(f, NONE, n);
  }

  lemma OnwardBehind(f: Forest, c: Ascent, e: string, rest: seq<nat>, compact: bool)
    requires Walkable(f)
    ensures Onward(f, c.Behind(e), rest, compact) == Onward(f, c, rest, compact).Behind(e)
  {
    hide Flow;
    if !c.ended {
      var t := Flow(f, rest, c.key, c.indent, compact).text;
      assert (e + c.text) + t == e + (c.text + t);
    }
  }

  lemma NothingOnward(f: Forest, rest: seq<nat>, compact: bool)
    requires Walkable(f)
    ensures forall i :: Onward(f, Ascent("", i, true, false), rest, compact) == Pass("", true)
  {
  }

  /** No sibling follows: up to the parent, which is closed */
  method EmitClosing(ctx: Context, w: Writer, i: nat, ghost f: Forest) returns (p: nat)
    requires Drawable(ctx.pool[..], ctx.root, f) && w.Ok() && Roomy(f, w) && i in Ids(f) && At(f, i).sibs.Nil?
    requires ctx.iter in Ids(f) && Climbing(f, w.compact, ctx.iter, i, w.indention, w.text)
    modifies ctx`state, w`evaluatedLength, w`outPos, w`text, w`indention, w.buffer
    ensures w.Ok() && (w.rendering ==> w.evaluatedLength == old(w.evaluatedLength))
    ensures p == Parent(f, i, NONE)
    ensures if p == NONE then ctx.state == End && OnTrack(f, w.compact, End, ctx.iter, w.indention, w.text)
            else p in Ids(f) && Climbing(f, w.compact, ctx.iter, p, w.indention, w.text)
  {
    RepAt(ctx.pool[..], f, NONE, i);
    ctx.state := HaveValue;
    p := ctx.pool[i].parent;
    AfterClosing(f, w.compact, ctx.iter, i, w.indention, w.text);
    if p != NONE {
      RepAt(ctx.pool[..], f, NONE, p);
      if IsContainer(ctx.pool[p].kind) { w.Close(Closer(ctx.pool[p].kind)); }
    } else {
      ctx.state := End;
    }
  }

  /** jes_serializer_state_machine: one pass over the tree */
  method StateMachine(ctx: Context, w: Writer, ghost f: Forest)
    requires Drawable(ctx.pool[..], ctx.root, f) && ctx.status == NoError && w.Ok() && w.text == "" && Roomy(f, w)
    modifies ctx`iter, ctx`state, ctx`status, w`evaluatedLength, w`outPos, w`text, w`indention, w.buffer
    ensures w.Ok() && (w.rendering ==> w.evaluatedLength == old(w.evaluatedLength))
    ensures w.text == FullPass(f, w.compact).text
    ensures ctx.status == if FullPass(f, w.compact).ok then NoError else UnexpectedElement
    ensures ctx.status == NoError ==> ctx.state == End
  {
    hide Flow, Nested, Distinct, FullPass, Rep;
    ctx.state, ctx.iter := ExpectValue, NONE;
    w.indention := 0;
    StartOnTrack(f, w.compact);
    while true
      invariant w.Ok() && (w.rendering ==> w.evaluatedLength == old(w.evaluatedLength)) && ctx.status == NoError
      invariant ctx.state in {ExpectKey, ExpectValue, HaveValue}
      invariant OnTrack(f, w.compact, ctx.state, ctx.iter, w.indention, w.text)
      decreases |Upcoming(f, ctx.iter)|, if ctx.state == HaveValue then 1 else 0
    {
      if ctx.state == HaveValue {
        ProcessHaveValue(ctx, w, f);
      } else {
        Visit(ctx, w, f);
      }
      if ctx.state == End || ctx.iter == NONE || ctx.status != NoError { break; }
    }
    assert w.text + "" == w.text;
  }

  lemma StartOnTrack(f: Forest, compact: bool)
    requires Walkable(f)
    ensures OnTrack(f, compact, ExpectValue, NONE, 0, "")
  {
    assert "" + FullPass(f, compact).text == FullPass(f, compact).text;
    assert Indent(f, f.id, 0) == 0;
  }

  /** The expecting cases of the machine: fetch the next node and emit it */
  method Visit(ctx: Context, w: Writer, ghost f: Forest)
    requires Drawable(ctx.pool[..], ctx.root, f) && ctx.status == NoError && w.Ok() && Roomy(f, w)
    requires ctx.state in {ExpectKey, ExpectValue} && OnTrack(f, w.compact, ctx.state, ctx.iter, w.indention, w.text)
    modifies ctx`iter, ctx`state, ctx`status, w`evaluatedLength, w`outPos, w`text, w`indention, w.buffer
    ensures Emitted(f, ctx, w) && (w.rendering ==> w.evaluatedLength == old(w.evaluatedLength))
    ensures ctx.status == NoError ==> |Upcoming(f, ctx.iter)| < |old(Upcoming(f, ctx.iter))|
  {
    var state := ctx.state;
    ghost var ids := Upcoming(f, ctx.iter);
    GetNode(ctx, f);
    assert ids != [] ==> ids == [ctx.iter] + Upcoming(f, ctx.iter);
    if state == ExpectKey {
      ProcessExpectKey(ctx, w, f);
    } else {
      ProcessExpectValue(ctx, w, f);
    }
  }

  /** jes_evaluate: the number of bytes a rendering needs, with the NUL, or zero */
  method Evaluate(ctx: Context, compact: bool, ghost f: Forest) returns (length: nat)
    requires Holds(ctx.pool[..], ctx.root, f) && (f.Cons? ==> Walkable(f))
    modifies ctx`iter, ctx`state, ctx`status
    ensures f.Nil? ==> length == 0
    ensures f.Cons? ==> (
              var pass := FullPass(f, compact);
              && length == (if pass.ok then |pass.text| + 1 else 0)
              && ctx.status == if pass.ok then NoError else UnexpectedElement)
  {
    if ctx.root == NONE {
      return 0;
    }
    var nowhere := new char[0];
    var w := new Writer(compact, nowhere);
    ctx.status := NoError;
    StateMachine(ctx, w, f);
    w.evaluatedLength := w.evaluatedLength + 1;
    length := if ctx.status == NoError then w.evaluatedLength else 0;
  }

  /** jes_render: measure, then write. A buffer that is too small for what was measured is reported
      before an error of the pass. */
  method Render(ctx: Context, buffer: array<char>, compact: bool, ghost f: Forest) returns (length: nat)
    requires Holds(ctx.pool[..], ctx.root, f) && (f.Cons? ==> Walkable(f))
    modifies ctx`iter, ctx`state, ctx`status, buffer
    ensures f.Nil? ==> length == 0 && buffer[..] == old(buffer[..])
    ensures f.Cons? ==> (
              var pass, n := FullPass(f, compact), |FullPass(f, compact).text| + 1;
              if buffer.Length < n then length == 0 && ctx.status == BufferTooSmall && buffer[..] == old(buffer[..])
              else if !pass.ok then length == 0 && ctx.status == UnexpectedElement && buffer[..] == old(buffer[..])
              else length == n && ctx.status == NoError && buffer[..] == pass.text + [NUL] + old(buffer[n..]))
  {
    if ctx.root == NONE {
      return 0;
    }
    hide FullPass, Walkable, Rep, Distinct;
    var w := new Writer(compact, buffer);
    ctx.status := NoError;
    StateMachine(ctx, w, f);
    w.evaluatedLength := w.evaluatedLength + 1;
    if buffer.Length < w.evaluatedLength {
      ctx.status := BufferTooSmall;
    }
    if ctx.status == NoError {
      SecondPass(ctx, w, f);
    }
    length := if ctx.status == NoError then w.evaluatedLength else 0;
  }

  /** The second pass of jes_render, into a buffer that is large enough */
  method SecondPass(ctx: Context, w: Writer, ghost f: Forest)
    requires Drawable(ctx.pool[..], ctx.root, f) && ctx.status == NoError && FullPass(f, w.compact).ok
    requires !w.rendering && w.buffer[..] == w.spare
    requires |FullPass(f, w.compact).text| + 1 == w.evaluatedLength <= w.buffer.Length
    modifies ctx`iter, ctx`state, ctx`status, w`rendering, w`evaluatedLength, w`outPos, w`text, w`indention, w.buffer
    ensures ctx.status == NoError && w.evaluatedLength == old(w.evaluatedLength)
    ensures w.buffer[..] == FullPass(f, w.compact).text + [NUL] + w.spare[w.evaluatedLength..]
  {
    hide FullPass, Walkable, Rep, Distinct;
    w.Rewind();
    StateMachine(ctx, w, f);
    if ctx.status == NoError {
      assert w.outPos + 1 == w.evaluatedLength;
      w.Terminate();
    }
  }
}
