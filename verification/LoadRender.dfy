/** Load any text; render, load and render again: as a client of the library does it. */
module LoadRender {
  import opened Codes
  import opened Forests
  import opened Pool
  import opened Shapes
  import opened Lexer
  import opened Printer
  import opened Machine
  import opened Grammar
  import opened Spines
  import opened Tree
  import opened Walk
  import opened Passes
  import opened Tokenizer
  import opened RoundTrip
  import opened Texts
  import Parser
  import Serializer

  lemma {:induction false} FreshKeys(f: Forest, n: nat)
    ensures KeyCount(Fresh(f, n)) == KeyCount(f)
  {
    if f.Cons? {
      FreshKeys(f.kids, n + 1);
      FreshKeys(f.sibs, n + 1 + Size(f.kids));
    }
  }

  /** `t` is a parse of the tokens that node pool and key index have room for. */
  ghost predicate Loadable(ctx: Context, ts: seq<Token>, t: Forest) {
    ParseOf(t, ts, ctx.pool.Length) && Parser.TableHolds(ctx, t)
  }

  /** What is left by jes_load, told by the transition system and the room in the key index. */
  lemma TextLoaded(ctx: Context, text: string)
    requires Parser.Parsed(ctx, text)
    ensures var d := Drive(INITIAL, text, 0, ctx.pool.Length);
      && ctx.Sane()
      && if Parser.TableHolds(ctx, Plug(d.spine)) then
           ctx.Valid() && ctx.forest == Plug(d.spine) && ctx.free == [] && (ctx.status == NoError <==> Accepted(d))
         else ctx.status == OutOfMemory
  {
    Parser.ParsedHolds(ctx, text);
    DriveStops(INITIAL, text, 0, ctx.pool.Length);
  }

  /** jes_load on any text, in either mode. */
  method LoadText(ctx: Context, tok: TokenizerContext, text: string) returns (status: Status)
    requires ctx.Usable() && text != ""
    modifies ctx, ctx.pool, ctx.table, ctx.table.slots, tok
    ensures ctx.Sane() && (status == NoError ==> ctx.Valid() && ctx.free == [])
    ensures Read(text, 0).Unreadable? ==> status != NoError
    ensures var r := Read(text, 0);
      r.Readout? ==>
        && (status == NoError && Balanced(r.ts, Outside) <==> exists t :: Loadable(ctx, AllClipped(r.ts), t))
        && forall t :: Loadable(ctx, AllClipped(r.ts), t) ==> ctx.forest == Fresh(t, 0)
  {
    status := Parser.Load(ctx, tok, text);
    ghost var r := Read(text, 0);
    TextTheorem(text, ctx.pool.Length);
    TextLoaded(ctx, text);
    hide Parser.Parsed, Parser.Mirrors, Drive, Accepted, Read;
    forall t ensures KeyCount(Fresh(t, 0)) == KeyCount(t) { FreshKeys(t, 0); }
    if r.Readout? && status == NoError && Balanced(r.ts, Outside) {
      var t :| ParseOf(t, AllClipped(r.ts), ctx.pool.Length);
      assert Loadable(ctx, AllClipped(r.ts), t);
    }
  }

  /** jes_load on the rendered text of a complete tree rebuilds the tree, in linear mode and, if
      the table has a slot for every key, in hashed mode. */
  method Reload(ctx: Context, tok: TokenizerContext, text: string, compact: bool, ghost t: Forest)
      returns (status: Status)
    requires ctx.Usable() && CompleteDocument(t) && text == Print(t, 0, compact)
    requires Size(t) <= ctx.pool.Length && Parser.TableHolds(ctx, t)
    modifies ctx, ctx.pool, ctx.table, ctx.table.slots, tok
    ensures status == NoError && ctx.Valid() && ctx.Bare() == Doc(Fresh(t, 0), [], Size(t), Whole)
  {
    PrintThenParse(t, compact, ctx.pool.Length);
    FreshKeys(t, 0);
    status := Parser.Load(ctx, tok, text);
    Parser.ParsedHolds(ctx, text);
  }

  lemma ContextHolds(ctx: Context)
    requires ctx.Sane()
    ensures Holds(ctx.pool[..], ctx.root, ctx.forest) && (ctx.forest.Cons? ==> Walkable(ctx.forest))
  {
    ctx.Bounds();
  }

  lemma CompletePrints(ctx: Context, compact: bool)
    requires ctx.Sane() && CompleteDocument(ctx.forest)
    ensures Holds(ctx.pool[..], ctx.root, ctx.forest) && Walkable(ctx.forest)
    ensures FullPass(ctx.forest, compact) == Pass(Print(ctx.forest, 0, compact), true)
  {
    ContextHolds(ctx);
    PassPrints(ctx.forest, compact);
  }

  /** Rendering a complete tree, loading the text into another context and rendering again gives
      the same tree, in fresh slots, and the same bytes. */
  method RenderLoadRender(ctx: Context, other: Context, tok: TokenizerContext, buffer: array<char>, again: array<char>,
      compact: bool)
      returns (length: nat, status: Status, length': nat)
    requires ctx.Sane() && other.Usable() && CompleteDocument(ctx.forest)
    requires ctx != other && ctx.pool != other.pool && ctx.table != other.table && ctx.table.slots != other.table.slots
    requires buffer != again
    requires Size(ctx.forest) <= other.pool.Length && Parser.TableHolds(other, ctx.forest)
    requires |Print(ctx.forest, 0, compact)| < buffer.Length && |Print(ctx.forest, 0, compact)| < again.Length
    modifies ctx`iter, ctx`state, ctx`status, buffer, other, other.pool, other.table, other.table.slots, tok, again
    ensures status == NoError && other.Valid() && other.forest == Fresh(ctx.forest, 0)
    ensures 0 < length == length' <= buffer.Length && length <= again.Length && buffer[..length] == again[..length]
  {
    hide TreeRep, Print, CompleteDocument, FullPass, Walkable, Rep, Fresh, Nested, Distinct, Plug, Size;
    ghost var t := ctx.forest;
    CompletePrints(ctx, compact);
    length := Serializer.Render(ctx, buffer, compact, t);
    assert buffer[..length - 1] == Print(t, 0, compact);
    status := Reload(other, tok, buffer[..length - 1], compact, t);
    ghost var first := buffer[..];
    FreshDocument(t);
    PrintFresh(t, 0, 0, compact);
    CompletePrints(other, compact);
    length' := Serializer.Render(other, again, compact, other.forest);
    assert buffer[..] == first;
    assert first[..length] == Print(t, 0, compact) + [NUL] == again[..length];
  }

  /** The same tree in fresh slots is a complete document again. */
  lemma FreshDocument(t: Forest)
    requires CompleteDocument(t) && Size(t) < NONE
    ensures CompleteDocument(Fresh(t, 0))
  {
    FreshShaped(t, Unknown, 0);
    FreshFull(t, 0);
    FreshTexts(t, 0);
  }

  lemma {:induction false} FreshTexts(f: Forest, n: nat)
    requires Scannable(f) && ShortTexts(f)
    ensures Scannable(Fresh(f, n)) && ShortTexts(Fresh(f, n))
  {
    if f.Cons? {
      FreshTexts(f.kids, n + 1);
      FreshTexts(f.sibs, n + 1 + Size(f.kids));
    }
  }
}
