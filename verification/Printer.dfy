/** The reference printers: what a recursive pretty-printer and a recursive compact printer
    write for a forest. */
module Printer {
  import opened Forests

  /** JES_TAB_SIZE */
  const TAB: nat := 2

  function Blanks(n: nat): (s: string)
    ensures |s| == n
  {
    seq(n, _ => ' ')
  }

  function NewLine(indent: nat, compact: bool): string {
    if compact then "" else "\n" + Blanks(indent)
  }

  function KeyText(text: string, compact: bool): string {
    "\"" + text + (if compact then "\":" else "\": ")
  }

  function Quoted(text: string): string { "\"" + text + "\"" }

  function KidIndent(k: Kind, indent: nat): nat {
    if IsContainer(k) then indent + TAB else indent
  }

  /** What is written before the children of a node. */
  function Opening(f: Forest, indent: nat, compact: bool): string
    requires f.Cons?
  {
    match f.kind
    case Object => "{" + NewLine(indent + TAB, compact)
    case Array => "[" + NewLine(indent + TAB, compact)
    case Key => KeyText(f.text, compact)
    case _ => ""
  }

  /** What is written behind the children of a node. */
  function Closing(f: Forest, indent: nat, compact: bool): string
    requires f.Cons?
  {
    match f.kind
    case Object => NewLine(indent, compact) + "}"
    case Array => NewLine(indent, compact) + "]"
    case _ => ""
  }

  /** A node without children. */
  function Childless(f: Forest, compact: bool): string
    requires f.Cons?
  {
    match f.kind
    case Object => "{}"
    case Array => "[]"
    case Key => KeyText(f.text, compact)
    case Str => Quoted(f.text)
    case _ => f.text
  }

  /** The first node of a chain with everything below it. */
  function Item(f: Forest, indent: nat, compact: bool): string
    requires f.Cons?
    decreases f, 0
  {
    if f.kids.Nil? then Childless(f, compact)
    else Opening(f, indent, compact) + Print(f.kids, KidIndent(f.kind, indent), compact) + Closing(f, indent, compact)
  }

  /** A chain of siblings. */
  function Print(f: Forest, indent: nat, compact: bool): string
    decreases f, 1
  {
    if f.Nil? then "" else Item(f, indent, compact) + Tail(f.sibs, indent, compact)
  }

  /** The siblings that follow a node. */
  function Tail(f: Forest, indent: nat, compact: bool): string
    decreases f, 2
  {
    if f.Nil? then "" else "," + NewLine(indent, compact) + Print(f, indent, compact)
  }

  /** The indentation of node `id`: two blanks for every container around it. */
  function Indent(f: Forest, id: nat, indent: nat): nat
    requires id in Ids(f)
  {
    if f.id == id then indent
    else if id in Ids(f.kids) then Indent(f.kids, id, KidIndent(f.kind, indent))
    else Indent(f.sibs, id, indent)
  }

  /** What is still to be written once node `id` and everything below it are out. */
  function Rest(f: Forest, id: nat, indent: nat, compact: bool): string
    requires id in Ids(f)
  {
    if f.id == id then Tail(f.sibs, indent, compact)
    else if id in Ids(f.kids) then
      Rest(f.kids, id, KidIndent(f.kind, indent), compact) + Closing(f, indent, compact) + Tail(f.sibs, indent, compact)
    else Rest(f.sibs, id, indent, compact)
  }

  /** The nodes that follow the branch of `id` in document order. */
  function RestIds(f: Forest, id: nat): seq<nat>
    requires id in Ids(f)
  {
    if f.id == id then Pre(f.sibs)
    else if id in Ids(f.kids) then RestIds(f.kids, id) + Pre(f.sibs)
    else RestIds(f.sibs, id)
  }

  // ----- one step of the walk: to a child, to a sibling, up -----

  lemma {:induction false} StepDown(f: Forest, q: nat, id: nat, indent: nat)
    requires id in Ids(f) && Distinct(f) && At(f, id).kids.Cons?
    ensures var g, m := At(f, id), At(f, id).kids.id;
      && m in Ids(f) && At(f, m) == g.kids && Parent(f, m, q) == id
      && Indent(f, m, indent) == KidIndent(g.kind, Indent(f, id, indent))
      && RestIds(f, m) == Pre(g.kids.sibs) + RestIds(f, id)
  {
    AtIds(f, id);
    if f.id == id {
    } else if id in Ids(f.kids) {
      AtIds(f.kids, id);
      StepDown(f.kids, f.id, id, KidIndent(f.kind, indent));
    } else {
      AtIds(f.sibs, id);
      StepDown(f.sibs, q, id, indent);
    }
  }

  lemma {:induction false} TextDown(f: Forest, id: nat, indent: nat, compact: bool)
    requires id in Ids(f) && Distinct(f) && At(f, id).kids.Cons? && At(f, id).kids.id in Ids(f)
    ensures var g, m := At(f, id), At(f, id).kids.id;
      Rest(f, m, indent, compact) == Tail(g.kids.sibs, Indent(f, m, indent), compact)
           + Closing(g, Indent(f, id, indent), compact) + Rest(f, id, indent, compact)
  {
    AtIds(f, id);
    if f.id == id {
    } else if id in Ids(f.kids) {
      AtIds(f.kids, id);
      TextDown(f.kids, id, KidIndent(f.kind, indent), compact);
    } else {
      AtIds(f.sibs, id);
      TextDown(f.sibs, id, indent, compact);
    }
  }

  lemma {:induction false} StepRight(f: Forest, q: nat, id: nat, indent: nat)
    requires id in Ids(f) && Distinct(f) && At(f, id).sibs.Cons?
    ensures var s := At(f, id).sibs;
      && s.id in Ids(f) && At(f, s.id) == s && Parent(f, s.id, q) == Parent(f, id, q)
      && Indent(f, s.id, indent) == Indent(f, id, indent)
      && RestIds(f, id) == [s.id] + Pre(s.kids) + RestIds(f, s.id)
  {
    AtIds(f, id);
    if f.id == id {
    } else if id in Ids(f.kids) {
      AtIds(f.kids, id);
      StepRight(f.kids, f.id, id, KidIndent(f.kind, indent));
    } else {
      AtIds(f.sibs, id);
      StepRight(f.sibs, q, id, indent);
    }
  }

  lemma Regroup(a: string, b: string, c: string, d: string, e: string)
    ensures (a + (b + c)) + d + e == a + (b + (c + d + e))
  {
  }

  lemma {:induction false} TextRight(f: Forest, id: nat, indent: nat, compact: bool)
    requires id in Ids(f) && Distinct(f) && At(f, id).sibs.Cons? && At(f, id).sibs.id in Ids(f)
    ensures var s := At(f, id).sibs;
      Rest(f, id, indent, compact)
        == "," + NewLine(Indent(f, id, indent), compact) + (Item(s, Indent(f, id, indent), compact)
            + Rest(f, s.id, indent, compact))
  {
    AtIds(f, id);
    var s := At(f, id).sibs;
    if f.id == id {
      assert Rest(f.sibs, s.id, indent, compact) == Tail(s.sibs, indent, compact);
      assert Tail(s, indent, compact) == "," + NewLine(indent, compact) + Print(s, indent, compact);
    } else if id in Ids(f.kids) {
      AtIds(f.kids, id);
      var k := KidIndent(f.kind, indent);
      TextRight(f.kids, id, k, compact);
      var i := Indent(f, id, indent);
      Regroup("," + NewLine(i, compact), Item(s, i, compact), Rest(f.kids, s.id, k, compact),
          Closing(f, indent, compact),
              Tail(f.sibs, indent, compact));
    } else {
      AtIds(f.sibs, id);
      TextRight(f.sibs, id, indent, compact);
    }
  }

  lemma {:induction false} StepUp(f: Forest, q: nat, id: nat, indent: nat)
    requires id in Ids(f) && Distinct(f) && q !in Ids(f) && At(f, id).sibs.Nil?
    ensures var p := Parent(f, id, q);
      if p == q then RestIds(f, id) == [] && Indent(f, id, indent) == indent
      else
        && p in Ids(f) && At(f, p).kids.Cons?
        && Indent(f, id, indent) == KidIndent(At(f, p).kind, Indent(f, p, indent))
        && RestIds(f, id) == RestIds(f, p)
  {
    ParentFact(f, id, q);
    if f.id == id {
    } else if id in Ids(f.kids) {
      ParentFact(f.kids, id, f.id);
      StepUp(f.kids, f.id, id, KidIndent(f.kind, indent));
    } else {
      StepUp(f.sibs, q, id, indent);
    }
  }

  lemma {:induction false} TextUp(f: Forest, q: nat, id: nat, indent: nat, compact: bool)
    requires id in Ids(f) && Distinct(f) && q !in Ids(f) && At(f, id).sibs.Nil?
    ensures var p := Parent(f, id, q);
      if p == q then Rest(f, id, indent, compact) == ""
      else
        && p in Ids(f)
        && Rest(f, id, indent, compact) == Closing(At(f, p), Indent(f, p, indent), compact)
            + Rest(f, p, indent, compact)
  {
    hide Closing, Print, Item;
    ParentFact(f, id, q);
    if f.id == id {
    } else if id in Ids(f.kids) {
      ParentFact(f.kids, id, f.id);
      TextUp(f.kids, f.id, id, KidIndent(f.kind, indent), compact);
    } else {
      TextUp(f.sibs, q, id, indent, compact);
    }
  }
}
