/** Markup after the stylesheet read as a sequence of pieces: plain text, empty `<span></span>`
    decoys, single-level `<span>`/`<div>` elements, and any other tag (such as `</span>`, `<td>` or
    `</td>`) that does not open a `span` or `div`. On such markup each pass of `ParseAddress` acts
    piece by piece (proxylist.go:26-45). */
module Markup {
  import opened Text
  import opened Rewrite

  /** One stretch of the markup. */
  datatype Piece =
    | Plain(s: string)   // text outside any element
    | EmptySpanTag       // `<span></span>`
    | Elem(e: Element)   // `<tag attr>content</tag'>`
    | OtherTag(s: string) // a tag no pass is after, such as `</span>` or `<td>`

  /** Plain text and element content hold no '<'; a class value is non-empty and holds neither
      '"' nor '<'. */
  predicate PieceOk(x: Piece) {
    match x
    case Plain(s) => AllIn(Except('<'), s)
    case EmptySpanTag => true
    case OtherTag(s) => OtherTagOk(s)
    case Elem(e) =>
      e.text != [] && AllIn(Except('<'), e.text) &&
      (e.attr.Class? ==>
         e.attr.name != [] && AllIn(Except('"'), e.attr.name) && AllIn(Except('<'), e.attr.name))
  }

  /** A tag that begins with its only '<', ends with '>', and opens neither a `span` nor a `div`. */
  predicate OtherTagOk(s: string) {
    |s| >= 2 && s[0] == '<' && s[|s| - 1] == '>' && AllIn(Except('<'), s[1..]) &&
    !StartsWith(s, "<span") && !StartsWith(s, "<div")
  }

  predicate WellFormed(ps: seq<Piece>) {
    forall i :: 0 <= i < |ps| ==> PieceOk(ps[i])
  }

  function PieceText(x: Piece): string {
    match x
    case Plain(s) => s
    case EmptySpanTag => "<span></span>"
    case OtherTag(s) => s
    case Elem(e) => Render(e)
  }

  /** The markup's text. */
  function Flat(ps: seq<Piece>): string {
    if ps == [] then [] else PieceText(ps[0]) + Flat(ps[1..])
  }

  /** What pass `p` makes of one piece on its own: a piece its pattern matches becomes its
      replacement, any other piece stays. */
  function Step(p: Pass, x: Piece): Piece {
    match x
    case Plain(_) => x
    case OtherTag(_) => x
    case EmptySpanTag => if p.EmptySpan? then Plain([]) else x
    case Elem(e) => if IsElementPass(p) && Hits(p, e) then Plain(Out(p, e)) else x
  }

  function Steps(p: Pass, ps: seq<Piece>): (qs: seq<Piece>)
    ensures |qs| == |ps|
  {
    if ps == [] then [] else [Step(p, ps[0])] + Steps(p, ps[1..])
  }

  /** The passes before the final trim, with a hidden-class token spelled as the rule pattern
      reads it (no '"' in it). */
  predicate MarkupPass(p: Pass) {
    (p.EmptySpan? || IsElementPass(p)) && (p.ClassHidden? ==> AllIn(Except('"'), p.token))
  }

  /** Text without '<' is copied through by every pass but the final trim. */
  lemma NoLtSkip(p: Pass, u: string, w: string)
    requires !p.TrailingRun? && AllIn(Except('<'), u)
    ensures ReplaceAll(p, u + w) == u + ReplaceAll(p, w)
  {
    var s := u + w;
    forall j | 0 <= j < |u| ensures !MatchesAt(p, s, j) {
      assert s[j..][0] == u[j];
    }
    ReplaceAllSkip(p, s, |u|);
    SplitConcat(u, w);
  }

  /** A stretch that starts with its only '<', where no match starts, is copied through. */
  lemma LtSkip(p: Pass, x: string, w: string)
    requires !p.TrailingRun? && x != [] && AllIn(Except('<'), x[1..])
    requires MatchAt(p, x + w).None?
    ensures ReplaceAll(p, x + w) == x + ReplaceAll(p, w)
  {
    var rest := ReplaceAll(p, w);
    ReplaceAllCopies(p, x + w);
    DropAppend(x, w, 1);
    assert (x + w)[0] == x[0];
    NoLtSkip(p, x[1..], w);
    HeadTail(x);
    Assoc([x[0]], x[1..], rest);
  }

  /** The characters at which rendered elements and the passes' patterns part ways. */
  lemma RenderFacts(e: Element)
    ensures |Render(e)| > 6 && Render(e)[0] == '<'
    ensures Render(e)[1] == (if e.openDiv then 'd' else 's')
    ensures !e.openDiv ==> Render(e)[5] == ' '
  {
    TagFacts(e.openDiv);
    AttrTextFacts(e.attr);
    assert Render(e) == ("<" + Tag(e.openDiv)) + (AttrText(e.attr) + ">" + e.text + CloseTag(e.closeDiv));
  }

  /** No pass matches at a closing tag. */
  lemma NoMatchAtClose(p: Pass, c: bool, w: string)
    requires MarkupPass(p)
    ensures MatchAt(p, CloseTag(c) + w).None?
  {
    var t := CloseTag(c) + w;
    TagFacts(c);
    assert t[1] == '/';
    if p.EmptySpan? {
      StartsWithMismatch(t, "<span></span>", 1);
    } else if ElementOf(p, t).Some? {
      var e := ElementOf(p, t).value;
      RenderFacts(e);
      StartsWithMismatch(t, Render(e), 1);
    }
  }

  /** The attribute of a rendered element sits right after its tag name. */
  lemma AttrAfterTag(t: string, e: Element)
    requires StartsWith(t, Render(e))
    ensures StartsWith(t[1 + |Tag(e.openDiv)|..], AttrText(e.attr) + ">")
  {
    StartsWithAppend(t, OpenTag(e.openDiv, e.attr) + e.text, CloseTag(e.closeDiv));
    StartsWithAppend(t, OpenTag(e.openDiv, e.attr), e.text);
    StartsWithAppend(t, "<" + Tag(e.openDiv), AttrText(e.attr) + ">");
  }

  /** An attribute's text holds no '<' when its class value holds none. */
  lemma AttrNoLt(a: Attr)
    requires a.Class? ==> '<' !in a.name
    ensures '<' !in AttrText(a)
  {
  }

  /** An opening tag holds no '<' after its first character. */
  lemma OpenTagInner(o: bool, a: Attr)
    requires a.Class? ==> AllIn(Except('<'), a.name)
    ensures AllIn(Except('<'), OpenTag(o, a)[1..])
  {
    var inner := OpenTag(o, a)[1..];
    assert inner == Tag(o) + (AttrText(a) + ">");
    if a.Class? {
      AbsentAllIn('<', a.name);
    }
    AttrNoLt(a);
    assert '<' !in Tag(o);
    AbsentAllIn('<', inner);
  }

  /** An empty span never begins a rendered element. */
  lemma EmptySpanNotAtElement(e: Element, w: string)
    ensures !StartsWith(Render(e) + w, "<span></span>")
  {
    var t := Render(e) + w;
    RenderFacts(e);
    assert t[1] == Render(e)[1] && t[5] == Render(e)[5];
    if e.openDiv {
      StartsWithMismatch(t, "<span></span>", 1);
    } else {
      StartsWithMismatch(t, "<span></span>", 5);
    }
  }

  /** Two elements with non-empty '<'-free content and '"'-free class values that begin the same
      text are the same element. */
  lemma SameElement(t: string, e1: Element, e2: Element)
    requires e1.text != [] && AllIn(Except('<'), e1.text) && StartsWith(t, Render(e1))
    requires e2.text != [] && AllIn(Except('<'), e2.text) && StartsWith(t, Render(e2))
    requires e1.attr.Class? ==> AllIn(Except('"'), e1.attr.name)
    requires e2.attr.Class? ==> AllIn(Except('"'), e2.attr.name)
    ensures e1 == e2
  {
    RenderFacts(e1);
    RenderFacts(e2);
    assert e1.openDiv == e2.openDiv by {
      assert t[1] == t[..|Render(e1)|][1] == Render(e1)[1];
      assert t[1] == t[..|Render(e2)|][1] == Render(e2)[1];
    }
    AttrAfterTag(t, e1);
    AttrAfterTag(t, e2);
    AttrUnique(t[1 + |Tag(e1.openDiv)|..], e1.attr, e2.attr);
    ElementAtComplete(t, e1);
    ElementAtComplete(t, e2);
  }

  /** A pass matches at a well-formed element only when the element is one it is after. */
  lemma NoMatchAtElement(p: Pass, e: Element, w: string)
    requires MarkupPass(p) && PieceOk(Elem(e)) && !(IsElementPass(p) && Hits(p, e))
    ensures MatchAt(p, Render(e) + w).None?
  {
    var t := Render(e) + w;
    if p.EmptySpan? {
      EmptySpanNotAtElement(e, w);
    } else if ElementOf(p, t).Some? {
      SplitConcat(Render(e), w);
      SameElement(t, e, ElementOf(p, t).value);
    }
  }

  /** Every pass before the final trim copies a closing tag through. */
  lemma CloseStep(p: Pass, c: bool, w: string)
    requires MarkupPass(p)
    ensures ReplaceAll(p, CloseTag(c) + w) == CloseTag(c) + ReplaceAll(p, w)
  {
    NoMatchAtClose(p, c, w);
    assert '<' !in CloseTag(c)[1..] by {
      assert CloseTag(c)[1..] == "/" + Tag(c) + ">";
    }
    AbsentAllIn('<', CloseTag(c)[1..]);
    LtSkip(p, CloseTag(c), w);
  }

  /** No rendered element begins an empty span. */
  lemma NoElementAtEmptySpan(e: Element, w: string)
    ensures !StartsWith("<span></span>" + w, Render(e))
  {
    var t := "<span></span>" + w;
    RenderFacts(e);
    assert t[1] == 's' && t[5] == '>';
    if e.openDiv {
      StartsWithMismatch(t, Render(e), 1);
    } else {
      StartsWithMismatch(t, Render(e), 5);
    }
  }

  /** No element pass matches at an empty span. */
  lemma NoMatchAtEmptySpan(p: Pass, w: string)
    requires IsElementPass(p)
    ensures MatchAt(p, "<span></span>" + w).None?
  {
    var t := "<span></span>" + w;
    if ElementOf(p, t).Some? {
      NoElementAtEmptySpan(ElementOf(p, t).value, w);
    }
  }

  /** An empty span is an opening `<span>` whose only '<' is its first character, then a
      closing `</span>`. */
  lemma EmptySpanParts()
    ensures "<span>" + "</span>" == "<span></span>"
    ensures "<span>" != [] && AllIn(Except('<'), "<span>"[1..])
    ensures CloseTag(false) == "</span>"
  {
    TagFacts(false);
    assert "<span>"[1..] == "span>";
  }

  /** The empty-span pass deletes an empty span; no element pass matches in one. */
  lemma EmptySpanStep(p: Pass, w: string)
    requires MarkupPass(p)
    ensures ReplaceAll(p, "<span></span>" + w) ==
      (if p.EmptySpan? then [] else "<span></span>") + ReplaceAll(p, w)
  {
    var span := "<span></span>";
    var t := span + w;
    if p.EmptySpan? {
      SplitConcat(span, w);
      assert StartsWith(t, span);
      ReplaceAllReplaces(p, t);
    } else {
      var head, tail := "<span>", "</span>";
      var rest := ReplaceAll(p, w);
      EmptySpanParts();
      Assoc(head, tail, w);
      NoMatchAtEmptySpan(p, w);
      LtSkip(p, head, tail + w);
      CloseStep(p, false, w);
      Assoc(head, tail, rest);
    }
  }

  /** A tag that ends with '>' and does not begin with a literal free of '>' keeps it from
      beginning whatever follows the tag too. */
  lemma TagBlocksLiteral(s: string, w: string, lit: string)
    requires s != [] && s[|s| - 1] == '>' && '>' !in lit && !StartsWith(s, lit)
    ensures !StartsWith(s + w, lit)
  {
    if |lit| <= |s| {
      assert (s + w)[..|lit|] == s[..|lit|];
    } else {
      assert (s + w)[|s| - 1] == '>';
      StartsWithMismatch(s + w, lit, |s| - 1);
    }
  }

  /** Every pass before the final trim copies a tag it is not after through. */
  lemma OtherTagStep(p: Pass, s: string, w: string)
    requires MarkupPass(p) && OtherTagOk(s)
    ensures ReplaceAll(p, s + w) == s + ReplaceAll(p, w)
  {
    var t := s + w;
    TagBlocksLiteral(s, w, "<span");
    TagBlocksLiteral(s, w, "<div");
    assert TagAt(t).None?;
    StartsWithAppend(t, "<span", "></span>");
    assert "<span" + "></span>" == "<span></span>";
    LtSkip(p, s, w);
  }

  /** An element the pass is after is replaced by the pass's output for it. */
  lemma ElemHit(p: Pass, e: Element, w: string)
    requires IsElementPass(p) && Hits(p, e)
    ensures ReplaceAll(p, Render(e) + w) == Out(p, e) + ReplaceAll(p, w)
  {
    var t := Render(e) + w;
    SplitConcat(Render(e), w);
    assert StartsWith(t, Render(e));
    ElementOfComplete(p, t, e);
    ReplaceAllReplaces(p, t);
  }

  /** An element the pass is not after is copied through. */
  lemma ElemMiss(p: Pass, e: Element, w: string)
    requires MarkupPass(p) && PieceOk(Elem(e)) && !(IsElementPass(p) && Hits(p, e))
    ensures ReplaceAll(p, Render(e) + w) == Render(e) + ReplaceAll(p, w)
  {
    var open := OpenTag(e.openDiv, e.attr);
    var head := open + e.text;
    var tail := CloseTag(e.closeDiv);
    var rest := ReplaceAll(p, w);
    assert Render(e) == head + tail;
    Assoc(head, tail, w);
    NoMatchAtElement(p, e, w);
    OpenTagInner(e.openDiv, e.attr);
    RenderFacts(e);
    assert open != [];
    DropAppend(open, e.text, 1);
    AllInConcat(Except('<'), open[1..], e.text);
    LtSkip(p, head, tail + w);
    CloseStep(p, e.closeDiv, w);
    Assoc(head, tail, rest);
  }

  /** An element is replaced when the pass is after it and copied through otherwise. */
  lemma ElemStep(p: Pass, e: Element, w: string)
    requires MarkupPass(p) && PieceOk(Elem(e))
    ensures ReplaceAll(p, Render(e) + w) ==
      (if IsElementPass(p) && Hits(p, e) then Out(p, e) else Render(e)) + ReplaceAll(p, w)
  {
    if IsElementPass(p) && Hits(p, e) {
      ElemHit(p, e, w);
    } else {
      ElemMiss(p, e, w);
    }
  }

  /** Each pass before the final trim turns a well-formed piece, followed by anything, into what
      `Step` makes of it, followed by the pass's output on the rest. */
  lemma PieceStep(p: Pass, x: Piece, w: string)
    requires MarkupPass(p) && PieceOk(x)
    ensures ReplaceAll(p, PieceText(x) + w) == PieceText(Step(p, x)) + ReplaceAll(p, w)
  {
    match x
    case Plain(s) => NoLtSkip(p, s, w);
    case EmptySpanTag => EmptySpanStep(p, w);
    case OtherTag(s) => OtherTagStep(p, s, w);
    case Elem(e) => ElemStep(p, e, w);
  }

  /** On well-formed markup every pass before the final trim acts piece by piece: each element
      its pattern describes is replaced (deleted, or unwrapped to its content), and every other
      piece is kept as it is. The result is well-formed markup again. */
  lemma {:induction false} PassPiecewise(p: Pass, ps: seq<Piece>)
    requires MarkupPass(p) && WellFormed(ps)
    ensures ReplaceAll(p, Flat(ps)) == Flat(Steps(p, ps))
    ensures WellFormed(Steps(p, ps))
  {
    if ps != [] {
      assert PieceOk(ps[0]);
      PieceStep(p, ps[0], Flat(ps[1..]));
      PassPiecewise(p, ps[1..]);
      var qs := Steps(p, ps);
      assert qs[0] == Step(p, ps[0]) && qs[1..] == Steps(p, ps[1..]);
      forall i | 0 <= i < |qs| ensures PieceOk(qs[i]) {
        if i == 0 {
          match ps[0]
          case Elem(e) =>
            if IsElementPass(p) && Hits(p, e) {
              assert Out(p, e) == [] || Out(p, e) == e.text;
            }
          case _ =>
        } else {
          assert qs[i] == qs[1..][i - 1];
        }
      }
    } else {
      assert ReplaceAll(p, []) == [];
    }
  }
}
