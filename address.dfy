/** The address decoder of `ParseAddress` (proxylist.go:21-54) as a function of the row: the
    passes in the order the Go code runs them, over the markup after the first `</style>`, with
    one hidden-class pass per token the stylesheet hides. */
module Address {
  import opened Text
  import opened Rewrite
  import opened Markup
  import opened StyleRules

  /** One hidden-class pass per token, in order. */
  function ClassPasses(tokens: seq<string>): (ps: seq<Pass>)
    ensures |ps| == |tokens|
    ensures forall i :: 0 <= i < |ps| ==> ps[i] == ClassHidden(tokens[i])
  {
    if tokens == [] then [] else [ClassHidden(tokens[0])] + ClassPasses(tokens[1..])
  }

  /** The passes before the final trim. */
  function CleanPasses(tokens: seq<string>): seq<Pass> {
    [EmptySpan, StyleHidden] + ClassPasses(tokens) + [StyleInline, AnyClass]
  }

  /** Every pass of `ParseAddress`, in order: the empty spans and the inline-hidden elements
      first, then one pass per hidden token in the order the tokens were found, then the
      inline-shown elements and the other classes, and the trim last and only there. */
  function Pipeline(tokens: seq<string>): (ps: seq<Pass>)
    ensures |ps| == |tokens| + 5 && ps[..2] == [EmptySpan, StyleHidden]
    ensures forall i :: 0 <= i < |tokens| ==> ps[2 + i] == ClassHidden(tokens[i])
    ensures ps[|ps| - 3..] == [StyleInline, AnyClass, TrailingRun]
    ensures forall i :: 0 <= i < |ps| - 1 ==> !ps[i].TrailingRun?
  {
    CleanPasses(tokens) + [TrailingRun]
  }

  /** The passes applied one after the other. */
  function Run(ps: seq<Pass>, s: string): string
    decreases |ps|
  {
    if ps == [] then s else Run(ps[1..], ReplaceAll(ps[0], s))
  }

  /** The text `ParseAddress` computes for a row before deciding whether to store it: what is
      left of the markup after the first `</style>` once every pass has deleted from it. */
  function CleanAddress(line: string): (a: string)
    requires StyleBounds(line)
    ensures Embeds(a, PostStyle(line))
  {
    var ps := Pipeline(HiddenTokens(StyleSection(line)));
    RunEmbeds(ps, PostStyle(line));
    Run(ps, PostStyle(line))
  }

  /** Running two lists of passes is running the first, then the second on its output. */
  lemma {:induction false} RunAppend(ps: seq<Pass>, qs: seq<Pass>, s: string)
    ensures Run(ps + qs, s) == Run(qs, Run(ps, s))
    decreases |ps|
  {
    if ps == [] {
      assert ps + qs == qs;
    } else {
      assert (ps + qs)[1..] == ps[1..] + qs;
      RunAppend(ps[1..], qs, ReplaceAll(ps[0], s));
    }
  }

  /** One more hidden token adds its pass after the others. */
  lemma ClassPassesSnoc(tokens: seq<string>, i: nat, s: string)
    requires i < |tokens|
    ensures Run(ClassPasses(tokens[..i + 1]), s) ==
      ReplaceAll(ClassHidden(tokens[i]), Run(ClassPasses(tokens[..i]), s))
  {
    assert tokens[..i + 1] == tokens[..i] + [tokens[i]];
    assert ClassPasses(tokens[..i + 1]) == ClassPasses(tokens[..i]) + [ClassHidden(tokens[i])];
    RunAppend(ClassPasses(tokens[..i]), [ClassHidden(tokens[i])], s);
  }

  /** The passes one statement at a time, as `ParseAddress` applies them: the empty spans, the
      inline-hidden elements, the hidden classes, the inline-shown elements, the other classes,
      then the trim. */
  lemma PipelineSteps(tokens: seq<string>, s: string)
    ensures Run(Pipeline(tokens), s) ==
      ReplaceAll(TrailingRun, ReplaceAll(AnyClass, ReplaceAll(StyleInline,
        Run(ClassPasses(tokens), ReplaceAll(StyleHidden, ReplaceAll(EmptySpan, s))))))
  {
    var front := [EmptySpan, StyleHidden];
    RunAppend(CleanPasses(tokens), [TrailingRun], s);
    RunAppend(front + ClassPasses(tokens), [StyleInline, AnyClass], s);
    RunAppend(front, ClassPasses(tokens), s);
  }

  /** The cleaned address of a row, from the text the token passes leave. */
  lemma CleanAddressSteps(line: string, tokens: seq<string>, mid: string, c: string)
    requires StyleBounds(line) && tokens == HiddenTokens(StyleSection(line))
    requires mid == ReplaceAll(StyleHidden, ReplaceAll(EmptySpan, PostStyle(line)))
    requires c == Run(ClassPasses(tokens), mid)
    ensures CleanAddress(line) == ReplaceAll(TrailingRun, ReplaceAll(AnyClass, ReplaceAll(StyleInline, c)))
  {
    PipelineSteps(tokens, PostStyle(line));
  }

  /** The cleaned text is the final trim of what the other passes leave. */
  lemma PipelineSplit(tokens: seq<string>, s: string)
    ensures Run(Pipeline(tokens), s) == ReplaceAll(TrailingRun, Run(CleanPasses(tokens), s))
  {
    RunAppend(CleanPasses(tokens), [TrailingRun], s);
    var u := Run(CleanPasses(tokens), s);
    assert Run([TrailingRun], u) == Run([], ReplaceAll(TrailingRun, u));
  }

  /** The passes only ever delete: the result is a subsequence of the input. */
  lemma {:induction false} RunEmbeds(ps: seq<Pass>, s: string)
    ensures Embeds(Run(ps, s), s)
    decreases |ps|
  {
    if ps == [] {
      EmbedsRefl(s);
    } else {
      var u := ReplaceAll(ps[0], s);
      ReplaceAllEmbeds(ps[0], s);
      RunEmbeds(ps[1..], u);
      EmbedsTrans(Run(ps[1..], u), u, s);
    }
  }

  /** Nothing at or before the first `</style>` reaches the address: the cleaned text, which
      `CleanAddress` obtains from the later markup by deleting characters, is never longer. */
  lemma AddressFromPostStyle(line: string)
    requires StyleBounds(line)
    ensures |CleanAddress(line)| <= |PostStyle(line)|
  {
    EmbedsLength(CleanAddress(line), PostStyle(line));
  }

  /** Two rows with the same stylesheet and the same markup after it decode alike, whatever comes
      before the stylesheet. */
  lemma AddressIgnoresPrefix(p1: string, p2: string, css: string, q: string)
    requires IndexOf(p1, "<style>") < 0 && IndexOf(p1, "</style>") < 0
    requires IndexOf(p2, "<style>") < 0 && IndexOf(p2, "</style>") < 0
    requires '<' !in css
    ensures StyleBounds(p1 + "<style>" + css + "</style>" + q)
    ensures StyleBounds(p2 + "<style>" + css + "</style>" + q)
    ensures CleanAddress(p1 + "<style>" + css + "</style>" + q) ==
      CleanAddress(p2 + "<style>" + css + "</style>" + q)
  {
    RowLayout(p1, css, q);
    RowLayout(p2, css, q);
  }

  /** A hidden token never holds '"', so its pass reads the class value as the Go pattern does. */
  lemma TokenPass(t: string)
    requires IsToken(t)
    ensures MarkupPass(ClassHidden(t))
  {
    forall i | 0 <= i < |t| ensures InClass(Except('"'), t[i]) {
      assert InClass(TokenChar, t[i]);
    }
  }

  /** What a piece of well-formed markup contributes to the address once the decoys are gone:
      plain text and any other tag stay; an empty span, a `display:none` element and an element of a hidden class
      vanish; any other element leaves its content. */
  function Visible(x: Piece, hidden: seq<string>): string {
    match x
    case Plain(s) => s
    case EmptySpanTag => []
    case OtherTag(s) => s
    case Elem(e) =>
      if e.attr == HideStyle || (e.attr.Class? && e.attr.name in hidden) then [] else e.text
  }

  function VisibleText(xs: seq<Piece>, hidden: seq<string>): string {
    if xs == [] then [] else Visible(xs[0], hidden) + VisibleText(xs[1..], hidden)
  }

  /** The passes applied one after the other to a single piece. */
  function StepAll(ps: seq<Pass>, x: Piece): Piece
    decreases |ps|
  {
    if ps == [] then x else StepAll(ps[1..], Step(ps[0], x))
  }

  predicate AllMarkupPasses(ps: seq<Pass>) {
    forall i :: 0 <= i < |ps| ==> MarkupPass(ps[i])
  }

  /** A pass keeps a piece well formed. */
  lemma StepOk(p: Pass, x: Piece)
    requires MarkupPass(p) && PieceOk(x)
    ensures PieceOk(Step(p, x))
  {
    match x
    case Elem(e) =>
      if IsElementPass(p) && Hits(p, e) {
        assert Out(p, e) == [] || Out(p, e) == e.text;
      }
    case _ =>
  }

  /** Passes before the trim act on a piece independently of what follows it. */
  lemma {:induction false} RunPiece(ps: seq<Pass>, x: Piece, w: string)
    requires AllMarkupPasses(ps) && PieceOk(x)
    ensures Run(ps, PieceText(x) + w) == PieceText(StepAll(ps, x)) + Run(ps, w)
    decreases |ps|
  {
    if ps != [] {
      PieceStep(ps[0], x, w);
      StepOk(ps[0], x);
      assert AllMarkupPasses(ps[1..]) by {
        forall i | 0 <= i < |ps| - 1 ensures MarkupPass(ps[1..][i]) {
          assert ps[1..][i] == ps[i + 1];
        }
      }
      RunPiece(ps[1..], Step(ps[0], x), ReplaceAll(ps[0], w));
    }
  }

  /** The passes map nothing to nothing. */
  lemma {:induction false} RunEmpty(ps: seq<Pass>)
    ensures Run(ps, []) == []
    decreases |ps|
  {
    if ps != [] {
      assert ReplaceAll(ps[0], []) == [];
      RunEmpty(ps[1..]);
    }
  }

  /** What the passes leave of each piece, concatenated. */
  function Remains(ps: seq<Pass>, xs: seq<Piece>): string {
    if xs == [] then [] else PieceText(StepAll(ps, xs[0])) + Remains(ps, xs[1..])
  }

  /** On well-formed markup the passes before the trim act piece by piece. */
  lemma {:induction false} RunPieces(ps: seq<Pass>, xs: seq<Piece>)
    requires AllMarkupPasses(ps) && WellFormed(xs)
    ensures Run(ps, Flat(xs)) == Remains(ps, xs)
    decreases |xs|
  {
    if xs == [] {
      RunEmpty(ps);
    } else {
      assert PieceOk(xs[0]);
      RunPiece(ps, xs[0], Flat(xs[1..]));
      assert WellFormed(xs[1..]) by {
        forall i | 0 <= i < |xs| - 1 ensures PieceOk(xs[1..][i]) {
          assert xs[1..][i] == xs[i + 1];
        }
      }
      RunPieces(ps, xs[1..]);
    }
  }

  /** Running a concatenation of passes on a piece. */
  lemma {:induction false} StepAllAppend(ps: seq<Pass>, qs: seq<Pass>, x: Piece)
    ensures StepAll(ps + qs, x) == StepAll(qs, StepAll(ps, x))
    decreases |ps|
  {
    if ps == [] {
      assert ps + qs == qs;
    } else {
      assert (ps + qs)[1..] == ps[1..] + qs;
      StepAllAppend(ps[1..], qs, Step(ps[0], x));
    }
  }

  /** Plain text goes through every pass unchanged. */
  lemma {:induction false} StepAllPlain(ps: seq<Pass>, s: string)
    ensures StepAll(ps, Plain(s)) == Plain(s)
    decreases |ps|
  {
    if ps != [] {
      StepAllPlain(ps[1..], s);
    }
  }

  /** A tag no pass is after goes through every pass unchanged. */
  lemma {:induction false} StepAllOther(ps: seq<Pass>, s: string)
    ensures StepAll(ps, OtherTag(s)) == OtherTag(s)
    decreases |ps|
  {
    if ps != [] {
      StepAllOther(ps[1..], s);
    }
  }

  /** The hidden-class passes delete an element exactly when its class is one of the tokens. */
  lemma {:induction false} ClassPassesStep(tokens: seq<string>, e: Element)
    requires PieceOk(Elem(e))
    ensures StepAll(ClassPasses(tokens), Elem(e)) ==
      if e.attr.Class? && e.attr.name in tokens then Plain([]) else Elem(e)
    decreases |tokens|
  {
    if tokens != [] {
      var ps := ClassPasses(tokens);
      assert ps[0] == ClassHidden(tokens[0]);
      assert ps[1..] == ClassPasses(tokens[1..]);
      if e.attr == Class(tokens[0]) {
        assert Hits(ClassHidden(tokens[0]), e);
        StepAllPlain(ps[1..], []);
      } else {
        assert Step(ps[0], Elem(e)) == Elem(e);
        ClassPassesStep(tokens[1..], e);
        assert e.attr.Class? && e.attr.name in tokens <==>
          e.attr.Class? && e.attr.name in tokens[1..];
      }
    }
  }

  /** After the passes before the trim, each well-formed piece is reduced to what is visible of it. */
  lemma CleanPassesPiece(tokens: seq<string>, x: Piece)
    requires PieceOk(x)
    ensures StepAll(CleanPasses(tokens), x) ==
      if x.OtherTag? then x else Plain(Visible(x, tokens))
  {
    var front := [EmptySpan, StyleHidden];
    var back := [StyleInline, AnyClass];
    StepAllAppend(front + ClassPasses(tokens), back, x);
    StepAllAppend(front, ClassPasses(tokens), x);
    match x
    case Plain(s) =>
      StepAllPlain(front, s);
      StepAllPlain(ClassPasses(tokens), s);
      StepAllPlain(back, s);
    case OtherTag(s) =>
      StepAllOther(front, s);
      StepAllOther(ClassPasses(tokens), s);
      StepAllOther(back, s);
    case EmptySpanTag =>
      assert StepAll(front, x) == Plain([]);
      StepAllPlain(ClassPasses(tokens), []);
      StepAllPlain(back, []);
    case Elem(e) =>
      if e.attr == HideStyle {
        assert Hits(StyleHidden, e);
        assert StepAll(front, x) == Plain([]);
        StepAllPlain(ClassPasses(tokens), []);
        StepAllPlain(back, []);
      } else {
        assert StepAll(front, x) == x;
        ClassPassesStep(tokens, e);
        if e.attr.Class? && e.attr.name in tokens {
          StepAllPlain(back, []);
        } else if e.attr == InlineStyle {
          assert Hits(StyleInline, e);
          assert StepAll(back, x) == StepAll([AnyClass], Plain(e.text));
        } else {
          assert Hits(AnyClass, e);
          assert Step(StyleInline, x) == x;
          assert StepAll(back, x) == StepAll([], Plain(e.text));
        }
      }
  }

  /** What is left of the pieces, read piece by piece. */
  lemma {:induction false} RemainsVisible(tokens: seq<string>, xs: seq<Piece>)
    requires WellFormed(xs)
    ensures Remains(CleanPasses(tokens), xs) == VisibleText(xs, tokens)
    decreases |xs|
  {
    if xs != [] {
      assert PieceOk(xs[0]);
      CleanPassesPiece(tokens, xs[0]);
      assert WellFormed(xs[1..]) by {
        forall i | 0 <= i < |xs| - 1 ensures PieceOk(xs[1..][i]) {
          assert xs[1..][i] == xs[i + 1];
        }
      }
      RemainsVisible(tokens, xs[1..]);
    }
  }

  /** With well-formed tokens every pass before the trim is one the markup lemmas cover. */
  lemma CleanPassesCovered(tokens: seq<string>)
    requires forall i :: 0 <= i < |tokens| ==> IsToken(tokens[i])
    ensures AllMarkupPasses(CleanPasses(tokens))
  {
    var ps := CleanPasses(tokens);
    forall i | 0 <= i < |ps| ensures MarkupPass(ps[i]) {
      if 2 <= i < 2 + |tokens| {
        assert ps[i] == ClassPasses(tokens)[i - 2];
        TokenPass(tokens[i - 2]);
      }
    }
  }

  /** The decoder on well-formed markup: every empty span, every `display:none` element and every
      element of a hidden class is deleted with its content, every other element is replaced by
      exactly its content, plain text is kept, and then the final trim runs. */
  lemma DecodeMarkup(tokens: seq<string>, xs: seq<Piece>)
    requires forall i :: 0 <= i < |tokens| ==> IsToken(tokens[i])
    requires WellFormed(xs)
    ensures Run(Pipeline(tokens), Flat(xs)) == ReplaceAll(TrailingRun, VisibleText(xs, tokens))
  {
    PipelineSplit(tokens, Flat(xs));
    CleanPassesCovered(tokens);
    RunPieces(CleanPasses(tokens), xs);
    RemainsVisible(tokens, xs);
  }

  /** A row `p <style> css </style> markup`: the address is decoded from the markup alone, with the
      tokens the stylesheet hides. */
  lemma DecodeRow(p: string, css: string, xs: seq<Piece>)
    requires IndexOf(p, "<style>") < 0 && IndexOf(p, "</style>") < 0 && '<' !in css
    requires WellFormed(xs)
    ensures StyleBounds(p + "<style>" + css + "</style>" + Flat(xs))
    ensures CleanAddress(p + "<style>" + css + "</style>" + Flat(xs)) ==
      ReplaceAll(TrailingRun, VisibleText(xs, HiddenTokens(css)))
  {
    RowLayout(p, css, Flat(xs));
    DecodeMarkup(HiddenTokens(css), xs);
  }

  /** A row whose markup, once the decoys are gone, reads as an address of 7 to 15 digits and
      dots followed by text that does not continue the run decodes to that address. */
  lemma DecodeRowTrimmed(p: string, css: string, xs: seq<Piece>, addr: string, rest: string)
    requires IndexOf(p, "<style>") < 0 && IndexOf(p, "</style>") < 0 && '<' !in css
    requires WellFormed(xs) && VisibleText(xs, HiddenTokens(css)) == addr + rest
    requires 7 <= |addr| <= 15 && AllIn(DigitOrDot, addr)
    requires (rest == [] || !InClass(DigitOrDot, rest[0])) && '\n' !in rest
    ensures StyleBounds(p + "<style>" + css + "</style>" + Flat(xs))
    ensures CleanAddress(p + "<style>" + css + "</style>" + Flat(xs)) == addr
  {
    DecodeRow(p, css, xs);
    TrimAfterAddress(addr, rest);
  }

  /** Three pieces in a row. */
  lemma ThreePieces(a: Piece, b: Piece, c: Piece, hidden: seq<string>)
    ensures Flat([a, b, c]) == PieceText(a) + (PieceText(b) + PieceText(c))
    ensures VisibleText([a, b, c], hidden) == Visible(a, hidden) + (Visible(b, hidden) + Visible(c, hidden))
    ensures PieceOk(a) && PieceOk(b) && PieceOk(c) ==> WellFormed([a, b, c])
  {
    var xs := [a, b, c];
    assert xs[1..] == [b, c] && [b, c][1..] == [c] && [c][1..] == [];
    assert Flat([c]) == PieceText(c) + Flat([]);
    assert PieceText(c) + [] == PieceText(c);
    assert VisibleText([c], hidden) == Visible(c, hidden) + VisibleText([], hidden);
    assert Visible(c, hidden) + [] == Visible(c, hidden);
  }

  /** A class token holds none of the characters the markup patterns stop at. */
  lemma TokenChars(t: string)
    requires IsToken(t)
    ensures t != [] && '<' !in t && '"' !in t && '\n' !in t
  {
    forall i | 0 <= i < |t| ensures t[i] != '<' && t[i] != '"' && t[i] != '\n' {
      assert InClass(TokenChar, t[i]);
    }
  }

  /** A rule holds no '<'. */
  lemma RuleTextNoLt(r: Rule)
    requires IsToken(r.token)
    ensures '<' !in RuleText(r)
  {
    TokenChars(r.token);
  }

  /** An element `<span class="name">text</span>` of the row's markup. */
  lemma ClassSpanOk(name: string, text: string)
    requires IsToken(name) && text != [] && '<' !in text
    ensures PieceOk(Elem(Element(false, Class(name), text, false)))
  {
    TokenChars(name);
    AbsentAllIn('<', name);
    AbsentAllIn('"', name);
    AbsentAllIn('<', text);
  }

  /** A row whose stylesheet hides class `h` and shows class `v`, followed by a span of class `h`
      around a decoy, a span of class `v` around the address and trailing text: the decoy goes,
      the address is unwrapped and the trailing text is trimmed. */
  lemma HiddenClassRow(p: string, h: string, v: string, decoy: string, addr: string, rest: string)
    requires IndexOf(p, "<style>") < 0 && IndexOf(p, "</style>") < 0
    requires IsToken(h) && IsToken(v) && h != v
    requires decoy != [] && '<' !in decoy
    requires 7 <= |addr| <= 15 && AllIn(DigitOrDot, addr)
    requires '<' !in rest && '\n' !in rest && (rest == [] || !InClass(DigitOrDot, rest[0]))
    ensures var css := RuleText(Rule(h, true)) + " " + RuleText(Rule(v, false));
      var markup := Render(Element(false, Class(h), decoy, false)) +
        Render(Element(false, Class(v), addr, false)) + rest;
      StyleBounds(p + "<style>" + css + "</style>" + markup) &&
      CleanAddress(p + "<style>" + css + "</style>" + markup) == addr
  {
    var css := RuleText(Rule(h, true)) + " " + RuleText(Rule(v, false));
    TwoRuleSheet(h, v);
    var e1, e2 := Element(false, Class(h), decoy, false), Element(false, Class(v), addr, false);
    AddressNoLt(addr);
    ClassSpanOk(h, decoy);
    ClassSpanOk(v, addr);
    AbsentAllIn('<', rest);
    ThreePieces(Elem(e1), Elem(e2), Plain(rest), [h]);
    assert v !in [h];
    DecodeRowTrimmed(p, css, [Elem(e1), Elem(e2), Plain(rest)], addr, rest);
    Assoc(Render(e1), Render(e2), rest);
  }

  /** As `HiddenClassRow`, with a closing tag such as the cell's `</td>` right after the address:
      the tag survives the passes before the trim, and the trim then removes it with the rest of
      the line. */
  lemma TagClosedRow(p: string, h: string, v: string, decoy: string, addr: string, tag: string)
    requires IndexOf(p, "<style>") < 0 && IndexOf(p, "</style>") < 0
    requires IsToken(h) && IsToken(v) && h != v
    requires decoy != [] && '<' !in decoy
    requires 7 <= |addr| <= 15 && AllIn(DigitOrDot, addr)
    requires OtherTagOk(tag) && '\n' !in tag
    ensures var css := RuleText(Rule(h, true)) + " " + RuleText(Rule(v, false));
      var markup := Render(Element(false, Class(h), decoy, false)) +
        Render(Element(false, Class(v), addr, false)) + tag;
      StyleBounds(p + "<style>" + css + "</style>" + markup) &&
      CleanAddress(p + "<style>" + css + "</style>" + markup) == addr
  {
    var css := RuleText(Rule(h, true)) + " " + RuleText(Rule(v, false));
    TwoRuleSheet(h, v);
    var xs := TagClosedPieces(h, v, decoy, addr, tag);
    DecodeRowTrimmed(p, css, xs, addr, tag);
  }

  /** The markup of `TagClosedRow` as pieces, and what of it is visible when `h` is hidden. */
  lemma TagClosedPieces(h: string, v: string, decoy: string, addr: string, tag: string)
    returns (xs: seq<Piece>)
    requires IsToken(h) && IsToken(v) && h != v
    requires decoy != [] && '<' !in decoy
    requires 7 <= |addr| <= 15 && AllIn(DigitOrDot, addr)
    requires OtherTagOk(tag)
    ensures WellFormed(xs) && VisibleText(xs, [h]) == addr + tag
    ensures Flat(xs) == Render(Element(false, Class(h), decoy, false)) +
      Render(Element(false, Class(v), addr, false)) + tag
  {
    var e1, e2 := Element(false, Class(h), decoy, false), Element(false, Class(v), addr, false);
    AddressNoLt(addr);
    ClassSpanOk(h, decoy);
    ClassSpanOk(v, addr);
    xs := [Elem(e1), Elem(e2), OtherTag(tag)];
    ThreePieces(Elem(e1), Elem(e2), OtherTag(tag), [h]);
    assert v !in [h];
    Assoc(Render(e1), Render(e2), tag);
  }

  /** A stylesheet hiding one token and showing another hides exactly the first. */
  lemma TwoRuleSheet(h: string, v: string)
    requires IsToken(h) && IsToken(v)
    ensures var css := RuleText(Rule(h, true)) + " " + RuleText(Rule(v, false));
      HiddenTokens(css) == [h] && '<' !in css
  {
    var hr, vr := Rule(h, true), Rule(v, false);
    var none: string := [];
    var css := RuleText(hr) + " " + RuleText(vr);
    assert css == RuleText(hr) + (" " + (RuleText(vr) + none));
    HiddenTokensRule(hr, " " + (RuleText(vr) + none));
    HiddenTokensSkip(" ", RuleText(vr) + none);
    HiddenTokensRule(vr, none);
    assert HiddenTokens(none) == [];
    RuleTextNoLt(hr);
    RuleTextNoLt(vr);
  }

  /** An address of digits and dots holds no '<'. */
  lemma AddressNoLt(addr: string)
    requires AllIn(DigitOrDot, addr)
    ensures '<' !in addr
  {
    forall i | 0 <= i < |addr| ensures addr[i] != '<' {
      assert InClass(DigitOrDot, addr[i]);
    }
  }

  /** A row with an empty stylesheet whose markup is an empty span, a `display:none` span around a
      decoy and then the address: both decoys go. */
  lemma HiddenStyleRow(p: string, decoy: string, addr: string)
    requires IndexOf(p, "<style>") < 0 && IndexOf(p, "</style>") < 0
    requires decoy != [] && '<' !in decoy
    requires 7 <= |addr| <= 15 && AllIn(DigitOrDot, addr)
    ensures var markup := "<span></span>" + Render(Element(false, HideStyle, decoy, false)) + addr;
      StyleBounds(p + "<style>" + "</style>" + markup) &&
      CleanAddress(p + "<style>" + "</style>" + markup) == addr
  {
    var none: string := [];
    var e := Element(false, HideStyle, decoy, false);
    assert '<' !in addr && '\n' !in addr by {
      forall i | 0 <= i < |addr| ensures addr[i] != '<' && addr[i] != '\n' {
        assert InClass(DigitOrDot, addr[i]);
      }
    }
    AbsentAllIn('<', decoy);
    AbsentAllIn('<', addr);
    ThreePieces(EmptySpanTag, Elem(e), Plain(addr), []);
    assert HiddenTokens(none) == [];
    assert addr + none == addr;
    DecodeRowTrimmed(p, none, [EmptySpanTag, Elem(e), Plain(addr)], addr, none);
    assert p + "<style>" + none == p + "<style>";
    Assoc("<span></span>", Render(e), addr);
  }

  /** The first scenario's class tokens and stylesheet, spelled as the model renders them. */
  lemma ClassScenarioStyle()
    ensures IsToken("ab12") && IsToken("cd34") && "ab12" != "cd34"
    ensures RuleText(Rule("ab12", true)) + " " + RuleText(Rule("cd34", false)) ==
      ".ab12{display:none} .cd34{display:inline}"
  {
    ScenarioTokens();
    ScenarioRules();
    var hiding, inline := ".ab12{display:none}", ".cd34{display:inline}";
    assert hiding + " " + inline == ".ab12{display:none} .cd34{display:inline}";
  }

  /** The first scenario's two rules, spelled out. */
  lemma ScenarioRules()
    ensures RuleText(Rule("ab12", true)) == ".ab12{display:none}"
    ensures RuleText(Rule("cd34", false)) == ".cd34{display:inline}"
  {
  }

  /** The first scenario's two class tokens. */
  lemma ScenarioTokens()
    ensures IsToken("ab12") && IsToken("cd34") && "ab12" != "cd34"
  {
    assert "ab12"[0] != "cd34"[0];
  }

  /** A span element with a class, as it is written. */
  lemma RenderClassSpan(name: string, text: string)
    ensures Render(Element(false, Class(name), text, false)) ==
      "<span class=\"" + name + "\">" + text + "</span>"
  {
  }

  /** The first scenario's markup, spelled as the model renders it. */
  lemma ClassScenarioMarkup()
    ensures Render(Element(false, Class("ab12"), "9.9.9.9", false)) == "<span class=\"ab12\">9.9.9.9</span>"
    ensures Render(Element(false, Class("cd34"), "1.2.3.4", false)) == "<span class=\"cd34\">1.2.3.4</span>"
  {
    RenderClassSpan("ab12", "9.9.9.9");
    RenderClassSpan("cd34", "1.2.3.4");
  }

  /** The first scenario's decoy, address and trailing text. */
  lemma ClassScenarioText()
    ensures '<' !in "9.9.9.9" && '<' !in "decoytrailing" && '\n' !in "decoytrailing"
    ensures AllIn(DigitOrDot, "1.2.3.4") && !InClass(DigitOrDot, "decoytrailing"[0])
  {
  }

  /** The row of the first scenario: class `ab12` is hidden, class `cd34` is shown, and whatever
      comes before the stylesheet the address is `1.2.3.4`. */
  lemma HiddenClassScenario(p: string)
    requires IndexOf(p, "<style>") < 0 && IndexOf(p, "</style>") < 0
    ensures var line := p + "<style>" + ".ab12{display:none} .cd34{display:inline}" + "</style>" +
      ("<span class=\"ab12\">9.9.9.9</span>" + "<span class=\"cd34\">1.2.3.4</span>" + "decoytrailing");
      StyleBounds(line) && CleanAddress(line) == "1.2.3.4"
  {
    ClassScenarioStyle();
    ClassScenarioMarkup();
    ClassScenarioText();
    HiddenClassRow(p, "ab12", "cd34", "9.9.9.9", "1.2.3.4", "decoytrailing");
  }

  /** The row of the second scenario: an empty span and a `display:none` span before the address
      `5.6.7.8`. */
  lemma HiddenStyleScenario(p: string)
    requires IndexOf(p, "<style>") < 0 && IndexOf(p, "</style>") < 0
    ensures var line := p + "<style>" + "</style>" +
      ("<span></span>" + "<span style=\"display:none\">8.8.8.8</span>" + "5.6.7.8");
      StyleBounds(line) && CleanAddress(line) == "5.6.7.8"
  {
    StyleScenarioText();
    HiddenStyleRow(p, "8.8.8.8", "5.6.7.8");
  }

  /** The second scenario's decoy and address, and its hidden span as the model renders it. */
  lemma StyleScenarioText()
    ensures Render(Element(false, HideStyle, "8.8.8.8", false)) ==
      "<span style=\"display:none\">8.8.8.8</span>"
    ensures '<' !in "8.8.8.8" && AllIn(DigitOrDot, "5.6.7.8")
  {
    var open := OpenTag(false, HideStyle);
    assert open == "<span style=\"display:none\">";
  }
}
