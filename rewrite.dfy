/** The rewriting passes of `ParseAddress` (proxylist.go:25-49): each fixed pattern as an anchored
    matcher, and Go's `ReplaceAllString` (and `strings.Replace` with no limit) as one left-to-right
    pass that replaces the leftmost match, resumes after it and never rescans its own output. */
module Rewrite {
  import opened Text

  /** The tag-name alternative `(span|div)`. */
  function Tag(isDiv: bool): string {
    if isDiv then "div" else "span"
  }

  /** The attribute of an element, as the patterns spell it. */
  datatype Attr =
    | HideStyle            // ` style="display:none"`
    | InlineStyle          // ` style="display: inline"`
    | Class(name: string)  // ` class="name"`

  function AttrText(a: Attr): string {
    match a
    case HideStyle => " style=\"display:none\""
    case InlineStyle => " style=\"display: inline\""
    case Class(c) => " class=\"" + c + "\""
  }

  /** `<tag attr>text</tag'>`; the opening and closing tag names need not agree. */
  datatype Element = Element(openDiv: bool, attr: Attr, text: string, closeDiv: bool)

  function OpenTag(isDiv: bool, a: Attr): string {
    ("<" + Tag(isDiv)) + (AttrText(a) + ">")
  }

  function CloseTag(isDiv: bool): string {
    "</" + Tag(isDiv) + ">"
  }

  function Render(e: Element): string {
    OpenTag(e.openDiv, e.attr) + e.text + CloseTag(e.closeDiv)
  }

  /** One pass of `ParseAddress`, named after what its pattern removes. */
  datatype Pass =
    | EmptySpan                  // the literal `<span></span>`, replaced by nothing
    | StyleHidden                // `<(span|div) style="display:none">[^<]+</(span|div)>`, by nothing
    | ClassHidden(token: string) // `<(span|div) class="T">[^<]+</(span|div)>`, by nothing
    | StyleInline                // `<(span|div) style="display: inline">([^<]+)</(span|div)>`, by `$2`
    | AnyClass                   // `<(span|div) class="[^"]+">([^<]+)</(span|div)>`, by `$2`
    | TrailingRun                // `([0-9\.]{7,15}).*`, by `$1`

  /** The passes whose pattern is a whole element. */
  predicate IsElementPass(p: Pass) {
    p.StyleHidden? || p.ClassHidden? || p.StyleInline? || p.AnyClass?
  }

  /** Element `e` is a match of pass `p`: content of `[^<]+`, the attribute the pattern names, and
      for the catch-all class pattern a value of `[^"]+`. */
  predicate Hits(p: Pass, e: Element) {
    e.text != [] && AllIn(Except('<'), e.text) &&
    match p
    case StyleHidden => e.attr == HideStyle
    case ClassHidden(t) => e.attr == Class(t)
    case StyleInline => e.attr == InlineStyle
    case AnyClass => e.attr.Class? && e.attr.name != [] && AllIn(Except('"'), e.attr.name)
    case _ => false
  }

  /** What a matched element is replaced by: nothing for the deleting passes, its content (`$2`)
      for the unwrapping ones. */
  function Out(p: Pass, e: Element): string {
    if p.StyleHidden? || p.ClassHidden? then [] else e.text
  }

  /** `<span` or `<div` at the start of `t`. */
  function TagAt(t: string): (r: Option<bool>)
    ensures r.Some? ==> StartsWith(t, "<" + Tag(r.value))
  {
    if StartsWith(t, "<span") then Some(false)
    else if StartsWith(t, "<div") then Some(true)
    else None
  }

  /** `</span>` or `</div>` at the start of `t`. */
  function CloseAt(t: string): (r: Option<bool>)
    ensures r.Some? ==> StartsWith(t, CloseTag(r.value))
  {
    if StartsWith(t, "</span>") then Some(false)
    else if StartsWith(t, "</div>") then Some(true)
    else None
  }

  /** An element begins `t` when its opening tag does, its content follows, and its closing tag
      follows that. */
  lemma RenderAt(t: string, e: Element)
    requires StartsWith(t, OpenTag(e.openDiv, e.attr))
    requires var b := t[|OpenTag(e.openDiv, e.attr)|..];
      StartsWith(b, e.text) && StartsWith(b[|e.text|..], CloseTag(e.closeDiv))
    ensures StartsWith(t, Render(e))
  {
    var open := OpenTag(e.openDiv, e.attr);
    StartsWithAppend(t, open, e.text);
    DropDrop(t, |open|, |e.text|);
    StartsWithAppend(t, open + e.text, CloseTag(e.closeDiv));
  }

  /** An element with attribute `a` at the start of `t`: the opening tag, the longest run of
      non-'<' characters (non-empty), then a closing tag. The run cannot stop early, since the
      closing tag must follow it and begins with '<'. */
  function ElementAt(t: string, a: Attr): (r: Option<Element>)
    ensures r.Some? ==> r.value.attr == a && r.value.text != []
    ensures r.Some? ==> AllIn(Except('<'), r.value.text) && StartsWith(t, Render(r.value))
  {
    match TagAt(t)
    case None => None
    case Some(o) =>
      if !StartsWith(t, OpenTag(o, a)) then None
      else
        var b := t[|OpenTag(o, a)|..];
        var n := SpanLen(b, Except('<'));
        if n == 0 then None
        else
          match CloseAt(b[n..])
          case None => None
          case Some(c) =>
            RenderAt(t, Element(o, a, b[..n], c));
            Some(Element(o, a, b[..n], c))
  }

  /** The element a pass's pattern matches at the start of `t`, if any. */
  function ElementOf(p: Pass, t: string): (r: Option<Element>)
    requires IsElementPass(p)
    ensures r.Some? ==> Hits(p, r.value) && StartsWith(t, Render(r.value))
  {
    match p
    case StyleHidden => ElementAt(t, HideStyle)
    case ClassHidden(tok) => ElementAt(t, Class(tok))
    case StyleInline => ElementAt(t, InlineStyle)
    case AnyClass =>
      match TagAt(t)
      case None => None
      case Some(o) =>
        var k := 1 + |Tag(o)|;
        if StartsWith(t[k..], " class=\"") then
          var v := t[k + 8..];
          var m := SpanLen(v, Except('"'));
          if m == 0 then None else ElementAt(t, Class(v[..m]))
        else None
  }

  /** `ElementAt` unfolded: its four checks passing give the element they describe. */
  lemma ElementAtIs(t: string, a: Attr, o: bool, n: nat, c: bool)
    requires TagAt(t) == Some(o) && StartsWith(t, OpenTag(o, a))
    requires var b := t[|OpenTag(o, a)|..];
      0 < n == SpanLen(b, Except('<')) && CloseAt(b[n..]) == Some(c)
    ensures ElementAt(t, a) == Some(Element(o, a, t[|OpenTag(o, a)|..][..n], c))
  {
  }

  /** Each opening tag name is recognised as itself. */
  lemma TagAtIs(t: string, o: bool)
    requires StartsWith(t, "<" + Tag(o))
    ensures TagAt(t) == Some(o)
  {
    TagFacts(o);
    if o {
      StartsWithMismatch(t, "<span", 1);
    }
  }

  /** Each closing tag is recognised as itself. */
  lemma CloseAtIs(t: string, c: bool)
    requires StartsWith(t, CloseTag(c))
    ensures CloseAt(t) == Some(c)
  {
    TagFacts(c);
    if c {
      StartsWithMismatch(t, "</span>", 2);
    }
  }

  /** The tag literals spelled out. */
  lemma TagFacts(o: bool)
    ensures "<" + Tag(o) == (if o then "<div" else "<span")
    ensures CloseTag(o) == (if o then "</div>" else "</span>")
  {
  }

  /** Every element with attribute `a`, non-empty '<'-free content and either tag names that begins
      `t` is the one `ElementAt` reports. */
  lemma ElementAtComplete(t: string, e: Element)
    requires e.text != [] && AllIn(Except('<'), e.text) && StartsWith(t, Render(e))
    ensures ElementAt(t, e.attr) == Some(e)
  {
    var o, a, c := e.openDiv, e.attr, e.closeDiv;
    var open := OpenTag(o, a);
    RenderSplit(t, e);
    StartsWithAppend(t, "<" + Tag(o), AttrText(a) + ">");
    TagAtIs(t, o);
    var b := t[|open|..];
    var n := |e.text|;
    TagFacts(c);
    assert b[n..][0] == '<';
    SpanLenExact(b, Except('<'), n);
    CloseAtIs(b[n..], c);
    ElementAtIs(t, a, o, n, c);
  }

  /** A rendered element at the front of `t`: its opening tag, then its content, then its closing
      tag. */
  lemma RenderSplit(t: string, e: Element)
    requires StartsWith(t, Render(e))
    ensures var open := OpenTag(e.openDiv, e.attr);
      StartsWith(t, open) && StartsWith(t[|open|..], e.text) &&
      StartsWith(t[|open|..][|e.text|..], CloseTag(e.closeDiv))
  {
    var open := OpenTag(e.openDiv, e.attr);
    StartsWithAppend(t, open + e.text, CloseTag(e.closeDiv));
    StartsWithAppend(t, open, e.text);
    DropDrop(t, |open|, |e.text|);
  }

  /** Two attributes whose text (with the closing '>') begins the same string are the same, when
      class values hold no '"'. */
  lemma AttrUnique(v: string, a1: Attr, a2: Attr)
    requires a1.Class? ==> AllIn(Except('"'), a1.name)
    requires a2.Class? ==> AllIn(Except('"'), a2.name)
    requires StartsWith(v, AttrText(a1) + ">") && StartsWith(v, AttrText(a2) + ">")
    ensures a1 == a2
  {
    StartsWithAppend(v, AttrText(a1), ">");
    StartsWithAppend(v, AttrText(a2), ">");
    AttrTextFacts(a1);
    AttrTextFacts(a2);
    if a1.Class? && a2.Class? {
      var c1, c2 := a1.name, a2.name;
      StartsWithAppend(v, " class=\"" + c1, "\"");
      StartsWithAppend(v, " class=\"" + c2, "\"");
      StartsWithAppend(v, " class=\"", c1);
      StartsWithAppend(v, " class=\"", c2);
      var u := v[8..];
      assert u[|c1|] == '"' && u[|c2|] == '"';
      if |c1| == |c2| {
        assert c1 == u[..|c1|] == c2;
      }
    }
  }

  /** The characters that tell the attribute spellings apart. */
  lemma AttrTextFacts(a: Attr)
    ensures |AttrText(a)| >= 9 && AttrText(a)[0] == ' '
    ensures AttrText(a)[1] == (if a.Class? then 'c' else 's')
    ensures !a.Class? ==> AttrText(a)[16] == (if a == HideStyle then 'n' else ' ')
    ensures a.Class? ==> AttrText(a)[..8] == " class=\"" && AttrText(a)[8..|AttrText(a)| - 1] == a.name
    ensures a.Class? ==> AttrText(a)[|AttrText(a)| - 1] == '"'
  {
  }

  /** Where a class attribute's value sits in its text. */
  lemma ClassValueAt(w: string, c: string)
    requires StartsWith(w, AttrText(Class(c)))
    ensures StartsWith(w, " class=\"") && |w| >= 9 + |c|
    ensures w[8..][..|c|] == c && w[8..][|c|] == '"'
  {
    StartsWithAppend(w, " class=\"" + c, "\"");
    StartsWithAppend(w, " class=\"", c);
  }

  /** The catch-all class pattern unfolded: after the tag name and ` class="`, the class value is
      the longest run without '"'. */
  lemma AnyClassIs(t: string, o: bool, m: nat)
    requires TagAt(t) == Some(o) && StartsWith(t[1 + |Tag(o)|..], " class=\"")
    requires 0 < m == SpanLen(t[1 + |Tag(o)| + 8..], Except('"'))
    ensures ElementOf(AnyClass, t) == ElementAt(t, Class(t[1 + |Tag(o)| + 8..][..m]))
  {
  }

  /** Every element a pass's pattern describes, at the start of `t`, is the one it reports. */
  lemma ElementOfComplete(p: Pass, t: string, e: Element)
    requires IsElementPass(p) && Hits(p, e) && StartsWith(t, Render(e))
    ensures ElementOf(p, t) == Some(e)
  {
    ElementAtComplete(t, e);
    if p.AnyClass? {
      var o, c := e.openDiv, e.attr.name;
      var k := 1 + |Tag(o)|;
      StartsWithAppend(t, OpenTag(o, e.attr) + e.text, CloseTag(e.closeDiv));
      StartsWithAppend(t, OpenTag(o, e.attr), e.text);
      StartsWithAppend(t, "<" + Tag(o), AttrText(e.attr) + ">");
      TagAtIs(t, o);
      var w := t[k..];
      StartsWithAppend(w, AttrText(e.attr), ">");
      ClassValueAt(w, c);
      var v := t[k + 8..];
      assert v == w[8..];
      SpanLenExact(v, Except('"'), |c|);
      AnyClassIs(t, o, |c|);
    }
  }

  /** A match: how many characters it spans and what replaces them. */
  datatype Match = Match(len: nat, out: string)

  /** The literal `<span></span>` at the start of `t`, deleted. */
  function EmptySpanAt(t: string): (r: Option<Match>)
    ensures r.Some? <==> StartsWith(t, "<span></span>")
    ensures r.Some? ==> r.value.len == |"<span></span>"| <= |t| && r.value.out == [] && t[0] == '<'
  {
    if StartsWith(t, "<span></span>") then Some(Match(13, [])) else None
  }

  /** `([0-9\.]{7,15}).*` at the start of `t`, replaced by its group: the run of digits and dots
      must be at least 7 long, the group takes at most 15 of it, and `.*` takes the rest of the
      line (it does not match '\n'). */
  function TrailingRunAt(t: string): (r: Option<Match>)
    ensures r.Some? <==> SpanLen(t, DigitOrDot) >= 7
    ensures r.Some? ==> var k := SpanLen(t, DigitOrDot);
      |r.value.out| == (if k < 15 then k else 15) && AllIn(DigitOrDot, r.value.out)
    ensures r.Some? ==> |r.value.out| <= r.value.len <= |t| && r.value.out == t[..|r.value.out|]
    ensures r.Some? ==> AllIn(Except('\n'), t[|r.value.out|..r.value.len])
    ensures r.Some? && r.value.len < |t| ==> t[r.value.len] == '\n'
  {
    var k := SpanLen(t, DigitOrDot);
    if k < 7 then None
    else
      var g := if k < 15 then k else 15;
      var n := SpanLen(t[g..], Except('\n'));
      AllInTake(DigitOrDot, t[..k], g);
      assert t[..k][..g] == t[..g];
      assert t[g..][..n] == t[g..g + n];
      assert g + n < |t| ==> t[g..][n] == t[g + n];
      Some(Match(g + n, t[..g]))
  }

  /** The language of `([0-9\.]{7,15}).*` at the start of `t`: the group `g` is 7 to 15 digits and
      dots, and `.*` takes `w`, which holds no line break. */
  predicate TrimSplit(t: string, g: string, w: string) {
    7 <= |g| <= 15 && AllIn(DigitOrDot, g) && AllIn(Except('\n'), w) && StartsWith(t, g + w)
  }

  /** An element pass's pattern at the start of `t`, replaced by nothing or by the content. */
  function ElementMatchAt(p: Pass, t: string): (r: Option<Match>)
    requires IsElementPass(p)
    ensures r.Some? ==> 0 < r.value.len <= |t| && t[0] == '<' && |r.value.out| < r.value.len
  {
    match ElementOf(p, t)
    case None => None
    case Some(e) =>
      assert t[..|Render(e)|] == Render(e);
      assert t[0] == Render(e)[0] == '<';
      Some(Match(|Render(e)|, Out(p, e)))
  }

  /** Pass `p`'s pattern anchored at the start of `t`: the match Go's leftmost-first, greedy
      preference selects. For the element passes and the empty span it is the only match there
      (`ElementOfComplete`); the trim's pattern can match in several ways, and
      `TrailingRunLanguage` shows the one reported has the longest group, then the longest `.*`. */
  function MatchAt(p: Pass, t: string): (r: Option<Match>)
    ensures r.Some? ==> 0 < r.value.len <= |t|
    ensures r.Some? && !p.TrailingRun? ==> t[0] == '<' && |r.value.out| < r.value.len
  {
    match p
    case EmptySpan => EmptySpanAt(t)
    case TrailingRun => TrailingRunAt(t)
    case _ => ElementMatchAt(p, t)
  }

  /** A replacement is always taken from the text it replaces. */
  lemma MatchAtEmbeds(p: Pass, t: string)
    requires MatchAt(p, t).Some?
    ensures Embeds(MatchAt(p, t).value.out, t[..MatchAt(p, t).value.len])
  {
    var m := MatchAt(p, t).value;
    if p.TrailingRun? {
      EmbedsSlice(t[..m.len], 0, |m.out|);
      assert t[..m.len][0..|m.out|] == m.out;
    } else if IsElementPass(p) {
      var e := ElementOf(p, t).value;
      assert t[..m.len] == Render(e);
      RenderEmbedsText(e);
    }
  }

  /** An element's content is a subsequence of the element. */
  lemma RenderEmbedsText(e: Element)
    ensures Embeds(e.text, Render(e))
  {
    var open := OpenTag(e.openDiv, e.attr);
    MiddleSlice(open, e.text, CloseTag(e.closeDiv));
    EmbedsSlice(Render(e), |open|, |open| + |e.text|);
  }

  /** Pass `p` has a match starting at position `i` of `s`. */
  predicate MatchesAt(p: Pass, s: string, i: int) {
    0 <= i < |s| && MatchAt(p, s[i..]).Some?
  }

  /** Go's `ReplaceAllString` (and `strings.Replace` with no limit): scan from the left; where the
      pattern matches, emit the replacement and resume after the match; otherwise copy one
      character. */
  function ReplaceAll(p: Pass, s: string): (r: string)
    ensures |r| <= |s|
    decreases |s|
  {
    if s == [] then []
    else
      match MatchAt(p, s)
      case Some(m) => m.out + ReplaceAll(p, s[m.len..])
      case None => [s[0]] + ReplaceAll(p, s[1..])
  }

  /** Where no match starts, the scan copies one character. */
  lemma ReplaceAllCopies(p: Pass, s: string)
    requires s != [] && MatchAt(p, s).None?
    ensures ReplaceAll(p, s) == [s[0]] + ReplaceAll(p, s[1..])
  {
  }

  /** Where a match starts, the scan emits its replacement and resumes after it. */
  lemma ReplaceAllReplaces(p: Pass, s: string)
    requires s != [] && MatchAt(p, s).Some?
    ensures var m := MatchAt(p, s).value; ReplaceAll(p, s) == m.out + ReplaceAll(p, s[m.len..])
  {
  }

  /** The text before the first position where a match can start is copied through unchanged. */
  lemma {:induction false} ReplaceAllSkip(p: Pass, s: string, i: nat)
    requires i <= |s| && forall j :: 0 <= j < i ==> !MatchesAt(p, s, j)
    ensures ReplaceAll(p, s) == s[..i] + ReplaceAll(p, s[i..])
    decreases i
  {
    if i > 0 {
      var rest := ReplaceAll(p, s[i..]);
      NoMatchShift(p, s, i);
      ReplaceAllSkip(p, s[1..], i - 1);
      ConsPrefix(s, i);
      ReplaceAllCopies(p, s);
      Assoc([s[0]], s[1..][..i - 1], rest);
    } else {
      assert s[..i] == [] && s[i..] == s;
    }
  }

  /** No match in the first `i` positions: none at the start, and none in the first `i - 1`
      positions after it. */
  lemma NoMatchShift(p: Pass, s: string, i: nat)
    requires 0 < i <= |s| && forall j :: 0 <= j < i ==> !MatchesAt(p, s, j)
    ensures MatchAt(p, s).None?
    ensures forall j :: 0 <= j < i - 1 ==> !MatchesAt(p, s[1..], j)
  {
    assert s[0..] == s;
    assert !MatchesAt(p, s, 0);
    forall j | 0 <= j < i - 1 ensures !MatchesAt(p, s[1..], j) {
      assert !MatchesAt(p, s, j + 1);
      DropDrop(s, 1, j);
    }
  }

  /** A prefix of length `i` is the first character and a prefix of the rest. */
  lemma ConsPrefix(s: string, i: nat)
    requires 0 < i <= |s|
    ensures s[..i] == [s[0]] + s[1..][..i - 1] && s[1..][i - 1..] == s[i..]
  {
    DropDrop(s, 1, i - 1);
    TakeJoin(s, 1, i - 1);
    assert s[..1] == [s[0]];
  }

  /** The leftmost match is replaced, everything before it is kept, and the scan resumes right
      after it. */
  lemma ReplaceAllLeftmost(p: Pass, s: string, i: nat)
    requires MatchesAt(p, s, i) && forall j :: 0 <= j < i ==> !MatchesAt(p, s, j)
    ensures var m := MatchAt(p, s[i..]).value;
      ReplaceAll(p, s) == s[..i] + m.out + ReplaceAll(p, s[i + m.len..])
  {
    var t := s[i..];
    var m := MatchAt(p, t).value;
    var rest := ReplaceAll(p, s[i + m.len..]);
    ReplaceAllSkip(p, s, i);
    ReplaceAllReplaces(p, t);
    DropDrop(s, i, m.len);
    Assoc(s[..i], m.out, rest);
  }

  /** Text without any match is left as it is. */
  lemma ReplaceAllNoMatch(p: Pass, s: string)
    requires forall j :: 0 <= j < |s| ==> !MatchesAt(p, s, j)
    ensures ReplaceAll(p, s) == s
  {
    ReplaceAllSkip(p, s, |s|);
  }

  /** A pass never lengthens the text, and every element pass (and the empty-span pass) shortens
      it as soon as it has a match. */
  lemma {:induction false} ReplaceAllLength(p: Pass, s: string)
    ensures |ReplaceAll(p, s)| <= |s|
    ensures !p.TrailingRun? && (exists j :: MatchesAt(p, s, j)) ==> |ReplaceAll(p, s)| < |s|
    decreases |s|
  {
    if s != [] {
      match MatchAt(p, s)
      case Some(m) =>
        ReplaceAllLength(p, s[m.len..]);
      case None =>
        ReplaceAllLength(p, s[1..]);
        if exists j :: MatchesAt(p, s, j) {
          var j :| MatchesAt(p, s, j);
          assert s[0..] == s;
          assert s[1..][j - 1..] == s[j..];
          assert MatchesAt(p, s[1..], j - 1);
        }
    }
  }

  /** Apart from the final trim, a pass leaves the text unchanged exactly when its pattern matches
      nowhere in it. */
  lemma ReplaceAllUnchanged(p: Pass, s: string)
    requires !p.TrailingRun?
    ensures ReplaceAll(p, s) == s <==> forall j :: 0 <= j < |s| ==> !MatchesAt(p, s, j)
  {
    ReplaceAllLength(p, s);
    if forall j :: 0 <= j < |s| ==> !MatchesAt(p, s, j) {
      ReplaceAllNoMatch(p, s);
    }
  }

  /** Every pass only deletes: its output is a subsequence of its input. */
  lemma {:induction false} ReplaceAllEmbeds(p: Pass, s: string)
    ensures Embeds(ReplaceAll(p, s), s)
    decreases |s|
  {
    if s == [] {
    } else {
      match MatchAt(p, s)
      case Some(m) =>
        ReplaceAllReplaces(p, s);
        MatchAtEmbeds(p, s);
        ReplaceAllEmbeds(p, s[m.len..]);
        EmbedsSplit(m.out, ReplaceAll(p, s[m.len..]), s, m.len);
      case None =>
        ReplaceAllCopies(p, s);
        ReplaceAllEmbeds(p, s[1..]);
        EmbedsRefl([s[0]]);
        assert s[..1] == [s[0]];
        EmbedsSplit([s[0]], ReplaceAll(p, s[1..]), s, 1);
    }
  }

  /** A run of at least 7 digits and dots starts at position `j` of `s`. */
  predicate RunAt(s: string, j: int) {
    0 <= j < |s| && SpanLen(s[j..], DigitOrDot) >= 7
  }

  /** The final trim matches exactly where such a run starts. */
  lemma TrailingRunMatchesAt(s: string, j: int)
    ensures MatchesAt(TrailingRun, s, j) <==> RunAt(s, j)
  {
  }

  /** The final trim matches at the start of `t` exactly when its pattern's language has a split
      of `t` there, and the split it reports is the one Go's leftmost-first preference picks: the
      longest group, and then the longest `.*`. */
  lemma TrailingRunLanguage(t: string)
    ensures TrailingRunAt(t).Some? <==> exists g, w :: TrimSplit(t, g, w)
    ensures TrailingRunAt(t).Some? ==> var m := TrailingRunAt(t).value;
      TrimSplit(t, m.out, t[|m.out|..m.len]) &&
      forall g, w :: TrimSplit(t, g, w) ==>
        |g| <= |m.out| && (|g| == |m.out| ==> |g| + |w| <= m.len)
  {
    var r := TrailingRunAt(t);
    if r.Some? {
      var m := r.value;
      TrailingRunSplit(t, m);
    }
    forall g, w | TrimSplit(t, g, w)
      ensures r.Some? && |g| <= |r.value.out| && (|g| == |r.value.out| ==> |g| + |w| <= r.value.len)
    {
      TrailingRunLongest(t, g, w);
    }
  }

  /** The split the final trim reports is in its pattern's language. */
  lemma TrailingRunSplit(t: string, m: Match)
    requires TrailingRunAt(t) == Some(m)
    ensures TrimSplit(t, m.out, t[|m.out|..m.len])
  {
    var g := |m.out|;
    assert m.out + t[g..m.len] == t[..m.len];
    assert StartsWith(t, t[..m.len]);
  }

  /** Every split in the final trim's language has a group no longer than the reported one, and a
      `.*` no longer than the reported one when the groups agree. */
  lemma TrailingRunLongest(t: string, g: string, w: string)
    requires TrimSplit(t, g, w)
    ensures TrailingRunAt(t).Some?
    ensures var m := TrailingRunAt(t).value;
      |g| <= |m.out| && (|g| == |m.out| ==> |g| + |w| <= m.len)
  {
    StartsWithAppend(t, g, w);
    SpanLenAtLeast(t, DigitOrDot, |g|);
    var m := TrailingRunAt(t).value;
    if |g| == |m.out| {
      var v := t[|g|..];
      SpanLenAtLeast(v, Except('\n'), |w|);
      assert m.len == |g| + SpanLen(v, Except('\n'));
    }
  }

  /** The final trim's matcher is `TrailingRunAt`. */
  lemma TrailingRunIs(t: string)
    ensures MatchAt(TrailingRun, t) == TrailingRunAt(t)
  {
  }

  /** The final trim matches alike on two texts whose runs, groups and lines agree. */
  lemma TrailingRunAtAgree(a: string, b: string, g: nat)
    requires SpanLen(b, DigitOrDot) == SpanLen(a, DigitOrDot)
    requires g == if SpanLen(a, DigitOrDot) < 15 then SpanLen(a, DigitOrDot) else 15
    requires SpanLen(a, DigitOrDot) >= 7 ==> g <= |a| && g <= |b|
    requires SpanLen(a, DigitOrDot) >= 7 ==> b[..g] == a[..g]
    requires SpanLen(a, DigitOrDot) >= 7 ==>
      SpanLen(b[g..], Except('\n')) == SpanLen(a[g..], Except('\n'))
    ensures TrailingRunAt(b) == TrailingRunAt(a)
  {
  }

  /** Before a line break (or at the end of the text) the final trim matches as it would on the
      line alone: neither the run nor `.*` crosses a line break. */
  lemma TrailingRunStopsAtNewline(a: string, w: string)
    requires w == [] || w[0] == '\n'
    ensures TrailingRunAt(a + w) == TrailingRunAt(a)
    ensures TrailingRunAt(a).Some? ==> TrailingRunAt(a).value.len <= |a|
  {
    SpanLenConcat(a, w, DigitOrDot);
    assert SpanLen(w, DigitOrDot) == 0;
    var k := SpanLen(a, DigitOrDot);
    var g := if k < 15 then k else 15;
    if k >= 7 {
      DropAppend(a, w, g);
      SpanLenConcat(a[g..], w, Except('\n'));
      assert SpanLen(w, Except('\n')) == 0;
      TakeAppend(a, w, g);
    }
    TrailingRunAtAgree(a, a + w, g);
  }

  /** The final trim's pattern matches before a line break as it does on the line alone. */
  lemma TrailingRunBeforeNewline(a: string, w: string)
    requires w == [] || w[0] == '\n'
    ensures MatchAt(TrailingRun, a + w) == MatchAt(TrailingRun, a)
    ensures MatchAt(TrailingRun, a).Some? ==> MatchAt(TrailingRun, a).value.len <= |a|
  {
    TrailingRunStopsAtNewline(a, w);
    TrailingRunIs(a + w);
    TrailingRunIs(a);
  }

  /** When a match at the front of `a` is also the match at the front of `a + w`, appending `w`
      to the input appends to the output whatever it appends after the match. */
  lemma ReplaceStepAppend(p: Pass, a: string, w: string, m: Match, tail: string)
    requires MatchAt(p, a) == Some(m) && MatchAt(p, a + w) == Some(m) && m.len <= |a|
    requires ReplaceAll(p, a[m.len..] + w) == ReplaceAll(p, a[m.len..]) + tail
    ensures ReplaceAll(p, a + w) == ReplaceAll(p, a) + tail
  {
    var s := a + w;
    var rest := ReplaceAll(p, a[m.len..]);
    ReplaceAllReplaces(p, s);
    ReplaceAllReplaces(p, a);
    DropAppend(a, w, m.len);
    Assoc(m.out, rest, tail);
  }

  /** When neither `a` nor `a + w` has a match at the front, appending `w` to the input appends
      to the output whatever it appends after the first character. */
  lemma CopyStepAppend(p: Pass, a: string, w: string, tail: string)
    requires a != [] && MatchAt(p, a).None? && MatchAt(p, a + w).None?
    requires ReplaceAll(p, a[1..] + w) == ReplaceAll(p, a[1..]) + tail
    ensures ReplaceAll(p, a + w) == ReplaceAll(p, a) + tail
  {
    var s := a + w;
    var rest := ReplaceAll(p, a[1..]);
    ReplaceAllCopies(p, s);
    ReplaceAllCopies(p, a);
    DropAppend(a, w, 1);
    assert s[0] == a[0];
    Assoc([a[0]], rest, tail);
  }

  /** The final trim works line by line: a line break is kept, and each side is trimmed as if it
      stood alone. */
  lemma {:induction false} TrimPerLine(a: string, b: string)
    ensures ReplaceAll(TrailingRun, a + ("\n" + b)) ==
      ReplaceAll(TrailingRun, a) + ("\n" + ReplaceAll(TrailingRun, b))
    decreases |a|
  {
    var w := "\n" + b;
    var tail := "\n" + ReplaceAll(TrailingRun, b);
    TrailingRunBeforeNewline(a, w);
    if a == [] {
      TrailingRunBeforeNewline(a, []);
      assert a + w == w && w[0] == '\n' && w[1..] == b;
      ReplaceAllCopies(TrailingRun, w);
    } else {
      match MatchAt(TrailingRun, a)
      case Some(m) =>
        TrimPerLine(a[m.len..], b);
        ReplaceStepAppend(TrailingRun, a, w, m, tail);
      case None =>
        TrimPerLine(a[1..], b);
        CopyStepAppend(TrailingRun, a, w, tail);
    }
  }

  /** On a line with a run of at least 7 digits and dots at its start, the final trim's match
      reaches the end of the line. */
  lemma TrailingRunToLineEnd(t: string)
    requires SpanLen(t, DigitOrDot) >= 7 && AllIn(Except('\n'), t)
    ensures var k := SpanLen(t, DigitOrDot);
      TrailingRunAt(t) == Some(Match(|t|, t[..if k < 15 then k else 15]))
  {
    var k := SpanLen(t, DigitOrDot);
    var g := if k < 15 then k else 15;
    AllInDrop(Except('\n'), t, g);
    SpanLenAll(t[g..], Except('\n'));
    TrailingRunAtIs(t, g, |t|);
  }

  /** The final trim's match on a text with a run of at least 7 digits and dots at its start. */
  lemma TrailingRunAtIs(t: string, g: nat, n: nat)
    requires SpanLen(t, DigitOrDot) >= 7
    requires g == if SpanLen(t, DigitOrDot) < 15 then SpanLen(t, DigitOrDot) else 15
    requires g <= |t| && n == g + SpanLen(t[g..], Except('\n'))
    ensures TrailingRunAt(t) == Some(Match(n, t[..g]))
  {
    var r := TrailingRunAt(t);
    assert r.Some? && r.value.len == n && r.value.out == t[..g];
  }

  /** On one line, the final trim keeps the text before the leftmost run of 7 or more digits and
      dots and the first 15 (at most) characters of that run, and drops the rest of the line. */
  lemma TrimLine(s: string, i: nat)
    requires RunAt(s, i) && forall j :: 0 <= j < i ==> !RunAt(s, j)
    requires AllIn(Except('\n'), s[i..])
    ensures var k := SpanLen(s[i..], DigitOrDot);
      ReplaceAll(TrailingRun, s) == s[..i + (if k < 15 then k else 15)]
  {
    forall j | 0 <= j < i ensures !MatchesAt(TrailingRun, s, j) {
      TrailingRunMatchesAt(s, j);
    }
    TrailingRunMatchesAt(s, i);
    var t := s[i..];
    var k := SpanLen(t, DigitOrDot);
    var g := if k < 15 then k else 15;
    TrailingRunToLineEnd(t);
    TrailingRunIs(t);
    ReplaceAllLeftmost(TrailingRun, s, i);
    var rest: string := s[i + |t|..];
    assert |rest| == 0;
    assert ReplaceAll(TrailingRun, rest) == [];
    TakeJoin(s, i, g);
  }

  /** An address of 7 to 15 digits and dots followed by other text on its line is all that the
      final trim keeps. */
  lemma TrimAfterAddress(a: string, b: string)
    requires 7 <= |a| <= 15 && AllIn(DigitOrDot, a)
    requires (b == [] || !InClass(DigitOrDot, b[0])) && '\n' !in b
    ensures ReplaceAll(TrailingRun, a + b) == a
  {
    var s := a + b;
    SpanLenExact(a, DigitOrDot, |a|);
    if b != [] {
      SpanLenExact(b, DigitOrDot, 0);
    }
    SpanLenConcat(a, b, DigitOrDot);
    assert s[0..] == s;
    assert '\n' !in s by {
      forall i | 0 <= i < |a| ensures a[i] != '\n' {
        assert InClass(DigitOrDot, a[i]);
      }
    }
    AbsentAllIn('\n', s);
    TrimLine(s, 0);
    assert s[..|a|] == a;
  }

  /** A text without a run of 7 digits and dots passes the final trim unchanged. */
  lemma TrimWithoutRun(s: string)
    requires forall j :: 0 <= j < |s| ==> !RunAt(s, j)
    ensures ReplaceAll(TrailingRun, s) == s
  {
    forall j | 0 <= j < |s| ensures !MatchesAt(TrailingRun, s, j) {
      TrailingRunMatchesAt(s, j);
    }
    ReplaceAllNoMatch(TrailingRun, s);
  }
}
