/** The row's inline stylesheet: where it sits in the row, the rules
    `.T{display:none}` / `.T{display:inline}` it declares, and the hidden class tokens read from
    it (proxylist.go, `InvisibleTags`, and the slicing at the top of `ParseAddress`). */
module StyleRules {
  import opened Text

  /** One rule of the stylesheet: a four-character class token and whether it hides the class. */
  datatype Rule = Rule(token: string, hidden: bool)

  /** A class token as the rule pattern accepts it: exactly four of `[0-9a-zA-Z_\-]`. */
  predicate IsToken(t: string) {
    |t| == 4 && AllIn(TokenChar, t)
  }

  /** The text of a rule as it stands in the stylesheet. */
  function RuleText(r: Rule): string {
    "." + r.token + "{display:" + (if r.hidden then "none" else "inline") + "}"
  }

  /** Where the token and the keyword sit in a rule's text. */
  lemma RuleTextLayout(r: Rule)
    requires |r.token| == 4
    ensures |RuleText(r)| == if r.hidden then 19 else 21
    ensures RuleText(r)[1..5] == r.token
    ensures RuleText(r)[14] == if r.hidden then 'n' else 'i'
  {
    var kw := if r.hidden then "none" else "inline";
    assert RuleText(r) == "." + r.token + "{display:" + kw + "}";
    assert RuleText(r)[1..5] == ("." + r.token)[1..5];
    assert RuleText(r)[14] == kw[0];
  }

  /** The pattern `\.([0-9a-zA-Z_\-]{4})\{display:(inline|none)\}` anchored at the start of `t`:
      the token can only be the four characters after the '.'. */
  function RuleAt(t: string): (r: Option<Rule>)
    ensures r.Some? ==> IsToken(r.value.token) && StartsWith(t, RuleText(r.value))
  {
    if |t| < 5 || !IsToken(t[1..5]) then None
    else if StartsWith(t, RuleText(Rule(t[1..5], false))) then Some(Rule(t[1..5], false))
    else if StartsWith(t, RuleText(Rule(t[1..5], true))) then Some(Rule(t[1..5], true))
    else None
  }

  /** Every well-formed rule at the start of `t` is the one the pattern reports. */
  lemma RuleAtComplete(t: string, r: Rule)
    requires IsToken(r.token) && StartsWith(t, RuleText(r))
    ensures RuleAt(t) == Some(r)
  {
    RuleTextLayout(r);
    var n := |RuleText(r)|;
    assert t[1..5] == t[..n][1..5];
    if r.hidden {
      RuleTextLayout(Rule(r.token, false));
      assert t[14] == t[..n][14];
      StartsWithMismatch(t, RuleText(Rule(r.token, false)), 14);
    }
  }

  /** Go's `FindAllStringSubmatch` with the rule pattern: the leftmost match, then the search
      resumes after it, so matches never overlap. */
  function RuleMatches(s: string): (rs: seq<Rule>)
    ensures forall r :: r in rs ==> IsToken(r.token)
    decreases |s|
  {
    if s == [] then []
    else
      match RuleAt(s)
      case Some(r) => [r] + RuleMatches(s[|RuleText(r)|..])
      case None => RuleMatches(s[1..])
  }

  /** The tokens of the hiding rules among `rs`, in order. */
  function NoneTokens(rs: seq<Rule>): seq<string> {
    if rs == [] then [] else (if rs[0].hidden then [rs[0].token] else []) + NoneTokens(rs[1..])
  }

  lemma {:induction false} NoneTokensSnoc(rs: seq<Rule>, r: Rule)
    ensures NoneTokens(rs + [r]) == NoneTokens(rs) + (if r.hidden then [r.token] else [])
  {
    if rs != [] {
      assert (rs + [r])[1..] == rs[1..] + [r];
      NoneTokensSnoc(rs[1..], r);
    } else {
      assert rs + [r] == [r];
    }
  }

  /** `.T{display:none}` with a well-formed token `T` begins `s`. */
  predicate HidingRuleAt(s: string) {
    |s| >= 5 && IsToken(s[1..5]) && StartsWith(s, RuleText(Rule(s[1..5], true)))
  }

  /** The hidden set read declaratively: the token of every `.T{display:none}` that occurs anywhere
      in `s`, once per occurrence, in order of appearance. */
  function HiddenTokens(s: string): (ts: seq<string>)
    ensures forall i :: 0 <= i < |ts| ==> IsToken(ts[i])
    decreases |s|
  {
    if s == [] then []
    else (if HidingRuleAt(s) then [s[1..5]] else []) + HiddenTokens(s[1..])
  }

  /** A rule never contains a '.' after its first character. */
  lemma RuleBodyHasNoDot(r: Rule)
    requires IsToken(r.token)
    ensures '.' !in RuleText(r)[1..]
  {
    var t := RuleText(r);
    forall i | 1 <= i < |t| ensures t[i] != '.' {
      if i < 5 {
        assert t[i] == r.token[i - 1];
        assert IsTokenChar(r.token[i - 1]);
      }
    }
  }

  /** Text without a '.' contributes no hidden token. */
  lemma {:induction false} HiddenTokensSkip(u: string, w: string)
    requires '.' !in u
    ensures HiddenTokens(u + w) == HiddenTokens(w)
    decreases |u|
  {
    if u == [] {
      assert u + w == w;
    } else {
      assert (u + w)[0] == u[0];
      assert (u + w)[1..] == u[1..] + w;
      HiddenTokensSkip(u[1..], w);
    }
  }

  /** A rule at the front of the text contributes its token exactly when it hides the class. */
  lemma HiddenTokensRule(r: Rule, w: string)
    requires IsToken(r.token)
    ensures HiddenTokens(RuleText(r) + w) == (if r.hidden then [r.token] else []) + HiddenTokens(w)
  {
    var s := RuleText(r) + w;
    RuleBodyHasNoDot(r);
    assert s[1..] == RuleText(r)[1..] + w;
    HiddenTokensSkip(RuleText(r)[1..], w);
    assert s[1..5] == r.token;
    if r.hidden {
      assert s[..|RuleText(r)|] == RuleText(r);
    } else {
      StartsWithMismatch(s, RuleText(Rule(r.token, true)), 14);
    }
  }

  /** Reading every occurrence gives the same tokens as Go's non-overlapping scan: a rule holds no
      '.' after its first character, so no occurrence can hide inside an earlier match. */
  lemma {:induction false} ScanFindsEveryHidingRule(s: string)
    ensures NoneTokens(RuleMatches(s)) == HiddenTokens(s)
    decreases |s|
  {
    if s != [] {
      match RuleAt(s)
      case Some(r) =>
        var n := |RuleText(r)|;
        ScanFindsEveryHidingRule(s[n..]);
        RuleBodyHasNoDot(r);
        assert s[..n] == RuleText(r);
        assert s[1..] == s[1..n] + s[n..];
        assert s[1..n] == RuleText(r)[1..];
        HiddenTokensSkip(s[1..n], s[n..]);
        assert s[1..5] == r.token by {
          assert s[1..5] == RuleText(r)[1..5];
        }
        if r.hidden {
          assert HidingRuleAt(s);
        } else if HidingRuleAt(s) {
          RuleAtComplete(s, Rule(s[1..5], true));
        }
        assert NoneTokens(RuleMatches(s)) == NoneTokens([r] + RuleMatches(s[n..]));
      case None =>
        ScanFindsEveryHidingRule(s[1..]);
        if HidingRuleAt(s) {
          RuleAtComplete(s, Rule(s[1..5], true));
        }
    }
  }

  /** A token is in the hidden set exactly when it is well formed and `.T{display:none}` occurs
      somewhere in `s`; a token declared only `{display:inline}` is never in it. */
  lemma {:induction false} HiddenTokensMembership(s: string, t: string)
    ensures t in HiddenTokens(s) <==>
      IsToken(t) && exists j :: OccursAt(s, RuleText(Rule(t, true)), j)
    decreases |s|
  {
    var lit := RuleText(Rule(t, true));
    if s != [] {
      HiddenTokensMembership(s[1..], t);
      var here := HidingRuleAt(s) && s[1..5] == t;
      assert t in HiddenTokens(s) <==> here || t in HiddenTokens(s[1..]);
      assert here <==> IsToken(t) && OccursAt(s, lit, 0) by {
        assert s[0..] == s;
        if IsToken(t) && OccursAt(s, lit, 0) {
          assert s[..|lit|] == lit;
          assert s[1..5] == lit[1..5] == t;
        }
      }
      if exists j :: OccursAt(s[1..], lit, j) {
        var j :| OccursAt(s[1..], lit, j);
        assert s[1..][j..] == s[j + 1..];
        assert OccursAt(s, lit, j + 1);
      }
      if exists j :: OccursAt(s, lit, j) {
        var j :| OccursAt(s, lit, j);
        if j > 0 {
          assert s[1..][j - 1..] == s[j..];
          assert OccursAt(s[1..], lit, j - 1);
        }
      }
    }
  }

  /** The row's stylesheet markers sit where Go's slices `line[start+7:end]` and `line[end+8:]`
      are in range (start and end being `strings.Index` of `<style>` and `</style>`); otherwise
      the Go code panics. */
  predicate StyleBounds(line: string): (ok: bool)
    ensures ok ==> var end := IndexOf(line, "</style>");
      0 <= IndexOf(line, "<style>") + 7 <= end && end + 8 <= |line|
  {
    var start := IndexOf(line, "<style>");
    var end := IndexOf(line, "</style>");
    0 <= end && start + 7 <= end
  }

  /** The text strictly between the first `<style>` and the first `</style>`: it ends right where
      the first `</style>` begins, and starts 7 characters after the first `<style>` (at index 6
      when there is none, since `strings.Index` then gives -1). */
  function StyleSection(line: string): (css: string)
    requires StyleBounds(line)
    ensures var end := IndexOf(line, "</style>");
      |css| == end - (IndexOf(line, "<style>") + 7) && line[end - |css|..end] == css
    ensures OccursAt(line, "</style>", IndexOf(line, "<style>") + 7 + |css|)
  {
    line[IndexOf(line, "<style>") + 7..IndexOf(line, "</style>")]
  }

  /** The markup after the first `</style>`, the only text the address is decoded from. */
  function PostStyle(line: string): (post: string)
    requires IndexOf(line, "</style>") >= 0
    ensures |line| - |post| == IndexOf(line, "</style>") + 8
    ensures line[|line| - |post|..] == post
  {
    line[IndexOf(line, "</style>") + 8..]
  }

  /** A literal that begins with its only '<' is absent from text whose only '<' is at its start
      and does not begin it. */
  lemma AbsentWithoutInnerLt(s: string, lit: string)
    requires |lit| > 0 && lit[0] == '<' && '<' !in lit[1..]
    requires s != [] && '<' !in s[1..] && !StartsWith(s, lit)
    ensures IndexOf(s, lit) < 0
  {
    forall j ensures !OccursAt(s, lit, j) {
      if j == 0 {
        assert s[0..] == s;
      }
    }
    IndexOfIs(s, lit, -1);
  }

  /** A literal at the very start is found there. */
  lemma IndexOfAtStart(lit: string, v: string)
    ensures IndexOf(lit + v, lit) == 0
  {
    assert (lit + v)[0..][..|lit|] == lit;
    IndexOfIs(lit + v, lit, 0);
  }

  /** A closing literal that begins with its only '<' is first found right after text whose only
      '<' is its first character, when that text does not itself begin with the literal. */
  lemma MarkerAfter(head: string, close: string, q: string)
    requires |close| > 0 && close[0] == '<' && '<' !in close[1..]
    requires head != [] && '<' !in head[1..] && !StartsWith(head, close)
    ensures IndexOf(head + (close + q), close) == |head|
  {
    AbsentWithoutInnerLt(head, close);
    IndexOfAtStart(close, q);
    IndexOfPastPrefix(head, close + q, close);
  }

  /** After an opening marker and text without '<', the first closing marker is the one that
      follows, when both markers begin with their only '<' and differ in their second character. */
  lemma MarkerPairAfter(open: string, css: string, close: string, q: string)
    requires |open| >= 2 && |close| >= 2 && open[1] != close[1]
    requires close[0] == '<' && '<' !in close[1..] && '<' !in open[1..] && '<' !in css
    ensures IndexOf(open + (css + (close + q)), close) == |open| + |css|
  {
    var head := open + css;
    assert head[1..] == open[1..] + css;
    assert head[1] == open[1];
    StartsWithMismatch(head, close, 1);
    MarkerAfter(head, close, q);
    Assoc(open, css, close + q);
  }

  /** The two stylesheet markers each begin with their only '<' and part at the second character. */
  lemma StyleMarkers()
    ensures |"<style>"| == 7 && |"</style>"| == 8
    ensures "<style>"[0] == '<' && '<' !in "<style>"[1..]
    ensures "</style>"[0] == '<' && '<' !in "</style>"[1..]
    ensures "<style>"[1] != "</style>"[1]
  {
    assert "<style>"[1..] == "style>";
    assert "</style>"[1..] == "/style>";
  }

  /** Where the two markers are found in `p open css close q` when `p` holds neither. */
  lemma MarkerLayout(p: string, open: string, css: string, close: string, q: string)
    requires |open| >= 2 && |close| >= 2 && open[1] != close[1]
    requires open[0] == '<' && close[0] == '<' && '<' !in open[1..] && '<' !in close[1..]
    requires IndexOf(p, open) < 0 && IndexOf(p, close) < 0 && '<' !in css
    ensures var line := p + open + css + close + q;
      IndexOf(line, open) == |p| && IndexOf(line, close) == |p| + |open| + |css| &&
      line[|p| + |open|..|p| + |open| + |css|] == css &&
      line[|p| + |open| + |css| + |close|..] == q
  {
    var line := p + open + css + close + q;
    var rest := open + (css + (close + q));
    var pre, post := p + open, close + q;
    Regroup(p, open, css, close, q);
    Assoc(pre + css, close, q);
    IndexOfAtStart(open, css + (close + q));
    IndexOfPastPrefix(p, rest, open);
    MarkerPairAfter(open, css, close, q);
    IndexOfPastPrefix(p, rest, close);
    MiddleSlice(pre, css, post);
    SplitConcat(p + open + css + close, q);
  }

  /** For a row `p <style> css </style> q` in which `p` holds neither marker and the stylesheet
      holds no '<', the stylesheet slice is exactly `css` and the address text is exactly `q`:
      rules written in `p` or `q` contribute nothing. */
  lemma RowLayout(p: string, css: string, q: string)
    requires IndexOf(p, "<style>") < 0 && IndexOf(p, "</style>") < 0 && '<' !in css
    ensures var line := p + "<style>" + css + "</style>" + q;
      StyleBounds(line) && StyleSection(line) == css && PostStyle(line) == q
  {
    StyleMarkers();
    MarkerLayout(p, "<style>", css, "</style>", q);
  }

  /** Regrouping a concatenation of five parts, and the slices that pick out the middle ones. */
  lemma Regroup(a: string, b: string, c: string, d: string, e: string)
    ensures a + b + c + d + e == a + (b + (c + (d + e)))
    ensures (a + b + c + d + e)[|a + b|..|a + b + c|] == c
    ensures (a + b + c + d + e)[|a + b|..] == c + d + e
  {
  }
}
