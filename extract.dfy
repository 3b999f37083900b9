/** The field extractors of proxylist.go (`ParseLastUpdate` … `ParseAnonymity`, lines 74-135):
    five fixed patterns, each read with Go's `FindStringSubmatch`, which reports the group of the
    leftmost match. At each position the matchers below compute the one match Go's leftmost-first,
    greedy preference selects; the `…Complete` lemmas show that every match the pattern allows
    there is that match (for these five patterns, no other match exists at a given position). */
module Extract {
  import opened Text

  /** The five patterns. `ParsePort` and `ParseProtocol` share `CellToken`; `ParseSpeed` and
      `ParseConnection` share `BarWidth`. */
  datatype Extractor =
    | UpdateStamp   // `<span class="updatets[^>]+>([^<]+)<\/span>`
    | CellToken     // `<td>(\S+)\s+<\/td>`
    | CountryName   // `\/>([^<]+)<\/span><\/td>`
    | BarWidth      // `style="width: ([0-9]+%);`
    | NowrapCell    // `<td nowrap>([^>]+)<\/td>`

  /** One match of a pattern, given by what each of its repetitions consumed. */
  datatype Hit =
    | Stamp(attr: string, cap: string)   // `<span class="updatets` attr `>` cap `</span>`
    | Cell(cap: string, blank: string)   // `<td>` cap blank `</td>`
    | Country(cap: string)               // `/>` cap `</span></td>`
    | Width(digits: string)              // `style="width: ` digits `%;`
    | Nowrap(cap: string)                // `<td nowrap>` cap `</td>`

  const StampLead := "<span class=\"updatets"
  const WidthLead := "style=\"width: "

  /** The text a match spans. */
  function HitText(h: Hit): string {
    match h
    case Stamp(a, c) => StampLead + (a + (">" + (c + "</span>")))
    case Cell(c, b) => "<td>" + (c + (b + "</td>"))
    case Country(c) => "/>" + (c + "</span></td>")
    case Width(d) => WidthLead + (d + "%;")
    case Nowrap(c) => "<td nowrap>" + (c + "</td>")
  }

  /** The pattern's only group, `parts[1]` in the Go code; the width group keeps its '%'. */
  function Group(h: Hit): string {
    if h.Width? then h.digits + "%" else h.cap
  }

  /** Each repetition consumed a non-empty run of the class it repeats. */
  predicate HitOk(h: Hit) {
    match h
    case Stamp(a, c) => a != [] && AllIn(Except('>'), a) && c != [] && AllIn(Except('<'), c)
    case Cell(c, b) => c != [] && AllIn(NonPerlSpace, c) && b != [] && AllIn(PerlSpace, b)
    case Country(c) => c != [] && AllIn(Except('<'), c)
    case Width(d) => d != [] && AllIn(Digit, d)
    case Nowrap(c) => c != [] && AllIn(Except('>'), c)
  }

  /** `h` is a match of pattern `x`. */
  predicate Of(x: Extractor, h: Hit) {
    match x
    case UpdateStamp => h.Stamp?
    case CellToken => h.Cell?
    case CountryName => h.Country?
    case BarWidth => h.Width?
    case NowrapCell => h.Nowrap?
  }

  /** What a group of pattern `x` can hold. */
  predicate GroupOk(x: Extractor, g: string) {
    match x
    case UpdateStamp => g != [] && AllIn(Except('<'), g)
    case CellToken => g != [] && AllIn(NonPerlSpace, g)
    case CountryName => g != [] && AllIn(Except('<'), g)
    case BarWidth => |g| >= 2 && g[|g| - 1] == '%' && AllIn(Digit, g[..|g| - 1])
    case NowrapCell => g != [] && AllIn(Except('>'), g)
  }

  /** Every match's group is of the shape its pattern allows. */
  lemma HitGroupOk(x: Extractor, h: Hit)
    requires Of(x, h) && HitOk(h)
    ensures GroupOk(x, Group(h))
  {
    if h.Width? {
      assert (h.digits + "%")[..|h.digits|] == h.digits;
    }
  }

  // ---------------------------------------------------------------- the update time

  lemma StampFrame(t: string, n: nat, m: nat)
    requires StartsWith(t, StampLead)
    requires var u := t[|StampLead|..]; n < |u| && u[n] == '>' && m <= |u[n + 1..]|
    requires var v := t[|StampLead|..][n + 1..]; StartsWith(v[m..], "</span>")
    ensures var u := t[|StampLead|..]; var v := u[n + 1..];
      StartsWith(t, HitText(Stamp(u[..n], v[..m])))
  {
    var u := t[|StampLead|..];
    var v := u[n + 1..];
    RunThen(v, m, "</span>");
    DropDrop(u, n, 1);
    ConsThen(u[n..], '>', v[..m] + "</span>");
    RunThen(u, n, ">" + (v[..m] + "</span>"));
    StartsWithAppend(t, StampLead, u[..n] + (">" + (v[..m] + "</span>")));
  }

  /** `<span class="updatets[^>]+>([^<]+)<\/span>` anchored at the start of `t`. */
  function StampAt(t: string): (r: Option<Hit>)
    ensures r.Some? ==> r.value.Stamp? && HitOk(r.value) && StartsWith(t, HitText(r.value))
  {
    if !StartsWith(t, StampLead) then None
    else
      var u := t[|StampLead|..];
      var n := SpanLen(u, Except('>'));
      if n == 0 || n == |u| then None
      else
        var v := u[n + 1..];
        var m := SpanLen(v, Except('<'));
        if m == 0 || !StartsWith(v[m..], "</span>") then None
        else
          StampFrame(t, n, m);
          Some(Stamp(u[..n], v[..m]))
  }

  lemma StampAtComplete(t: string, a: string, c: string)
    requires HitOk(Stamp(a, c)) && StartsWith(t, HitText(Stamp(a, c)))
    ensures StampAt(t) == Some(Stamp(a, c))
  {
    var close := "</span>";
    assert close[0] == '<';
    StartsWithAppend(t, StampLead, a + (">" + (c + close)));
    var u := t[|StampLead|..];
    GreedyRun(u, Except('>'), a, ">" + (c + close));
    var n := |a|;
    StartsWithAppend(u[n..], ">", c + close);
    DropDrop(u, n, 1);
    GreedyRun(u[n + 1..], Except('<'), c, close);
  }

  // ---------------------------------------------------------------- port and protocol

  lemma CellFrame(t: string, n: nat, k: nat)
    requires StartsWith(t, "<td>")
    requires var u := t[4..]; n <= |u| && k <= |u[n..]| && StartsWith(u[n..][k..], "</td>")
    ensures var u := t[4..]; var w := u[n..]; StartsWith(t, HitText(Cell(u[..n], w[..k])))
  {
    var u := t[4..];
    var w := u[n..];
    RunThen(w, k, "</td>");
    RunThen(u, n, w[..k] + "</td>");
    StartsWithAppend(t, "<td>", u[..n] + (w[..k] + "</td>"));
  }

  /** `<td>(\S+)\s+<\/td>` anchored at the start of `t`. */
  function CellAt(t: string): (r: Option<Hit>)
    ensures r.Some? ==> r.value.Cell? && HitOk(r.value) && StartsWith(t, HitText(r.value))
  {
    if !StartsWith(t, "<td>") then None
    else
      var u := t[4..];
      var n := SpanLen(u, NonPerlSpace);
      if n == 0 then None
      else
        var w := u[n..];
        var k := SpanLen(w, PerlSpace);
        if k == 0 || !StartsWith(w[k..], "</td>") then None
        else
          CellFrame(t, n, k);
          Some(Cell(u[..n], w[..k]))
  }

  lemma CellAtComplete(t: string, c: string, b: string)
    requires HitOk(Cell(c, b)) && StartsWith(t, HitText(Cell(c, b)))
    ensures CellAt(t) == Some(Cell(c, b))
  {
    var close := "</td>";
    assert close[0] == '<';
    StartsWithAppend(t, "<td>", c + (b + close));
    var u := t[4..];
    assert (b + close)[0] == b[0];
    GreedyRun(u, NonPerlSpace, c, b + close);
    GreedyRun(u[|c|..], PerlSpace, b, close);
  }

  // ---------------------------------------------------------------- country

  /** `\/>([^<]+)<\/span><\/td>` anchored at the start of `t`. */
  function CountryAt(t: string): (r: Option<Hit>)
    ensures r.Some? ==> r.value.Country? && HitOk(r.value) && StartsWith(t, HitText(r.value))
  {
    if !StartsWith(t, "/>") then None
    else
      var v := t[2..];
      var m := SpanLen(v, Except('<'));
      if m == 0 || !StartsWith(v[m..], "</span></td>") then None
      else
        RunThen(v, m, "</span></td>");
        StartsWithAppend(t, "/>", v[..m] + "</span></td>");
        Some(Country(v[..m]))
  }

  lemma CountryAtComplete(t: string, c: string)
    requires HitOk(Country(c)) && StartsWith(t, HitText(Country(c)))
    ensures CountryAt(t) == Some(Country(c))
  {
    var close := "</span></td>";
    assert close[0] == '<';
    StartsWithAppend(t, "/>", c + close);
    GreedyRun(t[2..], Except('<'), c, close);
  }

  // ---------------------------------------------------------------- speed and connection

  /** `style="width: ([0-9]+%);` anchored at the start of `t`. */
  function WidthAt(t: string): (r: Option<Hit>)
    ensures r.Some? ==> r.value.Width? && HitOk(r.value) && StartsWith(t, HitText(r.value))
  {
    if !StartsWith(t, WidthLead) then None
    else
      var v := t[|WidthLead|..];
      var m := SpanLen(v, Digit);
      if m == 0 || !StartsWith(v[m..], "%;") then None
      else
        RunThen(v, m, "%;");
        StartsWithAppend(t, WidthLead, v[..m] + "%;");
        Some(Width(v[..m]))
  }

  lemma WidthAtComplete(t: string, d: string)
    requires HitOk(Width(d)) && StartsWith(t, HitText(Width(d)))
    ensures WidthAt(t) == Some(Width(d))
  {
    var close := "%;";
    assert close[0] == '%';
    StartsWithAppend(t, WidthLead, d + close);
    GreedyRun(t[|WidthLead|..], Digit, d, close);
  }

  // ---------------------------------------------------------------- anonymity

  /** The closing tag `</td>` is `</td` and then the '>' the content run stops at. */
  lemma CloseCellParts()
    ensures "</td" + ">" == "</td>" && AllIn(Except('>'), "</td")
  {
  }

  lemma NowrapFrame(v: string, n: nat)
    requires 4 < n < |v| && v[n] == '>' && v[n - 4..n] == "</td"
    ensures StartsWith(v, v[..n - 4] + "</td>")
  {
    var w := v[n - 4..];
    DropTake(v, n - 4, 4);
    DropDrop(v, n - 4, 4);
    assert w[4..][..1] == [v[n]];
    CloseCellParts();
    StartsWithAppend(w, "</td", ">");
    RunThen(v, n - 4, "</td>");
  }

  /** `<td nowrap>([^>]+)<\/td>` anchored at the start of `t`. The greedy `[^>]+` stops before the
      first '>', so the closing tag can only be the `</td` just before that '>' (the engine backs
      off four characters); the content may hold '<'. */
  function NowrapAt(t: string): (r: Option<Hit>)
    ensures r.Some? ==> r.value.Nowrap? && HitOk(r.value) && StartsWith(t, HitText(r.value))
  {
    if !StartsWith(t, "<td nowrap>") then None
    else
      var v := t[11..];
      var n := SpanLen(v, Except('>'));
      if n == |v| || n <= 4 || v[n - 4..n] != "</td" then None
      else
        NowrapFrame(v, n);
        StartsWithAppend(t, "<td nowrap>", v[..n - 4] + "</td>");
        AllInTake(Except('>'), v[..n], n - 4);
        assert v[..n][..n - 4] == v[..n - 4];
        Some(Nowrap(v[..n - 4]))
  }

  lemma NowrapAtComplete(t: string, c: string)
    requires HitOk(Nowrap(c)) && StartsWith(t, HitText(Nowrap(c)))
    ensures NowrapAt(t) == Some(Nowrap(c))
  {
    StartsWithAppend(t, "<td nowrap>", c + "</td>");
    var v := t[11..];
    var c4 := c + "</td";
    CloseCellParts();
    AllInConcat(Except('>'), c, "</td");
    Assoc(c, "</td", ">");
    GreedyRun(v, Except('>'), c4, ">");
    var n := |c4|;
    assert v[n - 4..n] == v[..n][|c|..] == "</td";
    assert v[..n - 4] == v[..n][..|c|] == c;
  }

  // ---------------------------------------------------------------- all patterns

  /** Pattern `x` anchored at the start of `t`: the match there, if any. */
  function MatchAt(x: Extractor, t: string): (r: Option<Hit>)
    ensures r.Some? ==> Of(x, r.value) && HitOk(r.value) && StartsWith(t, HitText(r.value))
  {
    match x
    case UpdateStamp => StampAt(t)
    case CellToken => CellAt(t)
    case CountryName => CountryAt(t)
    case BarWidth => WidthAt(t)
    case NowrapCell => NowrapAt(t)
  }

  /** Every match of pattern `x` at the start of `t` is the one `MatchAt` reports: a pattern
      matches at most one way at a given position. */
  lemma MatchAtComplete(x: Extractor, t: string, h: Hit)
    requires Of(x, h) && HitOk(h) && StartsWith(t, HitText(h))
    ensures MatchAt(x, t) == Some(h)
  {
    match h
    case Stamp(a, c) => StampAtComplete(t, a, c);
    case Cell(c, b) => CellAtComplete(t, c, b);
    case Country(c) => CountryAtComplete(t, c);
    case Width(d) => WidthAtComplete(t, d);
    case Nowrap(c) => NowrapAtComplete(t, c);
  }

  /** Pattern `x` has a match starting at position `i` of `s`. */
  predicate MatchesAt(x: Extractor, s: string, i: int) {
    0 <= i < |s| && MatchAt(x, s[i..]).Some?
  }

  /** The leftmost position where pattern `x` matches, or -1 when it matches nowhere. */
  function Leftmost(x: Extractor, s: string): (i: int)
    ensures -1 <= i < |s|
    ensures i >= 0 ==> MatchesAt(x, s, i) && forall j :: 0 <= j < i ==> !MatchesAt(x, s, j)
    ensures i < 0 ==> forall j :: !MatchesAt(x, s, j)
    decreases |s|
  {
    if s == [] then -1
    else if MatchAt(x, s).Some? then
      assert s[0..] == s;
      0
    else
      var k := Leftmost(x, s[1..]);
      assert forall j :: 1 <= j < |s| ==> MatchesAt(x, s, j) == MatchesAt(x, s[1..], j - 1) by {
        forall j | 1 <= j < |s| ensures MatchesAt(x, s, j) == MatchesAt(x, s[1..], j - 1) {
          DropDrop(s, 1, j - 1);
        }
      }
      assert s[0..] == s;
      if k < 0 then -1 else k + 1
  }

  /** Go's `FindStringSubmatch(s)` followed by the `len(parts) == 2` test: the group of the leftmost
      match, or nothing when the pattern matches nowhere in `s`. */
  function Submatch(x: Extractor, s: string): (r: Option<string>)
    ensures r.Some? ==> GroupOk(x, r.value)
    ensures r.None? <==> forall j :: !MatchesAt(x, s, j)
  {
    var i := Leftmost(x, s);
    if i < 0 then None
    else
      HitGroupOk(x, MatchAt(x, s[i..]).value);
      Some(Group(MatchAt(x, s[i..]).value))
  }

  /** A match at position `i`, with no match further left, is the one whose group is reported. */
  lemma SubmatchIs(x: Extractor, s: string, i: nat, h: Hit)
    requires i < |s| && Of(x, h) && HitOk(h) && StartsWith(s[i..], HitText(h))
    requires forall j :: 0 <= j < i ==> !MatchesAt(x, s, j)
    ensures Submatch(x, s) == Some(Group(h))
  {
    MatchAtComplete(x, s[i..], h);
    var k := Leftmost(x, s);
    assert MatchesAt(x, s, i);
  }

  /** A match at the very start of the text is the one reported. */
  lemma SubmatchFirst(x: Extractor, h: Hit, q: string)
    requires Of(x, h) && HitOk(h)
    ensures Submatch(x, HitText(h) + q) == Some(Group(h))
  {
    var s := HitText(h) + q;
    SplitConcat(HitText(h), q);
    assert s[0..] == s;
    assert |HitText(h)| > 0;
    SubmatchIs(x, s, 0, h);
  }

  /** A row that begins with the cell `<td>8080 </td>` yields the port `8080`, whatever follows,
      a second cell included: the leftmost match is reported. */
  lemma PortScenario(rest: string)
    ensures Submatch(CellToken, "<td>8080 </td>" + rest) == Some("8080")
  {
    var h := Cell("8080", " ");
    assert HitText(h) == "<td>8080 </td>";
    assert HitOk(h);
    SubmatchFirst(CellToken, h, rest);
  }

  /** A bar `style="width: 75%;` yields `75%`: the group keeps its '%'. */
  lemma WidthScenario(rest: string)
    ensures Submatch(BarWidth, "style=\"width: 75%;" + rest) == Some("75%")
  {
    var h := Width("75");
    assert HitText(h) == "style=\"width: 75%;";
    assert HitOk(h);
    assert Group(h) == "75%";
    SubmatchFirst(BarWidth, h, rest);
  }

  /** `class="updatets"` is matched because `[^>]+` takes the closing quote. */
  lemma StampScenario(rest: string)
    ensures Submatch(UpdateStamp, "<span class=\"updatets\">10:42 </span>" + rest) == Some("10:42 ")
  {
    var h := Stamp("\"", "10:42 ");
    assert HitText(h) == "<span class=\"updatets\">10:42 </span>";
    assert HitOk(h);
    SubmatchFirst(UpdateStamp, h, rest);
  }

  /** A blank country name is found; it trims to the empty string. */
  lemma BlankCountryScenario(rest: string)
    ensures Submatch(CountryName, "/> </span></td>" + rest) == Some(" ") && TrimSpace(" ") == []
  {
    var h := Country(" ");
    assert HitText(h) == "/> </span></td>";
    assert HitOk(h);
    SubmatchFirst(CountryName, h, rest);
  }

  /** The anonymity level keeps its blanks until it is trimmed. */
  lemma AnonymityScenario(rest: string)
    ensures Submatch(NowrapCell, "<td nowrap> elite proxy </td>" + rest) == Some(" elite proxy ")
  {
    var h := Nowrap(" elite proxy ");
    assert HitText(h) == "<td nowrap> elite proxy </td>";
    assert HitOk(h);
    SubmatchFirst(NowrapCell, h, rest);
  }

  /** The anonymity group may hold '<', and even a `</td` that no '>' follows: only the first '>'
      ends the run, and the engine backs off to the `</td` just before it. */
  lemma NowrapBackOffScenario(rest: string)
    ensures NowrapAt("<td nowrap>a</td</td>" + rest) == Some(Nowrap("a</td"))
  {
    var h := Nowrap("a</td");
    assert HitText(h) == "<td nowrap>a</td</td>";
    assert HitOk(h);
    StartsWithAppend(HitText(h) + rest, HitText(h), rest);
    NowrapAtComplete(HitText(h) + rest, "a</td");
  }

  /** The trailing blank of the time stamp is trimmed. */
  lemma StampTrim()
    ensures TrimSpace("10:42" + " ") == "10:42"
  {
    TrimSpaceIs([], "10:42", " ");
    assert [] + "10:42" + " " == "10:42" + " ";
  }

  /** The outer blanks of the anonymity level are trimmed, the inner one kept. */
  lemma LevelTrim()
    ensures TrimSpace(" " + "elite proxy" + " ") == "elite proxy"
  {
    TrimSpaceIs(" ", "elite proxy", " ");
  }
}
