/** The `Proxy` record of proxylist.go and its methods, each reading one row of the listing page.
    The seven field extractors overwrite their own field only when their pattern is found.
    `ParseAddress` overwrites `address` whenever the cleaned text is non-empty, whether or not
    any pattern matched. `InvisibleTags` and `DecodeAddress` only compute and write no field. */
module ProxyList {
  import opened Text
  import opened StyleRules
  import opened Rewrite
  import opened Address
  import Extract

  /** A snapshot of every field of a `Proxy`. */
  datatype Record = Record(
    unique: int, filter: int,
    lastUpdate: string, address: string, port: string, country: string,
    speed: string, connection: string, protocol: string, anonymity: string)

  /** The group of pattern `x` in `line`, or `keep` when the pattern is absent (`len(parts) == 2`
      fails). */
  function Found(x: Extract.Extractor, line: string, keep: string): (r: string)
    ensures (forall j :: !Extract.MatchesAt(x, line, j)) ==> r == keep
    ensures (exists j :: Extract.MatchesAt(x, line, j)) ==> Extract.GroupOk(x, r)
  {
    match Extract.Submatch(x, line)
    case Some(g) => g
    case None => keep
  }

  /** As `Found`, with Go's `strings.TrimSpace` applied to a group that is found. */
  function FoundTrimmed(x: Extract.Extractor, line: string, keep: string): (r: string)
    ensures (forall j :: !Extract.MatchesAt(x, line, j)) ==> r == keep
    ensures (exists j :: Extract.MatchesAt(x, line, j)) ==>
      exists g :: Extract.GroupOk(x, g) && r == TrimSpace(g)
  {
    match Extract.Submatch(x, line)
    case Some(g) => TrimSpace(g)
    case None => keep
  }

  /** `ParsePort` and `ParseProtocol` share one pattern, `ParseSpeed` and `ParseConnection`
      another: once the pattern is found in a row, both fields of a pair receive the same value,
      whatever they held before. */
  lemma PairedFields(x: Extract.Extractor, line: string, a: string, b: string)
    requires exists j :: Extract.MatchesAt(x, line, j)
    ensures Found(x, line, a) == Found(x, line, b)
  {
    assert Extract.Submatch(x, line).Some?;
  }

  class Proxy {
    var unique: int
    var filter: int
    var lastUpdate: string
    var address: string
    var port: string
    var country: string
    var speed: string
    var connection: string
    var protocol: string
    var anonymity: string

    /** Every field, as one value. */
    function Fields(): Record
      reads this
    {
      Record(unique, filter, lastUpdate, address, port, country, speed, connection, protocol, anonymity)
    }

    /** Go's zero value `Proxy{}`. */
    constructor ()
      ensures Fields() == Record(0, 0, "", "", "", "", "", "", "", "")
    {
      unique, filter := 0, 0;
      lastUpdate, address, port, country := "", "", "", "";
      speed, connection, protocol, anonymity := "", "", "", "";
    }

    /** The class tokens the row's stylesheet hides: the rules `.T{display:none}` between the first
        `<style>` and the first `</style>`, in order and with repeats. Go panics when the slice is
        out of range, which the precondition excludes. */
    method InvisibleTags(line: string) returns (invisible: seq<string>)
      requires StyleBounds(line)
      ensures invisible == HiddenTokens(StyleSection(line))
      ensures forall t :: t in invisible <==>
        IsToken(t) && exists j :: OccursAt(StyleSection(line), RuleText(Rule(t, true)), j)
    {
      var section := StyleSection(line);
      var parts := RuleMatches(section);
      invisible := [];
      var i := 0;
      while i < |parts|
        invariant 0 <= i <= |parts|
        invariant invisible == NoneTokens(parts[..i])
      {
        if parts[i].hidden {
          invisible := invisible + [parts[i].token];
        }
        NoneTokensSnoc(parts[..i], parts[i]);
        assert parts[..i + 1] == parts[..i] + [parts[i]];
        i := i + 1;
      }
      assert parts[..i] == parts;
      ScanFindsEveryHidingRule(section);
      forall t ensures t in invisible <==>
        IsToken(t) && exists j :: OccursAt(section, RuleText(Rule(t, true)), j)
      {
        HiddenTokensMembership(section, t);
      }
    }

    /** The passes of `ParseAddress` over the markup after the first `</style>`, in the order the
        Go code runs them: the empty spans, the inline-hidden elements, one pass per hidden class
        token, the inline-shown elements, the other classes, and the final trim. */
    method DecodeAddress(line: string) returns (content: string)
      requires StyleBounds(line)
      ensures content == CleanAddress(line)
    {
      var end := IndexOf(line, "</style>");
      content := line[end + 8..];
      assert content == PostStyle(line);
      content := ReplaceAll(EmptySpan, content);
      content := ReplaceAll(StyleHidden, content);
      ghost var mid := content;
      assert mid == ReplaceAll(StyleHidden, ReplaceAll(EmptySpan, PostStyle(line)));

      var invisible := InvisibleTags(line);
      var i := 0;
      while i < |invisible|
        invariant 0 <= i <= |invisible|
        invariant content == Run(ClassPasses(invisible[..i]), mid)
      {
        ClassPassesSnoc(invisible, i, mid);
        content := ReplaceAll(ClassHidden(invisible[i]), content);
        i := i + 1;
      }
      assert invisible[..i] == invisible;
      CleanAddressSteps(line, invisible, mid, content);

      content := ReplaceAll(StyleInline, content);
      content := ReplaceAll(AnyClass, content);
      content := ReplaceAll(TrailingRun, content);
    }

    /** Decodes the address shown after the stylesheet and stores it unless nothing is left. */
    method ParseAddress(line: string)
      requires StyleBounds(line)
      modifies this
      ensures Fields() == old(Fields()).(address :=
        if CleanAddress(line) != [] then CleanAddress(line) else old(address))
    {
      var content := DecodeAddress(line);
      if content != [] {
        address := content;
      }
    }

    /** The time stamp of `<span class="updatets…">…</span>`, trimmed. */
    method ParseLastUpdate(line: string)
      modifies this
      ensures Fields() == old(Fields()).(lastUpdate :=
        FoundTrimmed(Extract.UpdateStamp, line, old(lastUpdate)))
    {
      var parts := Extract.Submatch(Extract.UpdateStamp, line);
      if parts.Some? {
        lastUpdate := TrimSpace(parts.value);
      }
    }

    /** The first non-blank token of a cell `<td>… </td>`. */
    method ParsePort(line: string)
      modifies this
      ensures Fields() == old(Fields()).(port := Found(Extract.CellToken, line, old(port)))
    {
      var parts := Extract.Submatch(Extract.CellToken, line);
      if parts.Some? {
        port := parts.value;
      }
    }

    /** The country name of `/>…</span></td>`, trimmed. */
    method ParseCountry(line: string)
      modifies this
      ensures Fields() == old(Fields()).(country :=
        FoundTrimmed(Extract.CountryName, line, old(country)))
    {
      var parts := Extract.Submatch(Extract.CountryName, line);
      if parts.Some? {
        country := TrimSpace(parts.value);
      }
    }

    /** The width of the speed bar, `style="width: N%;`, with its '%'. */
    method ParseSpeed(line: string)
      modifies this
      ensures Fields() == old(Fields()).(speed := Found(Extract.BarWidth, line, old(speed)))
    {
      var parts := Extract.Submatch(Extract.BarWidth, line);
      if parts.Some? {
        speed := parts.value;
      }
    }

    /** The width of the connection-time bar, read with the same pattern as the speed. */
    method ParseConnection(line: string)
      modifies this
      ensures Fields() == old(Fields()).(connection :=
        Found(Extract.BarWidth, line, old(connection)))
    {
      var parts := Extract.Submatch(Extract.BarWidth, line);
      if parts.Some? {
        connection := parts.value;
      }
    }

    /** The protocol cell, read with the same pattern as the port. */
    method ParseProtocol(line: string)
      modifies this
      ensures Fields() == old(Fields()).(protocol := Found(Extract.CellToken, line, old(protocol)))
    {
      var parts := Extract.Submatch(Extract.CellToken, line);
      if parts.Some? {
        protocol := parts.value;
      }
    }

    /** The anonymity level of `<td nowrap>…</td>`, trimmed. */
    method ParseAnonymity(line: string)
      modifies this
      ensures Fields() == old(Fields()).(anonymity :=
        FoundTrimmed(Extract.NowrapCell, line, old(anonymity)))
    {
      var parts := Extract.Submatch(Extract.NowrapCell, line);
      if parts.Some? {
        anonymity := TrimSpace(parts.value);
      }
    }
  }
}
