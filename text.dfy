/** Text primitives shared by the matchers: literal prefixes, Go's `strings.Index`, the character
    classes the regular expressions use, greedy runs of one class, Go's `strings.TrimSpace`, and
    "is a subsequence of" (the relation every rewriting pass keeps between its output and input). */
module Text {

  datatype Option<T> = None | Some(value: T)

  /** `s` begins with `lit`. */
  predicate StartsWith(s: string, lit: string) {
    |lit| <= |s| && s[..|lit|] == lit
  }

  /** One differing character rules a literal out. */
  lemma StartsWithMismatch(s: string, lit: string, i: nat)
    requires i < |lit| && i < |s| && s[i] != lit[i]
    ensures !StartsWith(s, lit)
  {
    if |lit| <= |s| {
      assert s[..|lit|][i] == s[i];
    }
  }

  /** Concatenation regrouped. */
  lemma Assoc(a: string, b: string, c: string)
    ensures (a + b) + c == a + (b + c)
  {
  }

  /** Dropping a prefix of the left part of a concatenation. */
  lemma DropAppend(a: string, w: string, k: nat)
    requires k <= |a|
    ensures (a + w)[k..] == a[k..] + w
  {
  }

  /** Keeping a prefix of the left part of a concatenation. */
  lemma TakeAppend(a: string, w: string, k: nat)
    requires k <= |a|
    ensures (a + w)[..k] == a[..k]
  {
  }

  /** The two parts of a concatenation, cut where they meet. */
  lemma SplitConcat(u: string, w: string)
    ensures (u + w)[..|u|] == u && (u + w)[|u|..] == w
  {
  }

  /** A string cut in two places back together. */
  lemma Halves(s: string, i: nat)
    requires i <= |s|
    ensures s[..i] + s[i..] == s
  {
  }

  /** A non-empty string is its first character followed by the rest. */
  lemma HeadTail(x: string)
    requires x != []
    ensures [x[0]] + x[1..] == x
  {
  }

  /** A prefix followed by a prefix of what comes after it is a longer prefix. */
  lemma TakeJoin(s: string, i: nat, g: nat)
    requires i + g <= |s|
    ensures s[..i] + s[i..][..g] == s[..i + g]
  {
  }

  /** Dropping twice is dropping once. */
  lemma DropDrop(s: string, i: nat, j: nat)
    requires i + j <= |s|
    ensures s[i..][j..] == s[i + j..]
  {
  }

  /** A prefix of a suffix is a slice. */
  lemma DropTake(s: string, i: nat, j: nat)
    requires i + j <= |s|
    ensures s[i..][..j] == s[i..i + j]
  {
  }

  /** A string cut in three places. */
  lemma Split3(s: string, i: nat, j: nat)
    requires i <= j <= |s|
    ensures s == s[..i] + s[i..j] + s[j..]
  {
    assert s[..i] + s[i..j] == s[..j];
  }

  /** The middle part of a concatenation of three, cut out again. */
  lemma MiddleSlice(a: string, c: string, z: string)
    ensures (a + c + z)[|a|..|a| + |c|] == c
  {
  }

  /** A prefix made of two parts: the first part, then the second where the first ends. */
  lemma StartsWithAppend(t: string, x: string, y: string)
    ensures StartsWith(t, x + y) <==> StartsWith(t, x) && StartsWith(t[|x|..], y)
  {
    if |x| + |y| <= |t| {
      assert t[..|x| + |y|] == t[..|x|] + t[|x|..][..|y|];
      if StartsWith(t, x + y) {
        assert t[..|x|] == (x + y)[..|x|];
        assert t[|x|..][..|y|] == (x + y)[|x|..];
      }
    }
  }

  /** A literal at the join of two strings either lies in the left part or straddles the join. */
  lemma StartsWithConcat(t: string, w: string, lit: string)
    ensures StartsWith(t + w, lit) <==>
      StartsWith(t, lit) || (|t| < |lit| && t == lit[..|t|] && StartsWith(w, lit[|t|..]))
  {
    if |lit| <= |t| {
      assert (t + w)[..|lit|] == t[..|lit|];
    } else if |lit| <= |t| + |w| {
      assert (t + w)[..|lit|] == t + w[..|lit| - |t|];
      if StartsWith(t + w, lit) {
        assert lit[..|t|] == (t + w)[..|lit|][..|t|] == t;
        assert lit[|t|..] == (t + w)[..|lit|][|t|..] == w[..|lit| - |t|];
      }
      if t == lit[..|t|] && StartsWith(w, lit[|t|..]) {
        assert lit == lit[..|t|] + lit[|t|..];
      }
    }
  }

  /** `lit` occurs in `s` starting at position `j`. */
  predicate OccursAt(s: string, lit: string, j: int) {
    0 <= j <= |s| && StartsWith(s[j..], lit)
  }

  /** Go's `strings.Index`: the first position where `lit` occurs in `s`, or -1 when it does not. */
  function IndexOf(s: string, lit: string): (r: int)
    ensures -1 <= r <= |s|
    ensures r >= 0 ==> OccursAt(s, lit, r)
    ensures r >= 0 ==> forall j :: 0 <= j < r ==> !OccursAt(s, lit, j)
    ensures r < 0 ==> forall j :: !OccursAt(s, lit, j)
    decreases |s|
  {
    if StartsWith(s, lit) then
      assert s[0..] == s;
      0
    else if s == [] then -1
    else
      var k := IndexOf(s[1..], lit);
      assert forall j :: 1 <= j <= |s| ==> OccursAt(s, lit, j) == OccursAt(s[1..], lit, j - 1) by {
        forall j | 1 <= j <= |s| ensures OccursAt(s, lit, j) == OccursAt(s[1..], lit, j - 1) {
          assert s[j..] == s[1..][j - 1..];
        }
      }
      assert s[0..] == s;
      if k < 0 then -1 else k + 1
  }

  /** The first occurrence is at `k` when one is there and none is earlier; there is none when no
      position holds one. */
  lemma IndexOfIs(s: string, lit: string, k: int)
    requires k >= 0 ==> OccursAt(s, lit, k)
    requires forall j :: (k < 0 || j < k) ==> !OccursAt(s, lit, j)
    ensures IndexOf(s, lit) == (if k < 0 then -1 else k)
  {
  }

  /** Searching `a + b` for a literal that begins with its only '<', when `a` holds no occurrence
      and nothing in `a` can start one across the join: the search lands in `b`. */
  lemma IndexOfPastPrefix(a: string, b: string, lit: string)
    requires |lit| > 0 && lit[0] == '<' && '<' !in lit[1..]
    requires IndexOf(a, lit) < 0
    requires '<' !in a || (b != [] && b[0] == '<')
    ensures IndexOf(a + b, lit) == if IndexOf(b, lit) < 0 then -1 else |a| + IndexOf(b, lit)
  {
    var k := IndexOf(b, lit);
    forall j | true
      ensures OccursAt(a + b, lit, j) <==> |a| <= j && OccursAt(b, lit, j - |a|)
    {
      OccursAcrossJoin(a, b, lit, j);
    }
    IndexOfIs(a + b, lit, if k < 0 then -1 else |a| + k);
  }

  lemma OccursAcrossJoin(a: string, b: string, lit: string, j: int)
    requires |lit| > 0 && lit[0] == '<' && '<' !in lit[1..]
    requires IndexOf(a, lit) < 0
    requires '<' !in a || (b != [] && b[0] == '<')
    ensures OccursAt(a + b, lit, j) <==> |a| <= j && OccursAt(b, lit, j - |a|)
  {
    if 0 <= j < |a| {
      assert (a + b)[j..] == a[j..] + b;
      assert !OccursAt(a, lit, j);
      NoOccurrenceAtJoin(a[j..], b, lit);
    } else if |a| <= j <= |a| + |b| {
      assert (a + b)[j..] == b[j - |a|..];
    }
  }

  lemma NoOccurrenceAtJoin(a: string, b: string, lit: string)
    requires |lit| > 0 && lit[0] == '<' && '<' !in lit[1..]
    requires a != [] && !StartsWith(a, lit)
    requires '<' !in a || (b != [] && b[0] == '<')
    ensures !StartsWith(a + b, lit)
  {
    StartsWithConcat(a, b, lit);
  }

  /** The whitespace class `\s` of Go's regular expressions (RE2's Perl class): tab, newline,
      form feed, carriage return and space; vertical tab is not in it. */
  predicate IsPerlSpace(c: char) {
    c == '\t' || c == '\n' || c == '\U{C}' || c == '\r' || c == ' '
  }

  /** Unicode's White_Space property, which Go's `strings.TrimSpace` trims. */
  predicate IsUnicodeSpace(c: char) {
    ('\t' <= c <= '\r') || c == ' ' || c == '\U{85}' || c == '\U{A0}' || c == '\U{1680}' ||
    ('\U{2000}' <= c <= '\U{200A}') || c == '\U{2028}' || c == '\U{2029}' ||
    c == '\U{202F}' || c == '\U{205F}' || c == '\U{3000}'
  }

  predicate IsDigit(c: char) { '0' <= c <= '9' }

  /** A character of the token class `[0-9a-zA-Z_\-]`. */
  predicate IsTokenChar(c: char) {
    IsDigit(c) || ('a' <= c <= 'z') || ('A' <= c <= 'Z') || c == '_' || c == '-'
  }

  /** The character classes the patterns repeat. */
  datatype CharClass =
    | Except(c: char)   // [^c]; also `.` as Except('\n')
    | PerlSpace         // \s
    | NonPerlSpace      // \S
    | Digit             // [0-9]
    | DigitOrDot        // [0-9\.]
    | TokenChar         // [0-9a-zA-Z_\-]
    | UnicodeSpace      // what strings.TrimSpace removes

  predicate InClass(k: CharClass, c: char) {
    match k
    case Except(x) => c != x
    case PerlSpace => IsPerlSpace(c)
    case NonPerlSpace => !IsPerlSpace(c)
    case Digit => IsDigit(c)
    case DigitOrDot => IsDigit(c) || c == '.'
    case TokenChar => IsTokenChar(c)
    case UnicodeSpace => IsUnicodeSpace(c)
  }

  /** Every character of `s` is in class `k`. */
  predicate AllIn(k: CharClass, s: string) {
    forall i :: 0 <= i < |s| ==> InClass(k, s[i])
  }

  /** A character is absent exactly when every character is outside it. */
  lemma AbsentAllIn(c: char, s: string)
    ensures c !in s <==> AllIn(Except(c), s)
  {
  }

  /** A class holds over a concatenation exactly when it holds over both parts. */
  lemma AllInConcat(k: CharClass, a: string, b: string)
    ensures AllIn(k, a + b) <==> AllIn(k, a) && AllIn(k, b)
  {
    if AllIn(k, a + b) {
      forall i | 0 <= i < |a| ensures InClass(k, a[i]) {
        assert a[i] == (a + b)[i];
      }
      forall i | 0 <= i < |b| ensures InClass(k, b[i]) {
        assert b[i] == (a + b)[|a| + i];
      }
    }
  }

  /** Length of the longest prefix of `t` in class `k`: what a greedy `k+` or `k*` consumes. */
  function SpanLen(t: string, k: CharClass): (n: nat)
    ensures n <= |t|
    ensures AllIn(k, t[..n])
    ensures n < |t| ==> !InClass(k, t[n])
  {
    if t == [] || !InClass(k, t[0]) then 0 else 1 + SpanLen(t[1..], k)
  }

  /** A run is the longest one exactly when the next character is outside the class. */
  lemma SpanLenExact(t: string, k: CharClass, n: nat)
    requires n <= |t| && AllIn(k, t[..n])
    requires n < |t| ==> !InClass(k, t[n])
    ensures SpanLen(t, k) == n
  {
  }

  /** A greedy run is at least as long as any prefix wholly in the class. */
  lemma SpanLenAtLeast(t: string, k: CharClass, n: nat)
    requires n <= |t| && AllIn(k, t[..n])
    ensures n <= SpanLen(t, k)
  {
  }

  /** A string wholly in the class is consumed entirely. */
  lemma SpanLenAll(t: string, k: CharClass)
    requires AllIn(k, t)
    ensures SpanLen(t, k) == |t|
  {
    assert t[..|t|] == t;
    SpanLenExact(t, k, |t|);
  }

  /** A suffix of a string wholly in a class is wholly in it too. */
  lemma AllInDrop(k: CharClass, t: string, g: nat)
    requires AllIn(k, t) && g <= |t|
    ensures AllIn(k, t[g..])
  {
    forall j | 0 <= j < |t| - g ensures InClass(k, t[g..][j]) {
      assert t[g..][j] == t[g + j];
    }
  }

  /** A non-empty run of the class followed by text that starts outside the class: the greedy
      run takes exactly the run. */
  lemma GreedyRun(w: string, k: CharClass, c: string, rest: string)
    requires AllIn(k, c) && rest != [] && !InClass(k, rest[0]) && StartsWith(w, c + rest)
    ensures SpanLen(w, k) == |c| && w[..|c|] == c && StartsWith(w[|c|..], rest)
  {
    StartsWithAppend(w, c, rest);
    assert w[|c|] == w[|c|..][0] == rest[0];
    SpanLenExact(w, k, |c|);
  }

  /** The greedy run of a class, followed by `rest`, begins the text it was read from. */
  lemma RunThen(w: string, n: nat, rest: string)
    requires n <= |w| && StartsWith(w[n..], rest)
    ensures StartsWith(w, w[..n] + rest)
  {
    StartsWithAppend(w, w[..n], rest);
  }

  /** A prefix of a string wholly in a class is wholly in it too. */
  lemma AllInTake(k: CharClass, t: string, g: nat)
    requires AllIn(k, t) && g <= |t|
    ensures AllIn(k, t[..g])
  {
    forall j | 0 <= j < g ensures InClass(k, t[..g][j]) {
      assert t[..g][j] == t[j];
    }
  }

  /** A text that begins with `c` and continues with `rest` begins with `[c] + rest`. */
  lemma ConsThen(w: string, c: char, rest: string)
    requires w != [] && w[0] == c && StartsWith(w[1..], rest)
    ensures StartsWith(w, [c] + rest)
  {
    assert w[..1] == [c];
    StartsWithAppend(w, [c], rest);
  }

  /** A greedy run over a join stops in the left part unless the left part is all in the class. */
  lemma SpanLenConcat(t: string, w: string, k: CharClass)
    ensures SpanLen(t + w, k) == if SpanLen(t, k) < |t| then SpanLen(t, k) else |t| + SpanLen(w, k)
  {
    if SpanLen(t, k) < |t| {
      SpanLenStopsInLeft(t, w, k);
    } else {
      SpanLenCrossesJoin(t, w, k);
    }
  }

  /** A run that stops inside the left part stops there in the join too. */
  lemma SpanLenStopsInLeft(t: string, w: string, k: CharClass)
    requires SpanLen(t, k) < |t|
    ensures SpanLen(t + w, k) == SpanLen(t, k)
  {
    var n := SpanLen(t, k);
    assert (t + w)[..n] == t[..n];
    assert (t + w)[n] == t[n];
    SpanLenExact(t + w, k, n);
  }

  /** A left part wholly in the class is crossed, and the run continues into the right part. */
  lemma SpanLenCrossesJoin(t: string, w: string, k: CharClass)
    requires SpanLen(t, k) == |t|
    ensures SpanLen(t + w, k) == |t| + SpanLen(w, k)
  {
    var m := SpanLen(w, k);
    assert t[..|t|] == t;
    assert (t + w)[..|t| + m] == t + w[..m];
    AllInConcat(k, t, w[..m]);
    assert |t| + m < |t + w| ==> (t + w)[|t| + m] == w[m];
    SpanLenExact(t + w, k, |t| + m);
  }

  /** A run at the end of all but the last character grows by that character. */
  lemma TrailStep(s: string, k: CharClass, m: nat)
    requires m < |s| && AllIn(k, s[..|s| - 1][|s| - 1 - m..]) && InClass(k, s[|s| - 1])
    ensures AllIn(k, s[|s| - m - 1..])
  {
    var t := s[|s| - m - 1..];
    var u := s[..|s| - 1][|s| - 1 - m..];
    forall i | 0 <= i < |t| ensures InClass(k, t[i]) {
      if i < m {
        assert t[i] == u[i];
      }
    }
  }

  /** Length of the longest suffix of `s` in class `k`. */
  function TrailLen(s: string, k: CharClass): (n: nat)
    ensures n <= |s|
    ensures AllIn(k, s[|s| - n..])
    ensures n < |s| ==> !InClass(k, s[|s| - n - 1])
  {
    if s == [] || !InClass(k, s[|s| - 1]) then 0
    else
      var m := TrailLen(s[..|s| - 1], k);
      TrailStep(s, k, m);
      1 + m
  }

  /** `s` is `r` with the all-blank `p` in front and the all-blank `q` behind. */
  ghost predicate PaddedBy(s: string, p: string, r: string, q: string) {
    s == p + r + q && AllIn(UnicodeSpace, p) && AllIn(UnicodeSpace, q)
  }

  /** Go's `strings.TrimSpace`: `s` without its leading and trailing white space. */
  function TrimSpace(s: string): (r: string)
    ensures exists p, q :: PaddedBy(s, p, r, q)
    ensures r == [] || (!IsUnicodeSpace(r[0]) && !IsUnicodeSpace(r[|r| - 1]))
    ensures r == [] <==> AllIn(UnicodeSpace, s)
  {
    var lead := SpanLen(s, UnicodeSpace);
    if lead == |s| then
      assert s[..lead] == s;
      assert PaddedBy(s, s, [], []);
      []
    else
      var rest := s[lead..];
      assert rest[0] == s[lead];
      var trail := TrailLen(rest, UnicodeSpace);
      assert trail < |rest|;
      var j := |s| - trail;
      DropDrop(s, lead, |rest| - trail);
      DropTake(s, lead, |rest| - trail);
      Split3(s, lead, j);
      var r := s[lead..j];
      assert PaddedBy(s, s[..lead], r, s[j..]);
      assert r[0] == s[lead] && r[|r| - 1] == rest[|rest| - trail - 1];
      r
  }

  /** A trailing run is the longest one exactly when the character before it is outside the class. */
  lemma TrailLenExact(s: string, k: CharClass, n: nat)
    requires n <= |s| && AllIn(k, s[|s| - n..])
    requires n < |s| ==> !InClass(k, s[|s| - n - 1])
    ensures TrailLen(s, k) == n
  {
  }

  /** `strings.TrimSpace` gives back exactly the text between blank padding when that text neither
      begins nor ends with white space. */
  lemma TrimSpaceIs(p: string, r: string, q: string)
    requires AllIn(UnicodeSpace, p) && AllIn(UnicodeSpace, q)
    requires r == [] || (!IsUnicodeSpace(r[0]) && !IsUnicodeSpace(r[|r| - 1]))
    ensures TrimSpace(p + r + q) == r
  {
    var s := p + r + q;
    if r == [] {
      assert s == p + q;
      AllInConcat(UnicodeSpace, p, q);
    } else {
      assert s[..|p|] == p && s[|p|] == r[0];
      SpanLenExact(s, UnicodeSpace, |p|);
      var rest := s[|p|..];
      assert rest == r + q;
      assert rest[|rest| - |q|..] == q && rest[|rest| - |q| - 1] == r[|r| - 1];
      TrailLenExact(rest, UnicodeSpace, |q|);
      assert rest[..|rest| - |q|] == r;
    }
  }

  /** `a` is obtained from `b` by deleting characters. */
  predicate Embeds(a: string, b: string)
    decreases |b|
  {
    a == [] || (b != [] && (Embeds(a, b[1..]) || (a[0] == b[0] && Embeds(a[1..], b[1..]))))
  }

  lemma {:induction false} EmbedsRefl(a: string)
    ensures Embeds(a, a)
    decreases |a|
  {
    if a != [] {
      EmbedsRefl(a[1..]);
    }
  }

  lemma {:induction false} EmbedsExtendLeft(a: string, b: string, x: string)
    requires Embeds(a, b)
    ensures Embeds(a, x + b)
    decreases |x|
  {
    if x == [] {
      assert x + b == b;
    } else {
      EmbedsExtendLeft(a, b, x[1..]);
      assert (x + b)[1..] == x[1..] + b;
      assert Embeds(a, (x + b)[1..]);
    }
  }

  lemma {:induction false} EmbedsConcat(a1: string, b1: string, a2: string, b2: string)
    requires Embeds(a1, b1) && Embeds(a2, b2)
    ensures Embeds(a1 + a2, b1 + b2)
    decreases |b1|
  {
    if a1 == [] {
      assert a1 + a2 == a2;
      EmbedsExtendLeft(a2, b2, b1);
    } else if Embeds(a1, b1[1..]) {
      EmbedsConcat(a1, b1[1..], a2, b2);
      assert (b1 + b2)[1..] == b1[1..] + b2;
    } else {
      EmbedsConcat(a1[1..], b1[1..], a2, b2);
      assert (b1 + b2)[1..] == b1[1..] + b2;
      assert (a1 + a2)[1..] == a1[1..] + a2;
    }
  }

  lemma {:induction false} EmbedsTrans(a: string, b: string, c: string)
    requires Embeds(a, b) && Embeds(b, c)
    ensures Embeds(a, c)
    decreases |c|
  {
    if a == [] {
    } else if Embeds(b, c[1..]) {
      EmbedsTrans(a, b, c[1..]);
    } else if Embeds(a, b[1..]) {
      EmbedsTrans(a, b[1..], c[1..]);
    } else {
      EmbedsTrans(a[1..], b[1..], c[1..]);
    }
  }

  /** Subsequences of the two halves of `s` make a subsequence of `s`. */
  lemma EmbedsSplit(x: string, y: string, s: string, n: nat)
    requires n <= |s| && Embeds(x, s[..n]) && Embeds(y, s[n..])
    ensures Embeds(x + y, s)
  {
    EmbedsConcat(x, s[..n], y, s[n..]);
    Halves(s, n);
  }

  /** Any slice of `s` is a subsequence of it. */
  lemma EmbedsSlice(s: string, i: nat, j: nat)
    requires i <= j <= |s|
    ensures Embeds(s[i..j], s)
  {
    var mid := s[i..j];
    EmbedsRefl(mid);
    DropTake(s, i, j - i);
    EmbedsSplit(mid, [], s[i..], j - i);
    assert mid + [] == mid;
    EmbedsExtendLeft(mid, s[i..], s[..i]);
    Halves(s, i);
  }

  /** A subsequence is never longer than the text it is taken from. */
  lemma {:induction false} EmbedsLength(a: string, b: string)
    requires Embeds(a, b)
    ensures |a| <= |b|
    decreases |b|
  {
    if a != [] {
      if Embeds(a, b[1..]) {
        EmbedsLength(a, b[1..]);
      } else {
        EmbedsLength(a[1..], b[1..]);
      }
    }
  }
}
