/**
 * The URL extractor: `UrlRegex.FindString` for the one pattern
 *
 *     https?://\S+\.+[a-z]{2,6}/[^>\s]*
 *
 * Go's regexp package reports the leftmost match and, among the matches that
 * start there, the one a backtracking engine finds first (every quantifier here
 * is greedy, so it tries more repetitions before fewer). The declarative side
 * of this module says what that match is; the matcher functions search for it
 * the way a backtracking engine does, and their contracts tie the two together.
 */
module UrlPattern {
  import opened Wrappers

  /** `\s` in Go's regexp syntax: tab, newline, form feed, carriage return and space. */
  predicate IsSpace(ch: char) {
    ch == '\t' || ch == '\n' || ch == '\U{C}' || ch == '\r' || ch == ' '
  }

  /** The character classes the pattern uses. */
  datatype CharClass =
    | NonSpace  // \S
    | Dot       // \.
    | Lower     // [a-z]
    | PathChar  // [^>\s]

  predicate InClass(ch: char, cls: CharClass) {
    match cls
    case NonSpace => !IsSpace(ch)
    case Dot => ch == '.'
    case Lower => 'a' <= ch <= 'z'
    case PathChar => ch != '>' && !IsSpace(ch)
  }

  /** Every character of s[lo..hi] is in cls (and hi is inside s). */
  predicate AllIn(s: string, lo: nat, hi: nat, cls: CharClass) {
    hi <= |s| && forall k :: lo <= k < hi ==> InClass(s[k], cls)
  }

  /** The end of the longest run of cls characters that starts at k. */
  function RunEnd(s: string, k: nat, cls: CharClass): (r: nat)
    requires k <= |s|
    decreases |s| - k
    ensures k <= r <= |s| && AllIn(s, k, r, cls)
    ensures r < |s| ==> !InClass(s[r], cls)
  {
    if k < |s| && InClass(s[k], cls) then RunEnd(s, k + 1, cls) else k
  }

  /** Nothing longer than RunEnd is a run of cls. */
  lemma RunEndIsLongest(s: string, k: nat, e: nat, cls: CharClass)
    requires k <= |s| && AllIn(s, k, e, cls)
    ensures e <= RunEnd(s, k, cls)
  {
  }

  /**
   * One way a match starting at i splits s: `https?://` ends at q, `\S+` at a,
   * `\.+` at b, `[a-z]{2,6}` at c, the `/` is s[c], and `[^>\s]*` ends at e.
   * The match is s[i..e].
   */
  datatype Parse = Parse(q: nat, a: nat, b: nat, c: nat, e: nat)

  /** `https?://` occupies s[i..q]. */
  predicate SchemeAt(s: string, i: nat, q: nat) {
    (q == i + 8 && q <= |s| && s[i..q] == "https://")
    || (q == i + 7 && q <= |s| && s[i..q] == "http://")
  }

  /** p is a way of matching the whole pattern at i. */
  predicate ValidParse(s: string, i: nat, p: Parse) {
    && SchemeAt(s, i, p.q)
    && p.q < p.a && AllIn(s, p.q, p.a, NonSpace)
    && p.a < p.b && AllIn(s, p.a, p.b, Dot)
    && p.b + 2 <= p.c <= p.b + 6 && AllIn(s, p.b, p.c, Lower)
    && p.c < |s| && s[p.c] == '/'
    && p.c < p.e && AllIn(s, p.c + 1, p.e, PathChar)
  }

  /**
   * The order in which a backtracking engine meets the parses: the scheme with
   * `s` first, then each greedy quantifier from the most repetitions down. The
   * parse met first is the greatest in this lexicographic order.
   */
  predicate LexLe(x: Parse, y: Parse) {
    || x.q < y.q
    || (x.q == y.q && (x.a < y.a
    || (x.a == y.a && (x.b < y.b
    || (x.b == y.b && (x.c < y.c
    || (x.c == y.c && x.e <= y.e)))))))
  }

  /** Some match of the pattern starts at i. */
  ghost predicate StartsMatch(s: string, i: nat) {
    exists p :: ValidParse(s, i, p)
  }

  /** s[i..j] matches the pattern. */
  ghost predicate IsMatch(s: string, i: nat, j: nat) {
    exists p :: ValidParse(s, i, p) && p.e == j
  }

  /** p is the parse Go's leftmost-first semantics picks among those starting at i. */
  ghost predicate Preferred(s: string, i: nat, p: Parse) {
    ValidParse(s, i, p) && forall p' :: ValidParse(s, i, p') ==> LexLe(p', p)
  }

  /** No index of s starts a match. */
  ghost predicate NoMatch(s: string) {
    forall k :: !StartsMatch(s, k)
  }

  /** r is what FindString must report for s when the leftmost match starts at i. */
  ghost predicate Reports(s: string, i: nat, r: string) {
    && (forall k: nat :: k < i ==> !StartsMatch(s, k))
    && exists p :: Preferred(s, i, p) && r == s[i..p.e]
  }

  /** The whole of r matches the pattern. */
  ghost predicate FullMatch(r: string) {
    IsMatch(r, 0, |r|)
  }

  // ---------------------------------------------------------------------------
  // The matcher: one function per quantifier, each trying its repetition counts
  // from the most down and returning the first parse that completes.
  // ---------------------------------------------------------------------------

  function Min(x: nat, y: nat): nat { if x <= y then x else y }

  /** `[a-z]{2,6}/[^>\s]*` with the letters s[b..c]; tries c, c - 1, ..., b + 2. */
  function MatchTld(s: string, i: nat, q: nat, a: nat, b: nat, c: nat): (r: Option<Parse>)
    requires SchemeAt(s, i, q) && q < a && AllIn(s, q, a, NonSpace) && a < b && AllIn(s, a, b, Dot)
    requires b <= c <= b + 6 && AllIn(s, b, c, Lower)
    decreases c
    ensures r.Some? ==> ValidParse(s, i, r.value) && r.value.q == q && r.value.a == a && r.value.b == b
    ensures forall p :: ValidParse(s, i, p) && p.q == q && p.a == a && p.b == b && p.c <= c
                        ==> r.Some? && LexLe(p, r.value)
  {
    if c < b + 2 then None
    else if c < |s| && s[c] == '/' then
      var e := RunEnd(s, c + 1, PathChar);
      assert forall p :: ValidParse(s, i, p) && p.c == c ==> p.e <= e by {
        forall p | ValidParse(s, i, p) && p.c == c { RunEndIsLongest(s, c + 1, p.e, PathChar); }
      }
      Some(Parse(q, a, b, c, e))
    else MatchTld(s, i, q, a, b, c - 1)
  }

  /** `\.+` with the dots s[a..b], then the rest; tries b, b - 1, ..., a + 1. */
  function MatchDots(s: string, i: nat, q: nat, a: nat, b: nat): (r: Option<Parse>)
    requires SchemeAt(s, i, q) && q < a && AllIn(s, q, a, NonSpace)
    requires a <= b && AllIn(s, a, b, Dot)
    decreases b
    ensures r.Some? ==> ValidParse(s, i, r.value) && r.value.q == q && r.value.a == a
    ensures forall p :: ValidParse(s, i, p) && p.q == q && p.a == a && p.b <= b
                        ==> r.Some? && LexLe(p, r.value)
  {
    if b == a then None
    else
      var c := Min(RunEnd(s, b, Lower), b + 6);
      assert forall p :: ValidParse(s, i, p) && p.b == b ==> p.c <= c by {
        forall p | ValidParse(s, i, p) && p.b == b { RunEndIsLongest(s, b, p.c, Lower); }
      }
      var t := MatchTld(s, i, q, a, b, c);
      if t.Some? then t else MatchDots(s, i, q, a, b - 1)
  }

  /** `\S+` with the run s[q..a], then the rest; tries a, a - 1, ..., q + 1. */
  function MatchHost(s: string, i: nat, q: nat, a: nat): (r: Option<Parse>)
    requires SchemeAt(s, i, q) && q <= a && AllIn(s, q, a, NonSpace)
    decreases a
    ensures r.Some? ==> ValidParse(s, i, r.value) && r.value.q == q
    ensures forall p :: ValidParse(s, i, p) && p.q == q && p.a <= a ==> r.Some? && LexLe(p, r.value)
  {
    if a == q then None
    else
      var b := RunEnd(s, a, Dot);
      assert forall p :: ValidParse(s, i, p) && p.a == a ==> p.b <= b by {
        forall p | ValidParse(s, i, p) && p.a == a { RunEndIsLongest(s, a, p.b, Dot); }
      }
      var d := MatchDots(s, i, q, a, b);
      if d.Some? then d else MatchHost(s, i, q, a - 1)
  }

  /** The whole pattern at i: `https://` first, and `http://` only when that fails. */
  function MatchAt(s: string, i: nat): (r: Option<Parse>)
    ensures r.Some? ==> Preferred(s, i, r.value)
    ensures r.None? ==> !StartsMatch(s, i)
  {
    var secure := if i + 8 <= |s| && s[i..i + 8] == "https://"
                  then MatchHost(s, i, i + 8, RunEnd(s, i + 8, NonSpace)) else None;
    if secure.Some? then secure
    else if i + 7 <= |s| && s[i..i + 7] == "http://"
    then MatchHost(s, i, i + 7, RunEnd(s, i + 7, NonSpace))
    else None
  }

  // ---------------------------------------------------------------------------
  // The leftmost scan and FindString.
  // ---------------------------------------------------------------------------

  /** A match and where it starts. */
  datatype Found = Found(start: nat, parse: Parse)

  /** The first index from i on that starts a match, with the parse preferred there. */
  function FindFrom(s: string, i: nat): (r: Option<Found>)
    requires i <= |s|
    decreases |s| - i
    ensures r.Some? ==> i <= r.value.start && Preferred(s, r.value.start, r.value.parse)
    ensures r.Some? ==> forall k: nat :: i <= k < r.value.start ==> !StartsMatch(s, k)
    ensures r.None? ==> forall k: nat :: i <= k ==> !StartsMatch(s, k)
  {
    if i == |s| then None
    else match MatchAt(s, i)
      case Some(p) => Some(Found(i, p))
      case None => FindFrom(s, i + 1)
  }

  /** `UrlRegex.FindString(content)`: the leftmost match, or "" when there is none. */
  function FindString(s: string): (r: string)
    ensures r == "" <==> NoMatch(s)
    ensures r != "" ==> exists i: nat :: Reports(s, i, r)
  {
    match FindFrom(s, 0)
    case None => ""
    case Some(f) =>
      var r := s[f.start..f.parse.e];
      assert StartsMatch(s, f.start) && |r| > 0;
      assert Reports(s, f.start, r);
      r
  }

  // ---------------------------------------------------------------------------
  // What the reported string is.
  // ---------------------------------------------------------------------------

  /** The scheme at i is fixed by s: `https://` and `http://` differ at index i + 4. */
  lemma SchemeUnique(s: string, i: nat, q1: nat, q2: nat)
    requires SchemeAt(s, i, q1) && SchemeAt(s, i, q2)
    ensures q1 == q2
  {
    SchemeFifthChar(s, i, q1);
    SchemeFifthChar(s, i, q2);
  }

  lemma SchemeFifthChar(s: string, i: nat, q: nat)
    requires SchemeAt(s, i, q)
    ensures q == i + 8 ==> s[i + 4] == 's'
    ensures q == i + 7 ==> s[i + 4] == ':'
  {
  }

  /** A match holds no whitespace. */
  lemma MatchHasNoSpace(s: string, i: nat, p: Parse, k: nat)
    requires ValidParse(s, i, p) && i <= k < p.e
    ensures !IsSpace(s[k])
  {
    if k < p.q {
      assert s[k] == s[i..p.q][k - i];
    } else if k < p.a {
      assert InClass(s[k], NonSpace);
    } else if k < p.b {
      assert InClass(s[k], Dot);
    } else if k < p.c {
      assert InClass(s[k], Lower);
    } else if k > p.c {
      assert InClass(s[k], PathChar);
    }
  }

  /** A parse of s at i, moved to the start of the matched text s[i..p.e]. */
  lemma ShiftParse(s: string, i: nat, p: Parse)
    requires ValidParse(s, i, p)
    ensures ValidParse(s[i..p.e], 0, Parse(p.q - i, p.a - i, p.b - i, p.c - i, p.e - i))
  {
  }

  /**
   * The string FindString reports is itself a URL of the pattern's shape: it
   * begins with `http://` or `https://`, holds no whitespace, and matches the
   * whole pattern (a run of dots, 2 to 6 lower-case letters and `/`, then no
   * `>` and no whitespace).
   */
  lemma ReportedUrlShape(s: string, i: nat, r: string)
    requires Reports(s, i, r)
    ensures FullMatch(r)
    ensures |r| > 8 && (r[..7] == "http://" || r[..8] == "https://")
    ensures forall k :: 0 <= k < |r| ==> !IsSpace(r[k])
  {
    var p :| Preferred(s, i, p) && r == s[i..p.e];
    ShiftParse(s, i, p);
    var p' := Parse(p.q - i, p.a - i, p.b - i, p.c - i, p.e - i);
    assert ValidParse(r, 0, p') && p'.e == |r|;
    assert r[..p'.q] == s[i..p.q];
    forall k | 0 <= k < |r| ensures !IsSpace(r[k]) {
      MatchHasNoSpace(s, i, p, i + k);
    }
  }

  /** The report is a substring of the content. */
  lemma ReportedIsSubstring(s: string, i: nat, r: string)
    requires Reports(s, i, r)
    ensures i + |r| <= |s| && s[i..i + |r|] == r
  {
  }

  /** At one start there is only one preferred parse. */
  lemma PreferredUnique(s: string, i: nat, p1: Parse, p2: Parse)
    requires Preferred(s, i, p1) && Preferred(s, i, p2)
    ensures p1 == p2
  {
    assert LexLe(p1, p2) && LexLe(p2, p1);
  }

  /** FindString's specification leaves it no choice: at most one start and one string meet it. */
  lemma ReportsUnique(s: string, i1: nat, r1: string, i2: nat, r2: string)
    requires Reports(s, i1, r1) && Reports(s, i2, r2)
    ensures i1 == i2 && r1 == r2
  {
    var p1 :| Preferred(s, i1, p1) && r1 == s[i1..p1.e];
    var p2 :| Preferred(s, i2, p2) && r2 == s[i2..p2.e];
    assert i1 == i2 by {
      assert StartsMatch(s, i1) && StartsMatch(s, i2);
    }
    PreferredUnique(s, i1, p1, p2);
  }

  /**
   * Of two matches at one start, the one whose `\S+` part is no longer has its
   * `/` no later: the slash after the letters cannot move left as `\S+` grows.
   */
  lemma SlashOrder(s: string, i: nat, p: Parse, p': Parse)
    requires ValidParse(s, i, p) && ValidParse(s, i, p') && p'.a <= p.a
    ensures p'.c <= p.c
  {
  }

  /** The preferred parse takes the whole `[^>\s]*` run after its slash. */
  lemma PreferredPathIsLongest(s: string, i: nat, p: Parse)
    requires Preferred(s, i, p)
    ensures p.e == RunEnd(s, p.c + 1, PathChar)
  {
    var e := RunEnd(s, p.c + 1, PathChar);
    assert ValidParse(s, i, p.(e := e));
    RunEndIsLongest(s, p.c + 1, p.e, PathChar);
  }

  /**
   * For this pattern Go's leftmost-first choice is also the longest match at its
   * start: no match that starts at i ends after the preferred one.
   */
  lemma PreferredIsLongest(s: string, i: nat, p: Parse, j: nat)
    requires Preferred(s, i, p) && IsMatch(s, i, j)
    ensures j <= p.e
  {
    var p' :| ValidParse(s, i, p') && p'.e == j;
    SchemeUnique(s, i, p.q, p'.q);
    assert LexLe(p', p);
    SlashOrder(s, i, p, p');
    PreferredPathIsLongest(s, i, p);
    if p'.c < p.c && j > p.c + 1 {
      assert AllIn(s, p.c + 1, j, PathChar);
      RunEndIsLongest(s, p.c + 1, j, PathChar);
    }
  }

  /** Every match begins with "ht". */
  lemma SchemeStartsHt(s: string, i: nat, q: nat)
    requires SchemeAt(s, i, q)
    ensures i + 1 < |s| && s[i] == 'h' && s[i + 1] == 't'
  {
    assert s[i] == s[i..q][0] && s[i + 1] == s[i..q][1];
  }

  /** The message "check this out http://example.com/watch?v=1 lol", written in two parts. */
  const ExampleText := "check this out " + "http://example.com/watch?v=1 lol"

  /** A character of ExampleText's second part. */
  lemma ExampleTailChar(k: nat)
    requires 15 <= k < |ExampleText|
    ensures ExampleText[k] == "http://example.com/watch?v=1 lol"[k - 15]
  {
  }

  /** Nothing before index 15 of ExampleText starts a match: no "ht" occurs there. */
  lemma ExampleNoEarlyStart()
    ensures forall k: nat :: k < 15 ==> !StartsMatch(ExampleText, k)
  {
    var s := ExampleText;
    forall k: nat | k < 15 ensures !StartsMatch(s, k) {
      assert s[k] == "check this out "[k];
      assert s[k + 1] == ("check this out " + "h")[k + 1];
      if StartsMatch(s, k) {
        var p :| ValidParse(s, k, p);
        SchemeStartsHt(s, k, p.q);
      }
    }
  }

  /** `http://`, host `example`, one dot, `com`, `/` and `watch?v=1` is a match at 15. */
  lemma ExampleLinkParses()
    ensures ValidParse(ExampleText, 15, Parse(22, 29, 30, 33, 43))
  {
    var s := ExampleText;
    assert s[15..22] == "http://example.com/watch?v=1 lol"[..7];
    forall k | 22 <= k < 43 ensures InClass(s[k], NonSpace) && (k > 33 ==> InClass(s[k], PathChar)) {
      ExampleTailChar(k);
    }
    forall k | 29 <= k < 34 ensures s[k] == ".com/"[k - 29] {
      ExampleTailChar(k);
    }
  }

  /** After index 29 ExampleText holds no dot, index 33 is its `/` and index 43 a space. */
  lemma ExampleTail()
    ensures forall k :: 29 < k < |ExampleText| ==> ExampleText[k] != '.'
    ensures ExampleText[33] == '/' && ExampleText[43] == ' '
  {
    var s := ExampleText;
    forall k | 29 < k < |s| ensures s[k] != '.' {
      ExampleTailChar(k);
    }
    ExampleTailChar(33);
    ExampleTailChar(43);
  }

  /** No match at 15 comes after Parse(22, 29, 30, 33, 43) in the engine's order. */
  lemma ExampleLinkPreferred()
    ensures Preferred(ExampleText, 15, Parse(22, 29, 30, 33, 43))
  {
    var s := ExampleText;
    var p := Parse(22, 29, 30, 33, 43);
    ExampleLinkParses();
    ExampleTail();
    forall p' | ValidParse(s, 15, p') ensures LexLe(p', p) {
      SchemeUnique(s, 15, p.q, p'.q);
      assert s[p'.a] == '.';
      if p'.a == 29 {
        assert p'.b > 30 ==> InClass(s[30], Dot);
        assert p'.c <= 33;
        assert p'.c == 33 ==> p'.e <= 43;
      }
    }
  }

  /** The example message yields its link, without the trailing word. */
  lemma ExampleMessage()
    ensures FindString(ExampleText) == "http://example.com/watch?v=1"
  {
    var s := ExampleText;
    var link := s[15..43];
    assert link == "http://example.com/watch?v=1 lol"[..28];
    ExampleNoEarlyStart();
    ExampleLinkPreferred();
    assert Reports(s, 15, link);
    var r := FindString(s);
    assert StartsMatch(s, 15);
    var i: nat :| Reports(s, i, r);
    ReportsUnique(s, i, r, 15, link);
  }

  /** A message without a link yields "". */
  lemma ExampleNoLink()
    ensures FindString("no links here") == ""
  {
  }
}
