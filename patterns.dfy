/**
 * The five fixed regular expressions of the capture engine, each written as
 * a matcher that says whether (and how) the pattern matches at one index of
 * the raw HTML, and the scan that `NSRegularExpression.matches(in:range:)`
 * performs with them: leftmost matches, taken from left to right without
 * overlap, the search resuming at the end of the previous match.
 *
 *   Href        href=["'](http[s]?://[^"']+)["']
 *   Stylesheet  <link rel=["']stylesheet["'] href=["'](.*?)["'][^>]*>
 *   Script      <script src=["'](.*?)["'][^>]*></script>
 *   Image       src=["'](http[s]?://[^"']+\.(jpg|jpeg|png|gif))["']
 *   Video       src=["'](http[s]?://[^"']+\.(mp4|mov|avi))["']
 *
 * Because `[^"']` cannot cross a quote, the capture of the Href, Image and
 * Video patterns always ends at the first quote after the scheme. The lazy
 * `.*?` of the other two cannot cross a line terminator and stops at the
 * first quote after which the rest of the pattern matches.
 */
module Patterns {
  import opened Wrappers
  import opened Strings

  const Quotes: set<char> := {'"', '\''}

  /** The characters that `.` does not match (ICU, without DOTALL). */
  const LineTerminators: set<char> :=
    {'\n', '\U{000B}', '\U{000C}', '\r', '\U{0085}', '\U{2028}', '\U{2029}'}

  const ImageExtensions: seq<string> := ["jpg", "jpeg", "png", "gif"]
  const VideoExtensions: seq<string> := ["mp4", "mov", "avi"]

  datatype Pattern = Href | Stylesheet | Script | Image | Video

  /** One regex match: the whole match is s[start..end], group 1 is s[capStart..capEnd]. */
  datatype Match = Match(start: nat, capStart: nat, capEnd: nat, end: nat)

  /** What follows the closing quote of a lazy capture. */
  datatype Tail =
    | TagClose     // [^>]*>
    | ScriptClose  // [^>]*></script>

  predicate PlacedAt(m: Match, s: string, i: nat)
  {
    m.start == i <= m.capStart <= m.capEnd < m.end <= |s|
  }

  /** No character of s[a..b] is in `cs`. */
  predicate AvoidsBetween(s: string, a: nat, b: nat, cs: set<char>)
  {
    forall j :: a <= j < b && j < |s| ==> s[j] !in cs
  }

  /** No character of `v` is in `cs`. */
  predicate Avoids(v: string, cs: set<char>)
  {
    forall j :: 0 <= j < |v| ==> v[j] !in cs
  }

  /** The first index at or after `from` holding a character of `cs`, or |s|. */
  function FirstOf(s: string, from: nat, cs: set<char>): (e: nat)
    requires from <= |s|
    ensures from <= e <= |s|
    ensures e < |s| ==> s[e] in cs
    ensures AvoidsBetween(s, from, e, cs)
    decreases |s| - from
  {
    if from == |s| || s[from] in cs then from else FirstOf(s, from + 1, cs)
  }

  /** Length of the `http[s]?://` at index `k`, 0 when there is none. */
  function SchemeLength(s: string, k: nat): nat
  {
    if OccursAt(s, "https://", k) then 8
    else if OccursAt(s, "http://", k) then 7
    else 0
  }

  /** `v` is `http[s]?://` followed by at least one more character. */
  predicate IsHttpUrl(v: string)
  {
    (|v| > 8 && v[..8] == "https://") || (|v| > 7 && v[..7] == "http://")
  }

  /** `body` is at least one character, a dot and one of `exts`. */
  predicate EndsWithExtension(body: string, exts: seq<string>)
  {
    exists x :: x in exts && |body| >= |x| + 2 && body[|body| - |x| - 1..] == "." + x
  }

  /** `v` is `http[s]?://`, then a body ending in a dot and one of `exts`. */
  predicate IsMediaUrl(v: string, exts: seq<string>)
  {
    || (|v| >= 8 && v[..8] == "https://" && EndsWithExtension(v[8..], exts))
    || (|v| >= 7 && v[..7] == "http://" && EndsWithExtension(v[7..], exts))
  }

  predicate StylesheetOpensAt(s: string, i: nat)
  {
    && OccursAt(s, "<link rel=", i) && i + 10 < |s| && s[i + 10] in Quotes
    && OccursAt(s, "stylesheet", i + 11) && i + 21 < |s| && s[i + 21] in Quotes
    && OccursAt(s, " href=", i + 22) && i + 28 < |s| && s[i + 28] in Quotes
  }

  predicate ScriptOpensAt(s: string, i: nat)
  {
    OccursAt(s, "<script src=", i) && i + 12 < |s| && s[i + 12] in Quotes
  }

  function HrefAt(s: string, i: nat): (r: Option<Match>)
    ensures r.Some? ==> PlacedAt(r.value, s, i)
  {
    if !(OccursAt(s, "href=", i) && i + 5 < |s| && s[i + 5] in Quotes) then None
    else
      var n := SchemeLength(s, i + 6);
      var e := FirstOf(s, i + 6 + n, Quotes);
      if n > 0 && e > i + 6 + n && e < |s| then Some(Match(i, i + 6, e, e + 1)) else None
  }

  function MediaAt(s: string, i: nat, exts: seq<string>): (r: Option<Match>)
    ensures r.Some? ==> PlacedAt(r.value, s, i)
  {
    if !(OccursAt(s, "src=", i) && i + 4 < |s| && s[i + 4] in Quotes) then None
    else
      var n := SchemeLength(s, i + 5);
      var e := FirstOf(s, i + 5 + n, Quotes);
      if n > 0 && e < |s| && EndsWithExtension(s[i + 5 + n..e], exts) then
        Some(Match(i, i + 5, e, e + 1))
      else None
  }

  /** Where the whole match ends when the tail is tried right after index `from`. */
  function TailEnd(s: string, from: nat, tail: Tail): (r: Option<nat>)
    requires from <= |s|
    ensures r.Some? ==> from < r.value <= |s|
  {
    var p := FirstOf(s, from, {'>'});
    if p == |s| then None
    else match tail
      case TagClose => Some(p + 1)
      case ScriptClose => if OccursAt(s, "></script>", p) then Some(p + 10) else None
  }

  /**
   * `(.*?)["']` followed by the tail, the capture starting at `k` and
   * already known not to end before `e`.
   */
  function LazyCapture(s: string, start: nat, k: nat, e: nat, tail: Tail): (r: Option<Match>)
    requires start <= k <= e <= |s|
    ensures r.Some? ==> PlacedAt(r.value, s, start) && r.value.capStart == k && e <= r.value.capEnd
    decreases |s| - e
  {
    if e == |s| || s[e] in LineTerminators then None
    else if s[e] in Quotes && TailEnd(s, e + 1, tail).Some? then
      Some(Match(start, k, e, TailEnd(s, e + 1, tail).value))
    else LazyCapture(s, start, k, e + 1, tail)
  }

  /** The match of `pat` that starts at index `i`, if any. */
  function MatchAt(pat: Pattern, s: string, i: nat): (r: Option<Match>)
    ensures r.Some? ==> PlacedAt(r.value, s, i)
  {
    match pat
    case Href => HrefAt(s, i)
    case Image => MediaAt(s, i, ImageExtensions)
    case Video => MediaAt(s, i, VideoExtensions)
    case Stylesheet =>
      if StylesheetOpensAt(s, i) then LazyCapture(s, i, i + 29, i + 29, TagClose) else None
    case Script =>
      if ScriptOpensAt(s, i) then LazyCapture(s, i, i + 13, i + 13, ScriptClose) else None
  }

  /** The matches of `pat` in s[from..], in document order. */
  function Scan(pat: Pattern, s: string, from: nat): (ms: seq<Match>)
    requires from <= |s|
    ensures forall k :: 0 <= k < |ms| ==>
      from <= ms[k].start && MatchAt(pat, s, ms[k].start) == Some(ms[k])
    ensures forall k :: 0 < k < |ms| ==> ms[k - 1].end <= ms[k].start
    decreases |s| - from
  {
    if from == |s| then []
    else match MatchAt(pat, s, from)
      case Some(m) => [m] + Scan(pat, s, m.end)
      case None => Scan(pat, s, from + 1)
  }

  /** The text of group 1 of each match. */
  function Captures(s: string, ms: seq<Match>): (vs: seq<string>)
    requires forall k :: 0 <= k < |ms| ==> ms[k].capStart <= ms[k].capEnd <= |s|
    ensures |vs| == |ms|
  {
    seq(|ms|, k requires 0 <= k < |ms| => s[ms[k].capStart..ms[k].capEnd])
  }

  /** The captured URLs of `pat` in `s`, in document order. */
  function Extract(pat: Pattern, s: string): seq<string>
  {
    var ms := Scan(pat, s, 0);
    Captures(s, ms)
  }

  // ---------------------------------------------------------------------
  // The scan

  /** Index `p` lies inside one of the matches `ms`. */
  predicate Covered(ms: seq<Match>, p: nat)
  {
    exists k :: 0 <= k < |ms| && ms[k].start <= p < ms[k].end
  }

  lemma CoveredHead(m: Match, ms: seq<Match>, p: nat)
    requires m.start <= p < m.end
    ensures Covered([m] + ms, p)
  {
    assert ([m] + ms)[0] == m;
  }

  lemma CoveredCons(m: Match, ms: seq<Match>, p: nat)
    requires Covered(ms, p)
    ensures Covered([m] + ms, p)
  {
    var k :| 0 <= k < |ms| && ms[k].start <= p < ms[k].end;
    assert ([m] + ms)[k + 1] == ms[k];
  }

  /**
   * Nothing is skipped: every index where the pattern matches is the start
   * of a returned match or lies inside one (the search had already moved
   * past it).
   */
  lemma {:induction false} ScanLeftmost(pat: Pattern, s: string, from: nat, p: nat)
    requires from <= p < |s| && MatchAt(pat, s, p).Some?
    ensures Covered(Scan(pat, s, from), p)
    decreases |s| - from, 1
  {
    if MatchAt(pat, s, from).Some? {
      ScanLeftmostAtMatch(pat, s, from, p);
    } else {
      ScanLeftmostPastNoMatch(pat, s, from, p);
    }
  }

  /** The scan at a match: `p` is inside it, or covered by the scan after it. */
  lemma {:induction false} ScanLeftmostAtMatch(pat: Pattern, s: string, from: nat, p: nat)
    requires from <= p < |s| && MatchAt(pat, s, p).Some? && MatchAt(pat, s, from).Some?
    ensures Covered(Scan(pat, s, from), p)
    decreases |s| - from, 0
  {
    var m := MatchAt(pat, s, from).value;
    var rest := Scan(pat, s, m.end);
    assert Scan(pat, s, from) == [m] + rest;
    if p < m.end {
      CoveredHead(m, rest, p);
    } else {
      ScanLeftmost(pat, s, m.end, p);
      CoveredCons(m, rest, p);
    }
  }

  /** The scan past an index where nothing matches. */
  lemma {:induction false} ScanLeftmostPastNoMatch(pat: Pattern, s: string, from: nat, p: nat)
    requires from <= p < |s| && MatchAt(pat, s, p).Some? && MatchAt(pat, s, from).None?
    ensures Covered(Scan(pat, s, from), p)
    decreases |s| - from, 0
  {
    assert from != p;
    assert Scan(pat, s, from) == Scan(pat, s, from + 1);
    ScanLeftmost(pat, s, from + 1, p);
  }

  /** A text in which the pattern matches nowhere yields no match. */
  lemma {:induction false} ScanNone(pat: Pattern, s: string, from: nat)
    requires from <= |s|
    requires forall i :: from <= i < |s| ==> MatchAt(pat, s, i).None?
    ensures Scan(pat, s, from) == []
    decreases |s| - from
  {
    if from < |s| {
      ScanNone(pat, s, from + 1);
    }
  }

  /**
   * The k-th extracted URL is group 1 of the k-th match, which is a match of
   * the pattern at its own start and lies inside `s`.
   */
  lemma ExtractAt(pat: Pattern, s: string, k: nat)
    requires k < |Scan(pat, s, 0)|
    ensures |Extract(pat, s)| == |Scan(pat, s, 0)|
    ensures var m := Scan(pat, s, 0)[k];
      && MatchAt(pat, s, m.start) == Some(m)
      && m.capStart <= m.capEnd <= |s| && Extract(pat, s)[k] == s[m.capStart..m.capEnd]
  {
  }

  // ---------------------------------------------------------------------
  // Character classes

  lemma FirstOfIs(s: string, from: nat, cs: set<char>, e: nat)
    requires from <= e <= |s| && (e < |s| ==> s[e] in cs)
    requires AvoidsBetween(s, from, e, cs)
    ensures FirstOf(s, from, cs) == e
  {
  }

  lemma AvoidsSlice(s: string, a: nat, b: nat, cs: set<char>)
    requires a <= b <= |s|
    ensures Avoids(s[a..b], cs) <==> AvoidsBetween(s, a, b, cs)
  {
    if AvoidsBetween(s, a, b, cs) {
      forall j | 0 <= j < b - a
        ensures s[a..b][j] !in cs
      {
        assert s[a..b][j] == s[a + j];
      }
    }
    if Avoids(s[a..b], cs) {
      forall j | a <= j < b
        ensures s[j] !in cs
      {
        assert s[j] == s[a..b][j - a];
      }
    }
  }

  /** The scheme `http[s]?://` holds no quote. */
  lemma SchemeAvoidsQuotes(s: string, k: nat)
    requires SchemeLength(s, k) > 0
    ensures AvoidsBetween(s, k, k + SchemeLength(s, k), Quotes)
  {
    var n := SchemeLength(s, k);
    var lit := if n == 8 then "https://" else "http://";
    assert s[k..k + n] == lit;
    forall j | k <= j < k + n
      ensures s[j] !in Quotes
    {
      assert s[j] == lit[j - k];
    }
  }

  /** `SchemeLength` recognises exactly the schemes that `IsHttpUrl` admits. */
  lemma SchemeOfUrl(s: string, k: nat, e: nat)
    requires k <= e <= |s|
    ensures var v := s[k..e];
      && (|v| >= 8 && v[..8] == "https://" ==> SchemeLength(s, k) == 8)
      && (|v| >= 7 && v[..7] == "http://" ==> SchemeLength(s, k) == 7)
      && (SchemeLength(s, k) == 8 ==> |v| >= 8 ==> v[..8] == "https://")
      && (SchemeLength(s, k) == 7 ==> |v| >= 7 ==> v[..7] == "http://")
      && (SchemeLength(s, k) > 0 ==> k + SchemeLength(s, k) <= |s|)
  {
    var v := s[k..e];
    if |v| >= 8 {
      assert v[..8] == s[k..k + 8];
    }
    if |v| >= 7 {
      assert v[..7] == s[k..k + 7];
      if v[..7] == "http://" && OccursAt(s, "https://", k) {
        assert v[4] == ':' && s[k + 4] == 's';
      }
    }
  }

  // ---------------------------------------------------------------------
  // href=["'](http[s]?://[^"']+)["']

  /** The declarative reading of the href pattern matching at `i` with closing quote at `e`. */
  predicate HrefShape(s: string, i: nat, e: nat)
  {
    && OccursAt(s, "href=", i) && i + 5 < |s| && s[i + 5] in Quotes
    && i + 6 <= e < |s| && s[e] in Quotes
    && IsHttpUrl(s[i + 6..e]) && Avoids(s[i + 6..e], Quotes)
  }

  lemma HrefMatchSound(s: string, i: nat)
    requires MatchAt(Href, s, i).Some?
    ensures var m := MatchAt(Href, s, i).value;
      m == Match(i, i + 6, m.capEnd, m.capEnd + 1) && HrefShape(s, i, m.capEnd)
  {
    var m := MatchAt(Href, s, i).value;
    var n := SchemeLength(s, i + 6);
    var e := m.capEnd;
    SchemeOfUrl(s, i + 6, e);
    SchemeAvoidsQuotes(s, i + 6);
    AvoidsSlice(s, i + 6, e, Quotes);
  }

  lemma HrefMatchComplete(s: string, i: nat, e: nat)
    requires HrefShape(s, i, e)
    ensures MatchAt(Href, s, i) == Some(Match(i, i + 6, e, e + 1))
  {
    SchemeOfUrl(s, i + 6, e);
    AvoidsSlice(s, i + 6, e, Quotes);
    var n := SchemeLength(s, i + 6);
    FirstOfIs(s, i + 6 + n, Quotes, e);
  }

  // ---------------------------------------------------------------------
  // src=["'](http[s]?://[^"']+\.(ext))["']

  /** The declarative reading of a media pattern matching at `i` with closing quote at `e`. */
  predicate MediaShape(s: string, i: nat, e: nat, exts: seq<string>)
  {
    && OccursAt(s, "src=", i) && i + 4 < |s| && s[i + 4] in Quotes
    && i + 5 <= e < |s| && s[e] in Quotes
    && IsMediaUrl(s[i + 5..e], exts) && Avoids(s[i + 5..e], Quotes)
  }

  lemma MediaMatchSound(s: string, i: nat, exts: seq<string>)
    requires MediaAt(s, i, exts).Some?
    ensures var m := MediaAt(s, i, exts).value;
      m == Match(i, i + 5, m.capEnd, m.capEnd + 1) && MediaShape(s, i, m.capEnd, exts)
  {
    var m := MediaAt(s, i, exts).value;
    var n := SchemeLength(s, i + 5);
    var e := m.capEnd;
    SchemeOfUrl(s, i + 5, e);
    SchemeAvoidsQuotes(s, i + 5);
    AvoidsSlice(s, i + 5, e, Quotes);
    assert s[i + 5..e][n..] == s[i + 5 + n..e];
  }

  lemma MediaMatchComplete(s: string, i: nat, e: nat, exts: seq<string>)
    requires MediaShape(s, i, e, exts)
    ensures MediaAt(s, i, exts) == Some(Match(i, i + 5, e, e + 1))
  {
    SchemeOfUrl(s, i + 5, e);
    AvoidsSlice(s, i + 5, e, Quotes);
    var n := SchemeLength(s, i + 5);
    assert s[i + 5..e][n..] == s[i + 5 + n..e];
    FirstOfIs(s, i + 5 + n, Quotes, e);
  }

  // ---------------------------------------------------------------------
  // (.*?)["'] followed by a tail

  /**
   * The lazy capture from `e0` ends at `e`: the first quote, reached without
   * crossing a line terminator, after which the tail matches up to `end`.
   */
  predicate LazyShape(s: string, e0: nat, e: nat, end: nat, tail: Tail)
  {
    && e0 <= e < |s| && AvoidsBetween(s, e0, e, LineTerminators) && s[e] in Quotes
    && TailEnd(s, e + 1, tail) == Some(end)
    && forall j :: e0 <= j < e && s[j] in Quotes ==> TailEnd(s, j + 1, tail).None?
  }

  lemma {:induction false} LazySound(s: string, start: nat, k: nat, e0: nat, tail: Tail)
    requires start <= k <= e0 <= |s| && LazyCapture(s, start, k, e0, tail).Some?
    ensures var m := LazyCapture(s, start, k, e0, tail).value;
      m == Match(start, k, m.capEnd, m.end) && LazyShape(s, e0, m.capEnd, m.end, tail)
    decreases |s| - e0
  {
    var r := LazyCapture(s, start, k, e0, tail);
    assert e0 < |s| && s[e0] !in LineTerminators;
    if !(s[e0] in Quotes && TailEnd(s, e0 + 1, tail).Some?) {
      assert r == LazyCapture(s, start, k, e0 + 1, tail);
      LazySound(s, start, k, e0 + 1, tail);
      var m := r.value;
      assert LazyShape(s, e0 + 1, m.capEnd, m.end, tail);
      LazyShapeBack(s, e0, m.capEnd, m.end, tail);
    }
  }

  /** A lazy shape from e0 + 1 extends to e0 when s[e0] is neither a line terminator nor a usable quote. */
  lemma LazyShapeBack(s: string, e0: nat, e: nat, end: nat, tail: Tail)
    requires e0 < |s| && s[e0] !in LineTerminators
    requires !(s[e0] in Quotes && TailEnd(s, e0 + 1, tail).Some?)
    requires LazyShape(s, e0 + 1, e, end, tail)
    ensures LazyShape(s, e0, e, end, tail)
  {
  }

  lemma {:induction false} LazyComplete(s: string, start: nat, k: nat, e0: nat, tail: Tail, e: nat, end: nat)
    requires start <= k <= e0 && LazyShape(s, e0, e, end, tail)
    ensures LazyCapture(s, start, k, e0, tail) == Some(Match(start, k, e, end))
    decreases e - e0
  {
    if e0 < e {
      assert s[e0] !in LineTerminators;
      LazyComplete(s, start, k, e0 + 1, tail, e, end);
    }
  }

  /** If the `[^>]*>` tail matches after some index, it matches after every earlier one. */
  lemma TagCloseEarlier(s: string, a: nat, b: nat)
    requires a <= b <= |s| && TailEnd(s, b, TagClose).Some?
    ensures TailEnd(s, a, TagClose).Some?
  {
    var p := FirstOf(s, b, {'>'});
    var q := FirstOf(s, a, {'>'});
    assert q <= p;
  }

  // ---------------------------------------------------------------------
  // <link rel=["']stylesheet["'] href=["'](.*?)["'][^>]*>

  /**
   * The declarative reading of the stylesheet pattern: the exact opening,
   * a capture without quotes or line terminators, the closing quote at `e`,
   * and the match running to the first `>` after it.
   */
  predicate StylesheetShape(s: string, i: nat, e: nat, end: nat)
  {
    && StylesheetOpensAt(s, i)
    && i + 29 <= e && e + 1 < end <= |s|
    && AvoidsBetween(s, i + 29, e, Quotes + LineTerminators)
    && s[e] in Quotes
    && s[end - 1] == '>' && AvoidsBetween(s, e + 1, end - 1, {'>'})
  }

  lemma TagCloseIff(s: string, from: nat, end: nat)
    requires from <= |s|
    ensures TailEnd(s, from, TagClose) == Some(end) <==>
      from < end <= |s| && s[end - 1] == '>' && AvoidsBetween(s, from, end - 1, {'>'})
  {
    if from < end <= |s| && s[end - 1] == '>' && AvoidsBetween(s, from, end - 1, {'>'}) {
      FirstOfIs(s, from, {'>'}, end - 1);
    }
  }

  lemma StylesheetMatchSound(s: string, i: nat)
    requires MatchAt(Stylesheet, s, i).Some?
    ensures var m := MatchAt(Stylesheet, s, i).value;
      m == Match(i, i + 29, m.capEnd, m.end) && StylesheetShape(s, i, m.capEnd, m.end)
  {
    var m := MatchAt(Stylesheet, s, i).value;
    LazySound(s, i, i + 29, i + 29, TagClose);
    TagCloseIff(s, m.capEnd + 1, m.end);
    forall j | i + 29 <= j < m.capEnd
      ensures s[j] !in Quotes + LineTerminators
    {
      TagCloseEarlier(s, j + 1, m.capEnd + 1);
    }
  }

  lemma StylesheetMatchComplete(s: string, i: nat, e: nat, end: nat)
    requires StylesheetShape(s, i, e, end)
    ensures MatchAt(Stylesheet, s, i) == Some(Match(i, i + 29, e, end))
  {
    TagCloseIff(s, e + 1, end);
    LazyComplete(s, i, i + 29, i + 29, TagClose, e, end);
  }

  // ---------------------------------------------------------------------
  // <script src=["'](.*?)["'][^>]*></script>

  /**
   * The declarative reading of the script pattern: the exact opening and a
   * lazy capture whose tail is `[^>]*></script>`, so that the first `>`
   * after the closing quote must begin `></script>`.
   */
  predicate ScriptShape(s: string, i: nat, e: nat, end: nat)
  {
    ScriptOpensAt(s, i) && LazyShape(s, i + 13, e, end, ScriptClose)
  }

  /** `[^>]*></script>` matches after a point exactly when the first `>` there begins `></script>`. */
  lemma ScriptCloseIff(s: string, from: nat, end: nat)
    requires from <= |s|
    ensures TailEnd(s, from, ScriptClose) == Some(end) <==>
      from + 10 <= end <= |s| && OccursAt(s, "></script>", end - 10) && AvoidsBetween(s, from, end - 10, {'>'})
  {
    if from + 10 <= end <= |s| && OccursAt(s, "></script>", end - 10) && AvoidsBetween(s, from, end - 10, {'>'}) {
      assert s[end - 10] == '>';
      FirstOfIs(s, from, {'>'}, end - 10);
    }
  }

  lemma ScriptMatchSound(s: string, i: nat)
    requires MatchAt(Script, s, i).Some?
    ensures var m := MatchAt(Script, s, i).value;
      && m == Match(i, i + 13, m.capEnd, m.end) && ScriptShape(s, i, m.capEnd, m.end)
      && OccursAt(s, "></script>", m.end - 10)
      && AvoidsBetween(s, m.capEnd + 1, m.end - 10, {'>'})
  {
    LazySound(s, i, i + 13, i + 13, ScriptClose);
  }

  lemma ScriptMatchComplete(s: string, i: nat, e: nat, end: nat)
    requires ScriptShape(s, i, e, end)
    ensures MatchAt(Script, s, i) == Some(Match(i, i + 13, e, end))
  {
    LazyComplete(s, i, i + 13, i + 13, ScriptClose, e, end);
  }

  // ---------------------------------------------------------------------
  // What each extractor returns

  /**
   * Every extracted link starts with http:// or https://, has at least one
   * more character, and holds no quote.
   */
  lemma LinksAreHttpUrls(s: string)
    ensures forall v <- Extract(Href, s) :: IsHttpUrl(v) && Avoids(v, Quotes)
  {
    forall k | 0 <= k < |Extract(Href, s)|
      ensures IsHttpUrl(Extract(Href, s)[k]) && Avoids(Extract(Href, s)[k], Quotes)
    {
      ExtractAt(Href, s, k);
      HrefMatchSound(s, Scan(Href, s, 0)[k].start);
    }
  }

  /**
   * Every extracted image URL is http(s), ends in .jpg, .jpeg, .png or .gif,
   * and holds no quote; a value with another ending is never returned.
   */
  lemma ImagesHaveImageExtensions(s: string)
    ensures forall v <- Extract(Image, s) :: IsMediaUrl(v, ImageExtensions) && Avoids(v, Quotes)
  {
    forall k | 0 <= k < |Extract(Image, s)|
      ensures IsMediaUrl(Extract(Image, s)[k], ImageExtensions) && Avoids(Extract(Image, s)[k], Quotes)
    {
      ExtractAt(Image, s, k);
      MediaMatchSound(s, Scan(Image, s, 0)[k].start, ImageExtensions);
    }
  }

  /** The same for videos: .mp4, .mov or .avi. */
  lemma VideosHaveVideoExtensions(s: string)
    ensures forall v <- Extract(Video, s) :: IsMediaUrl(v, VideoExtensions) && Avoids(v, Quotes)
  {
    forall k | 0 <= k < |Extract(Video, s)|
      ensures IsMediaUrl(Extract(Video, s)[k], VideoExtensions) && Avoids(Extract(Video, s)[k], Quotes)
    {
      ExtractAt(Video, s, k);
      MediaMatchSound(s, Scan(Video, s, 0)[k].start, VideoExtensions);
    }
  }

  /**
   * Every stylesheet match begins with the exact opening
   * `<link rel="stylesheet" href="` (either quote at each place), and its
   * URL holds no quote and no line terminator.
   */
  lemma StylesheetsFollowExactOpening(s: string)
    ensures forall k :: 0 <= k < |Extract(Stylesheet, s)| ==>
      StylesheetOpensAt(s, Scan(Stylesheet, s, 0)[k].start) &&
      Avoids(Extract(Stylesheet, s)[k], Quotes + LineTerminators)
  {
    forall k | 0 <= k < |Extract(Stylesheet, s)|
      ensures StylesheetOpensAt(s, Scan(Stylesheet, s, 0)[k].start)
      ensures Avoids(Extract(Stylesheet, s)[k], Quotes + LineTerminators)
    {
      var m := Scan(Stylesheet, s, 0)[k];
      ExtractAt(Stylesheet, s, k);
      StylesheetMatchSound(s, m.start);
      AvoidsSlice(s, m.capStart, m.capEnd, Quotes + LineTerminators);
    }
  }

  /**
   * Every script match begins with the exact opening `<script src="` (either
   * quote), ends with `></script>`, and its URL holds no line terminator.
   */
  lemma ScriptsFollowExactOpening(s: string)
    ensures forall k :: 0 <= k < |Extract(Script, s)| ==>
      ScriptOpensAt(s, Scan(Script, s, 0)[k].start) &&
      OccursAt(s, "></script>", Scan(Script, s, 0)[k].end - 10) &&
      Avoids(Extract(Script, s)[k], LineTerminators)
  {
    forall k | 0 <= k < |Extract(Script, s)|
      ensures ScriptOpensAt(s, Scan(Script, s, 0)[k].start)
      ensures OccursAt(s, "></script>", Scan(Script, s, 0)[k].end - 10)
      ensures Avoids(Extract(Script, s)[k], LineTerminators)
    {
      ScriptAt(s, k);
    }
  }

  lemma ScriptAt(s: string, k: nat)
    requires k < |Extract(Script, s)|
    ensures ScriptOpensAt(s, Scan(Script, s, 0)[k].start)
    ensures OccursAt(s, "></script>", Scan(Script, s, 0)[k].end - 10)
    ensures Avoids(Extract(Script, s)[k], LineTerminators)
  {
    var m := Scan(Script, s, 0)[k];
    ExtractAt(Script, s, k);
    ScriptMatchSound(s, m.start);
    AvoidsSlice(s, m.capStart, m.capEnd, LineTerminators);
  }

  /** A text that does not start like `p` at `i` has no occurrence of `p` there. */
  lemma NotOccursAtFirst(s: string, p: string, i: nat)
    requires |p| > 0 && i < |s| && s[i] != p[0]
    ensures !OccursAt(s, p, i)
  {
    if i + |p| <= |s| {
      assert s[i..i + |p|][0] == s[i];
    }
  }

  /**
   * A text with no `<link rel=` anywhere, such as one whose link tags put
   * another attribute first, yields no stylesheet.
   */
  lemma NoOpeningNoStylesheet(s: string)
    requires forall i :: 0 <= i < |s| ==> !OccursAt(s, "<link rel=", i)
    ensures Extract(Stylesheet, s) == []
  {
    ScanNone(Stylesheet, s, 0);
  }

  /**
   * A text with no `<script src=` anywhere, such as one whose script tags put
   * another attribute first, yields no script.
   */
  lemma NoOpeningNoScript(s: string)
    requires forall i :: 0 <= i < |s| ==> !OccursAt(s, "<script src=", i)
    ensures Extract(Script, s) == []
  {
    ScanNone(Script, s, 0);
  }

  /** The stylesheet link `<link href="a.css" rel="stylesheet">`, with `href` first, is not matched. */
  lemma ReorderedStylesheetIgnored()
    ensures Extract(Stylesheet, "<link href=\"a.css\" rel=\"stylesheet\">") == []
  {
    var s := "<link href=\"a.css\" rel=\"stylesheet\">";
    forall i | 0 <= i < |s|
      ensures MatchAt(Stylesheet, s, i).None?
    {
      if i == 0 {
        assert s[..10][6] == 'h';
      } else {
        assert s[i] != '<';
        NotOccursAtFirst(s, "<link rel=", i);
      }
    }
    ScanNone(Stylesheet, s, 0);
  }

  /** The script tag `<script defer src='a.js'></script>`, with `defer` first, is not matched. */
  lemma ReorderedScriptIgnored()
    ensures Extract(Script, "<script defer src='a.js'></script>") == []
  {
    var s := "<script defer src='a.js'></script>";
    forall i | 0 <= i < |s|
      ensures MatchAt(Script, s, i).None?
    {
      if i == 0 {
        assert s[..12][8] == 'd';
      } else if i < 25 {
        assert s[i] != '<';
        NotOccursAtFirst(s, "<script src=", i);
      } else {
        assert i + 12 > |s|;
      }
    }
    ScanNone(Script, s, 0);
  }

  /** A link tag whose `rel` is single-quoted and whose `href` is double-quoted. */
  const MixedQuotesLink: string :=
    "<link rel=" + "'" + "stylesheet" + "'" + " href=" + "\"" + "x.css" + "\">"

  lemma MixedQuotesOpening()
    ensures StylesheetOpensAt(MixedQuotesLink, 0)
  {
    var rel, q1, st, q2, href, q3, rest := "<link rel=", "'", "stylesheet", "'", " href=", "\"", "x.css" + "\">";
    assert MixedQuotesLink == rel + q1 + st + q2 + href + q3 + rest;
    OccursBetween([], rel, q1 + st + q2 + href + q3 + rest);
    OccursBetween(rel + q1, st, q2 + href + q3 + rest);
    OccursBetween(rel + q1 + st + q2, href, q3 + rest);
  }

  lemma MixedQuotesCaptureFree()
    ensures |MixedQuotesLink| == 36 && MixedQuotesLink[29..34] == "x.css"
    ensures AvoidsBetween(MixedQuotesLink, 29, 34, Quotes + LineTerminators)
    ensures MixedQuotesLink[34] in Quotes && MixedQuotesLink[35] == '>'
  {
    var s := MixedQuotesLink;
    assert s == "<link rel='stylesheet' href=\"" + "x.css" + "\">";
    forall j | 29 <= j < 34 ensures s[j] !in Quotes + LineTerminators {
      assert s[j] == "x.css"[j - 29];
    }
  }

  /** Mixed quote characters still match, and the URL is captured. */
  lemma MixedQuotesStylesheet()
    ensures Extract(Stylesheet, MixedQuotesLink) == ["x.css"]
  {
    var s := MixedQuotesLink;
    MixedQuotesOpening();
    MixedQuotesCaptureFree();
    StylesheetMatchComplete(s, 0, 34, 36);
    assert Scan(Stylesheet, s, 36) == [];
    assert Scan(Stylesheet, s, 0) == [Match(0, 29, 34, 36)];
  }
}
