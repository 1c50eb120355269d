/**
 * Literal substring search and Foundation's `replacingOccurrences(of:with:)`,
 * which the capture engine uses both to rewrite resource links and to build
 * cache file names.
 */
module Strings {
  import opened Wrappers

  /** `p` occurs in `s` starting at index `i`. */
  predicate OccursAt(s: string, p: string, i: nat)
  {
    i + |p| <= |s| && s[i..i + |p|] == p
  }

  /** `p` occurs somewhere in `s`. */
  predicate Contains(s: string, p: string)
  {
    exists i: nat | i <= |s| :: OccursAt(s, p, i)
  }

  /** The first occurrence of the non-empty `p` in `s` at or after `from`. */
  function Find(s: string, p: string, from: nat): (r: Option<nat>)
    requires |p| > 0
    ensures r.Some? ==> from <= r.value && OccursAt(s, p, r.value)
    ensures forall j: nat :: from <= j && (r.None? || j < r.value) ==> !OccursAt(s, p, j)
    decreases |s| - from
  {
    if from + |p| > |s| then None
    else if OccursAt(s, p, from) then Some(from)
    else Find(s, p, from + 1)
  }

  /**
   * The pieces of `s` between the occurrences of `p` found from left to
   * right, each search resuming after the previous occurrence.
   */
  function Split(s: string, p: string): (pieces: seq<string>)
    requires |p| > 0
    ensures |pieces| >= 1
    decreases |s|
  {
    match Find(s, p, 0)
    case None => [s]
    case Some(i) => [s[..i]] + Split(s[i + |p|..], p)
  }

  /** The pieces glued together with `sep` between neighbours. */
  function Join(pieces: seq<string>, sep: string): string
  {
    if |pieces| == 0 then []
    else if |pieces| == 1 then pieces[0]
    else pieces[0] + sep + Join(pieces[1..], sep)
  }

  /**
   * `s.replacingOccurrences(of: target, with: replacement)`: every
   * occurrence of `target`, taken from left to right without overlap, is
   * replaced; an empty `target` leaves `s` as it is.
   */
  function ReplaceAll(s: string, target: string, replacement: string): string
    decreases |s|
  {
    if |target| == 0 then s
    else match Find(s, target, 0)
      case None => s
      case Some(i) => s[..i] + replacement + ReplaceAll(s[i + |target|..], target, replacement)
  }

  lemma ConcatAssociative<T>(a: seq<T>, b: seq<T>, c: seq<T>)
    ensures (a + b) + c == a + (b + c)
  {
  }

  lemma JoinCons(head: string, tail: seq<string>, sep: string)
    requires |tail| >= 1
    ensures Join([head] + tail, sep) == head + sep + Join(tail, sep)
  {
    assert ([head] + tail)[1..] == tail;
  }

  /** `p` occurs in `a + p + b` right after `a`. */
  lemma OccursBetween(a: string, p: string, b: string)
    ensures OccursAt(a + p + b, p, |a|)
  {
    assert (a + p + b)[|a|..|a| + |p|] == p;
  }

  /** Occurrences that fit inside a prefix of `s` are those of `s`. */
  lemma OccursInPrefix(s: string, p: string, n: nat, j: nat)
    requires n <= |s|
    ensures OccursAt(s[..n], p, j) <==> j + |p| <= n && OccursAt(s, p, j)
  {
    if j + |p| <= n {
      assert s[..n][j..j + |p|] == s[j..j + |p|];
    }
  }

  /** Gluing the pieces back together with `p` gives `s` again. */
  lemma {:induction false} JoinSplit(s: string, p: string)
    requires |p| > 0
    ensures Join(Split(s, p), p) == s
    decreases |s|
  {
    match Find(s, p, 0)
    case None =>
    case Some(i) =>
      var rest := s[i + |p|..];
      JoinSplit(rest, p);
      JoinCons(s[..i], Split(rest, p), p);
      AroundOccurrence(s, p, i);
  }

  /** No piece contains `p`: every occurrence was cut out. */
  lemma {:induction false} SplitPiecesFree(s: string, p: string)
    requires |p| > 0
    ensures forall k :: 0 <= k < |Split(s, p)| ==> !Contains(Split(s, p)[k], p)
    decreases |s|
  {
    match Find(s, p, 0)
    case None =>
      assert Split(s, p) == [s];
    case Some(i) =>
      var rest := s[i + |p|..];
      SplitPiecesFree(rest, p);
      assert Split(s, p) == [s[..i]] + Split(rest, p);
      forall j: nat
        ensures !OccursAt(s[..i], p, j)
      {
        OccursInPrefix(s, p, i, j);
      }
  }

  /**
   * The split is leftmost: in each piece but the last, followed by `p`,
   * the first occurrence of `p` is the one right after the piece.
   */
  lemma {:induction false} SplitLeftmost(s: string, p: string)
    requires |p| > 0
    ensures forall k :: 0 <= k < |Split(s, p)| - 1 ==>
      Find(Split(s, p)[k] + p, p, 0) == Some(|Split(s, p)[k]|)
    decreases |s|
  {
    match Find(s, p, 0)
    case None =>
    case Some(i) =>
      var rest := s[i + |p|..];
      SplitLeftmost(rest, p);
      assert Split(s, p) == [s[..i]] + Split(rest, p);
      FirstOccurrenceAtJunction(s, p, i);
  }

  lemma FirstOccurrenceAtJunction(s: string, p: string, i: nat)
    requires |p| > 0
    requires Find(s, p, 0) == Some(i)
    ensures Find(s[..i] + p, p, 0) == Some(i)
  {
    var u := s[..i + |p|];
    OccursInPrefix(s, p, i + |p|, i);
    forall j: nat | j < i
      ensures !OccursAt(u, p, j)
    {
      OccursInPrefix(s, p, i + |p|, j);
    }
    FindFirst(u, p, 0, i);
    PrefixThroughOccurrence(s, p, i);
  }

  /** `s` is what comes before an occurrence, the occurrence, and what follows it. */
  lemma AroundOccurrence(s: string, p: string, i: nat)
    requires OccursAt(s, p, i)
    ensures s == s[..i] + p + s[i + |p|..]
  {
    assert s == s[..i] + s[i..i + |p|] + s[i + |p|..];
  }

  lemma PrefixThroughOccurrence(s: string, p: string, i: nat)
    requires OccursAt(s, p, i)
    ensures s[..i] + p == s[..i + |p|]
  {
    assert s[..i + |p|] == s[..i] + s[i..i + |p|];
  }

  /** `Find` finds nothing in a text that does not contain the pattern. */
  lemma FindAbsent(s: string, p: string)
    requires |p| > 0 && !Contains(s, p)
    ensures Find(s, p, 0) == None
  {
  }

  /** `Find` returns any occurrence that has no earlier one. */
  lemma FindFirst(s: string, p: string, from: nat, i: nat)
    requires |p| > 0 && from <= i
    requires OccursAt(s, p, i)
    requires forall j: nat :: from <= j < i ==> !OccursAt(s, p, j)
    ensures Find(s, p, from) == Some(i)
  {
    var r := Find(s, p, from);
    assert r.Some? && r.value <= i;
  }

  /**
   * An occurrence right after `head` that is the first one in `head + p`
   * stays the first one whatever follows.
   */
  lemma FindAfterHead(head: string, p: string, rest: string)
    requires |p| > 0
    requires Find(head + p, p, 0) == Some(|head|)
    ensures Find(head + p + rest, p, 0) == Some(|head|)
  {
    var t := head + p;
    var s := t + rest;
    assert s[..|t|] == t;
    forall j: nat | j < |head|
      ensures !OccursAt(s, p, j)
    {
      OccursInPrefix(s, p, |t|, j);
    }
    OccursInPrefix(s, p, |t|, |head|);
    FindFirst(s, p, 0, |head|);
  }

  /**
   * The leftmost split is the only decomposition of `s` into pieces joined
   * by `p` in which no piece hides an occurrence that starts in it.
   */
  lemma {:induction false} SplitUnique(s: string, p: string, pieces: seq<string>)
    requires |p| > 0 && |pieces| >= 1
    requires Join(pieces, p) == s
    requires forall k :: 0 <= k < |pieces| - 1 ==> Find(pieces[k] + p, p, 0) == Some(|pieces[k]|)
    requires !Contains(pieces[|pieces| - 1], p)
    ensures pieces == Split(s, p)
    decreases |pieces|
  {
    if |pieces| == 1 {
      FindAbsent(s, p);
    } else {
      var head, tail := pieces[0], pieces[1..];
      assert pieces == [head] + tail;
      JoinCons(head, tail, p);
      var rest := Join(tail, p);
      FindAfterHead(head, p, rest);
      assert s == head + p + rest;
      assert s[..|head|] == head && s[|head| + |p|..] == rest;
      forall k | 0 <= k < |tail| - 1
        ensures Find(tail[k] + p, p, 0) == Some(|tail[k]|)
      {
        assert tail[k] == pieces[k + 1];
      }
      assert tail[|tail| - 1] == pieces[|pieces| - 1];
      SplitUnique(rest, p, tail);
      SplitAt(s, p, |head|);
    }
  }

  lemma SplitAt(s: string, p: string, i: nat)
    requires |p| > 0 && Find(s, p, 0) == Some(i)
    ensures Split(s, p) == [s[..i]] + Split(s[i + |p|..], p)
  {
  }

  /** Replacing is splitting at the occurrences and joining with the replacement. */
  lemma {:induction false} ReplaceAllIsJoinOfSplit(s: string, target: string, replacement: string)
    requires |target| > 0
    ensures ReplaceAll(s, target, replacement) == Join(Split(s, target), replacement)
    decreases |s|
  {
    match Find(s, target, 0)
    case None =>
    case Some(i) =>
      var rest := s[i + |target|..];
      ReplaceAllIsJoinOfSplit(rest, target, replacement);
      JoinCons(s[..i], Split(rest, target), replacement);
  }

  /** A replacement at least as long as the target never shortens the text. */
  lemma {:induction false} ReplaceAllNotShorter(s: string, target: string, replacement: string)
    requires |replacement| >= |target|
    ensures |ReplaceAll(s, target, replacement)| >= |s|
    decreases |s|
  {
    if |target| > 0 {
      match Find(s, target, 0)
      case None =>
      case Some(i) =>
        ReplaceAllNotShorter(s[i + |target|..], target, replacement);
    }
  }

  /**
   * With a longer replacement, the text changes exactly when it contains the
   * target.
   */
  lemma ReplaceAllChangesIff(s: string, target: string, replacement: string)
    requires |target| > 0 && |replacement| > |target|
    ensures ReplaceAll(s, target, replacement) == s <==> !Contains(s, target)
  {
    var r := Find(s, target, 0);
    if r.Some? {
      ReplaceAllGrows(s, target, replacement, r.value);
    }
  }

  lemma ReplaceAllGrows(s: string, target: string, replacement: string, i: nat)
    requires |target| > 0 && |replacement| > |target|
    requires Find(s, target, 0) == Some(i)
    ensures |ReplaceAll(s, target, replacement)| > |s|
  {
    ReplaceAllNotShorter(s[i + |target|..], target, replacement);
  }

  /**
   * Replacing one character by another maps the text character by character.
   */
  lemma {:induction false} ReplaceCharPointwise(s: string, c: char, d: char)
    ensures |ReplaceAll(s, [c], [d])| == |s|
    ensures forall i :: 0 <= i < |s| ==>
      ReplaceAll(s, [c], [d])[i] == if s[i] == c then d else s[i]
    decreases |s|
  {
    match Find(s, [c], 0)
    case None =>
      forall i | 0 <= i < |s|
        ensures s[i] != c
      {
        assert !OccursAt(s, [c], i) && s[i..i + 1] == [s[i]];
      }
    case Some(i) =>
      var rest := s[i + 1..];
      ReplaceCharPointwise(rest, c, d);
      var r := ReplaceAll(s, [c], [d]);
      assert r == s[..i] + [d] + ReplaceAll(rest, [c], [d]);
      assert s[i..i + 1] == [c];
      forall j | 0 <= j < i
        ensures s[j] != c
      {
        assert !OccursAt(s, [c], j) && s[j..j + 1] == [s[j]];
      }
  }
}
