/**
  Go's `(*regexp.Regexp).ReplaceAllString` for patterns that never match the
  empty string and contain no anchor and no word boundary, which covers every
  pattern the patch compiles (cmd/gqlgen/main.go:46-49).  For such a pattern,
  whether and how far it matches at an index depends only on the text from
  that index on, so a compiled pattern is a `Matcher`: the length of its match
  at the very start of a text.  The leftmost match is replaced, the scan
  resumes right after it, and the replacement is never scanned again.  None
  of the replacements contains `$`, so they are copied literally.
*/
module Regexp {
  import opened Wrappers

  /** A compiled pattern: the length of its match at the start of a text, None if it does not match there. */
  type Matcher = string -> Option<nat>

  /** f reports only non-empty matches, and they lie inside the text. */
  ghost predicate Sound(f: Matcher) {
    forall t {:trigger f(t)} :: f(t).Some? ==> 0 < f(t).value <= |t|
  }

  /** A match depends only on the text it spans: cutting off what follows it, or adding more, keeps it. */
  ghost predicate Local(f: Matcher) {
    && (forall t, n {:trigger f(t[..n])} :: n <= |t| && f(t) == Some(n) ==> f(t[..n]) == Some(n))
    && (forall x, u {:trigger f(x + u)} :: f(x) == Some(|x|) ==> f(x + u) == Some(|x|))
  }

  /** A non-empty literal: every literal pattern of the patch is one. */
  type Needle = s: string | |s| > 0 witness "_"

  /** The compiled literal pattern w (a pattern without metacharacters). */
  function Literal(w: Needle): Matcher {
    t => if w <= t then Some(|w|) else None
  }

  /** f matches nowhere in s from index i up to (not including) index j. */
  ghost predicate NoMatchBetween(f: Matcher, s: string, i: nat, j: nat)
    requires i <= j <= |s|
  {
    forall m {:trigger f(s[m..])} :: i <= m < j ==> f(s[m..]).None?
  }

  /** f matches nowhere in s. */
  ghost predicate NoMatchIn(f: Matcher, s: string) {
    NoMatchBetween(f, s, 0, |s|)
  }

  /** Where a match lies: s[start..end]. */
  datatype Span = Span(start: nat, end: nat)

  /** m is the leftmost match of f in s that starts at index i or later. */
  ghost predicate Leftmost(f: Matcher, s: string, i: nat, m: Span) {
    && i <= m.start < m.end <= |s|
    && f(s[m.start..]) == Some(m.end - m.start)
    && NoMatchBetween(f, s, i, m.start)
  }

  /** The leftmost match of f in s that starts at index i or later. */
  function FindFrom(f: Matcher, s: string, i: nat): (r: Option<Span>)
    requires Sound(f) && i <= |s|
    ensures r.Some? ==> Leftmost(f, s, i, r.value)
    ensures r.None? ==> NoMatchBetween(f, s, i, |s|)
    decreases |s| - i
  {
    if i == |s| then None
    else
      match f(s[i..])
      case Some(n) => Some(Span(i, i + n))
      case None => FindFrom(f, s, i + 1)
  }

  /**
    Every match of f in s is replaced by rep, leftmost first; the text
    between matches is copied unchanged.
  */
  function ReplaceAll(f: Matcher, s: string, rep: string): (r: string)
    requires Sound(f)
    ensures NoMatchIn(f, s) ==> r == s
    decreases |s|
  {
    match FindFrom(f, s, 0)
    case None => s
    case Some(m) => s[..m.start] + rep + ReplaceAll(f, s[m.end..], rep)
  }

  /** The text between the matches, and the matches themselves, in order. */
  datatype Pieces = Pieces(gaps: seq<string>, matched: seq<string>)

  /** s cut at the matches ReplaceAll replaces. */
  function Split(f: Matcher, s: string): (r: Pieces)
    requires Sound(f)
    ensures |r.gaps| == |r.matched| + 1
    decreases |s|
  {
    match FindFrom(f, s, 0)
    case None => Pieces([s], [])
    case Some(m) =>
      var rest := Split(f, s[m.end..]);
      Pieces([s[..m.start]] + rest.gaps, [s[m.start..m.end]] + rest.matched)
  }

  /** The number of matches ReplaceAll replaces. */
  function Count(f: Matcher, s: string): nat
    requires Sound(f)
  {
    |Split(f, s).matched|
  }

  /** gaps[0] + matched[0] + gaps[1] + ... + gaps[n]. */
  function Interleave(gaps: seq<string>, matched: seq<string>): string
    requires |gaps| == |matched| + 1
    decreases |matched|
  {
    if |matched| == 0 then gaps[0] else gaps[0] + matched[0] + Interleave(gaps[1..], matched[1..])
  }

  /** gaps[0] + sep + gaps[1] + ... + sep + gaps[n]. */
  function Join(gaps: seq<string>, sep: string): string
    requires |gaps| > 0
    decreases |gaps|
  {
    if |gaps| == 1 then gaps[0] else gaps[0] + sep + Join(gaps[1..], sep)
  }

  /*
    Literal patterns
  */

  /** A literal matches exactly where the text starts with it, and it is a sound, local matcher. */
  lemma LiteralMatcher(w: Needle)
    ensures forall t :: Literal(w)(t).Some? <==> w <= t
    ensures Sound(Literal(w)) && Local(Literal(w))
  {
    forall x, u {:trigger Literal(w)(x + u)} | Literal(w)(x) == Some(|x|)
      ensures Literal(w)(x + u) == Some(|x|)
    {
      assert w == x;
      assert x <= x + u;
    }
  }

  /** The only text that is a whole match of a literal is the literal itself. */
  lemma LiteralWhole(w: Needle, x: string)
    ensures Literal(w)(x) == Some(|x|) <==> x == w
  {
  }

  /*
    The leftmost match
  */

  /** There is only one leftmost match, and FindFrom finds it. */
  lemma {:induction false} LeftmostIsFound(f: Matcher, s: string, i: nat, m: Span)
    requires Sound(f) && i <= |s| && Leftmost(f, s, i, m)
    ensures FindFrom(f, s, i) == Some(m)
    decreases m.start - i
  {
    if i < m.start {
      assert f(s[i..]).None?;
      LeftmostIsFound(f, s, i + 1, m);
    }
  }

  /** Text in which f matches nowhere is skipped by the search. */
  lemma {:induction false} FindSkips(f: Matcher, s: string, i: nat, j: nat)
    requires Sound(f) && i <= j <= |s| && NoMatchBetween(f, s, i, j)
    ensures FindFrom(f, s, i) == FindFrom(f, s, j)
    decreases j - i
  {
    if i < j {
      assert f(s[i..]).None?;
      FindSkips(f, s, i + 1, j);
    }
  }

  /** A span moved k characters to the right. */
  function Shift(r: Option<Span>, k: nat): Option<Span> {
    match r
    case None => None
    case Some(m) => Some(Span(m.start + k, m.end + k))
  }

  /** Searching x + s from inside s finds what searching s finds, moved by |x|. */
  lemma {:induction false} FindShift(f: Matcher, x: string, s: string, j: nat)
    requires Sound(f) && j <= |s|
    ensures FindFrom(f, x + s, |x| + j) == Shift(FindFrom(f, s, j), |x|)
    decreases |s| - j
  {
    if j < |s| {
      DropShifted(x, s, j);
      FindStep(f, x + s, |x| + j, s[j..]);
      FindStep(f, s, j, s[j..]);
      if f(s[j..]).None? {
        FindShift(f, x, s, j + 1);
      }
    }
  }

  /** Past x, the suffixes of x + s are those of s. */
  lemma DropShifted(x: string, s: string, j: nat)
    requires j <= |s|
    ensures |x| + j <= |x + s| && (x + s)[|x| + j..] == s[j..]
  {
  }

  /** One step of the search: f is tried at index i, whose suffix is u. */
  lemma FindStep(f: Matcher, s: string, i: nat, u: string)
    requires Sound(f) && i < |s| && s[i..] == u
    ensures FindFrom(f, s, i) == match f(u)
                                 case Some(n) => Some(Span(i, i + n))
                                 case None => FindFrom(f, s, i + 1)
  {
  }

  /**
    When f matches nowhere in front of s, the leftmost match in x + s is the
    leftmost match in s, moved by |x|.
  */
  lemma FindAfterPrefix(f: Matcher, x: string, s: string)
    requires Sound(f) && NoMatchBetween(f, x + s, 0, |x|)
    ensures FindFrom(f, x + s, 0) == Shift(FindFrom(f, s, 0), |x|)
  {
    FindSkips(f, x + s, 0, |x|);
    FindShift(f, x, s, 0);
  }

  /*
    ReplaceAll and its partners Split, Interleave and Join
  */

  /** Split cuts s at its leftmost match, s[a..b], and goes on with the text after it, u. */
  lemma SplitAtMatch(f: Matcher, s: string, a: nat, b: nat, u: string)
    requires Sound(f) && FindFrom(f, s, 0) == Some(Span(a, b))
    requires b <= |s| && s[b..] == u
    ensures a < b
    ensures Split(f, s).gaps == [s[..a]] + Split(f, u).gaps
    ensures Split(f, s).matched == [s[a..b]] + Split(f, u).matched
  {
  }

  /** ReplaceAll copies the text before the leftmost match s[a..b], then rep, then goes on with the text after it, u. */
  lemma ReplaceAtMatch(f: Matcher, s: string, rep: string, a: nat, b: nat, u: string)
    requires Sound(f) && FindFrom(f, s, 0) == Some(Span(a, b))
    requires b <= |s| && s[b..] == u
    ensures a < b
    ensures ReplaceAll(f, s, rep) == s[..a] + rep + ReplaceAll(f, u, rep)
  {
  }

  /** A match at the very start is replaced, and the rest is rewritten on its own. */
  lemma ReplaceLeading(f: Matcher, x: string, u: string, rep: string, t: string)
    requires Sound(f) && t == x + u && f(t) == Some(|x|)
    ensures ReplaceAll(f, t, rep) == rep + ReplaceAll(f, u, rep)
  {
    FindStep(f, t, 0, t);
    assert t[|x|..] == u;
    ReplaceAtMatch(f, t, rep, 0, |x|, u);
  }

  lemma InterleaveCons(g: string, w: string, gaps: seq<string>, matched: seq<string>)
    requires |gaps| == |matched| + 1
    ensures Interleave([g] + gaps, [w] + matched) == g + w + Interleave(gaps, matched)
  {
    assert ([g] + gaps)[1..] == gaps;
    assert ([w] + matched)[1..] == matched;
  }

  lemma JoinCons(g: string, gaps: seq<string>, sep: string)
    requires |gaps| > 0
    ensures Join([g] + gaps, sep) == g + sep + Join(gaps, sep)
  {
    assert ([g] + gaps)[1..] == gaps;
  }

  lemma CutTwice(s: string, a: nat, b: nat)
    requires a <= b <= |s|
    ensures s == s[..a] + s[a..b] + s[b..]
  {
  }

  /** Splitting loses nothing: the gaps and the matches, interleaved, give s back. */
  lemma {:induction false} SplitRoundTrip(f: Matcher, s: string)
    requires Sound(f)
    ensures Interleave(Split(f, s).gaps, Split(f, s).matched) == s
    decreases |s|
  {
    if FindFrom(f, s, 0).Some? {
      var m := FindFrom(f, s, 0).value;
      var u := s[m.end..];
      SplitAtMatch(f, s, m.start, m.end, u);
      SplitRoundTrip(f, u);
      InterleaveCons(s[..m.start], s[m.start..m.end], Split(f, u).gaps, Split(f, u).matched);
      CutTwice(s, m.start, m.end);
    }
  }

  /** ReplaceAll puts rep between the gaps of the split. */
  lemma {:induction false} ReplaceAllIsJoin(f: Matcher, s: string, rep: string)
    requires Sound(f)
    ensures ReplaceAll(f, s, rep) == Join(Split(f, s).gaps, rep)
    decreases |s|
  {
    if FindFrom(f, s, 0).Some? {
      var m := FindFrom(f, s, 0).value;
      var u := s[m.end..];
      SplitAtMatch(f, s, m.start, m.end, u);
      ReplaceAtMatch(f, s, rep, m.start, m.end, u);
      ReplaceAllIsJoin(f, u, rep);
      JoinCons(s[..m.start], Split(f, u).gaps, rep);
    }
  }

  /** The leftmost match, cut out of s, is a whole match of f. */
  lemma WholeMatch(f: Matcher, s: string, m: Span)
    requires Sound(f) && Local(f) && Leftmost(f, s, 0, m)
    ensures f(s[m.start..m.end]) == Some(m.end - m.start)
  {
    assert s[m.start..][..m.end - m.start] == s[m.start..m.end];
    ShrinkMatch(f, s[m.start..], m.end - m.start, s[m.start..m.end]);
  }

  /** A match cut off right after its end is still a match. */
  lemma ShrinkMatch(f: Matcher, t: string, n: nat, u: string)
    requires Sound(f) && Local(f) && f(t) == Some(n) && n <= |t| && u == t[..n]
    ensures f(u) == Some(n)
  {
  }

  /** A match inside s[..j] is also a match, of the same length, in s. */
  lemma MatchInPrefix(f: Matcher, s: string, j: nat, m: nat)
    requires Sound(f) && Local(f) && m <= j <= |s|
    ensures f(s[..j][m..]).Some? ==> f(s[m..]) == f(s[..j][m..])
  {
    var x := s[..j][m..];
    if f(x).Some? {
      var n := f(x).value;
      assert f(x[..n]) == Some(n);
      assert x[..n] + (x[n..] + s[j..]) == s[m..];
      assert f(x[..n] + (x[n..] + s[j..])) == Some(n);
    }
  }

  /** f matches nowhere in s[..j] when it matches nowhere in s before index j. */
  lemma GapHasNoMatch(f: Matcher, s: string, j: nat)
    requires Sound(f) && Local(f)
    requires j <= |s| && NoMatchBetween(f, s, 0, j)
    ensures NoMatchIn(f, s[..j])
  {
    forall m | 0 <= m < j
      ensures f(s[..j][m..]).None?
    {
      MatchInPrefix(f, s, j, m);
    }
  }

  /** Every matched piece is a whole match of f, and f matches nowhere inside a gap. */
  lemma {:induction false} SplitPieces(f: Matcher, s: string)
    requires Sound(f) && Local(f)
    ensures forall i :: 0 <= i < |Split(f, s).matched| ==>
              f(Split(f, s).matched[i]) == Some(|Split(f, s).matched[i]|)
    ensures forall i :: 0 <= i < |Split(f, s).gaps| ==> NoMatchIn(f, Split(f, s).gaps[i])
    decreases |s|
  {
    if FindFrom(f, s, 0).Some? {
      var m := FindFrom(f, s, 0).value;
      var u := s[m.end..];
      SplitAtMatch(f, s, m.start, m.end, u);
      SplitPieces(f, u);
      WholeMatch(f, s, m);
      GapHasNoMatch(f, s, m.start);
    }
  }

  /** Interleaving copies of one string is joining with it. */
  lemma {:induction false} InterleaveSame(gaps: seq<string>, matched: seq<string>, w: string)
    requires |gaps| == |matched| + 1
    requires forall i :: 0 <= i < |matched| ==> matched[i] == w
    ensures Interleave(gaps, matched) == Join(gaps, w)
    decreases |matched|
  {
    if |matched| > 0 {
      InterleaveSame(gaps[1..], matched[1..], w);
    }
  }

  /**
    A literal pass in one statement: s is the gaps joined by w, the result is
    the same gaps joined by rep, and w occurs in no gap.
  */
  lemma LiteralReplaceAll(w: Needle, s: string, rep: string)
    ensures var g := Split(Literal(w), s).gaps;
      && s == Join(g, w) && ReplaceAll(Literal(w), s, rep) == Join(g, rep)
      && forall i :: 0 <= i < |g| ==> NoMatchIn(Literal(w), g[i])
  {
    LiteralMatcher(w);
    var sp := Split(Literal(w), s);
    SplitRoundTrip(Literal(w), s);
    SplitPieces(Literal(w), s);
    forall i | 0 <= i < |sp.matched|
      ensures sp.matched[i] == w
    {
      LiteralWhole(w, sp.matched[i]);
    }
    InterleaveSame(sp.gaps, sp.matched, w);
    ReplaceAllIsJoin(Literal(w), s, rep);
  }

  /*
    Counting matches
  */

  /** ReplaceAll replaces something exactly when f matches somewhere in s. */
  lemma CountZero(f: Matcher, s: string)
    requires Sound(f)
    ensures Count(f, s) == 0 <==> NoMatchIn(f, s)
  {
    if FindFrom(f, s, 0).Some? {
      var m := FindFrom(f, s, 0).value;
      assert f(s[m.start..]).Some?;
    }
  }

  /** Regrouping behind PrefixReplace: x + s, cut at |x| + a, is x followed by s cut at a. */
  lemma PrefixConcat(x: string, s: string, rep: string, a: nat, tail: string, left: string, right: string)
    requires a <= |s|
    requires left == (x + s)[..|x| + a] + rep + tail
    requires right == s[..a] + rep + tail
    ensures left == x + right
  {
    assert (x + s)[..|x| + a] == x + s[..a];
  }

  /** Text in which f matches nowhere, put in front of s, is copied unchanged. */
  lemma PrefixReplace(f: Matcher, x: string, s: string, rep: string)
    requires Sound(f) && NoMatchBetween(f, x + s, 0, |x|)
    ensures ReplaceAll(f, x + s, rep) == x + ReplaceAll(f, s, rep)
  {
    FindAfterPrefix(f, x, s);
    if FindFrom(f, s, 0).Some? {
      var m := FindFrom(f, s, 0).value;
      ReplaceShifted(f, x, s, rep, m.start, m.end);
    }
  }

  /** The step of PrefixReplace at a match. */
  lemma ReplaceShifted(f: Matcher, x: string, s: string, rep: string, a: nat, b: nat)
    requires Sound(f) && FindFrom(f, s, 0) == Some(Span(a, b))
    requires FindFrom(f, x + s, 0) == Some(Span(|x| + a, |x| + b))
    ensures ReplaceAll(f, x + s, rep) == x + ReplaceAll(f, s, rep)
  {
    ReplaceAtMatch(f, s, rep, a, b, s[b..]);
    DropShifted(x, s, b);
    ReplaceAtMatch(f, x + s, rep, |x| + a, |x| + b, s[b..]);
    PrefixConcat(x, s, rep, a, ReplaceAll(f, s[b..], rep), ReplaceAll(f, x + s, rep), ReplaceAll(f, s, rep));
  }

  /** Text in which f matches nowhere, put in front of s, adds no match. */
  lemma PrefixCount(f: Matcher, x: string, s: string)
    requires Sound(f) && NoMatchBetween(f, x + s, 0, |x|)
    ensures Count(f, x + s) == Count(f, s)
  {
    FindAfterPrefix(f, x, s);
    match FindFrom(f, s, 0)
    case None =>
    case Some(m) =>
      assert (x + s)[m.end + |x|..] == s[m.end..];
  }

  lemma MulSucc(a: int, c: int, d: int)
    requires a == c + 1
    ensures a * d == c * d + d
  {
  }

  lemma MulLess(c: int, a: int, b: int)
    requires c > 0 && a < b
    ensures c * a < c * b
  {
  }

  /** Each replacement of a literal w by rep changes the length by |rep| - |w|. */
  lemma {:induction false} LiteralLength(w: Needle, s: string, rep: string)
    ensures |ReplaceAll(Literal(w), s, rep)| + Count(Literal(w), s) * |w| == |s| + Count(Literal(w), s) * |rep|
    decreases |s|
  {
    var f := Literal(w);
    match FindFrom(f, s, 0)
    case None =>
    case Some(m) =>
      var rest := s[m.end..];
      LiteralLength(w, rest, rep);
      ReplaceAtMatch(f, s, rep, m.start, m.end, s[m.end..]);
      assert Count(f, s) == Count(f, rest) + 1;
      MulSucc(Count(f, s), Count(f, rest), |rep|);
      MulSucc(Count(f, s), Count(f, rest), |w|);
  }

  /** Putting add after every occurrence of w lengthens the text by |add| per occurrence. */
  lemma LiteralInsertLength(w: Needle, s: string, add: string)
    ensures |ReplaceAll(Literal(w), s, w + add)| == |s| + Count(Literal(w), s) * |add|
  {
    LiteralLength(w, s, w + add);
    CancelGrowth(|ReplaceAll(Literal(w), s, w + add)|, |s|, Count(Literal(w), s), |w|, |add|, |w + add|);
  }

  lemma CancelGrowth(r: int, n: int, c: int, a: int, b: int, d: int)
    requires d == a + b && r + c * a == n + c * d
    ensures r == n + c * b
  {
  }

  /** w starts at index |x| + q of x + rep + y when it sits at index q of rep. */
  lemma OccursInside(x: string, rep: string, y: string, q: nat, w: string)
    requires q + |w| <= |rep| && rep[q..q + |w|] == w
    ensures |x| + q <= |x + rep + y| && w <= (x + rep + y)[|x| + q..]
  {
    var t := x + rep + y;
    forall k | 0 <= k < |w|
      ensures t[|x| + q + k] == w[k]
    {
      assert t[|x| + q + k] == rep[q + k];
    }
  }

  /**
    Replacing a literal by a longer text that contains it is not idempotent:
    once there is a match, a second run finds the copy inside the replacement
    and grows the text again.
  */
  lemma LiteralNotIdempotent(w: Needle, s: string, rep: string, q: nat)
    requires Count(Literal(w), s) > 0
    requires |rep| > |w| && q + |w| <= |rep| && rep[q..q + |w|] == w
    ensures ReplaceAll(Literal(w), ReplaceAll(Literal(w), s, rep), rep) != ReplaceAll(Literal(w), s, rep)
  {
    LiteralMatcher(w);
    var f := Literal(w);
    var t := ReplaceAll(f, s, rep);
    var m := FindFrom(f, s, 0).value;
    var x := s[..m.start];
    assert t == x + rep + ReplaceAll(f, s[m.end..], rep);
    OccursInside(x, rep, ReplaceAll(f, s[m.end..], rep), q, w);
    assert f(t[|x| + q..]).Some?;
    CountZero(f, t);
    LiteralLength(w, t, rep);
    MulLess(Count(f, t), |w|, |rep|);
  }

  /*
    Replacements that create no new match
  */

  /**
    rep neither ends a match that starts in the text before it nor starts
    one anywhere inside it, whatever surrounds it.
  */
  ghost predicate Inert(f: Matcher, rep: string) {
    && (forall x, y {:trigger f(x + rep + y)} :: |x| > 0 && f(x + rep + y).Some? ==> f(x + rep + y).value <= |x|)
    && (forall i, y {:trigger f(rep[i..] + y)} :: 0 <= i < |rep| ==> f(rep[i..] + y).None?)
  }

  /** A match that starts before an inert rep is a match of the text before rep alone. */
  lemma MatchBeforeInert(f: Matcher, x: string, rep: string, y: string)
    requires Sound(f) && Local(f) && Inert(f, rep) && |x| > 0
    ensures f(x + rep + y).Some? ==> f(x) == f(x + rep + y)
  {
    var t := x + rep + y;
    if f(t).Some? {
      var n := f(t).value;
      assert f(t[..n]) == Some(n);
      assert t[..n] == x[..n];
      assert x[..n] + x[n..] == x;
      assert f(x[..n] + x[n..]) == Some(n);
    }
  }

  /** Gaps without a match, joined by an inert rep, have no match. */
  lemma {:induction false} JoinInert(f: Matcher, gaps: seq<string>, rep: string)
    requires Sound(f) && Local(f) && Inert(f, rep)
    requires |gaps| > 0 && forall i :: 0 <= i < |gaps| ==> NoMatchIn(f, gaps[i])
    ensures NoMatchIn(f, Join(gaps, rep))
    decreases |gaps|
  {
    if |gaps| > 1 {
      var g, rest := gaps[0], Join(gaps[1..], rep);
      JoinInert(f, gaps[1..], rep);
      var t := g + rep + rest;
      forall m | 0 <= m < |t|
        ensures f(t[m..]).None?
      {
        if m < |g| {
          assert t[m..] == g[m..] + rep + rest;
          MatchBeforeInert(f, g[m..], rep, rest);
        } else if m < |g| + |rep| {
          assert t[m..] == rep[m - |g|..] + rest;
        } else {
          assert t[m..] == rest[m - |g| - |rep|..];
        }
      }
    }
  }

  /** Replacing by an inert text leaves no match behind. */
  lemma InertLeavesNoMatch(f: Matcher, s: string, rep: string)
    requires Sound(f) && Local(f) && Inert(f, rep)
    ensures NoMatchIn(f, ReplaceAll(f, s, rep))
  {
    ReplaceAllIsJoin(f, s, rep);
    SplitPieces(f, s);
    JoinInert(f, Split(f, s).gaps, rep);
  }

  /** Replacing by an inert text is idempotent: the second run finds nothing. */
  lemma InertIdempotent(f: Matcher, s: string, rep: string)
    requires Sound(f) && Local(f) && Inert(f, rep)
    ensures ReplaceAll(f, ReplaceAll(f, s, rep), rep) == ReplaceAll(f, s, rep)
  {
    InertLeavesNoMatch(f, s, rep);
  }

  /** With an inert replacement, a text is left as it is exactly when it holds no match. */
  lemma InertUnchanged(f: Matcher, s: string, rep: string)
    requires Sound(f) && Local(f) && Inert(f, rep)
    ensures ReplaceAll(f, s, rep) == s <==> NoMatchIn(f, s)
  {
    InertLeavesNoMatch(f, s, rep);
  }

  /*
    A literal replaced by a longer text
  */

  /** Replacing a literal by a longer text leaves s as it is exactly when the literal is absent. */
  lemma LiteralUnchanged(w: Needle, s: string, rep: string)
    requires |rep| > |w|
    ensures ReplaceAll(Literal(w), s, rep) == s <==> NoMatchIn(Literal(w), s)
  {
    var f := Literal(w);
    CountZero(f, s);
    LiteralLength(w, s, rep);
    if Count(f, s) > 0 {
      MulLess(Count(f, s), |w|, |rep|);
    }
  }

  /**
    A replacement head + w + tail that wraps the literal w, where neither
    head nor tail holds the first character of w and no tail of w starts
    head, holds w exactly once, and nothing it adds completes another w.
  */
  ghost predicate Wraps(w: Needle, head: string, tail: string) {
    && |w| <= |head| + 1
    && (forall k :: 0 <= k < |head| ==> head[k] != w[0])
    && (forall k :: 0 <= k < |tail| ==> tail[k] != w[0])
    && (forall d :: 0 < d < |w| ==> !(w[d..] <= head))
  }

  /** No match of w starts in a gap without w or in head, whatever follows head. */
  lemma NoMatchBeforeWrap(w: Needle, g: string, head: string, tail: string, u: string)
    requires Wraps(w, head, tail) && NoMatchIn(Literal(w), g)
    ensures NoMatchBetween(Literal(w), g + head + u, 0, |g + head|)
  {
    var t := g + head + u;
    forall m | 0 <= m < |g + head|
      ensures !(w <= t[m..])
    {
      if m < |g| && m + |w| <= |g| {
        assert t[m..m + |w|] == g[m..][..|w|];
        assert Literal(w)(g[m..]).None?;
      } else if m < |g| {
        var d := |g| - m;
        assert t[m + d..m + |w|] == head[..|w| - d];
        assert w[d..] == w[..|w|][d..];
      } else {
        assert t[m] == head[m - |g|];
      }
    }
  }

  /** Matching the literal at the start of w + v counts one, then goes on in v. */
  lemma CountAtStart(w: Needle, v: string)
    ensures Count(Literal(w), w + v) == 1 + Count(Literal(w), v)
  {
    var u := w + v;
    LiteralMatcher(w);
    FindStep(Literal(w), u, 0, u);
    assert u[|w|..] == v;
    SplitAtMatch(Literal(w), u, 0, |w|, v);
  }

  /** No match of w starts in a tail that lacks the first character of w. */
  lemma NoMatchInTail(w: Needle, tail: string, v: string)
    requires forall k :: 0 <= k < |tail| ==> tail[k] != w[0]
    ensures NoMatchBetween(Literal(w), tail + v, 0, |tail|)
  {
    var t := tail + v;
    forall m | 0 <= m < |tail|
      ensures !(w <= t[m..])
    {
      assert t[m] == tail[m];
    }
  }

  /** A gap without w, then the wrapping text, adds one match to what follows. */
  lemma CountWrappedStep(w: Needle, head: string, tail: string, g: string, rest: string)
    requires Wraps(w, head, tail) && NoMatchIn(Literal(w), g)
    ensures Count(Literal(w), g + (head + w + tail) + rest) == 1 + Count(Literal(w), rest)
  {
    var f, v := Literal(w), tail + rest;
    var u := w + v;
    NoMatchInTail(w, tail, rest);
    PrefixCount(f, tail, rest);
    CountAtStart(w, v);
    NoMatchBeforeWrap(w, g, head, tail, u);
    PrefixCount(f, g + head, u);
    RegroupWrap(g, head, w, tail, rest);
  }

  lemma RegroupWrap(g: string, head: string, w: string, tail: string, rest: string)
    ensures g + (head + w + tail) + rest == g + head + (w + (tail + rest))
  {
  }

  /** Gaps without w, joined by a text that wraps w, hold w once per join. */
  lemma {:induction false} CountWrapped(w: Needle, head: string, tail: string, gaps: seq<string>)
    requires Wraps(w, head, tail) && |gaps| > 0
    requires forall i :: 0 <= i < |gaps| ==> NoMatchIn(Literal(w), gaps[i])
    ensures Count(Literal(w), Join(gaps, head + w + tail)) == |gaps| - 1
    decreases |gaps|
  {
    if |gaps| == 1 {
      LiteralMatcher(w);
      CountZero(Literal(w), gaps[0]);
    } else {
      CountWrapped(w, head, tail, gaps[1..]);
      CountWrappedStep(w, head, tail, gaps[0], Join(gaps[1..], head + w + tail));
    }
  }
}
