/**
  The recogniser for the third pattern the patch compiles
  (cmd/gqlgen/main.go:48):

      if\s+!\w+\s*\{\s*\n\s*defer\s+wg\.Done\(\)\s*\n\s*\}

  with RE2's ASCII classes `\s` = [\t\n\f\r ] and `\w` = [0-9A-Za-z_].
  At a given start the span of a match is unique: every `\s` run and the
  `\w+` run is delimited by a character outside its class, so the walk
  below never has to backtrack.  `Parse` is the walk; `DeferIf`,
  `WellFormed` and `Text` are its declarative partner.
*/
module DeferBlock {
  import opened Wrappers
  import Regexp
  import Chars

  /** RE2's `\s` (vertical tab is not in it). */
  predicate IsSpace(c: char) {
    c == '\t' || c == '\n' || c == '\U{C}' || c == '\r' || c == ' '
  }

  /** RE2's `\w`. */
  predicate IsWordChar(c: char) {
    ('0' <= c <= '9') || ('A' <= c <= 'Z') || ('a' <= c <= 'z') || c == '_'
  }

  predicate AllSpace(s: string) {
    forall k :: 0 <= k < |s| ==> IsSpace(s[k])
  }

  predicate AllWord(s: string) {
    forall k :: 0 <= k < |s| ==> IsWordChar(s[k])
  }

  /** The variable parts of a matched block, in order of appearance. */
  datatype DeferIf = DeferIf(
    afterIf: string,      // \s+
    cond: string,         // \w+, the negated flag
    beforeBrace: string,  // \s*
    beforeDefer: string,  // \s*\n\s*
    beforeDone: string,   // \s+
    beforeClose: string)  // \s*\n\s*

  /** Each part belongs to the class the expression gives it. */
  predicate WellFormed(b: DeferIf) {
    && |b.afterIf| > 0 && AllSpace(b.afterIf)
    && |b.cond| > 0 && AllWord(b.cond)
    && AllSpace(b.beforeBrace)
    && AllSpace(b.beforeDefer) && '\n' in b.beforeDefer
    && |b.beforeDone| > 0 && AllSpace(b.beforeDone)
    && AllSpace(b.beforeClose) && '\n' in b.beforeClose
  }

  /**
    The text a block with these parts spells, built from the closing brace
    back to the `if`: each function below spells the block from one of its
    delimiters on.
  */
  function Text(b: DeferIf): string {
    "if" + b.afterIf + "!" + CondText(b)
  }

  function CondText(b: DeferIf): string {
    b.cond + BraceText(b)
  }

  function BraceText(b: DeferIf): string {
    b.beforeBrace + "{" + DeferText(b)
  }

  function DeferText(b: DeferIf): string {
    b.beforeDefer + "defer" + DoneText(b)
  }

  function DoneText(b: DeferIf): string {
    b.beforeDone + "wg.Done()" + CloseText(b)
  }

  function CloseText(b: DeferIf): string {
    b.beforeClose + "}"
  }

  /** End of the longest run of `\s` characters starting at i. */
  function SkipSpace(t: string, i: nat): (j: nat)
    requires i <= |t|
    ensures i <= j <= |t|
    ensures AllSpace(t[i..j])
    ensures j == |t| || !IsSpace(t[j])
    decreases |t| - i
  {
    if i < |t| && IsSpace(t[i]) then SkipSpace(t, i + 1) else i
  }

  /** End of the longest run of `\w` characters starting at i. */
  function SkipWord(t: string, i: nat): (j: nat)
    requires i <= |t|
    ensures i <= j <= |t|
    ensures AllWord(t[i..j])
    ensures j == |t| || !IsWordChar(t[j])
    decreases |t| - i
  {
    if i < |t| && IsWordChar(t[i]) then SkipWord(t, i + 1) else i
  }

  /** Where the walk found the delimiters of a block. */
  datatype Cuts = Cuts(bang: nat, condEnd: nat, brace: nat, deferAt: nat, doneAt: nat, close: nat)

  /*
    The layout of a match, stated from the closing brace back to the `if`:
    each predicate says that t holds, from one delimiter of k on, the rest of
    the expression.
  */

  /** `\s*\n\s*\}` from index doneAt + 9, the brace at index close. */
  ghost predicate CloseTail(t: string, k: Cuts) {
    k.doneAt + 9 <= k.close < |t| && AllSpace(t[k.doneAt + 9..k.close])
    && '\n' in t[k.doneAt + 9..k.close] && t[k.close] == '}'
  }

  /** `\s+wg\.Done\(\)...` from index deferAt + 5, `wg.Done()` at index doneAt. */
  ghost predicate DoneTail(t: string, k: Cuts) {
    k.deferAt + 5 < k.doneAt <= |t| && AllSpace(t[k.deferAt + 5..k.doneAt])
    && "wg.Done()" <= t[k.doneAt..] && CloseTail(t, k)
  }

  /** `\s*\n\s*defer...` from index brace + 1, `defer` at index deferAt. */
  ghost predicate DeferTail(t: string, k: Cuts) {
    k.brace + 1 <= k.deferAt <= |t| && AllSpace(t[k.brace + 1..k.deferAt])
    && '\n' in t[k.brace + 1..k.deferAt] && "defer" <= t[k.deferAt..] && DoneTail(t, k)
  }

  /** `\s*\{...` from index condEnd, the brace at index brace. */
  ghost predicate BraceTail(t: string, k: Cuts) {
    k.condEnd <= k.brace < |t| && AllSpace(t[k.condEnd..k.brace]) && t[k.brace] == '{'
    && DeferTail(t, k)
  }

  /** `\w+...` from index bang + 1 up to index condEnd. */
  ghost predicate CondTail(t: string, k: Cuts) {
    k.bang + 1 < k.condEnd <= |t| && AllWord(t[k.bang + 1..k.condEnd]) && BraceTail(t, k)
  }

  /** The whole expression matches at the start of t with the delimiters k. */
  ghost predicate Layout(t: string, k: Cuts) {
    "if" <= t && 2 < k.bang < |t| && AllSpace(t[2..k.bang]) && t[k.bang] == '!' && CondTail(t, k)
  }

  /** The walk, one stage per element of the expression. */
  function FindCuts(t: string): (r: Option<Cuts>)
    ensures r.Some? ==> Layout(t, r.value)
  {
    if "if" <= t then AfterIf(t, SkipSpace(t, 2)) else None
  }

  function AfterIf(t: string, a: nat): (r: Option<Cuts>)
    requires 2 <= a <= |t| && AllSpace(t[2..a])
    ensures r.Some? ==> r.value.bang == a && 2 < a < |t| && t[a] == '!' && CondTail(t, r.value)
  {
    if 2 < a < |t| && t[a] == '!' then AfterBang(t, a, SkipWord(t, a + 1)) else None
  }

  function AfterBang(t: string, a: nat, c: nat): (r: Option<Cuts>)
    requires a + 1 <= c <= |t| && AllWord(t[a + 1..c])
    ensures r.Some? ==> r.value.bang == a && r.value.condEnd == c && CondTail(t, r.value)
  {
    if a + 1 < c then AfterCond(t, a, c, SkipSpace(t, c)) else None
  }

  function AfterCond(t: string, a: nat, c: nat, d: nat): (r: Option<Cuts>)
    requires c <= d <= |t| && AllSpace(t[c..d])
    ensures r.Some? ==> r.value.bang == a && r.value.condEnd == c && r.value.brace == d
                        && BraceTail(t, r.value)
  {
    if d < |t| && t[d] == '{' then AfterBrace(t, a, c, d, SkipSpace(t, d + 1)) else None
  }

  function AfterBrace(t: string, a: nat, c: nat, d: nat, e: nat): (r: Option<Cuts>)
    requires d + 1 <= e <= |t| && AllSpace(t[d + 1..e])
    ensures r.Some? ==> r.value.bang == a && r.value.condEnd == c && r.value.brace == d
                        && r.value.deferAt == e && DeferTail(t, r.value)
  {
    if '\n' in t[d + 1..e] && "defer" <= t[e..] then AfterDefer(t, a, c, d, e, SkipSpace(t, e + 5))
    else None
  }

  function AfterDefer(t: string, a: nat, c: nat, d: nat, e: nat, f: nat): (r: Option<Cuts>)
    requires e + 5 <= f <= |t| && AllSpace(t[e + 5..f])
    ensures r.Some? ==> r.value.bang == a && r.value.condEnd == c && r.value.brace == d
                        && r.value.deferAt == e && r.value.doneAt == f && DoneTail(t, r.value)
  {
    if e + 5 < f && "wg.Done()" <= t[f..] then AfterDone(t, a, c, d, e, f, SkipSpace(t, f + 9)) else None
  }

  function AfterDone(t: string, a: nat, c: nat, d: nat, e: nat, f: nat, g: nat): (r: Option<Cuts>)
    requires f + 9 <= g <= |t| && AllSpace(t[f + 9..g])
    ensures r.Some? ==> r.value == Cuts(a, c, d, e, f, g) && CloseTail(t, r.value)
  {
    if '\n' in t[f + 9..g] && g < |t| && t[g] == '}' then Some(Cuts(a, c, d, e, f, g)) else None
  }

  /** The delimiters k are in order and inside t. */
  predicate Ordered(t: string, k: Cuts) {
    2 <= k.bang < k.condEnd <= k.brace && k.brace + 1 <= k.deferAt && k.deferAt + 5 <= k.doneAt
    && k.doneAt + 9 <= k.close < |t|
  }

  /** The parts of the block that the delimiters k cut out of t. */
  function Slices(t: string, k: Cuts): DeferIf
    requires Ordered(t, k)
  {
    DeferIf(t[2..k.bang], t[k.bang + 1..k.condEnd], t[k.condEnd..k.brace], t[k.brace + 1..k.deferAt],
            t[k.deferAt + 5..k.doneAt], t[k.doneAt + 9..k.close])
  }

  /**
    The match of the expression at the start of t, if there is one, as the
    parts of the block it spans.  Whatever follows the closing brace is not
    looked at.
  */
  function Parse(t: string): (r: Option<DeferIf>)
    ensures r.Some? ==> WellFormed(r.value) && Text(r.value) <= t
  {
    match FindCuts(t)
    case None => None
    case Some(k) => SlicesSpellBlock(t, k); Some(Slices(t, k))
  }

  /** The parts the walk cuts out of t belong to their classes. */
  lemma PartsInClass(t: string, k: Cuts)
    requires Layout(t, k)
    ensures Ordered(t, k) && WellFormed(Slices(t, k))
  {
  }

  /** The block cut out of t at the delimiters k is well formed and begins t. */
  lemma SlicesSpellBlock(t: string, k: Cuts)
    requires Layout(t, k)
    ensures Ordered(t, k) && WellFormed(Slices(t, k)) && Text(Slices(t, k)) <= t
  {
    PartsInClass(t, k);
    SpelledBySlices(t, k);
    TakeIsPrefix(t, Text(Slices(t, k)), k.close + 1);
  }

  lemma TakeIsPrefix(t: string, x: string, n: nat)
    requires n <= |t| && x == t[..n]
    ensures x <= t
  {
  }

  /** Three adjacent slices of t, spelling x, w and y, spell x + w + y together. */
  lemma SpellSlices(t: string, i: nat, j: nat, k: nat, x: string, w: string, y: string)
    requires i <= j && j + |w| <= k <= |t|
    requires t[i..j] == x && t[j..j + |w|] == w && t[j + |w|..k] == y
    ensures t[i..k] == x + w + y
  {
    assert t[i..k] == t[i..j] + t[j..j + |w|] + t[j + |w|..k];
  }

  /** Two adjacent slices of t, spelling x and y, spell x + y together. */
  lemma SpellTwoSlices(t: string, i: nat, j: nat, k: nat, x: string, y: string)
    requires i <= j <= k <= |t| && t[i..j] == x && t[j..k] == y
    ensures t[i..k] == x + y
  {
    assert t[i..k] == t[i..j] + t[j..k];
  }

  /** A word that t continues with at index j is the slice of t after j. */
  lemma WordSlice(t: string, j: nat, w: string)
    requires j <= |t| && w <= t[j..]
    ensures j + |w| <= |t| && t[j..j + |w|] == w
  {
    assert t[j..][..|w|] == t[j..j + |w|];
  }

  /** From its `defer` on, a block cut out of t at the delimiters k spells t. */
  lemma DeferSpelledBySlices(t: string, k: Cuts)
    requires Ordered(t, k) && t[k.close] == '}'
    requires "defer" <= t[k.deferAt..] && "wg.Done()" <= t[k.doneAt..]
    ensures t[k.brace + 1..k.close + 1] == DeferText(Slices(t, k))
  {
    var d, e, f, g := k.brace, k.deferAt, k.doneAt, k.close;
    var b := Slices(t, k);
    assert t[g..g + 1] == "}";
    SpellTwoSlices(t, f + 9, g, g + 1, b.beforeClose, "}");
    WordSlice(t, f, "wg.Done()");
    SpellSlices(t, e + 5, f, g + 1, b.beforeDone, "wg.Done()", CloseText(b));
    WordSlice(t, e, "defer");
    SpellSlices(t, d + 1, e, g + 1, b.beforeDefer, "defer", DoneText(b));
  }

  /** A block cut out of t at the delimiters k spells t up to its closing brace. */
  lemma SpelledBySlices(t: string, k: Cuts)
    requires Ordered(t, k)
    requires "if" <= t && t[k.bang] == '!' && t[k.brace] == '{' && t[k.close] == '}'
    requires "defer" <= t[k.deferAt..] && "wg.Done()" <= t[k.doneAt..]
    ensures Text(Slices(t, k)) == t[..k.close + 1]
  {
    var a, c, d, g := k.bang, k.condEnd, k.brace, k.close;
    var b := Slices(t, k);
    DeferSpelledBySlices(t, k);
    assert t[d..d + 1] == "{";
    SpellSlices(t, c, d, g + 1, b.beforeBrace, "{", DeferText(b));
    SpellTwoSlices(t, a + 1, c, g + 1, b.cond, BraceText(b));
    WordSlice(t, 0, "if");
    assert t[a..a + 1] == "!";
    SpellTwoSlices(t, 0, 2, a, "if", b.afterIf);
    SpellSlices(t, 0, a, g + 1, "if" + b.afterIf, "!", CondText(b));
  }

  /** A `\s` run that ends at a non-`\s` character is exactly what SkipSpace skips. */
  lemma SkipSpaceStopsAt(t: string, i: nat, j: nat)
    requires i <= j <= |t|
    requires AllSpace(t[i..j])
    requires j == |t| || !IsSpace(t[j])
    ensures SkipSpace(t, i) == j
    decreases j - i
  {
    if i < j {
      assert t[i..j][0] == t[i];
      assert t[i + 1..j] == t[i..j][1..];
      SkipSpaceStopsAt(t, i + 1, j);
    }
  }

  /** A `\w` run that ends at a non-`\w` character is exactly what SkipWord skips. */
  lemma SkipWordStopsAt(t: string, i: nat, j: nat)
    requires i <= j <= |t|
    requires AllWord(t[i..j])
    requires j == |t| || !IsWordChar(t[j])
    ensures SkipWord(t, i) == j
    decreases j - i
  {
    if i < j {
      assert t[i..j][0] == t[i];
      assert t[i + 1..j] == t[i..j][1..];
      SkipWordStopsAt(t, i + 1, j);
    }
  }

  /*
    Completeness of the walk, stage by stage from the closing brace back to
    the `if`: on a text that holds the rest of the expression from one
    delimiter on, each stage hands on exactly the delimiters of the layout.
  */

  lemma DoneStage(t: string, k: Cuts)
    requires CloseTail(t, k)
    ensures AfterDone(t, k.bang, k.condEnd, k.brace, k.deferAt, k.doneAt, k.close) == Some(k)
  {
  }

  lemma DeferStage(t: string, k: Cuts)
    requires DoneTail(t, k)
    ensures AfterDefer(t, k.bang, k.condEnd, k.brace, k.deferAt, k.doneAt) == Some(k)
  {
    DoneStage(t, k);
    SkipSpaceStopsAt(t, k.doneAt + 9, k.close);
  }

  lemma BraceStage(t: string, k: Cuts)
    requires DeferTail(t, k)
    ensures AfterBrace(t, k.bang, k.condEnd, k.brace, k.deferAt) == Some(k)
  {
    var skip := SkipSpace(t, k.deferAt + 5);
    AfterBraceStep(t, k.bang, k.condEnd, k.brace, k.deferAt, skip);
    SpaceBeforeDone(t, k);
    DeferStage(t, k);
  }

  /** A brace followed by a line break and `defer` hands the walk on to the next stage. */
  lemma AfterBraceStep(t: string, a: nat, c: nat, d: nat, e: nat, skip: nat)
    requires d + 1 <= e <= |t| && AllSpace(t[d + 1..e]) && '\n' in t[d + 1..e] && "defer" <= t[e..]
    requires skip == SkipSpace(t, e + 5)
    ensures e + 5 <= skip <= |t| && AllSpace(t[e + 5..skip])
    ensures AfterBrace(t, a, c, d, e) == AfterDefer(t, a, c, d, e, skip)
  {
  }

  /** The `\s+` after `defer` ends where `wg.Done()` starts. */
  lemma SpaceBeforeDone(t: string, k: Cuts)
    requires DoneTail(t, k)
    ensures SkipSpace(t, k.deferAt + 5) == k.doneAt
  {
    assert t[k.doneAt] == 'w';
    SkipSpaceStopsAt(t, k.deferAt + 5, k.doneAt);
  }

  lemma CondStage(t: string, k: Cuts)
    requires BraceTail(t, k)
    ensures AfterCond(t, k.bang, k.condEnd, k.brace) == Some(k)
  {
    BraceStage(t, k);
    assert t[k.deferAt] == 'd';
    SkipSpaceStopsAt(t, k.brace + 1, k.deferAt);
  }

  lemma BangStage(t: string, k: Cuts)
    requires CondTail(t, k)
    ensures AfterBang(t, k.bang, k.condEnd) == Some(k)
  {
    CondStage(t, k);
    SkipSpaceStopsAt(t, k.condEnd, k.brace);
  }

  lemma IfStage(t: string, k: Cuts)
    requires Layout(t, k)
    ensures AfterIf(t, k.bang) == Some(k)
  {
    BangStage(t, k);
    assert !IsWordChar(t[k.condEnd]) by { assert t[k.condEnd] == '{' || IsSpace(t[k.condEnd]); }
    SkipWordStopsAt(t, k.bang + 1, k.condEnd);
  }

  /** Completeness of the walk: it finds every layout there is. */
  lemma FindCutsComplete(t: string, k: Cuts)
    requires Layout(t, k)
    ensures FindCuts(t) == Some(k)
  {
    IfStage(t, k);
    SkipSpaceStopsAt(t, 2, k.bang);
  }

  /*
    The converse: the text of every well-formed block, followed by anything,
    is matched as exactly that block.  The layout is established from the
    closing brace back to the `if`, one delimiter at a time.
  */

  /** Where the delimiters of the text of b fall. */
  function CutsOf(b: DeferIf): Cuts {
    var a := 2 + |b.afterIf|;
    var c := a + 1 + |b.cond|;
    var d := c + |b.beforeBrace|;
    var e := d + 1 + |b.beforeDefer|;
    var f := e + 5 + |b.beforeDone|;
    Cuts(a, c, d, e, f, f + 9 + |b.beforeClose|)
  }

  /** If t from index j on is x + y, then x is the slice of t at j and y follows it. */
  lemma DropSlice(t: string, j: nat, x: string, y: string)
    requires j <= |t| && t[j..] == x + y
    ensures j + |x| <= |t| && t[j..j + |x|] == x && t[j + |x|..] == y
  {
    assert t[j..j + |x|] == t[j..][..|x|];
    assert t[j + |x|..] == t[j..][|x|..];
  }

  /** Regrouping a text spelled as x + w + y, followed by u. */
  lemma Regroup(x: string, w: string, y: string, u: string)
    ensures x + w + y + u == x + (w + (y + u))
  {
  }

  lemma PrefixOfConcat(x: string, y: string)
    ensures x <= x + y
  {
    assert (x + y)[..|x|] == x;
  }

  /**
    If t from index i on is x + w + y + u, with x ending at index j and w at
    index k: x, then w, then y + u follow each other in t.
  */
  lemma PieceFacts(t: string, i: nat, j: nat, k: nat, x: string, w: string, y: string, u: string)
    requires i <= |t| && t[i..] == x + w + y + u && j == i + |x| && k == j + |w|
    ensures k <= |t| && t[i..j] == x && w <= t[j..] && t[k..] == y + u
  {
    Regroup(x, w, y, u);
    DropSlice(t, i, x, w + (y + u));
    DropSlice(t, j, w, y + u);
    PrefixOfConcat(w, y + u);
  }

  /*
    Where each part of the text of b lies in Text(b) + u.  The Suffix lemmas
    walk from the `if` to the closing brace; each Local lemma states the
    facts about one part that the layout needs, and nothing else.
  */

  lemma IfLocal(b: DeferIf, u: string)
    ensures var t, k := Text(b) + u, CutsOf(b);
      && "if" <= t && k.bang < |t| && t[2..k.bang] == b.afterIf && t[k.bang] == '!'
      && t[k.bang + 1..] == CondText(b) + u
  {
    var t, k := Text(b) + u, CutsOf(b);
    assert t[0..] == "if" + b.afterIf + ("!" + CondText(b)) + u;
    PieceFacts(t, 0, 2, k.bang, "if", b.afterIf, "!" + CondText(b), u);
    PrefixOfConcat("if", b.afterIf + ("!" + CondText(b)) + u);
    PieceFacts(t, k.bang, k.bang + 1, k.bang + 1, "!", [], CondText(b), u);
  }

  lemma CondLocal(b: DeferIf, u: string)
    ensures var t, k := Text(b) + u, CutsOf(b);
      k.condEnd <= |t| && t[k.bang + 1..k.condEnd] == b.cond && t[k.condEnd..] == BraceText(b) + u
  {
    var t, k := Text(b) + u, CutsOf(b);
    IfLocal(b, u);
    PieceFacts(t, k.bang + 1, k.condEnd, k.condEnd, b.cond, [], BraceText(b), u);
  }

  lemma BraceLocal(b: DeferIf, u: string)
    ensures var t, k := Text(b) + u, CutsOf(b);
      && k.brace < |t| && t[k.condEnd..k.brace] == b.beforeBrace && t[k.brace] == '{'
      && t[k.brace + 1..] == DeferText(b) + u
  {
    var t, k := Text(b) + u, CutsOf(b);
    CondLocal(b, u);
    PieceFacts(t, k.condEnd, k.brace, k.brace + 1, b.beforeBrace, "{", DeferText(b), u);
  }

  lemma DeferLocal(b: DeferIf, u: string)
    ensures var t, k := Text(b) + u, CutsOf(b);
      && k.deferAt + 5 <= |t| && t[k.brace + 1..k.deferAt] == b.beforeDefer && "defer" <= t[k.deferAt..]
      && t[k.deferAt + 5..] == DoneText(b) + u
  {
    var t, k := Text(b) + u, CutsOf(b);
    BraceLocal(b, u);
    PieceFacts(t, k.brace + 1, k.deferAt, k.deferAt + 5, b.beforeDefer, "defer", DoneText(b), u);
  }

  lemma DoneLocal(b: DeferIf, u: string)
    ensures var t, k := Text(b) + u, CutsOf(b);
      && k.doneAt + 9 <= |t| && t[k.deferAt + 5..k.doneAt] == b.beforeDone && "wg.Done()" <= t[k.doneAt..]
      && t[k.doneAt + 9..] == CloseText(b) + u
  {
    var t, k := Text(b) + u, CutsOf(b);
    DeferLocal(b, u);
    PieceFacts(t, k.deferAt + 5, k.doneAt, k.doneAt + 9, b.beforeDone, "wg.Done()", CloseText(b), u);
  }

  lemma CloseLocal(b: DeferIf, u: string)
    ensures var t, k := Text(b) + u, CutsOf(b);
      k.close < |t| && t[k.doneAt + 9..k.close] == b.beforeClose && t[k.close] == '}'
  {
    var t, k := Text(b) + u, CutsOf(b);
    DoneLocal(b, u);
    PieceFacts(t, k.doneAt + 9, k.close, k.close + 1, b.beforeClose, "}", [], u);
  }

  /*
    The text of a well-formed block b, followed by u, has the layout
    CutsOf(b): established from the closing brace back to the `if`.
  */

  lemma CloseTailOf(b: DeferIf, u: string)
    requires WellFormed(b)
    ensures CloseTail(Text(b) + u, CutsOf(b))
  {
    CloseLocal(b, u);
  }

  lemma DoneTailOf(b: DeferIf, u: string)
    requires WellFormed(b)
    ensures DoneTail(Text(b) + u, CutsOf(b))
  {
    CloseTailOf(b, u);
    DoneLocal(b, u);
  }

  lemma DeferTailOf(b: DeferIf, u: string)
    requires WellFormed(b)
    ensures DeferTail(Text(b) + u, CutsOf(b))
  {
    DoneTailOf(b, u);
    DeferLocal(b, u);
  }

  lemma BraceTailOf(b: DeferIf, u: string)
    requires WellFormed(b)
    ensures BraceTail(Text(b) + u, CutsOf(b))
  {
    DeferTailOf(b, u);
    BraceLocal(b, u);
  }

  lemma TextLayout(b: DeferIf, u: string)
    requires WellFormed(b)
    ensures Layout(Text(b) + u, CutsOf(b))
  {
    BraceTailOf(b, u);
    IfLocal(b, u);
    CondLocal(b, u);
  }

  /** Cut at CutsOf(b), the text of b followed by u gives back the parts of b. */
  lemma TextSlices(b: DeferIf, u: string)
    requires Ordered(Text(b) + u, CutsOf(b))
    ensures Slices(Text(b) + u, CutsOf(b)) == b
  {
    IfLocal(b, u);
    CondLocal(b, u);
    BraceLocal(b, u);
    DeferLocal(b, u);
    DoneLocal(b, u);
    CloseLocal(b, u);
  }

  /** Completeness of Parse: the text of every well-formed block is matched as that block. */
  lemma ParseComplete(b: DeferIf, u: string)
    requires WellFormed(b)
    ensures Parse(Text(b) + u) == Some(b)
  {
    TextLayout(b, u);
    FindCutsComplete(Text(b) + u, CutsOf(b));
    TextSlices(b, u);
  }

  /**
    The compiled expression as a matcher: the length of the block that
    starts t, if one does.
  */
  function Match(t: string): (r: Option<nat>)
    ensures r.Some? ==> 0 < r.value <= |t|
  {
    match Parse(t)
    case None => None
    case Some(b) => Some(|Text(b)|)
  }

  /** A block matched at the start of t is exactly the first |Text(b)| characters of t. */
  lemma MatchedPrefix(t: string)
    requires Parse(t).Some?
    ensures Text(Parse(t).value) == t[..|Text(Parse(t).value)|]
  {
  }

  /** The text of a well-formed block matches, whatever follows it. */
  lemma MatchOfBlock(b: DeferIf, u: string)
    requires WellFormed(b)
    ensures Match(Text(b) + u) == Some(|Text(b)|)
  {
    ParseComplete(b, u);
  }

  /** What the matcher found at the start of t is the text of a well-formed block. */
  lemma MatchedBlock(t: string) returns (b: DeferIf)
    requires Match(t).Some?
    ensures WellFormed(b) && Match(t).value <= |t| && Text(b) == t[..Match(t).value]
  {
    b := Parse(t).value;
    MatchedPrefix(t);
  }

  lemma Reassemble(t: string, n: nat)
    requires n <= |t|
    ensures t[..n] + t[n..] == t && t[..n] + [] == t[..n]
  {
  }

  /** The matcher matches exactly the texts of well-formed blocks, whatever follows them. */
  lemma MatchIsBlock(t: string, n: nat)
    ensures Match(t) == Some(n) <==> n <= |t| && exists b :: WellFormed(b) && Text(b) == t[..n]
  {
    if Match(t) == Some(n) {
      var b := MatchedBlock(t);
    }
    if n <= |t| && exists b :: WellFormed(b) && Text(b) == t[..n] {
      var b :| WellFormed(b) && Text(b) == t[..n];
      Reassemble(t, n);
      MatchOfBlock(b, t[n..]);
    }
  }

  /** Cutting a match out of its text, or extending the text past it, keeps the match. */
  lemma MatchShrinks(t: string, n: nat)
    requires n <= |t| && Match(t) == Some(n)
    ensures Match(t[..n]) == Some(n)
  {
    var b := MatchedBlock(t);
    Reassemble(t, n);
    MatchOfBlock(b, []);
  }

  lemma MatchExtends(x: string, u: string)
    requires Match(x) == Some(|x|)
    ensures Match(x + u) == Some(|x|)
  {
    var b := MatchedBlock(x);
    assert x[..|x|] == x;
    MatchOfBlock(b, u);
  }

  /** The block matcher has the properties the replacement engine relies on. */
  lemma MatchIsMatcher()
    ensures Regexp.Sound(Match) && Regexp.Local(Match)
  {
    forall t, n | n <= |t| && Match(t) == Some(n)
      ensures Match(t[..n]) == Some(n)
    {
      MatchShrinks(t, n);
    }
    forall x, u | Match(x) == Some(|x|)
      ensures Match(x + u) == Some(|x|)
    {
      MatchExtends(x, u);
    }
  }

  /** Past the condition a block holds no `i` and no `!`, and at least four characters. */
  lemma BraceTextShape(b: DeferIf)
    requires WellFormed(b)
    ensures Chars.LacksFrom(BraceText(b), 0, {'i', '!'}) && |BraceText(b)| >= 4
  {
    var cs := {'i', '!'};
    Chars.LacksFromConcat(b.beforeClose, "}", 0, cs);
    Chars.LacksFromConcat("wg.Done()", CloseText(b), 0, cs);
    Chars.LacksFromConcat(b.beforeDone, "wg.Done()" + CloseText(b), 0, cs);
    Chars.LacksFromConcat("defer", DoneText(b), 0, cs);
    Chars.LacksFromConcat(b.beforeDefer, "defer" + DoneText(b), 0, cs);
    Chars.LacksFromConcat("{", DeferText(b), 0, cs);
    Chars.LacksFromConcat(b.beforeBrace, "{" + DeferText(b), 0, cs);
  }

  /**
    Inside a block, an `i` after the first character lies in the condition,
    so the block goes on for three more characters and the third is not `!`:
    no `if !` starts inside a block.
  */
  lemma NoGuardInsideBlock(b: DeferIf, p: nat)
    requires WellFormed(b) && 1 <= p
    ensures p < |Text(b)| && Text(b)[p] == 'i' ==> p + 3 < |Text(b)| && Text(b)[p + 3] != '!'
  {
    var head := "if" + b.afterIf + "!";
    BraceTextShape(b);
    assert Text(b) == head + b.cond + BraceText(b);
    if p < |head| {
      assert Text(b)[p] == head[p];
    } else if p < |head| + |b.cond| {
      assert Text(b)[p + 3] == (b.cond + BraceText(b))[p + 3 - |head|];
    } else if p < |Text(b)| {
      assert Text(b)[p] == BraceText(b)[p - |head| - |b.cond|];
    }
  }

  /** The characters of a prefix are those of the text. */
  lemma PrefixChars(u: string, t: string)
    requires u <= t
    ensures forall k :: 0 <= k < |u| ==> u[k] == t[k]
  {
  }

  /** A block that starts a text ends before any later `if !` in it. */
  lemma MatchEndsBeforeGuard(t: string, p: nat)
    requires 1 <= p && p + 3 < |t| && t[p] == 'i' && t[p + 3] == '!'
    ensures Match(t).Some? ==> Match(t).value <= p
  {
    if Match(t).Some? {
      var b := MatchedBlock(t);
      PrefixChars(Text(b), t);
      NoGuardInsideBlock(b, p);
    }
  }

  /** Every block starts with `if`. */
  lemma MatchStartsWithIf(t: string)
    ensures Match(t).Some? ==> "if" <= t
  {
  }

  /** The first `(` of s is at index q, and it follows the character c. */
  predicate FirstParenAfter(s: string, q: nat, c: char) {
    1 <= q < |s| && s[q] == '(' && s[q - 1] == c && forall k :: 0 <= k < q ==> s[k] != '('
  }

  /** A text without `(` in front of s moves the first `(` of s along. */
  lemma FirstParenShift(x: string, s: string, t: string, q: nat, c: char)
    requires Chars.LacksFrom(x, 0, {'('}) && FirstParenAfter(s, q, c) && t == x + s
    ensures FirstParenAfter(t, |x| + q, c)
  {
  }

  /*
    The first `(` of a block is the one of `wg.Done()`, and it follows
    `Done`: found in the text from `wg.Done()` on, then carried back to the
    `if` one delimiter at a time.
  */

  lemma FirstParenOfDone(b: DeferIf) returns (q: nat)
    requires WellFormed(b)
    ensures FirstParenAfter(DoneText(b), q, 'e')
  {
    var done := "wg.Done()" + CloseText(b);
    assert done[..7] == "wg.Done";
    FirstParenShift(b.beforeDone, done, DoneText(b), 7, 'e');
    q := |b.beforeDone| + 7;
  }

  lemma FirstParenOfDefer(b: DeferIf) returns (q: nat)
    requires WellFormed(b)
    ensures FirstParenAfter(DeferText(b), q, 'e')
  {
    var p := FirstParenOfDone(b);
    FirstParenShift(b.beforeDefer + "defer", DoneText(b), DeferText(b), p, 'e');
    q := |b.beforeDefer| + 5 + p;
  }

  lemma FirstParenOfBrace(b: DeferIf) returns (q: nat)
    requires WellFormed(b)
    ensures FirstParenAfter(BraceText(b), q, 'e')
  {
    var p := FirstParenOfDefer(b);
    FirstParenShift(b.beforeBrace + "{", DeferText(b), BraceText(b), p, 'e');
    q := |b.beforeBrace| + 1 + p;
  }

  lemma FirstParenOfCond(b: DeferIf) returns (q: nat)
    requires WellFormed(b)
    ensures FirstParenAfter(CondText(b), q, 'e')
  {
    var p := FirstParenOfBrace(b);
    FirstParenShift(b.cond, BraceText(b), CondText(b), p, 'e');
    q := |b.cond| + p;
  }

  lemma HeadLacksParen(b: DeferIf)
    requires WellFormed(b)
    ensures Chars.LacksFrom("if" + b.afterIf + "!", 0, {'('})
  {
    Chars.LacksFromConcat("if", b.afterIf, 0, {'('});
    Chars.LacksFromConcat("if" + b.afterIf, "!", 0, {'('});
  }

  lemma FirstParenOfBlock(b: DeferIf) returns (q: nat)
    requires WellFormed(b)
    ensures FirstParenAfter(Text(b), q, 'e')
  {
    var p := FirstParenOfCond(b);
    HeadLacksParen(b);
    var head := "if" + b.afterIf + "!";
    FirstParenShift(head, CondText(b), Text(b), p, 'e');
    q := |head| + p;
  }

  /** Two texts, one a prefix of the other, that both hold a `(` have the same first `(`. */
  lemma SameFirstParen(u: string, t: string, p: nat, q: nat, c: char, d: char)
    requires u <= t && FirstParenAfter(u, p, c) && FirstParenAfter(t, q, d)
    ensures p == q && c == d
  {
    PrefixChars(u, t);
  }

  /** A text whose first `(` does not follow an `e` starts no block. */
  lemma NoMatchBeforeParen(t: string, q: nat, c: char)
    requires FirstParenAfter(t, q, c) && c != 'e'
    ensures Match(t).None?
  {
    if Match(t).Some? {
      var b := MatchedBlock(t);
      var p := FirstParenOfBlock(b);
      SameFirstParen(Text(b), t, p, q, 'e', c);
    }
  }
}
