/**
  The rewrite gqlgen's command applies to the generated executor
  (replaceGeneratedCodeToRestrictNumberOfGoroutines, cmd/gqlgen/main.go):
  four global replacements, each on the output of the one before, that
  bound the goroutines the generated resolvers start by a weighted
  semaphore of MaxGoroutines.
*/
module RestrictGoroutines {
  import opened Wrappers
  import opened Regexp
  import DeferBlock
  import Decimal
  import Chars

  /** How many goroutines the patched code may have started and not yet finished. */
  const MaxGoroutines: nat := 1000

  /*
    The literal patterns and their replacements, spelled as in the source;
    the longer ones are joined from pieces of at most one line of source.
  */

  const AstImport: Needle := "\"github.com/vektah/gqlparser/v2/ast\""
  const SemaphoreImport: string := "\n\t\"golang.org/x/sync/semaphore\""
  const ImportReplacement: string := AstImport + SemaphoreImport

  const WaitGroupDecl: Needle := "var wg sync.WaitGroup"

  /** The declaration the second pass adds after the wait group, for a weight of n (`%d` of Sprintf). */
  function SemaphoreDecl(n: nat): string {
    "\n\tsm := semaphore.NewWeighted(" + Decimal.Show(n) + ")"
  }

  const WaitGroupReplacement: string := WaitGroupDecl + SemaphoreDecl(MaxGoroutines)

  const DeferReplacement: string :=
    "if !isLen1" + " {\n\t\t\t\tdefer func" + "() {\n\t\t\t\t\tsm.Release(1)" + "\n\t\t\t\t\twg.Done()" + "\n\t\t\t\t}()\n\t\t\t}"

  const GoLaunch: Needle := "go f(i)"
  /** The acquire check up to the launch, which runs in its else branch. */
  const GuardHead: string :=
    "if err := sm.Acquire(ctx, 1);" + " err != nil {" + "\n\t\t\t\tec.Error(ctx, ctx.Err())" + "\n\t\t\t} else {\n\t\t\t\t"
  const GuardTail: string := "\n\t\t\t}"
  const LaunchReplacement: string := GuardHead + GoLaunch + GuardTail

  /* The four passes. */

  function ImportPass(s: string): string {
    ReplaceAll(Literal(AstImport), s, ImportReplacement)
  }

  function WaitGroupPass(s: string): string {
    ReplaceAll(Literal(WaitGroupDecl), s, WaitGroupReplacement)
  }

  function DeferPass(s: string): string {
    DeferBlock.MatchIsMatcher();
    ReplaceAll(DeferBlock.Match, s, DeferReplacement)
  }

  function LaunchPass(s: string): string {
    ReplaceAll(Literal(GoLaunch), s, LaunchReplacement)
  }

  /** The whole rewrite of the file's text. */
  function Patch(s: string): string {
    LaunchPass(DeferPass(WaitGroupPass(ImportPass(s))))
  }

  /* The defer pass is idempotent. */

  /** No block that starts before the defer replacement reaches into it. */
  lemma BlockStopsBeforeReplacement(x: string, y: string)
    requires |x| > 0
    ensures DeferBlock.Match(x + DeferReplacement + y).Some? ==>
              DeferBlock.Match(x + DeferReplacement + y).value <= |x|
  {
    var t := x + DeferReplacement + y;
    assert t[|x|] == DeferReplacement[0] && t[|x| + 3] == DeferReplacement[3];
    DeferBlock.MatchEndsBeforeGuard(t, |x|);
  }

  /** The only `i` of the defer replacement past its first character is the one of `isLen1`. */
  lemma LaterIInReplacement()
    ensures DeferReplacement[..6] == "if !is"
    ensures Chars.LacksFrom(DeferReplacement, 6, {'i'})
  {
    var a, b, c := "if !isLen1", " {\n\t\t\t\tdefer func", "() {\n\t\t\t\t\tsm.Release(1)";
    var d, e := "\n\t\t\t\t\twg.Done()", "\n\t\t\t\t}()\n\t\t\t}";
    var i := {'i'};
    assert Chars.LacksFrom(a, 6, i) && Chars.LacksFrom(b, 0, i);
    Chars.LacksFromConcat(a, b, 6, i);
    assert Chars.LacksFrom(c, 0, i);
    Chars.LacksFromConcat(a + b, c, 6, i);
    assert Chars.LacksFrom(d, 0, i);
    Chars.LacksFromConcat(a + b + c, d, 6, i);
    assert Chars.LacksFrom(e, 0, i);
    Chars.LacksFromConcat(a + b + c + d, e, 6, i);
  }

  /** Past its first character the defer replacement holds no `if`, not even one cut off at its end. */
  lemma NoIfInsideReplacement(i: nat, y: string)
    requires 0 < i < |DeferReplacement|
    ensures !("if" <= DeferReplacement[i..] + y)
  {
    var t := DeferReplacement[i..] + y;
    LaterIInReplacement();
    assert t[0] == DeferReplacement[i];
    if i < 6 {
      assert t[1] == DeferReplacement[i + 1];
    }
  }

  /** The first `(` of the defer replacement, in `func(`, follows a `c`. */
  lemma ReplacementFirstParen(y: string)
    ensures DeferBlock.FirstParenAfter(DeferReplacement + y, 27, 'c')
  {
    var a, b, c := "if !isLen1", " {\n\t\t\t\tdefer func", "() {\n\t\t\t\t\tsm.Release(1)";
    assert Chars.LacksFrom(a, 0, {'('}) && Chars.LacksFrom(b, 0, {'('});
    Chars.LacksFromConcat(a, b, 0, {'('});
    assert |a + b| == 27 && (a + b)[26] == 'c' && c[0] == '(';
  }

  /** The defer replacement, and each of its tails, starts no block. */
  lemma NoBlockInReplacement(i: nat, y: string)
    requires i < |DeferReplacement|
    ensures DeferBlock.Match(DeferReplacement[i..] + y).None?
  {
    if i == 0 {
      assert DeferReplacement[0..] == DeferReplacement;
      ReplacementFirstParen(y);
      DeferBlock.NoMatchBeforeParen(DeferReplacement + y, 27, 'c');
    } else {
      NoIfInsideReplacement(i, y);
      DeferBlock.MatchStartsWithIf(DeferReplacement[i..] + y);
    }
  }

  /** The defer replacement is inert: a second defer pass finds nothing in or across it. */
  lemma ReplacementInert()
    ensures Inert(DeferBlock.Match, DeferReplacement)
  {
    forall x, y | |x| > 0 && DeferBlock.Match(x + DeferReplacement + y).Some?
      ensures DeferBlock.Match(x + DeferReplacement + y).value <= |x|
    {
      BlockStopsBeforeReplacement(x, y);
    }
    forall i, y | 0 <= i < |DeferReplacement|
      ensures DeferBlock.Match(DeferReplacement[i..] + y).None?
    {
      NoBlockInReplacement(i, y);
    }
  }

  /** Running the defer pass twice is running it once. */
  lemma DeferPassIdempotent(s: string)
    ensures DeferPass(DeferPass(s)) == DeferPass(s)
  {
    DeferBlock.MatchIsMatcher();
    ReplacementInert();
    InertIdempotent(DeferBlock.Match, s, DeferReplacement);
  }

  /* The import pass. */

  /**
    The import pass keeps every ast import and puts the semaphore import
    right after it; the text around them is kept as it is, in order.
  */
  lemma ImportPassShape(s: string)
    ensures var g := Split(Literal(AstImport), s).gaps;
      && s == Join(g, AstImport)
      && ImportPass(s) == Join(g, AstImport + SemaphoreImport)
      && (forall i :: 0 <= i < |g| ==> NoMatchIn(Literal(AstImport), g[i]))
  {
    LiteralReplaceAll(AstImport, s, ImportReplacement);
  }

  /** The import pass adds one semaphore import per ast import, and nothing else. */
  lemma ImportPassLength(s: string)
    ensures |ImportPass(s)| == |s| + Count(Literal(AstImport), s) * |SemaphoreImport|
  {
    LiteralInsertLength(AstImport, s, SemaphoreImport);
  }

  lemma ImportPassUnchanged(s: string)
    ensures ImportPass(s) == s <==> NoMatchIn(Literal(AstImport), s)
  {
    LiteralUnchanged(AstImport, s, ImportReplacement);
  }

  /** Run again on its own output, the import pass adds another semaphore import. */
  lemma ImportPassNotIdempotent(s: string)
    requires Count(Literal(AstImport), s) > 0
    ensures ImportPass(ImportPass(s)) != ImportPass(s)
  {
    assert ImportReplacement[0..|AstImport|] == AstImport;
    LiteralNotIdempotent(AstImport, s, ImportReplacement, 0);
  }

  /* The wait-group pass. */

  /** The weight in the added declaration is MaxGoroutines, written out in decimal. */
  lemma SemaphoreWeight()
    ensures Decimal.Show(MaxGoroutines) == "1000"
    ensures Decimal.Value(Decimal.Show(MaxGoroutines)) == MaxGoroutines
  {
    assert Decimal.Show(1) == "1";
    assert Decimal.Show(10) == Decimal.Show(1) + "0";
    assert Decimal.Show(100) == Decimal.Show(10) + "0";
    assert Decimal.Show(1000) == Decimal.Show(100) + "0";
    Decimal.ValueOfShow(MaxGoroutines);
  }

  /** The line the wait-group pass adds, as the `Sprintf` call renders it. */
  lemma SemaphoreDeclaration()
    ensures SemaphoreDecl(MaxGoroutines) == "\n\tsm := semaphore.NewWeighted(1000)"
  {
    SemaphoreWeight();
  }

  /**
    The wait-group pass keeps every wait-group declaration and declares the
    semaphore of weight MaxGoroutines right after it.
  */
  lemma WaitGroupPassShape(s: string)
    ensures var g := Split(Literal(WaitGroupDecl), s).gaps;
      && s == Join(g, WaitGroupDecl)
      && WaitGroupPass(s) == Join(g, WaitGroupDecl + SemaphoreDecl(MaxGoroutines))
      && (forall i :: 0 <= i < |g| ==> NoMatchIn(Literal(WaitGroupDecl), g[i]))
  {
    LiteralReplaceAll(WaitGroupDecl, s, WaitGroupReplacement);
  }

  lemma WaitGroupPassLength(s: string)
    ensures |WaitGroupPass(s)| == |s| + Count(Literal(WaitGroupDecl), s) * |SemaphoreDecl(MaxGoroutines)|
  {
    LiteralInsertLength(WaitGroupDecl, s, SemaphoreDecl(MaxGoroutines));
  }

  lemma WaitGroupPassUnchanged(s: string)
    ensures WaitGroupPass(s) == s <==> NoMatchIn(Literal(WaitGroupDecl), s)
  {
    LiteralUnchanged(WaitGroupDecl, s, WaitGroupReplacement);
  }

  /** Run again on its own output, the wait-group pass declares the semaphore again. */
  lemma WaitGroupPassNotIdempotent(s: string)
    requires Count(Literal(WaitGroupDecl), s) > 0
    ensures WaitGroupPass(WaitGroupPass(s)) != WaitGroupPass(s)
  {
    assert WaitGroupReplacement[0..|WaitGroupDecl|] == WaitGroupDecl;
    LiteralNotIdempotent(WaitGroupDecl, s, WaitGroupReplacement, 0);
  }

  /* The defer pass. */

  /**
    The defer pass replaces every block the pattern matches by the
    replacement, and keeps the text between the blocks as it is, in order.
  */
  lemma DeferPassShape(s: string)
    ensures var p := Split(DeferBlock.Match, s);
      && s == Interleave(p.gaps, p.matched)
      && DeferPass(s) == Join(p.gaps, DeferReplacement)
      && (forall i :: 0 <= i < |p.matched| ==>
            exists b :: DeferBlock.WellFormed(b) && DeferBlock.Text(b) == p.matched[i])
      && (forall i :: 0 <= i < |p.gaps| ==> NoMatchIn(DeferBlock.Match, p.gaps[i]))
  {
    var f := DeferBlock.Match;
    DeferBlock.MatchIsMatcher();
    SplitRoundTrip(f, s);
    ReplaceAllIsJoin(f, s, DeferReplacement);
    SplitPieces(f, s);
    var p := Split(f, s);
    forall i | 0 <= i < |p.matched|
      ensures exists b :: DeferBlock.WellFormed(b) && DeferBlock.Text(b) == p.matched[i]
    {
      var piece := p.matched[i];
      DeferBlock.MatchIsBlock(piece, |piece|);
      assert piece[..|piece|] == piece;
    }
  }

  /** A block at the start of the text becomes the replacement; the rest is rewritten on its own. */
  lemma DeferPassBlock(b: DeferBlock.DeferIf, u: string)
    requires DeferBlock.WellFormed(b)
    ensures DeferPass(DeferBlock.Text(b) + u) == DeferReplacement + DeferPass(u)
  {
    DeferBlock.MatchIsMatcher();
    DeferBlock.MatchOfBlock(b, u);
    ReplaceLeading(DeferBlock.Match, DeferBlock.Text(b), u, DeferReplacement, DeferBlock.Text(b) + u);
  }

  /** The flag a block tests, and its spacing, are dropped: every block becomes the same `isLen1` block. */
  lemma DeferPassDropsCondition(b: DeferBlock.DeferIf, c: DeferBlock.DeferIf, u: string)
    requires DeferBlock.WellFormed(b) && DeferBlock.WellFormed(c)
    ensures DeferPass(DeferBlock.Text(b) + u) == DeferPass(DeferBlock.Text(c) + u)
  {
    DeferPassBlock(b, u);
    DeferPassBlock(c, u);
  }

  lemma DeferPassUnchanged(s: string)
    ensures DeferPass(s) == s <==> NoMatchIn(DeferBlock.Match, s)
  {
    DeferBlock.MatchIsMatcher();
    ReplacementInert();
    InertUnchanged(DeferBlock.Match, s, DeferReplacement);
  }

  /* The launch pass. */

  /** The guard around a launch holds no `g`, and no tail of the launch starts it. */
  lemma GuardWrapsLaunch()
    ensures Wraps(GoLaunch, GuardHead, GuardTail)
  {
    GuardHasNoG();
    NoLaunchTailStartsGuard();
    assert GoLaunch[0] == 'g';
  }

  lemma GuardHasNoG()
    ensures Chars.LacksFrom(GuardHead, 0, {'g'}) && Chars.LacksFrom(GuardTail, 0, {'g'})
  {
    var a, b := "if err := sm.Acquire(ctx, 1);", " err != nil {";
    var c, d := "\n\t\t\t\tec.Error(ctx, ctx.Err())", "\n\t\t\t} else {\n\t\t\t\t";
    var g := {'g'};
    assert Chars.LacksFrom(a, 0, g) && Chars.LacksFrom(b, 0, g);
    Chars.LacksFromConcat(a, b, 0, g);
    assert Chars.LacksFrom(c, 0, g);
    Chars.LacksFromConcat(a + b, c, 0, g);
    assert Chars.LacksFrom(d, 0, g);
    Chars.LacksFromConcat(a + b + c, d, 0, g);
  }

  lemma NoLaunchTailStartsGuard()
    ensures forall d :: 0 < d < |GoLaunch| ==> !(GoLaunch[d..] <= GuardHead)
  {
    assert GuardHead[0] == 'i' && GuardHead[1] == 'f';
    forall d | 0 < d < |GoLaunch|
      ensures !(GoLaunch[d..] <= GuardHead)
    {
      assert GoLaunch[d..][0] == GoLaunch[d];
      if d == 5 {
        assert GoLaunch[d..][1] == ')';
      }
    }
  }

  /**
    The launch pass puts every launch in the else branch of a check of
    `sm.Acquire(ctx, 1)` whose error branch reports the context's error; the
    text around the launches is kept as it is, in order.
  */
  lemma LaunchPassShape(s: string)
    ensures var g := Split(Literal(GoLaunch), s).gaps;
      && s == Join(g, GoLaunch)
      && LaunchPass(s) == Join(g, GuardHead + GoLaunch + GuardTail)
      && (forall i :: 0 <= i < |g| ==> NoMatchIn(Literal(GoLaunch), g[i]))
  {
    LiteralReplaceAll(GoLaunch, s, LaunchReplacement);
  }

  /** Each launch of the input is in the output exactly once: the guard adds none. */
  lemma LaunchCountKept(s: string)
    ensures Count(Literal(GoLaunch), LaunchPass(s)) == Count(Literal(GoLaunch), s)
  {
    LiteralReplaceAll(GoLaunch, s, LaunchReplacement);
    GuardWrapsLaunch();
    CountWrapped(GoLaunch, GuardHead, GuardTail, Split(Literal(GoLaunch), s).gaps);
  }

  lemma LaunchPassUnchanged(s: string)
    ensures LaunchPass(s) == s <==> NoMatchIn(Literal(GoLaunch), s)
  {
    LiteralUnchanged(GoLaunch, s, LaunchReplacement);
  }

  /** Run again on its own output, the launch pass nests another guard. */
  lemma LaunchPassNotIdempotent(s: string)
    requires Count(Literal(GoLaunch), s) > 0
    ensures LaunchPass(LaunchPass(s)) != LaunchPass(s)
  {
    assert LaunchReplacement[|GuardHead|..|GuardHead| + |GoLaunch|] == GoLaunch;
    LiteralNotIdempotent(GoLaunch, s, LaunchReplacement, |GuardHead|);
  }

  /* The whole rewrite. */

  /** A text that holds none of the four patterns is written back as it was read. */
  lemma PatchUnchanged(s: string)
    ensures (NoMatchIn(Literal(AstImport), s) && NoMatchIn(Literal(WaitGroupDecl), s)
             && NoMatchIn(DeferBlock.Match, s) && NoMatchIn(Literal(GoLaunch), s)) ==> Patch(s) == s
  {
  }

  /**
    One run of the rewrite on a file: the text it writes, if it gets that
    far, and the error it returns.  The outcomes of reading and writing the
    file are parameters.
  */
  datatype Run<E> = Run(written: Option<string>, err: Option<E>)

  function RewriteFile<E>(read: Result<string, E>, writeError: Option<E>): (r: Run<E>)
    ensures r.err.None? <==> read.Success? && writeError.None?
    ensures r.written.Some? <==> read.Success?
    ensures read.Success? ==> r.written.value == Patch(read.value)
    ensures read.Failure? ==> r.err == Some(read.error)
    ensures read.Success? ==> r.err == writeError
  {
    match read
    case Failure(e) => Run(None, Some(e))
    case Success(text) => Run(Some(Patch(text)), writeError)
  }
}
