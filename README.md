# Restricting the goroutines of gqlgen's generated executor

gqlgen's command first generates the GraphQL executor, then rewrites the
generated file's text so that the resolvers it starts share a weighted
semaphore of `MAX_GOROUTINES` (1000). The rewrite is
`replaceGeneratedCodeToRestrictNumberOfGoroutines` in `cmd/gqlgen/main.go`.
It reads the file and applies four global regular-expression replacements,
each to the output of the one before:

1. After the gqlparser `ast` import, add the `golang.org/x/sync/semaphore` import.
2. After `var wg sync.WaitGroup`, declare `sm := semaphore.NewWeighted(1000)`.
3. Replace the `if !<flag> { defer wg.Done() }` block with one that also releases the semaphore.
4. Put every `go f(i)` in the else branch of an `sm.Acquire(ctx, 1)` check.

It then writes the result back to the file.

The Dafny modules:

- `Wrappers`: `Option` and `Result`.
- `Regexp`: Go's `ReplaceAllString`, for a pattern given as a `Matcher`.
  - A `Matcher` is a function from a text to the length of the match at its start.
  - A match is found leftmost first, matches do not overlap, and the replacement is never rescanned.
  - `Split`, `Join` and `Interleave` are its declarative partner.
  - `Literal` turns a fixed string into a matcher.
- `DeferBlock`: the third pattern, `if\s+!\w+\s*\{\s*\n\s*defer\s+wg\.Done\(\)\s*\n\s*\}`.
  - RE2's ASCII classes are used: `\s` is `[\t\n\f\r ]` and `\w` is `[0-9A-Za-z_]`.
  - `Parse` is a left-to-right walk over the text.
  - `DeferIf`, `WellFormed` and `Text` describe the blocks the pattern denotes.
- `Decimal`: the `%d` rendering of a natural number, which `fmt.Sprintf` uses for the semaphore's weight.
- `RestrictGoroutines`: the constants, the four passes, `Patch` (their composition), and the file-level outcome `RewriteFile`.

Running the rewrite a second time on its own output is not a no-op:

- The ast import, the wait-group declaration and `go f(i)` each survive into their own replacements.
- So passes 1, 2 and 4 fire again on patched output (`ImportPassNotIdempotent`, `WaitGroupPassNotIdempotent`, `LaunchPassNotIdempotent`).
- Only the defer pass is idempotent (`DeferPassIdempotent`).

## Model

| member | source | states |
|---|---|---|
| RestrictGoroutines.SemaphoreWeight | cmd/gqlgen/main.go:36 | `MaxGoroutines` is 1000: its `%d` rendering is `1000`, and reading that back gives MaxGoroutines |
| RestrictGoroutines.SemaphoreDeclaration | cmd/gqlgen/main.go:53 | `SemaphoreDecl(MaxGoroutines)`, the `Sprintf` result, is exactly `\n\tsm := semaphore.NewWeighted(1000)` |
| RestrictGoroutines.RewriteFile | cmd/gqlgen/main.go:38-63 | the rewrite fails iff reading or writing the file fails, so a missing pattern is never an error; a read error is returned as is and nothing is written; after a successful read the text written is `Patch` of the text read, and a write error is returned as is |
| RestrictGoroutines.PatchUnchanged | cmd/gqlgen/main.go:52-55 | `Patch`, the four passes in order: a text containing none of the four patterns is written back unchanged |
| RestrictGoroutines.ImportPassShape | cmd/gqlgen/main.go:52 | `ImportPass`: the text is the gaps joined by the ast import; the output is the same gaps, in order, joined by the ast import followed by the semaphore import; no gap contains the ast import |
| RestrictGoroutines.ImportPassLength | cmd/gqlgen/main.go:46-52 | the output grows by exactly one semaphore import per ast import |
| RestrictGoroutines.ImportPassUnchanged | cmd/gqlgen/main.go:52 | `ImportPass` leaves the text unchanged iff the text has no ast import |
| RestrictGoroutines.ImportPassNotIdempotent | cmd/gqlgen/main.go:46-52 | if the ast import is present, a second import pass changes the text again |
| RestrictGoroutines.WaitGroupPassShape | cmd/gqlgen/main.go:53 | `WaitGroupPass`: every wait-group declaration is kept and is directly followed by `SemaphoreDecl(MaxGoroutines)`; the gaps are kept, in order, and contain no declaration |
| RestrictGoroutines.WaitGroupPassLength | cmd/gqlgen/main.go:47-53 | the output grows by exactly one semaphore declaration per wait-group declaration |
| RestrictGoroutines.WaitGroupPassUnchanged | cmd/gqlgen/main.go:53 | `WaitGroupPass` leaves the text unchanged iff the text has no wait-group declaration |
| RestrictGoroutines.WaitGroupPassNotIdempotent | cmd/gqlgen/main.go:47-53 | if a declaration is present, a second wait-group pass declares the semaphore again |
| RestrictGoroutines.DeferPassShape | cmd/gqlgen/main.go:54 | `DeferPass`: the text is its gaps interleaved with the matched pieces; every matched piece is the text of a well-formed defer block; the output is the gaps joined by the fixed replacement; no gap contains a block |
| RestrictGoroutines.DeferPassBlock | cmd/gqlgen/main.go:48-54 | a block at the start of the text becomes the replacement, and the rest of the text is rewritten on its own |
| RestrictGoroutines.DeferPassDropsCondition | cmd/gqlgen/main.go:48-54 | two blocks that differ in the negated flag or in their spacing are rewritten to the same text: the replacement always tests `isLen1` |
| RestrictGoroutines.DeferPassUnchanged | cmd/gqlgen/main.go:54 | `DeferPass` leaves the text unchanged iff the text has no block |
| RestrictGoroutines.ReplacementInert | cmd/gqlgen/main.go:48-54 | no block starts inside the defer replacement, and no block that starts before it reaches into it |
| RestrictGoroutines.DeferPassIdempotent | cmd/gqlgen/main.go:48-54 | running the defer pass twice gives the same text as running it once |
| RestrictGoroutines.GuardWrapsLaunch | cmd/gqlgen/main.go:55 | the acquire check that surrounds a launch cannot create or overlap another `go f(i)` |
| RestrictGoroutines.LaunchPassShape | cmd/gqlgen/main.go:55 | `LaunchPass`: every `go f(i)` ends up in the else branch of an `sm.Acquire(ctx, 1)` check whose error branch calls `ec.Error(ctx, ctx.Err())`; the gaps are kept, in order, and contain no launch |
| RestrictGoroutines.LaunchCountKept | cmd/gqlgen/main.go:49-55 | the output has exactly as many `go f(i)` as the input, because the replacement is not rescanned |
| RestrictGoroutines.LaunchPassUnchanged | cmd/gqlgen/main.go:55 | `LaunchPass` leaves the text unchanged iff the text has no `go f(i)` |
| RestrictGoroutines.LaunchPassNotIdempotent | cmd/gqlgen/main.go:49-55 | if a launch is present, a second launch pass nests another guard |
| Regexp.FindFrom | cmd/gqlgen/main.go:52-55 | the result is the leftmost match starting at or after the index; if there is none, nothing matches from the index on |
| Regexp.ReplaceAll | cmd/gqlgen/main.go:52-55 | a text in which the pattern matches nowhere is returned unchanged |
| Regexp.LeftmostIsFound | cmd/gqlgen/main.go:52-55 | the search returns every leftmost match |
| Regexp.Split | cmd/gqlgen/main.go:52-55 | there is one more gap than there are matches |
| Regexp.SplitRoundTrip | cmd/gqlgen/main.go:52-55 | interleaving the gaps with the matches gives back the text |
| Regexp.ReplaceAllIsJoin | cmd/gqlgen/main.go:52-55 | replace-all is the gaps joined by the replacement |
| Regexp.SplitPieces | cmd/gqlgen/main.go:52-55 | each matched piece matches as a whole, and no gap contains a match |
| Regexp.LiteralReplaceAll | cmd/gqlgen/main.go:52-55 | for a literal pattern the text is the gaps joined by the literal, and the output is the same gaps joined by the replacement |
| Regexp.CountZero | cmd/gqlgen/main.go:52-55 | there are zero matches iff the pattern matches nowhere |
| Regexp.PrefixReplace | cmd/gqlgen/main.go:52-55 | a prefix in which no match starts is copied and the rest is replaced on its own |
| Regexp.LiteralLength | cmd/gqlgen/main.go:52-55 | each replacement of a literal changes the length by the difference of the two lengths |
| Regexp.LiteralInsertLength | cmd/gqlgen/main.go:52-53 | inserting text after every occurrence of a literal grows the text by that insert once per occurrence |
| Regexp.LiteralNotIdempotent | cmd/gqlgen/main.go:52-55 | a longer replacement that contains the literal makes a second pass change the text again |
| Regexp.InertIdempotent | cmd/gqlgen/main.go:54 | with an inert replacement, replacing twice is replacing once |
| Regexp.InertUnchanged | cmd/gqlgen/main.go:54 | with an inert replacement, the text is unchanged iff the pattern matches nowhere |
| Regexp.LiteralUnchanged | cmd/gqlgen/main.go:52-55 | with a longer replacement, the text is unchanged iff the literal does not occur |
| Regexp.CountWrapped | cmd/gqlgen/main.go:55 | gaps without the literal, joined by the literal wrapped in a head and a tail that cannot form it, contain exactly one occurrence per join |
| Regexp.LiteralMatcher | cmd/gqlgen/main.go:46-49 | `Literal(w)`, the compiled form of the three metacharacter-free patterns (lines 46, 47 and 49), matches exactly where the text starts with w, and its matches are non-empty and depend only on the text they span |
| Regexp.LiteralWhole | cmd/gqlgen/main.go:46-49 | `Literal(w)` matches the whole of a text iff that text is w |
| DeferBlock.Parse | cmd/gqlgen/main.go:48 | what the walk finds is a well-formed block whose text starts the input |
| DeferBlock.ParseComplete | cmd/gqlgen/main.go:48 | the text of every well-formed block is found, as that block, whatever follows it |
| DeferBlock.MatchIsBlock | cmd/gqlgen/main.go:48 | `Match`, the compiled defer pattern, matches n characters iff those characters are the text of a well-formed block |
| DeferBlock.MatchIsMatcher | cmd/gqlgen/main.go:48 | matches are non-empty, lie within the text, and depend only on the text they span |
| DeferBlock.MatchStartsWithIf | cmd/gqlgen/main.go:48 | every match starts with `if` |
| DeferBlock.NoMatchBeforeParen | cmd/gqlgen/main.go:48 | a text whose first `(` does not follow an `e` (as in `Done(`) has no match at its start |
| Decimal.Show | cmd/gqlgen/main.go:53 | the `%d` rendering is a non-empty string of digits with no leading zero |
| Decimal.ValueOfShow | cmd/gqlgen/main.go:53 | reading the rendering back gives the number |
| Decimal.ShowInjective | cmd/gqlgen/main.go:53 | two numbers have the same rendering iff they are equal |

## Left out

- `main` (cmd/gqlgen/main.go:14-31) is left out: it loads the configuration, runs the generator, and maps errors to exit codes 2, 3 and 4.
- Reading and writing the file are not modelled as I/O. Their outcomes are the parameters of `RewriteFile`, and the 0644 permission is not modelled.
- The text is a sequence of characters, not bytes. Decoding invalid UTF-8 is not modelled.
- There is no general regular-expression engine. Three patterns are fixed strings (`Regexp.Literal`). The defer pattern has its own recogniser (`DeferBlock.Match`). The replacement engine is generic over any matcher whose matches are non-empty and depend only on the text they span.
- `MustCompile` panics are not modelled, because all four patterns compile.
- The empty-match rules of Go's `ReplaceAll` are not modelled, because no pattern here can match the empty string.
- `$` expansion is not modelled, because no replacement contains `$`.
- The semaphore's runtime behaviour is not modelled: acquiring, releasing, context cancellation, and the bound on concurrent goroutines. Only the text that sets it up is modelled.
- The patched code is not checked to compile. In particular, the model does not check that `ctx`, `ec` and `isLen1` are in scope where the replacements put them.
- RestrictGoroutines.Patch: non-idempotence is proved pass by pass for passes 1, 2 and 4. It is not proved for the four passes composed.
