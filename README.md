# Glob patterns: tokenizer and matching-string generator

This project models the glob support of the fast-check property-testing library
in Dafny and proves properties of it. It covers two pieces of code and the
deterministic helpers of the tokenizer's unit tests.

- **The tokenizer** (`tokenize_glob.dfy`, module `TokenizeGlob`). It is a single
  left-to-right scan with two modes:
  - outside a bracket, where `?`, `*` and `[` are special;
  - inside a bracket opened at a known index, where `!` negates only right after
    `[`, and `]` is literal only right after `[` or `[!`.

  The scan is stated twice:
  - `Run`, a pure specification: a left fold of `Step` over the pattern;
  - `TokenizeGlob`, the loop the library runs, proved equal to it.

  The laws about its output are in `tokenize_laws.dfy` (module `TokenizeLaws`).
  Every pattern that tokenizes gives a well-formed token list that writes back to
  the pattern. Every well-formed token list is what the tokenizer gives for its
  text. The only failure that can happen is an unclosed bracket.
- **The serializer** of the tests (`glob_serialize.dfy`, module `GlobSerialize`).
  It writes each token back in glob syntax and joins the pieces with no
  separator.
- **The test generator's helpers** (`glob_arb.dfy`, module `GlobArb`):
  - the pass that merges adjacent literal runs, a loop proved against a fold;
  - the reordering of set bodies, which puts `]`, `!` and `-` where they read
    back as members;
  - the round trip of the test: tokenizing the written pattern gives the tokens
    back.

  The example table of the tests is proved vector by vector in
  `tokenize_examples.dfy` (module `TokenizeExamples`).
- **The matching-string generator** (`matching_glob.dfy`, module
  `MatchingGlob`). Each token becomes a generator of fragments:
  - `?` is the character generator;
  - `*` is strings of that generator;
  - a range is an integer range mapped through `String.fromCodePoint`;
  - a negated range is two constant-mapping buckets, which lie inside
    printable ASCII when the range is written low end first;
  - a set is one of its members;
  - a negated set is the character generator filtered;
  - a literal run is a constant.

  One fragment per token is joined in order. The generators belong to the
  property-testing engine and are not modelled. A `Gen` value names each
  generator. A `Draw` stands for the engine's random choice, and `Admissible`
  says which choices the engine can make. The character generator is a
  parameter: a set of strings. `DefaultCharArb` is the default, printable ASCII.

  A range endpoint becomes a number in one of two ways. `OrMinusOne` is the
  rule as written, which turns U+0000 into -1. `Itself` is the corrected rule,
  which uses the code point. The generator is proved against a glob matcher,
  `MatchesTokens`, in both directions:
  - every generated string matches its pattern;
  - every matching string can be generated.

  Each direction holds under a condition on the pattern's negated ranges:
  - soundness needs every negated range written low end first
    (`NegatedRangeOrdered`). A reversed one such as `[!a-\U{1}]` draws control
    characters below U+0020 (`ReversedNegatedRangeEscapes`).
  - completeness needs every negated range within printable ASCII
    (`NegatedRangePrintable`).

  Under the corrected rule, nothing more is needed. Under the rule as written,
  the pattern must also have no range endpoint at U+0000 (`EndpointsAgree`),
  because a range that starts at U+0000 can raise a range error (Findings).

  The reverse mapping of a range is modelled twice, each with its three
  refusals:
  - `UnmapAsWritten` follows the code: it counts UTF-16 units and reads U+0000
    as -1;
  - `Unmap` is the corrected mapping, proved to be the inverse of the forward
    mapping.

  As written, the inverse property holds only from U+0001 to U+FFFF.

A pattern is a `seq<char>` with one element per code point. The tokenizer's
loop in the source steps by UTF-16 unit, and the model steps by code point. The
two give the same tokens:
- every character the scan tests for (`?`, `*`, `[`, `!`, `]`) is a single unit,
  and no half of a surrogate pair equals any of them;
- the positional tests ("right after `[`", "right after `[!`") only ever compare
  the index of such a character with the index of the `[` just before it, so
  units and code points count the same;
- the pending text is split into code points (`[...acc]`) before the range/set
  decision, so a pair split across two steps is joined again.

Two behaviours of the code worth knowing:
- **`[]` and `[!]` fail as unclosed.** The empty-set error's own message expects
  `[]` and `[!]` to reach it (TokenizeGlob.ts:94). But a `]` in the first body
  position is literal, so both patterns end inside a bracket and fail as
  unclosed (`TokenizeExamples.ExamplesUnclosed`). The empty-set error can never
  be raised (`TokenizeLaws.TokenizeOnlyFailsUnclosed`).
- **Bucket counts go to the engine unchanged.** A negated range passes its two
  bucket counts to `mapToConstant` as they are, even when one is negative
  (matchingGlob.ts:32-33).

## Model

| member | source | states |
|---|---|---|
| TokenizeGlob.TokenizeGlob | packages/fast-check/src/arbitrary/_internals/helpers/TokenizeGlob.ts:27-125 | The loop over the pattern returns exactly what the scan specification `Tokenize` gives: the same tokens, or the same error. |
| TokenizeGlob.RunAppend | packages/fast-check/src/arbitrary/_internals/helpers/TokenizeGlob.ts:32-115 | Scanning a pattern in two pieces is scanning the first piece and then continuing with the second from the state reached. |
| TokenizeGlob.RunErrPrefix | packages/fast-check/src/arbitrary/_internals/helpers/TokenizeGlob.ts:93-95 | An error raised on a prefix of the pattern is the error of the whole pattern: nothing after it is read. |
| TokenizeLaws.TokenizeSound | packages/fast-check/src/arbitrary/_internals/helpers/TokenizeGlob.ts:27-125 | Every token list the tokenizer returns is well formed: literal runs are non-empty and never adjacent, every set and range reads back as itself. Written back in glob syntax, it is the pattern itself. |
| TokenizeLaws.TokenizeSerialize | packages/fast-check/test/unit/arbitrary/_internals/helpers/TokenizeGlob.spec.ts:50-56 | Tokenizing the written form of any well-formed token list gives that list back. |
| TokenizeLaws.TokenizeIff | packages/fast-check/src/arbitrary/_internals/helpers/TokenizeGlob.ts:27-125 | The tokenizer returns a given list for a pattern if and only if that list is well formed and writes out to the pattern. |
| TokenizeLaws.TokenizeOnlyFailsUnclosed | packages/fast-check/src/arbitrary/_internals/helpers/TokenizeGlob.ts:93-118 | The only failure is an unclosed bracket: the empty-set error is never raised. |
| TokenizeLaws.CloseBodyNonEmpty | packages/fast-check/src/arbitrary/_internals/helpers/TokenizeGlob.ts:77-95 | Whenever a `]` closes a bracket, the collected body is not empty. |
| TokenizeLaws.RunInv | packages/fast-check/src/arbitrary/_internals/helpers/TokenizeGlob.ts:32-115 | Scanning never fails before the end. After any prefix, the tokens so far, the opening and the pending text write out to exactly that prefix. |
| TokenizeLaws.StepNormalInv | packages/fast-check/src/arbitrary/_internals/helpers/TokenizeGlob.ts:33-65 | A character outside brackets flushes the pending run before `?`, `*` or `[`, and otherwise extends it. This keeps the scan invariant. |
| TokenizeLaws.StepBangInv | packages/fast-check/src/arbitrary/_internals/helpers/TokenizeGlob.ts:68-75 | A `!` right after `[` sets negation and adds nothing to the body. |
| TokenizeLaws.StepCloseInv | packages/fast-check/src/arbitrary/_internals/helpers/TokenizeGlob.ts:83-106 | A closing `]` emits a range or a set with a non-empty body and returns to normal mode with the text preserved. |
| TokenizeLaws.StepBodyInv | packages/fast-check/src/arbitrary/_internals/helpers/TokenizeGlob.ts:109-112 | Any other bracket character is appended to the body, keeping `]` only in the first body position. |
| TokenizeLaws.StepBracketInv | packages/fast-check/src/arbitrary/_internals/helpers/TokenizeGlob.ts:66-114 | Inside a bracket every character is accepted and keeps the scan invariant. |
| TokenizeLaws.FlushInv | packages/fast-check/src/arbitrary/_internals/helpers/TokenizeGlob.ts:119-123 | The final flush of the pending run leaves a well-formed list that writes out to the whole pattern. |
| TokenizeLaws.CloseOk | packages/fast-check/src/arbitrary/_internals/helpers/TokenizeGlob.ts:83-101 | The token emitted for a valid non-empty body is well formed. It writes back to the opening, the body and `]`. |
| TokenizeLaws.RunLiteral | packages/fast-check/src/arbitrary/_internals/helpers/TokenizeGlob.ts:61-64 | Text without `?`, `*` or `[` is added to the pending run and emits nothing. |
| TokenizeLaws.RunOpening | packages/fast-check/src/arbitrary/_internals/helpers/TokenizeGlob.ts:51-75 | Reading `[` or `[!` flushes the pending run, records where the bracket opens and sets negation. |
| TokenizeLaws.RunBody | packages/fast-check/src/arbitrary/_internals/helpers/TokenizeGlob.ts:66-114 | A body whose only `]` is in first position, and whose unnegated form does not start with `!`, is collected as it is. |
| TokenizeLaws.RunBodyClose | packages/fast-check/src/arbitrary/_internals/helpers/TokenizeGlob.ts:76-106 | Such a body followed by `]` emits exactly the token for that body. |
| TokenizeLaws.RunDisjunction | packages/fast-check/src/arbitrary/_internals/helpers/TokenizeGlob.ts:51-106 | The written form of a well-formed bracket token is read back as that token. |
| TokenizeLaws.RunToken | packages/fast-check/src/arbitrary/_internals/helpers/TokenizeGlob.ts:33-114 | The written form of any well-formed token is read back as that token, once the pending run is flushed. |
| TokenizeLaws.RunSerialize | packages/fast-check/test/unit/arbitrary/_internals/helpers/TokenizeGlob.spec.ts:118-137 | The written form of a well-formed token list, read from any normal-mode state, appends exactly that list. |
| GlobSerialize.SerializeAppend | packages/fast-check/test/unit/arbitrary/_internals/helpers/TokenizeGlob.spec.ts:121-137 | Writing out a concatenation of token lists concatenates their written forms. |
| GlobArb.MergeExactTokens | packages/fast-check/test/unit/arbitrary/_internals/helpers/TokenizeGlob.spec.ts:104-117 | The loop that pushes tokens, or overwrites a trailing literal run, computes the merge fold `Merged`. |
| GlobArb.MergedSerialize | packages/fast-check/test/unit/arbitrary/_internals/helpers/TokenizeGlob.spec.ts:104-117 | Merging does not change the written form of the list. |
| GlobArb.MergedOthers | packages/fast-check/test/unit/arbitrary/_internals/helpers/TokenizeGlob.spec.ts:106-111 | Merging keeps every token that is not a literal run, in order. |
| GlobArb.MergedWellFormed | packages/fast-check/test/unit/arbitrary/_internals/helpers/TokenizeGlob.spec.ts:104-117 | After merging, no two literal runs are adjacent. A list of well-formed tokens becomes a well-formed list. |
| GlobArb.MergedFixedPoint | packages/fast-check/test/unit/arbitrary/_internals/helpers/TokenizeGlob.spec.ts:104-117 | Merging leaves a list unchanged if and only if it has no two adjacent literal runs. |
| GlobArb.ReorderPermutation | packages/fast-check/test/unit/arbitrary/_internals/helpers/TokenizeGlob.spec.ts:84-93 | Reordering a set body without repeats is a permutation of it. |
| GlobArb.ReorderSetOk | packages/fast-check/test/unit/arbitrary/_internals/helpers/TokenizeGlob.spec.ts:81-93 | For a non-empty body without repeats, other than `!` alone, the reordered body reads back as a set, starts with `]` exactly when `]` is in it, and never starts with `!`. |
| GlobArb.ReorderAsWrittenSetOk | packages/fast-check/test/unit/arbitrary/_internals/helpers/TokenizeGlob.spec.ts:81-93 | The body as the test actually builds it, with commas, also reads back as a set. |
| GlobArb.ReorderAsWrittenAddsComma | packages/fast-check/test/unit/arbitrary/_internals/helpers/TokenizeGlob.spec.ts:88-92 | As written, the body `ab` becomes `a,b`, which is not a permutation of it. |
| GlobArb.OnlyBang | packages/fast-check/test/unit/arbitrary/_internals/helpers/TokenizeGlob.spec.ts:83 | A repeat-free body with no plain character, no `]` and no `-` is `!` alone, the one body the test filters out. |
| GlobArb.GlobArbRoundTrip | packages/fast-check/test/unit/arbitrary/_internals/helpers/TokenizeGlob.spec.ts:61-139 | For every token list the test can draw, tokenizing the written pattern gives back the reordered, merged tokens. This holds both for the comma-joined bodies the test actually builds (`asWritten`) and for the corrected reordering. |
| TokenizeExamples.ExamplesOutsideBrackets | packages/fast-check/test/unit/arbitrary/_internals/helpers/TokenizeGlob.spec.ts:7-32 | `a`, `abc`, `]`, `!` and `a]]a` are single literal runs. `?` is Any and `*` is All. |
| TokenizeExamples.ExamplesRanges | packages/fast-check/test/unit/arbitrary/_internals/helpers/TokenizeGlob.spec.ts:13-36 | `[a-z]`, `[!a-z]`, the astral range, `[!!-a]` and `[---]` are the listed ranges. |
| TokenizeExamples.ExamplesSets | packages/fast-check/test/unit/arbitrary/_internals/helpers/TokenizeGlob.spec.ts:15-16 | `[abc]` and `[!abc]` are the sets of `a`, `b` and `c`. |
| TokenizeExamples.ExamplesSpecialMembers | packages/fast-check/test/unit/arbitrary/_internals/helpers/TokenizeGlob.spec.ts:17-20 | `[[]`, `[?]` and `[*]` are one-member sets. |
| TokenizeExamples.ExamplesNegatedSpecialMembers | packages/fast-check/test/unit/arbitrary/_internals/helpers/TokenizeGlob.spec.ts:22-25 | `[![]`, `[!?]` and `[!*]` are one-member negated sets. |
| TokenizeExamples.ExamplesPositionRules | packages/fast-check/test/unit/arbitrary/_internals/helpers/TokenizeGlob.spec.ts:18-28 | A `]` right after `[` or `[!` is a member: `[]]`, `[]a]`, `[!]]`, `[!]a]`. |
| TokenizeExamples.ExamplesBangAndDash | packages/fast-check/test/unit/arbitrary/_internals/helpers/TokenizeGlob.spec.ts:26-34 | `[!!]`, `[!-]` and `[!-a]` are negated sets containing `!` or `-`. |
| TokenizeExamples.ExamplesTrailingBracket | packages/fast-check/test/unit/arbitrary/_internals/helpers/TokenizeGlob.spec.ts:31-33 | In `[a]]` and `[a-]]`, the second `]` is a literal run after the set. |
| TokenizeExamples.ExampleMixed | packages/fast-check/test/unit/arbitrary/_internals/helpers/TokenizeGlob.spec.ts:30 | The mixed pattern gives its seven tokens in order. |
| TokenizeExamples.ExamplesUnclosed | packages/fast-check/test/unit/arbitrary/_internals/helpers/TokenizeGlob.spec.ts:41-48 | `[`, `[a`, `[]` and `[!]` all fail as unclosed brackets. |
| MatchingGlob.CodePoint | packages/fast-check/src/arbitrary/matchingGlob.ts:28-29 | An endpoint's number is its code point. Under the rule as written, which falls back to -1 on a falsy code point, it is -1 exactly for U+0000. |
| MatchingGlob.FromCodePoint | packages/fast-check/src/arbitrary/matchingGlob.ts:37 | `fromCodePoint` raises a range error exactly outside 0..U+10FFFF. It gives a one-code-point string equal to its argument exactly for non-surrogates. |
| MatchingGlob.Translate | packages/fast-check/src/arbitrary/matchingGlob.ts:20-55 | `?` becomes the character generator, `*` strings of it, and a literal run a constant with its text. |
| MatchingGlob.NegatedRangeBuckets | packages/fast-check/src/arbitrary/matchingGlob.ts:30-34 | A negated range never raises a range error. An index below the first count gives a code point from U+0020 to just below the low end. Any other index gives one from just above the high end to U+007E. |
| MatchingGlob.TranslateRules | packages/fast-check/src/arbitrary/matchingGlob.ts:28-29 | The rule as written and the corrected rule give the same generator for every token without a U+0000 range endpoint. |
| MatchingGlob.TranslateSound | packages/fast-check/src/arbitrary/matchingGlob.ts:20-55 | Every fragment a token's generator produces is allowed by that token, and none is a range error, under either endpoint rule where they agree. |
| MatchingGlob.ReversedNegatedRangeEscapes | packages/fast-check/src/arbitrary/matchingGlob.ts:30-34 | For the negated range `[!a-\U{1}]` written high end first, an admissible choice draws U+0002, a character its token does not allow. |
| MatchingGlob.TranslateComplete | packages/fast-check/src/arbitrary/matchingGlob.ts:20-55 | Every fragment a token allows is produced by some choice of its generator, under either endpoint rule where they agree. |
| MatchingGlob.Prepend | packages/fast-check/src/arbitrary/matchingGlob.ts:56 | Fragments join with no separator. The result is a string exactly when every part is, and a failure comes from one of the parts. |
| MatchingGlob.OutputSound | packages/fast-check/src/arbitrary/matchingGlob.ts:56 | Every string generated for a token list matches the list one fragment per token, and generation raises no range error. This holds under the corrected rule, and under the rule as written when no range endpoint is U+0000. |
| MatchingGlob.OutputComplete | packages/fast-check/src/arbitrary/matchingGlob.ts:56 | Every string that matches a token list is generated for it by some choices, under the same endpoint conditions. |
| MatchingGlob.Generate | packages/fast-check/src/arbitrary/matchingGlob.ts:17-19 | Building the generator throws exactly when tokenizing the pattern fails. The engine's own construction-time checks are not modelled. |
| MatchingGlob.GenerateSound | packages/fast-check/src/arbitrary/matchingGlob.ts:17-57 | Every string generated from a pattern matches the pattern's tokens, and none is a range error. This holds under the corrected rule, and under the rule as written when no range endpoint is U+0000. |
| MatchingGlob.DefaultCharArb | packages/fast-check/src/arbitrary/matchingGlob.ts:18 | The default characters are exactly the one-character strings of printable ASCII. |
| MatchingGlob.Utf16Length | packages/fast-check/src/arbitrary/matchingGlob.ts:41 | A string has between one and two UTF-16 units per code point, and none only when empty. |
| MatchingGlob.UnmapAsWritten | packages/fast-check/src/arbitrary/matchingGlob.ts:38-43 | The reverse mapping as written refuses, each with its own error and exactly in these cases: a non-string, an empty string, and a string of two or more UTF-16 units. |
| MatchingGlob.Unmap | packages/fast-check/src/arbitrary/matchingGlob.ts:38-43 | The corrected reverse mapping refuses, each with its own error and exactly in these cases: a non-string, an empty string, and a string of two or more code points. |
| MatchingGlob.UnmapRoundTrip | packages/fast-check/src/arbitrary/matchingGlob.ts:36-43 | The reverse mapping gives back every integer whose forward mapping is a string. |
| MatchingGlob.UnmapInverse | packages/fast-check/src/arbitrary/matchingGlob.ts:36-43 | Every accepted value is a string, and it is the forward mapping of the integer returned. |
| MatchingGlob.UnmapAsWrittenRoundTrip | packages/fast-check/src/arbitrary/matchingGlob.ts:38-43 | As written, the round trip holds for code points 1 to U+FFFF outside the surrogates. |
| MatchingGlob.UnmapAsWrittenRefusesAstral | packages/fast-check/src/arbitrary/matchingGlob.ts:41 | As written, the one-code-point string of any code point above U+FFFF is refused as several code points. |
| MatchingGlob.UnmapAsWrittenNul | packages/fast-check/src/arbitrary/matchingGlob.ts:42 | As written, the string of U+0000 maps back to -1 rather than 0. |
| MatchingGlob.AsWrittenNulRangeThrows | packages/fast-check/src/arbitrary/matchingGlob.ts:28 | As written, the range from U+0000 to `a` admits the integer -1, whose string is a range error. |
| MatchingGlob.AsWrittenNulOnlyRangeNeverYields | packages/fast-check/src/arbitrary/matchingGlob.ts:28-29 | As written, the range from U+0000 to U+0000 never yields U+0000: every choice it admits is a range error. |

## Left out

- **The engine's generators.** The engine's generators (`char`, `stringOf`, `integer`, `mapToConstant`, `constantFrom`, `filter`, `constant`, `tuple`, `map`) are not modelled. Each is described by the choices it can make (`Admissible`) and the value a choice gives (`Sample`).
- **Randomness, weights and shrinking.** Bucket weights, uniformity and the engine's use of the reverse mapping for shrinking are not modelled.
- **Negative bucket counts.** A constant mapping whose bucket count is negative is modelled as admitting no choice, because what the engine does with such a count is not part of this model. The same goes for an integer range whose minimum exceeds its maximum.
- **Non-termination.** The filter behind a negated set can reject forever, for example when the character generator offers only excluded characters. This is modelled as no admissible choice.
- **Error texts.** Error messages are not modelled, only which error is raised.
- **Characters and UTF-16.** A character is a Unicode scalar value, so patterns with lone surrogates are not modelled. UTF-16 units appear only in `Utf16Length`, which models the `codePointAt(1)` test of the reverse mapping. `fromCodePoint` of a surrogate is the separate outcome `LoneSurrogate`.
- **Construction-time checks.** The checks the engine's generators make when they are built, for example an integer range whose minimum exceeds its maximum, are not modelled. `Generate` throws only with the tokenizer's error.
- **Values of other JavaScript types.** These are handed to the reverse mapping as the single value `NotAString`.
- **Test harness.** The test runner, the random choice of tokens in the test generator and its character filters are stated as the predicate `Drawable`.
- TranslateSound: stated only for negated ranges written low end first (`NegatedRangeOrdered`). For a reversed negated range such as `[!a-\x01]`, the second bucket starts just above the high end. It therefore produces control characters below U+0020, outside the printable ASCII a negated range stands for (`ReversedNegatedRangeEscapes`). Under the rule as written, it is stated only for tokens with no U+0000 range endpoint, because such a range can raise a range error (Findings row 1).
- OutputSound: stated under the same ordering and endpoint conditions on every token, for the same reasons.
- GenerateSound: stated under the same ordering and endpoint conditions on every token, for the same reasons.
- TranslateComplete: stated only for negated ranges within printable ASCII (`NegatedRangePrintable`). Outside it, one bucket count is negative, and how the engine treats that is not modelled. Under the rule as written, it is stated only for tokens with no U+0000 range endpoint: as written, `[\0-\0]` never yields U+0000 (Findings row 1).
- OutputComplete: stated under the same printable-ASCII and endpoint conditions, for the same reasons.
- Unmap: the corrected reverse mapping of Findings rows 2 and 3. As written (`UnmapAsWritten`), the round trip holds only from U+0001 to U+FFFF outside the surrogates.

## Findings

| source | as written | input that shows it | evidently intended | confidence | as-written member | corrected member |
|---|---|---|---|---|---|---|
| packages/fast-check/src/arbitrary/matchingGlob.ts:28-29 | a range endpoint's number is the code point of its first character with -1 as the fallback for a falsy value, so U+0000 becomes -1 | the pattern `[\0-a]` admits the integer -1, whose `fromCodePoint` is a range error; `[\0-\0]` never yields U+0000 | the endpoint's number is its code point | not executed | MatchingGlob.AsWrittenNulRangeThrows | MatchingGlob.TranslateSound |
| packages/fast-check/src/arbitrary/matchingGlob.ts:42 | the reverse mapping reads the code point with -1 as the fallback for a falsy value | the string of U+0000 maps back to -1, not 0 | the reverse mapping gives back the code point | not executed | MatchingGlob.UnmapAsWrittenNul | MatchingGlob.UnmapRoundTrip |
| packages/fast-check/src/arbitrary/matchingGlob.ts:41 | the reverse mapping refuses when `codePointAt(1)` is defined, which counts UTF-16 units | the one-code-point string U+1F431 is refused as several code points | refuse only strings of two or more code points | not executed | MatchingGlob.UnmapAsWrittenRefusesAstral | MatchingGlob.UnmapInverse |
| packages/fast-check/test/unit/arbitrary/_internals/helpers/TokenizeGlob.spec.ts:90-92 | the plain characters are put into a template string as an array, which joins them with commas | the set body `ab` becomes `a,b` | join the plain characters with no separator, a permutation of the body | not executed | GlobArb.ReorderAsWrittenAddsComma | GlobArb.ReorderPermutation |
