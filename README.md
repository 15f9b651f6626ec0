# Docker tags by semantic version — a Dafny model of the tag deriver

The GitHub Action re-tags a Docker image under several tags derived from a
semantic version. Its decision logic is `parseSemVer` in `index.ts`. It
receives three strings:

- a version such as `v1.2.3` or `v1.2.3-4f2a` (hexadecimal only after the `-`);
- a suffix to append to each tag;
- a comma-separated list of extra tags.

It returns the ordered list of tags, or it throws when the version is
malformed.

The model has three modules:

- `Text` (`text.dfy`): JavaScript's `String.prototype.trim` and
  `String.prototype.split` with a one-character separator, with the
  properties the deriver relies on. Trimming is proved idempotent and
  characterised by its specification. Splitting is proved inverse to joining.
- `SemVer` (`semver.dfy`): a hand-written recogniser `Parse` for the anchored
  pattern `^(v[0-9]+)\.([0-9]+)\.([0-9]+)(-[0-9a-f]*)?$`, which captures the
  four groups into a `Version`. `Render` glues the groups back together. The
  language of the pattern is characterised independently as
  `IsSemVer(s) == exists v :: WellFormed(v) && Render(v) == s`. The
  recogniser is proved sound (`Parse`'s own contract) and complete
  (`ParseRender`) against that characterisation.
- `Tags` (`tags.dfy`): the deriver itself.
  - The imperative `ParseSemVer` method pushes the primary tags onto a
    sequence.
  - `PushExtraTags` is the `forEach` over the comma-separated pieces. Its
    loop pushes each non-blank trimmed piece with the suffix. Its invariant
    says that after `i` pieces the tags are the given ones followed by
    `WithSuffix(ExtraNames(pieces[..i]), suffix)`.
  - `ParseSemVer`'s postcondition says that its result is the
    specification function `Derive`.
  - The properties of the result are proved about `Derive`: when it fails,
    the message, the one or three primary tags, the round trip, and the
    order, number and shape of the extra tags. Worked examples fix the
    result on concrete inputs.

A thrown `Error` is modelled as the `Failure(msg)` case of `TagResult`. A
returned array is the `Success(tags)` case.

## Model

| member | source | states |
|---|---|---|
| SemVer.Parse | index.ts:16 | whatever the recogniser accepts is a well-formed match whose groups glue back to exactly the input |
| SemVer.DigitsEnd | index.ts:16 | the greedy `[0-9]+` run starting at a position: every character before the returned end is a digit, and the end is the input's end or a non-digit |
| SemVer.ParseRender | index.ts:16-25 | every well-formed match (`WellFormed`: `v` and digits, digits, digits, an optional `-` and lower-case hexadecimal) glued back by `Render` is accepted, and its four groups are recovered exactly (completeness of the recogniser) |
| SemVer.ParseGroups | index.ts:16-25 | once the three digit runs are known to end at the two dots and at the end of the patch, the recogniser returns those slices, and the optional group is present exactly when something follows the patch |
| SemVer.ParseAt | index.ts:16-25 | given the positions of the two dots and the end of the patch digits, the recogniser returns exactly those slices as major (with its `v`), minor, patch and the optional `-…` group |
| SemVer.RenderFacts | index.ts:16 | where each group and each separator sits in a matched string, and which characters are digits |
| SemVer.ParseNoneIff | index.ts:16-17 | the recogniser fails exactly on the strings outside `IsSemVer`, the language of the anchored pattern |
| SemVer.PrereleaseIffHyphen | index.ts:16-25 | a matched string has the optional prerelease group exactly when it contains `-` |
| SemVer.RejectsNonHexPrerelease | index.ts:16 | `v1.0.0-rc1` is rejected because the prerelease group admits only lower-case hexadecimal |
| SemVer.AcceptsBareHyphen | index.ts:16 | `v1.2.3-` is accepted with a present but empty prerelease group `-` |
| Text.TrimStartIndex | index.ts:46 | the first non-whitespace position: everything before it is whitespace |
| Text.TrimEndIndex | index.ts:46 | the position after the last non-whitespace character: everything after it is whitespace |
| Text.Trim | index.ts:46 | the trimmed piece has no whitespace at either end, and it is empty exactly when the piece is all whitespace |
| Text.TrimWithin | index.ts:46 | trimming adds no character |
| Text.TrimUnique | index.ts:46 | trimming a trimmed core surrounded by any whitespace returns that core, so `Trim` is determined by its contract |
| Text.TrimIdempotent | index.ts:46 | trimming twice is trimming once |
| Text.Split | index.ts:45 | splitting yields at least one piece, and no piece contains the separator |
| Text.JoinSplit | index.ts:45 | joining the pieces with the separator gives the input back, so splitting loses nothing and keeps order |
| Text.SplitJoin | index.ts:45 | splitting the join of separator-free pieces gives exactly those pieces |
| Text.SplitFree | index.ts:45 | a separator-free text is a single piece |
| Text.SplitConcat | index.ts:45 | the pieces of `a,b` are the pieces of `a` followed by the pieces of `b` |
| Tags.ExtraNames | index.ts:45-49 | the extra names are at most as many as the pieces, and each is non-empty and trimmed |
| Tags.ExtraNamesKeepsAll | index.ts:47 | every piece yields a name exactly when no piece is blank |
| Tags.ExtraNamesCommaFree | index.ts:45-46 | no extra name contains a comma |
| Tags.ExtraNamesConcat | index.ts:45-50 | the names of concatenated piece lists are the concatenated names, so names keep the order of the pieces |
| Tags.ExtraNamesStep | index.ts:46-49 | one more piece adds its trimmed self, or nothing when it is blank |
| Tags.ExtraNamesOfList | index.ts:45-50 | the names of `a,b` are the names of `a` followed by the names of `b` |
| Tags.ExtraNamesOfPiece | index.ts:45-49 | a comma-free text yields its trimmed self, or no name at all when it is blank (the empty text among them) |
| Tags.WithSuffixConcat | index.ts:45-50 | suffixing distributes over concatenation, so the tags pushed for a longer list of pieces extend those pushed for its prefix |
| Tags.Derive | index.ts:14-53 | a failure carries the message `Param 'semver' is invalid: ` followed by the input; a success has one tag per primary tag of the version plus one per non-blank piece |
| Tags.ParseSemVer | index.ts:14-53 | the method's result is exactly the derivation `Derive`: the failure for a rejected version, else the primary tags followed by the extra tags |
| Tags.PushExtraTags | index.ts:45-50 | the loop leaves the tags it was given in front, followed by each non-blank piece, trimmed and suffixed, in input order |
| Tags.PushStep | index.ts:46-49 | what one iteration of the loop over the pieces appends |
| Tags.PrimaryCountHyphen | index.ts:35-42 | a recognised version has one primary tag when it contains `-` and three otherwise |
| Tags.DeriveFailure | index.ts:16-19 | derivation fails exactly when the pattern does not match, and the message is `Param 'semver' is invalid: ` followed by the input verbatim |
| Tags.DerivePrerelease | index.ts:33-50 | a prerelease yields the whole input as its single primary tag, without the suffix, followed by the extra tags |
| Tags.DeriveRelease | index.ts:33-50 | a release yields `major.minor.patch`, `major.minor` and `major`, each with the suffix and with the `v` kept, followed by the extra tags |
| Tags.ReleaseRoundTrip | index.ts:16-39 | for a release, the first tag is the input followed by the suffix |
| Tags.DeriveShape | index.ts:33-52 | an accepted version yields its one or three primary tags followed by the suffixed extra names |
| Tags.DeriveLength | index.ts:33-52 | the number of tags is one (prerelease) or three (release) plus the number of pieces that are not blank |
| Tags.ExtraTagsFollow | index.ts:45-50 | the extra tags come right after the one or three primary ones, in input order, each a non-empty, comma-free, trimmed name followed by the suffix |
| Tags.MajorAsExtraTags | index.ts:45-49 | a major group given as the extra-tags text yields exactly one extra name, itself |
| Tags.NoDeduplication | index.ts:39-50 | extra tags are not de-duplicated: naming the major again as an extra tag yields `major+suffix` twice |
| Tags.ReleaseExample | index.ts:39-41 | `v1.2.3` with an empty suffix and no extra tags yields `v1.2.3`, `v1.2`, `v1` |
| Tags.PrereleaseExample | index.ts:35-37 | `v2.0.0-abc123` with suffix `-alpine` yields only `v2.0.0-abc123`, without the suffix |
| Tags.FailureExample | index.ts:16-19 | `1.2.3` (no `v`) fails with `Param 'semver' is invalid: 1.2.3` |
| Tags.ExtraTagsExample | index.ts:45-50 | the extra-tags text `a, b,,c ` yields `a`, `b`, `c`, each with the suffix (`a-x`, `b-x`, `c-x` for `-x`): spaces are trimmed and the empty piece is dropped |
| Tags.SpacedNames | index.ts:45-50 | for any three names, `a, b,,c ` yields exactly those three names followed by the suffix |
| Tags.NamesHead | index.ts:45-48 | a name followed by a comma yields that name before the names of the rest |
| Tags.NamesSpaced | index.ts:45-48 | a space, a name and a comma yield the name, trimmed, before the names of the rest |
| Tags.NamesTail | index.ts:45-48 | an empty piece followed by a name with a trailing space yields the name alone |

## Left out

- `run` (index.ts:55-88) is I/O glue and is not modelled. It checks for docker with `docker -v`, then runs `docker tag` and `docker push` through `exec`. It reads inputs with `core.getInput` and reports with `core.setOutput` (the tags joined by `", "`) and `core.setFailed`.
- The `core.debug` logging calls (index.ts:27-31) only have side effects and are not modelled.
- The `date-fns/format` import (index.ts:4) is unused and not modelled.
- The JavaScript regular-expression engine is not modelled. The hand-written recogniser `SemVer.Parse` replaces it, with the same anchoring and groups. It is proved equal to the pattern's language as characterised by `WellFormed` and `Render`.
- The whitespace set of `trim` is the ECMAScript WhiteSpace and LineTerminator sets, with the category Zs taken as of Unicode 15. Later Unicode versions are not tracked.
- JavaScript strings are UTF-16 code units, while Dafny characters are Unicode scalar values, so lone surrogates are not modelled. They are neither whitespace nor digits, so they behave like any other non-whitespace character.
- The `forEach` callback is modelled as a `while` loop in the separate method `PushExtraTags`. A thrown `Error` becomes a `Failure` value rather than an exception.
