# detect-conventional-bump, modelled in Dafny

A GitHub action that reads a commit message and tells which semantic-version bump it asks
for. The message must start with a conventional-commit header `<type>(<scope?>): <description>`,
and the type decides the bump by the keyword group it belongs to: major, then minor, then patch.
This project models the action's logic in `src/logic.ts` as pure Dafny functions and proves
properties of them:

- `getConventionalRegex` is modelled as `Header.Matches`. This predicate states what the
  generated regular expression `^(t1|…|tn)(\((s1|…|sk | .*)\)){1 or 0,1}:\s` accepts, as an
  existential over the splits a backtracking engine may try. `Header.Test` is a scanning
  matcher proved to decide exactly `Matches`.
- `getBumpType` is modelled as `Bump.GetBumpType`. It returns `Bump(Major | Minor | Patch)`,
  or `NoMatch(message)` where the source throws.
- The pure decision inside `run` is modelled in `Action`:
  - `ParseConfig` parses the keyword inputs, with their defaults and the force flag.
  - `Decide` runs the conformance check against the union of all groups, then classifies.
  - `Run` composes the two.

`Strings` holds what the model needs of ECMAScript strings:
- the `\s` class (WhiteSpace and LineTerminator, exactly as ECMAScript lists them);
- `split` on a one-character separator, and `join`;
- `trim`.

Files:
- `strings.dfy`: module Strings.
- `header.dfy` and `header_properties.dfy`: modules Header and HeaderProperties.
- `bump.dfy` and `bump_properties.dfy`: modules Bump and BumpProperties.
- `action.dfy` and `action_properties.dfy`: modules Action and ActionProperties.

The model follows what the code does:
- The pattern documented at `src/logic.ts:5` and `src/logic.ts:11` is `<type>(<scope?>): <description>`,
  with a space after the colon. The regular expression the code builds accepts `:` followed
  by any one `\s` character (tab, newline, U+00A0, …), and the model follows the regular expression.
- Keyword inputs keep empty pieces. `"feat,"` parses to `["feat", ""]`. That empty keyword
  makes a header with no type, such as `": x"`, conform and classify (`TrailingCommaAddsEmptyType`).
- An empty type list builds the group `()`, which matches the empty type.
- The conformance check in `run` applies the scope list and the force flag. `getBumpType`
  uses neither.
- `getBumpType` can still throw after the conformance check passes. This happens only when a
  listed scope contains a line terminator (`ConformingMessageClassified` for the parsed scopes,
  `RunConformingIsClassified` for the raw scope input). It does happen then:
  `ListedLineTerminatorScopeUnclassified` proves it for every such scope that is plain, with plain groups, and
  `ScopeLineTerminatorUnclassified` for `feat(a\nb): …` with the default groups.

## Model

| member | source | states |
|---|---|---|
| Strings.IsLineTerminator | src/logic.ts:14 | definition: the four ECMAScript line terminators (LF, CR, U+2028, U+2029), the characters the atom `.` in `.*` refuses |
| Strings.IsWs | src/logic.ts:14 | definition: ECMAScript WhiteSpace (TAB, VT, FF, ZWNBSP, the `Zs` characters) plus the line terminators; this is the class `\s` matches after the colon and the set `trim()` removes (lines 51-54) |
| Strings.Join | src/logic.ts:14 | `Array.prototype.join`: the pieces with one separator between neighbours, `""` for no pieces, a lone piece unchanged; it is the inverse `Split` is pinned down by |
| Strings.Split | src/logic.ts:51-54 | `split(",")` always yields at least one piece; joining the pieces gives the input back; no piece contains the separator |
| Strings.SplitJoin | src/logic.ts:51-54 | splitting undoes joining whenever no piece contains the separator, so the pieces are exactly the separator-free runs |
| Strings.SplitKeepsNoLineTerminator | src/logic.ts:54 | every piece of an input free of line terminators is free of them too |
| Strings.Trim | src/logic.ts:51-54 | `trim()` gives a contiguous run of the input; only whitespace is removed on either side; the result neither starts nor ends with whitespace |
| Strings.TrimIdempotent | src/logic.ts:51-54 | trimming twice is trimming once |
| Strings.TrimKeepsNoLineTerminator | src/logic.ts:54 | trimming cannot introduce a line terminator |
| Header.TypeAlternatives | src/logic.ts:14 | the alternatives of `(t1\|…\|tn)`: every listed type, and nothing else except the empty type when the list is empty (`[].join("\|")` is "") |
| Header.Matches | src/logic.ts:14 | the definition of the pattern's language: some type alternative starts the message, then the scope group (exactly once when forced, at most once otherwise, its text a listed scope or `.*` free of line terminators), then `:` and one `\s` character; nothing after that is inspected |
| Header.CloseFrom | src/logic.ts:14 | the scan for `.*\)` followed by `:\s` succeeds exactly when some end of the scope text exists with no line terminator before it |
| Header.AnyScopeFrom | src/logic.ts:14 | trying the listed scopes in turn succeeds exactly when some listed scope is followed by `)` and `:\s` |
| Header.TestAfterType | src/logic.ts:14 | the scan after the type decides exactly what the scope group and the separator accept |
| Header.AnyTypeFrom | src/logic.ts:14 | trying the type alternatives in turn succeeds exactly when one of them starts the message and the rest of the pattern matches after it |
| Header.Test | src/logic.ts:13-15 | `regex.test(message)` decides exactly `Matches`, the language of the generated pattern |
| HeaderProperties.BareHeaderAccepted | src/logic.ts:14 | a listed type followed by `:` and one whitespace character is accepted, whatever follows and whatever the scope list, when the scope is optional |
| HeaderProperties.TrailingTextIgnored | src/logic.ts:14 | the pattern has no end anchor: appending text to an accepted message keeps it accepted |
| HeaderProperties.RejectedWithoutTypePrefix | src/logic.ts:14 | a message that no type alternative starts is rejected |
| HeaderProperties.BareHeaderTypeListed | src/logic.ts:14 | with plain keywords, an accepted bare header names a listed type exactly |
| HeaderProperties.BareHeaderExact | src/logic.ts:14 | with plain keywords and an optional scope, `t:<ws>…` is accepted if and only if `t` is a type alternative |
| HeaderProperties.UntypedMessagesRejected | src/logic.test.ts:20-31 | "update README" and "add new feature" are rejected for the types feat, fix, chore |
| HeaderProperties.TypeWithoutColonRejected | src/logic.test.ts:20-31 | "fix bug" is rejected: a listed type not followed by `:` |
| HeaderProperties.CapitalisedTypeRejected | src/logic.ts:14 | types match case-sensitively: `Feat: x` is rejected for `feat` |
| HeaderProperties.TabSeparatorAccepted | src/logic.ts:14 | `\s` admits a tab after the colon |
| HeaderProperties.MissingSeparatorRejected | src/logic.ts:14 | `feat:x` and `feat:` are rejected |
| HeaderProperties.EmptyTypeListMatchesEmptyType | src/logic.ts:14 | with no types, `: x` and `(wip): x` are accepted; with `feat` listed, `: x` is not |
| HeaderProperties.ListedScopeAccepted | src/logic.ts:14 | a listed scope in parentheses after a listed type is accepted, whether or not the scope is forced |
| HeaderProperties.UnconstrainedScopeAccepted | src/logic.ts:14 | with no scope list or an empty one, any scope text free of line terminators is accepted |
| HeaderProperties.ScopedHeaderParse | src/logic.ts:14 | reading an accepted scoped header `t(s):…` back with plain keywords: the scope group starts right after `t`, so `t` is the type that matched, it is followed by the separator, and the scope text it accepted starts with `s)` |
| HeaderProperties.TypeEndsAtDelimiter | src/logic.ts:14 | with plain keywords, at most one type can start a message and be followed by `:` or `(` |
| HeaderProperties.ScopedHeaderTypeListed | src/logic.ts:14 | with plain keywords, an accepted scoped header `t(…` names a type alternative exactly |
| HeaderProperties.UnconstrainedScopeStopsAtLineTerminator | src/logic.ts:14 | under `.*`, a scope holding a line terminator is rejected for any non-empty plain type list, forced or not |
| HeaderProperties.ListedScopeExact | src/logic.ts:14 | with a non-empty scope list and plain keywords, `t(s): …` is accepted if and only if `s` is listed |
| HeaderProperties.AcceptedScopeIsListed | src/logic.ts:14 | the "only if" half: an accepted scoped header's scope is listed |
| HeaderProperties.AcceptedScopeHasNoLineTerminator | src/logic.ts:14 | with `.*`, an accepted scope holds no line terminator |
| HeaderProperties.AbsentScopesAsEmpty | src/logic.ts:14 | an absent scope list and an empty one accept the same messages |
| HeaderProperties.UnconstrainedScopeExample | src/logic.test.ts:6-17 | "fix(scope): fix a bug" is accepted for feat, fix, chore with no scope list |
| HeaderProperties.ParenthesesInsideScope | src/logic.ts:14 | `.*` backtracks over parentheses: `feat(a)(b): x` is accepted |
| HeaderProperties.EmptyScopeAccepted | src/logic.ts:14 | with an empty scope list and the scope forced, `feat(): x` is accepted |
| HeaderProperties.LineTerminatorScopeRejected | src/logic.ts:14 | `.*` does not cross a newline: a scope holding one is rejected |
| HeaderProperties.ForceScopeMonotone | src/logic.ts:14 | `{1}` accepts a subset of what `{0,1}` accepts |
| HeaderProperties.ForcedScopeNeedsParenthesis | src/logic.ts:14 | with the scope forced, an accepted message has `(` right after its type |
| HeaderProperties.ForcedScopeRejectsBareHeader | src/logic.ts:14 | with the scope forced, a message with no `(` after any type that starts it is rejected |
| HeaderProperties.ForcedListedScopeAccepted | src/logic.ts:14 | scope list `core`, forced: `feat(core): x` is accepted |
| HeaderProperties.ForcedUnlistedScopeRejected | src/logic.ts:14 | scope list `core`, forced: `feat(ui): x` is rejected |
| HeaderProperties.ForcedScopeMissingRejected | src/logic.ts:14 | scope forced: `feat: x` is rejected |
| HeaderProperties.OptionalListedScopeAccepted | src/logic.ts:14 | scope list `a`, `b`, optional: `feat(a): x` is accepted |
| HeaderProperties.OptionalScopeOmitted | src/logic.ts:14 | scope list `a`, `b`, optional: `feat: x` is accepted |
| HeaderProperties.OptionalUnlistedScopeRejected | src/logic.ts:14 | scope list `a`, `b`, optional: `feat(c): x` is rejected |
| HeaderProperties.UnionIsDisjunction | src/logic.ts:65 | the pattern over the concatenation of two non-empty type lists accepts exactly what either list's pattern accepts |
| HeaderProperties.EmptyGroupNotNeutral | src/logic.ts:14 | an empty list is not neutral for concatenation, because its group matches the empty type |
| HeaderProperties.DropScopeConstraint | src/logic.ts:22-24 | dropping the scope list and the force flag only widens acceptance, provided no listed scope holds a line terminator |
| Bump.Accepts | src/logic.ts:22-30 | definition: `getConventionalRegex({ types: group }).test(message)` for the group of a bump, with no scope list and the scope optional |
| Bump.GetBumpType | src/logic.ts:21-35 | the result is the largest bump whose group accepts the message; it is the error carrying the message exactly when no group accepts |
| BumpProperties.FirstMatchPriority | src/logic.ts:26-31 | major whenever the major pattern matches; minor if and only if major fails and minor matches; patch if and only if both fail and patch matches |
| BumpProperties.LargestAcceptingBump | src/logic.ts:26-34 | `Bump(b)` exactly when the group of `b` accepts and no group of a larger bump does |
| BumpProperties.SharedKeywordPrefersMajor | src/logic.ts:26-31 | a keyword listed both as major and as patch classifies as major |
| BumpProperties.AcceptedMessageClassified | src/logic.ts:26-34 | a message some group accepts is classified, at least as large as that group's bump |
| BumpProperties.BareHeaderClassified | src/logic.ts:21-35 | with plain keywords, a bare header is classified by the first group listing its type, or refused when none does |
| BumpProperties.BareHeaderBump | src/logic.ts:26-31 | with plain, non-empty groups, `t: …` is a `b` bump when the group of `b` lists `t` and no larger group does |
| BumpProperties.BareHeaderUnlisted | src/logic.ts:34 | with plain, non-empty groups, `t: …` is refused, carrying the message, when no group lists `t` |
| BumpProperties.BreakingIsMajor | src/logic.test.ts:36-46 | `breaking: …` is a major bump |
| BumpProperties.FeatIsMinor | src/logic.test.ts:48-58 | `feat: …` is a minor bump |
| BumpProperties.FixIsPatch | src/logic.test.ts:60-70 | `fix: …` is a patch bump |
| BumpProperties.DocsHasNoBump | src/logic.test.ts:72-82 | `docs: …` is refused with its message when docs is in no group |
| Action.Keywords | src/logic.ts:51-54 | a non-empty input parses to one keyword per comma-separated piece, in order, each trimmed, empty pieces kept |
| Action.ParseKeywords | src/logic.ts:51-53 | an empty input gives the defaults, any other input its parsed pieces |
| Action.ParseConfig | src/logic.ts:48-54 | each group is its keyword input parsed with its default (`major, breaking`; `minor, feat, ft`; `patch, fix, chore, docs`, lines 6-8), so no group is ever empty; scopes are absent exactly when their input is empty and otherwise are its parsed pieces; the scope is forced exactly by the string "true" |
| Action.AllTypes | src/logic.ts:65 | the spread `[...major, ...minor, ...patch]`: as long as the three groups together, and a type is in it exactly when it is in one of them |
| Action.Decide | src/logic.ts:65-75 | the message fails as non-conventional exactly when the union pattern with scopes and force flag rejects it; otherwise the outcome is `getBumpType`'s bump, or its error |
| Action.Run | src/logic.ts:43-77 | the message fails as non-conventional exactly when the configured pattern (all groups, the parsed scopes, the force flag) rejects it; a failure carries the message that was read; an output is `getBumpType`'s bump over the parsed groups, for a message the configured pattern accepts; it fails with no bump type only when `getBumpType` throws |
| ActionProperties.KeywordsRoundTrip | src/logic.ts:51-54 | parsing the comma-join of comma-free, trimmed keywords gives them back |
| ActionProperties.ParseKeywordsDefaults | src/logic.ts:51-53 | the empty input gives the defaults; any other input gives one keyword per piece, whatever the defaults are |
| ActionProperties.KeywordsKeepNoLineTerminator | src/logic.ts:54 | scopes parsed from an input free of line terminators are free of them |
| ActionProperties.ConformingMessageClassified | src/logic.ts:65-75 | with non-empty groups and scopes free of line terminators, a message that passes the conformance check is always classified |
| ActionProperties.RunConformingIsClassified | src/logic.ts:43-75 | `run` never reports "no matching bump type" unless the scope input holds a line terminator |
| ActionProperties.ListedLineTerminatorScopeUnclassified | src/logic.ts:65-75 | the other half: with non-empty plain groups, a header `t(s): …` whose listed plain scope `s` holds a line terminator passes the conformance check, and then `getBumpType` throws |
| ActionProperties.ScopeLineTerminatorUnclassified | src/logic.ts:65-75 | with the default groups and the scope list `a\nb`, `feat(a\nb): …` conforms and then has no bump type |
| ActionProperties.EmptyInputsGiveDefaults | src/logic.ts:6-8 | with every input empty, the groups are the defaults, scopes are absent and the scope is optional |
| ActionProperties.DefaultConforms | src/logic.ts:6-8 | a bare header with a default keyword passes the default conformance check |
| ActionProperties.DefaultRun | src/logic.ts:6-8 | with every input but the message empty, a bare header with a default keyword gets the bump `getBumpType` gives over the default groups |
| ActionProperties.DefaultBreakingIsMajor | src/logic.ts:6 | with the defaults, `breaking: …` is a major bump |
| ActionProperties.DefaultFtIsMinor | src/logic.ts:7 | with the defaults, `ft: …` is a minor bump |
| ActionProperties.DefaultDocsIsPatch | src/logic.ts:8 | with the defaults, `docs: …` is a patch bump |
| ActionProperties.TrailingCommaKeywords | src/logic.ts:51 | `t,` parses to `t` and the empty keyword |
| ActionProperties.TrailingCommaConfig | src/logic.ts:51-54 | with only the major input `t,` set, the major group is `t` and the empty keyword, the others are the defaults, scopes are absent and optional |
| ActionProperties.TypelessHeaderAccepted | src/logic.ts:14 | `: …` passes any pattern whose types include the empty one |
| ActionProperties.TrailingCommaAddsEmptyType | src/logic.ts:51-75 | with the major input `t,`, the typeless header `: …` is a major bump |

## Left out

- Reading the inputs with `core.getInput`, the debug logging, `core.setOutput`, `core.setFailed`, and the async `try`/`catch` are I/O. `Action.Run` returns the output or the failure as a value. `getInput`'s own trimming of input values is not modelled: inputs arrive as given.
- The failure texts are not modelled. `Action.Failure` records which of the two errors occurred and the message it carries, not the formatted string.
- Regex metacharacters inside keywords are not modelled. Keywords are matched as literal text. Several lemmas assume "plain" keywords, meaning keywords without `(`, `)` or `:`.
- JavaScript strings are UTF-16 code units; Dafny `char` is a Unicode scalar value. The pattern only inspects ASCII characters and the `\s` class, so acceptance is the same for well-formed text. Lone surrogates are not modelled.
- The `\s` class uses the Unicode `Zs` list current when this model was written.
- The tests in `src/logic.test.ts` call `getConventionalRegex` with a bare array instead of `{ types }`. The model follows the function's signature at `src/logic.ts:13`.
- Idempotence of `run` on the same inputs holds by construction: every operation is a function of its inputs.
