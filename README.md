# Command-line toolkit core, modelled in Dafny

This project models the shared core of a TypeScript command-line toolkit. The toolkit dispatches named sub-commands, one of them `image-generate`. The model covers:

- **Argument parser** (`src/utils/args.ts`, module `Args`). Raw tokens become positional parameters and a flag table. A token starting with `--` is a flag. It takes the next token as its value when that token exists, is non-empty and is not a flag itself. Otherwise it records the sentinel `"true"`. `getFlag` reads the table with a JavaScript `||` default.
- **String helpers** (`src/utils/helpers.ts`, module `Helpers`):
  - `sanitizeFilename` turns a prompt into a file-name slug: lower-case, collapse every run of non-`[a-z0-9]` characters into one `-`, strip one leading and one trailing `-`, keep the first 50 characters.
  - The formatting step of `getTimestamp`: `:` and `.` become `-`, and the last five characters are dropped.
- **Command registry** (`src/utils/registry.ts`, module `Registry`). A class with a name-keyed `Map` of commands. `register` overwrites an existing entry. `execute` either reports an unknown name and lists the commands, or runs the command; a command that throws makes the process exit with status 1. `listCommands` prints every entry in the Map's insertion order.
- **`image-generate` checks** (`src/commands/image-generate.ts`, module `ImageGenerate`):
  - the two usage errors;
  - the prompt, which is the parameters joined by spaces;
  - the size, taken from a three-entry whitelist with a warning and fallback;
  - the name of the saved PNG file.
- **Search-result normalisation** (`src/services/serp.ts`, module `Serp`). It keeps the first `num` organic results. Each one is reduced to a title, a snippet and a link through JavaScript `||` fallbacks.

`Args.ParseArgs` is the parser's loop. Its index is advanced by hand, as in the source. It is proved equal to `Args.Parse`, a right-to-left reference definition. `Parse` is in turn related to `KindOf`, a local classification of each token as parameter, flag or consumed value.

The registry is a class. Its `commands` map and its insertion `order` are fields that the methods reassign. A ghost `history` of registrations ties both of them to reference functions: the last registration of a name wins, and names are listed in the order of their first registration.

Three behaviours of the code are easy to mistake, and the model states each of them as the code has it:

- **`--verbose x`:** `x` is consumed as the value of `--verbose`, not kept as a positional parameter (`Args.ParseExamples`).
- **Repeated flag:** the last value wins, because `Map.set` overwrites (`Args.FlagsAreLastOccurrences`).
- **Trailing `-` in slugs:** dashes are stripped before the cut at 50 characters, so a cut right after a separator leaves a slug that ends in `-` (`Helpers.TrailingDashAfterCut`).

## Model

| member | source | states |
|---|---|---|
| Args.FlagName | src/utils/args.ts:11-12 | the flag name is the token with its `--` marker removed: `"--" + name` gives the token back |
| Args.ParseArgs | src/utils/args.ts:6-27 | the hand-indexed scan returns exactly the reference parse `Parse(args)`: the loop invariant keeps the part already built, combined with the parse of the rest, equal to the parse of the whole list |
| Args.ParamsAreUnconsumedTokens | src/utils/args.ts:10-24 | the positional parameters are exactly the tokens classified as neither a flag nor a consumed value, in input order, and each one occurs in the input as such a token |
| Args.TokenAccounting | src/utils/args.ts:10-24 | every token is accounted for exactly once: parameters plus flag tokens plus consumed values equals the number of tokens |
| Args.FlagsAreLastOccurrences | src/utils/args.ts:11-20 | a name is in the flag table if and only if some flag token carries it; its value is the one the last such token stands for (its consumed value, else `"true"`) |
| Args.ParsedValuesNonEmpty | src/utils/args.ts:15-19 | every value stored in the table is non-empty: either a non-empty consumed token or the sentinel |
| Args.BareFlagGetsSentinel | src/utils/args.ts:15-19 | for the name's last occurrence, a flag with no usable value token (end of list, next token a flag or empty) is stored with `"true"`, and the token after it is not consumed |
| Args.GetFlagOnParsed | src/utils/args.ts:29-31 | on a parsed table `getFlag` returns the stored value when the flag was given and the default exactly when it was not |
| Args.ParseExamples | src/utils/args.ts:6-27 | worked examples: parameters around a valued flag; `--verbose x` consumes `x`; two bare flags get `"true"`; `--` with an empty token gives the empty name and keeps `""` as a parameter |
| Helpers.LowerCase | src/utils/helpers.ts:48 | same length as the input, and each character is the input character with ASCII `A`-`Z` mapped to `a`-`z` |
| Helpers.SanitizeFilename | src/utils/helpers.ts:46-52 | the slug has at most 50 characters, no leading `-`, and a trailing `-` only when the 50-character cut produced it |
| Helpers.SanitizeIsCollapsed | src/utils/helpers.ts:46-52 | the slug has only `[a-z0-9]` and `-`, and no two adjacent `-` |
| Helpers.Collapse | src/utils/helpers.ts:49 | collapsing never lengthens the text, is empty exactly for empty input, and starts with the first character or with `-` for a leading separator run |
| Helpers.CollapseIsCollapsed | src/utils/helpers.ts:49 | after collapsing, every character is in `[a-z0-9]` or is `-`, and no two `-` are adjacent |
| Helpers.SanitizeKeepsSlugs | src/utils/helpers.ts:46-52 | a finished slug (collapsed, at most 50 characters, no `-` at either end) is left unchanged by sanitizing |
| Helpers.SanitizeIdempotent | src/utils/helpers.ts:46-52 | sanitizing a slug a second time changes it at most by dropping the trailing `-` left by the cut |
| Helpers.TrailingDashAfterCut | src/utils/helpers.ts:50-51 | 49 slug characters, a space and more slug characters sanitize to the 49 characters followed by `-`, so a slug can end in `-` |
| Helpers.SanitizeExample | src/utils/helpers.ts:46-52 | `"Hello, World!!"` sanitizes to `"hello-world"` |
| Helpers.StripEdgeDashes | src/utils/helpers.ts:50 | removes a leading `-` if there is one and then a trailing `-` if one remains, and nothing else; the result is never more than two characters shorter, and text without a `-` at either end is unchanged |
| Helpers.StripRemovesEdgeDashes | src/utils/helpers.ts:49-50 | on collapsed text the result has no `-` at either end, because no two `-` are adjacent |
| Helpers.Truncate | src/utils/helpers.ts:51 | `slice(0, n)` keeps the prefix whose length is the smaller of the input length and `n` |
| Helpers.ReplaceSeparators | src/utils/helpers.ts:12 | same length as the input, no `:` or `.` left, and a character changes exactly where it was `:` or `.` |
| Helpers.FormatTimestamp | src/utils/helpers.ts:12 | the result is five characters shorter than the ISO string (never negative), contains no `:` or `.`, and matches the input position by position except where a `:` or `.` became `-` |
| Helpers.IsoTimestampShape | src/utils/helpers.ts:10-13 | for a `YYYY-MM-DDTHH:MM:SS.mmmZ` instant the timestamp is `YYYY-MM-DDTHH-MM-SS`: 19 characters, only digits, `-` and `T` |
| Registry.CommandRegistry.constructor | src/utils/registry.ts:8 | a new registry is empty and satisfies the registry invariant |
| Registry.CommandRegistry.Register | src/utils/registry.ts:10-12 | the name now maps to the new command and every other entry is kept; a new name is listed last, an existing name keeps its place; the map and order stay tied to the registration history |
| Registry.CommandRegistry.ListCommands | src/utils/registry.ts:30-36 | one line per registered name, in order of first registration, each with the name's current description; no name twice and none missing |
| Registry.CommandRegistry.ListingCovers | src/utils/registry.ts:32-34 | the listing has as many lines as the registry has names, and every registered name appears in it |
| Registry.CommandRegistry.Execute | src/utils/registry.ts:14-28 | an unknown name reports "not found", lists the commands and returns; a known name runs its command with the arguments; a throw is reported and ends with exit status 1; the process exits if and only if the command was found and did not complete |
| Registry.RegisterTwice | src/utils/registry.ts:10-12 | registering two commands under one name leaves only the second, listed once |
| Registry.FirstOccurrencesAreDistinct | src/utils/registry.ts:32 | the Map's iteration order has no repeated name and contains exactly the names ever registered |
| Registry.TableOfKeys | src/utils/registry.ts:11 | the table holds exactly the registered names, each mapped to a command of that name |
| ImageGenerate.SelectSize | src/commands/image-generate.ts:26-36 | the size is always whitelisted; no `--size` gives the default without warning; a whitelisted value is kept; a warning is printed if and only if a non-empty value outside the whitelist was given, and then the default is used |
| ImageGenerate.Prepare | src/commands/image-generate.ts:12-36 | no arguments is the usage error; arguments without a positional parameter is "prompt required"; otherwise the prompt is the parameters joined with spaces and the size comes from the parsed flags |
| ImageGenerate.UsageOutcome | src/commands/image-generate.ts:12-23 | a usage error ends `execute` by exiting the process with status 1 rather than by throwing |
| ImageGenerate.DispatchUsageError | src/commands/image-generate.ts:12-23 | dispatching a command that stops on a usage error reports only the invocation, no failure, and ends with exit status 1 |
| ImageGenerate.JoinWithSpaces | src/commands/image-generate.ts:25 | `join(' ')` gives `""` for no parts and the part itself for one; otherwise it starts with the first part followed by a space |
| ImageGenerate.JoinSplitRoundTrip | src/commands/image-generate.ts:25 | when no parameter holds a space, splitting the prompt on spaces gives the parameters back |
| ImageGenerate.BareSizeFlagWarns | src/commands/image-generate.ts:26-36 | a bare `--size` stores `"true"`, which is not a size: the default is used with a warning |
| ImageGenerate.InvalidSizeFallsBack | src/commands/image-generate.ts:29-36 | `--size 999x999` falls back to the default with a warning instead of failing |
| ImageGenerate.ImageFilename | src/commands/image-generate.ts:51 | the file name starts with the slug, ends in `.png`, and is six characters longer than slug, size and timestamp together |
| ImageGenerate.SplitJoined | src/commands/image-generate.ts:51 | any slug joined with a 9-character size and a 19-character timestamp in the file-name pattern can be split back into the three parts |
| ImageGenerate.FilenameRoundTrip | src/commands/image-generate.ts:51 | the slug, the size and the timestamp can be read back from the file name, for every whitelisted size and ISO instant |
| ImageGenerate.FilenameHasNoSlash | src/commands/image-generate.ts:51 | the file name never contains `/`, whatever the prompt |
| Serp.OrElse | src/services/serp.ts:34-36 | `a \|\| b` on an optional string gives `a` when it is present and non-empty, and `b` otherwise |
| Serp.NormalizeEntry | src/services/serp.ts:34-36 | the title is the non-empty title, else the position's decimal text, else `""`; the snippet is the non-empty snippet, else the excerpt, else `""`; the link is the non-empty link, else the url, else `""` |
| Serp.TitleEmptyOnlyWithoutSources | src/services/serp.ts:34 | the title is empty if and only if there is neither a non-empty title nor a position; position 0 gives `"0"` |
| Serp.IntToDecimal | src/services/serp.ts:34 | the position's text is non-empty decimal digits without a leading zero, with a `-` in front for a negative position |
| Serp.IntToDecimalRoundTrip | src/services/serp.ts:34 | the decimal text of a position is well formed and reads back as that position |
| Serp.SliceEnd | src/services/serp.ts:33 | the end index of `slice(0, num)` never exceeds the length; a non-negative `num` keeps the smaller of `num` and the length, and a negative `num` drops the last `-num` elements (all of them when `-num` is at least the length) |
| Serp.NormalizeResults | src/services/serp.ts:30-37 | at most `num` results for a non-negative `num` (exactly `min(num, available)`), none when the response or its organic list is missing, and result `k` is the normalisation of organic entry `k` |
| Serp.NormalizeResultsPrefix | src/services/serp.ts:33 | a smaller non-negative `num` yields a prefix of the results for a larger one |

## Left out

- The entry point, the other commands and the image and search services are not part of this model. Neither are their HTTP requests, the download and file write of `image-generate`, nor its metadata output.
- Console text is not modelled as strings. The registry's output is an abstract list of events (`NotFound`, `Listed`, `Invoked`, `Failed`), and `process.exit` is an `Ending` value rather than a process termination.
- Asynchrony: `await` and promise rejection are modelled as a command's synchronous `CommandOutcome`.
- The clock: `getTimestamp` takes the ISO string of `new Date().toISOString()` as a parameter. `Helpers.IsoTimestampShape` covers four-digit years only.
- Helpers.SanitizeFilename: lower-casing covers ASCII `A`-`Z` only, and every non-ASCII character is treated as a separator. Full Unicode `toLowerCase` is not modelled; it maps a few non-ASCII characters to ASCII letters that the slug would keep (U+212A KELVIN SIGN becomes `k`, U+0130 becomes `i` followed by U+0307).
- `getFlag` has no contract of its own. Its behaviour is stated by `Args.GetFlagOnParsed` on parsed tables.
- Serp.NormalizeEntry: response fields are modelled as optional strings, with `position` an optional integer. Other JSON value types (numbers in text fields, objects, `null` as a separate case, fractional positions) are not modelled. Positions are assumed to be integers below 10^21 in magnitude: JavaScript prints larger numbers in exponent form (`1e21` becomes `"1e+21"`), and above 2^53 the parsed double is no longer the integer that was written. A non-object `data` is treated as missing.
- Serp.NormalizeResults: `num` follows JavaScript `slice` semantics for integers, including negative values that count from the end. Non-integer `num` is not modelled.
- Concurrency and mutation of a registry while a command runs are not modelled.
