# combinewords — a Dafny model of the word-combining generator

The library builds strings from a format such as `the {adjective} {noun}`.
Each `{name}` holder is replaced by a word drawn from the word list stored
for `name`. A call to `make` can be made to retry until the candidate passes
every registered requirement: a closure, or a requirement object such as
`ExactLengthRequirement` or `MinimumLengthRequirement`. An attempt ceiling
stops the retries.

The model has four modules:

- `Php` (Php.dfy) holds the PHP values the code works on. A string is a
  sequence of bytes (`Bytes`), so `strlen` is `|s|`. `null` is `Option.None`.
  `IsFalsy` is PHP's truthiness test on a `string|null`.
- `Requirements` (Requirements.dfy) holds the datatype `Requirement` and its
  `Passes`. `Custom` stands for any other implementation of
  `RequirementContract`. A requirement is an immutable value and `Passes` is
  a function, so evaluating the same string twice gives the same verdict.
  The threshold is set once, by the constructor.
- `Templates` (Templates.dfy) holds the pure string logic:
  - the `{\w+}` scanner (`Holders`);
  - the name extraction (`Name`);
  - `strpos` (`FindFrom`);
  - `replaceFirst` and `replace`;
  - `Fill`, the buffer that `generate`'s loop leaves.

  Beside `Holders` there are two reference descriptions. `AllTokens` is the
  token at every position. `Gaps` with `Weave` is the text between the
  holders.
- `Generators` (Generators.dfy) holds the class `Generator`, with the fields
  `words` (the cache), `requirements` and `maxAttempts`. The imperative
  operations are methods on it: `Load`, `Random`, `Replacement`, `Generate`,
  `SatisfiesRequirements`, `Make`, `AddRequirement` and `AddRequirements`.
  The module also holds `tooManyAttempts`, `satisfiesRequirement` and
  `filePath` as functions.

Two behaviours of the code are worth knowing:

- `WordHoldingHolderIsReplaced`: `replaceFirst` searches the whole buffer,
  including the words already put in. So a word that contains a later holder
  token takes that holder's draw.
- `FillInPlace`: each word lands where its own holder was when every `{` of
  the format belongs to a holder and no word contains `{`.

Three behaviours of the attempt ceiling follow from the code, not from
its docblocks, which say only `null|int`:

- A ceiling of 0 is no ceiling. `$this->maxAttempts == null` is true of 0,
  so `make` retries without end, where one might expect it to return `null`
  at once (`UnboundedNeverTooMany`).
- A non-null `$maxAttempts` given to `make` is stored in the field and stays
  in force for later calls (line 254). It does not apply to that one call only.
- A negative ceiling makes `make` return `null` before any attempt
  (`TooManyAttempts`).

The model follows PHP 8. `strpos` finds an empty needle at position 0. An
empty word list makes `$array[0]` null, and the null replacement becomes the
empty string in `substr_replace`. So a holder whose list is empty is deleted
from the buffer (`Drawable`).

## Model

| member | source | states |
|---|---|---|
| `Php.IsFalsy` | src/Generators/Generator.php:68 | PHP's truthiness of a string or `null` as the `if ($name = ...)` test uses it: only `null`, `""` and `"0"` are false, so a string other than `"0"` that is not empty is true |
| `Requirements.Requirement.Passes` | src/Requirements/ExactLengthRequirement.php:25-28 | `passes`: strlen equal to the threshold, strlen at least the threshold (MinimumLengthRequirement.php:25-28), or the custom verdict; a length requirement rejects strings shorter than its threshold, and a minimum of zero or less passes every string |
| `Requirements.ExactLengthAccepts` | src/Requirements/ExactLengthRequirement.php:25-28 | an exact-length requirement passes a string iff its byte length equals the length; a negative length passes nothing |
| `Requirements.ExactLengthSameLength` | src/Requirements/ExactLengthRequirement.php:25-28 | all strings passing one exact-length requirement have the same length |
| `Requirements.ExactImpliesMinimum` | src/Requirements/ExactLengthRequirement.php:27 | a string passing `ExactLength(n)` has length at least `n` and passes `MinimumLength(n)` |
| `Requirements.MinimumNonPositiveAcceptsAll` | src/Requirements/MinimumLengthRequirement.php:25-28 | a minimum of zero or less passes every string, the empty one included |
| `Requirements.MinimumLengthMonotone` | src/Requirements/MinimumLengthRequirement.php:27 | if `s` passes a minimum-length requirement, so does `s + t` |
| `Templates.WordRun` | src/Generators/Generator.php:14 | the greedy `\w+`: the longest run of ASCII word characters at the front |
| `Templates.HolderLength` | src/Generators/Generator.php:14 | a non-zero result is the length of a `{\w+}` token at the front |
| `Templates.HolderLengthExact` | src/Generators/Generator.php:14 | conversely, a `{\w+}` token at the front of length `n` makes the result `n` |
| `Templates.Holders` | src/Generators/Generator.php:53-58 | every element returned is a `{\w+}` token |
| `Templates.Gaps` | src/Generators/Generator.php:53-58 | there is one more gap than there are holders |
| `Templates.GapsAndHolders` | src/Generators/Generator.php:53-58 | the format is its gaps and holders put back together in order, so the holders are its tokens left to right and do not overlap |
| `Templates.HoldersAreAllTokens` | src/Generators/Generator.php:53-58 | the scan finds the token at every position where one starts, in order and with duplicates kept |
| `Templates.HoldersOfLeadingHolder` | src/Generators/Generator.php:53-58 | a format starting with a token lists that token first, then the holders of the rest |
| `Templates.HolderMembers` | src/Generators/Generator.php:53-58 | `t` is among the holders iff `t` is a `{\w+}` token occurring in the format |
| `Templates.NoHolders` | src/Generators/Generator.php:57 | the result is `[]` iff no substring of the format is a `{\w+}` token |
| `Templates.Name` | src/Generators/Generator.php:112-117 | `name`: null exactly when the string holds no `{\w+}` token; otherwise the name, which wrapped in braces is a holder token |
| `Templates.NameOfHolder` | src/Generators/Generator.php:112-117 | the name of a holder token is the text between its braces |
| `Templates.FalsyHolder` | src/Generators/Generator.php:68 | among holder tokens, exactly `{0}` has a name PHP treats as false |
| `Templates.FindFrom` | src/Generators/Generator.php:101 | `strpos`: a result is an occurrence with none before it; none means the needle does not occur |
| `Templates.ReplaceFirst` | src/Generators/Generator.php:99-104 | an absent needle leaves the haystack unchanged; otherwise the result is the text before the first occurrence, then the replacement, then the rest; the length changes by the length difference |
| `Templates.Replace` | src/Generators/Generator.php:86-89 | `replace`: a buffer without the holder is unchanged; otherwise the first occurrence of the holder in the buffer is replaced |
| `Templates.ReplaceBySelf` | src/Generators/Generator.php:99-104 | replacing a needle by itself changes nothing |
| `Templates.Fill` | src/Generators/Generator.php:176-188 | the buffer `generate` leaves for given draws; when every holder is replaced by itself, as a holder with a falsy name is, the buffer is the format |
| `Templates.FillStep` | src/Generators/Generator.php:180-185 | one turn of `generate`'s loop replaces the next holder's first occurrence in the buffer |
| `Templates.FillInPlace` | src/Generators/Generator.php:176-188 | when every `{` of the format is in a holder and no word has a `{`, the k-th word replaces the k-th holder in place |
| `Templates.NoBraceNoHolders` | src/Generators/Generator.php:53-58 | a format without `{` has no holders |
| `Templates.WordHoldingHolderIsReplaced` | src/Generators/Generator.php:176-188 | in the format `{a}{b}` (two holder tokens), if `{a}` draws the word `{b}`, the draw for `{b}` lands in that word, and the format's own `{b}` stays |
| `Generators.SatisfiesRequirement` | src/Generators/Generator.php:220-229 | only a requirement object or a closure can pass; any other value fails |
| `Generators.TooManyAttempts` | src/Generators/Generator.php:210-213 | `tooManyAttempts`: only a ceiling in force can stop the loop, and a negative ceiling already stops it at zero attempts |
| `Generators.UnboundedNeverTooMany` | src/Generators/Generator.php:212 | with a ceiling of `null` or 0, no number of attempts is too many |
| `Generators.BoundedTooMany` | src/Generators/Generator.php:210-213 | with a non-zero ceiling `n`, `a` attempts are too many iff `a >= n` |
| `Generators.TooManyMonotone` | src/Generators/Generator.php:210-213 | once attempts are too many, more attempts are too many too |
| `Generators.FilePath` | src/Generators/Generator.php:165-168 | the path is six bytes longer than the directory and the name together: the separator and `.json` |
| `Generators.FilePathInjective` | src/Generators/Generator.php:165-168 | different names are read from different files |
| `Generators.RegistrablePrefix` | src/Generators/Generator.php:298-304 | the longest run of registrable values at the front of a list |
| `Generators.ArrayRandomValue` | src/Generators/Generator.php:139-144 | the value returned is an element of a non-empty list; for an empty list it is the empty string that `null` becomes |
| `Generators.Generator.constructor` | src/Generators/Generator.php:237-242 | the directory and the ceiling are stored; the cache and the requirement list start empty |
| `Generators.Generator.Stored` | src/Generators/Generator.php:152-157 | the decoded word list `load` reads for a name from `filePath($name)` |
| `Generators.Generator.Load` | src/Generators/Generator.php:152-157 | the cache maps the name to the list stored in the name's file; no other entry changes |
| `Generators.Generator.Random` | src/Generators/Generator.php:125-131 | it loads only on a cache miss; afterwards the name is cached; a cached list is never reloaded; no other entry changes; the word is drawn from the name's list (the empty string for an empty list) |
| `Generators.Generator.Replacement` | src/Generators/Generator.php:66-76 | a holder with a falsy name is replaced by itself and the cache is untouched; otherwise a word of its name's list is drawn, and the cache changes only by loading that name on a miss |
| `Generators.Generator.ZeroHolderStaysLiteral` | src/Generators/Generator.php:66-76 | the holder `{0}` can only be replaced by itself, which leaves the buffer unchanged |
| `Generators.Generator.Generate` | src/Generators/Generator.php:176-188 | the result is the format with each holder, in order, replacing its first occurrence in the buffer by a possible replacement; the cache only grows, and only by the stored lists of the format's truthy holder names |
| `Generators.Generator.SatisfiesRequirements` | src/Generators/Generator.php:196-202 | true iff every registered requirement passes the buffer, so true for an empty list |
| `Generators.Generator.RegisteredReachesVerdict` | src/Generators/Generator.php:220-229 | a registered value never reaches the final `return false`: its verdict is its `passes` or its closure's result |
| `Generators.Generator.NoHoldersOnlyFormat` | src/Generators/Generator.php:257-264 | for a format without holders, every candidate `make` generates is the format itself |
| `Generators.Generator.NoRequirementsFirstAttempt` | src/Generators/Generator.php:259-267 | with no requirements, no candidate fails, so `make` accepts its first attempt |
| `Generators.Generator.Make` | src/Generators/Generator.php:252-273 | (1) a non-null argument overwrites the stored ceiling; (2) with a ceiling `n` in force, at most `n` generations run; (3) `null` comes only after exactly `n` failed attempts; (4) a returned string passes every requirement and all earlier attempts failed; (5) every attempt is a full expansion of the format, and only the lists of its truthy holder names are loaded; (6) the requirement list is cleared only on success without `preserveRequirements` |
| `Generators.Generator.AddRequirement` | src/Generators/Generator.php:282-290 | a requirement object or closure is appended at the end; any other value is refused and the list is unchanged |
| `Generators.Generator.AddRequirements` | src/Generators/Generator.php:298-304 | values are added in order up to the first refused one; those before it stay added; success iff every value is registrable |

## Left out

- Reading and JSON-decoding a word-list file (`file_get_contents`, `json_decode`) is not modelled. It is the constructor parameter `store`, a function from a path to the decoded list.
- A missing word-list file or invalid JSON is not modelled, because `store` always gives a list. On PHP 8, `json_decode` then stores `null` in `$words` (lines 154-156) and `shuffle(null)` at line 141 throws a `TypeError`. On PHP 7, `shuffle` only warns and the word is `null`, which becomes the empty string.
- Generators.ArrayRandomValue: states only that the word is an element of the list. It does not state that `shuffle` makes every element equally likely. The draw is a nondeterministic choice.
- Generators.Generator.Random: states membership of the drawn word only, not a uniform distribution.
- Generators.Generator.Make: with no ceiling in force (`null` or 0), the PHP loop may never end. The model stops after `fuel` failed attempts and returns `OutOfFuel`, which stands for "still running". It does not say what happens after those attempts.
- Closures and other `RequirementContract` implementations are pure functions of the buffer. Side effects, state and exceptions inside them are not modelled.
- PHP loose typing is modelled only where the code relies on it: `== null` on the ceiling and the truthiness of a name. Thresholds and ceilings are integers. String or float thresholds are not modelled.
- `strpos` with an empty needle is PHP 8's position 0; PHP 7 warns and returns false. The code never passes an empty needle, because holders are never empty.
- `DIRECTORY_SEPARATOR` is `/`.
- The service provider, the facade and the two contract interfaces hold no logic. They are not part of this model. The interfaces give the shapes of `Generator` and `Requirement`.
- The `NotARequirementException` thrown by `requirement` is the `false` result of `AddRequirement` and `AddRequirements`. The chaining return value `$this` is not modelled.
