# lodash-mix in Dafny

lodash-mix adds a handful of mixins to lodash. This project models the ones with behaviour worth
stating, and proves what they promise:

- `_.format(template, params)` fills `{name}` markers in a template. It has two modes:
  - **Positional:** successive extra arguments fill the markers in order. A counter moves on
    only when the argument it reads is defined.
  - **Named:** the markers are looked up in a record.
- `_.ordinal(number)` gives the English ordinal suffix of an integer. It is computed with
  JavaScript's truncating `%`.
- `_.isUuid(s)` and `_.uuid()` handle version-4 UUIDs in the layout of RFC 4122:
  - the version digit of section 4.1.3;
  - the variant digits `8`, `9`, `a`, `b` of section 4.1.1;
  - random digits everywhere else, per section 4.4.
- `_.upsert(base, match, replacement)` removes every element that satisfies the matcher and
  appends the replacement.
- `_.pluck(coll, path)` extends lodash's `_.pluck` to dotted paths. It splits the path on `.`
  and plucks one segment at a time.

Modules:

- `Wrappers` holds `Option`.
- `TemplateFormat` covers `format`:
  - the marker pattern;
  - the `replace` scan, cut into text and marker pieces;
  - the callback with its threaded counter;
  - the scanning method `Format`;
  - two reference semantics, one per mode, built on `FillValues`.
- `OrdinalSuffix` covers `ordinal`: the truncating remainder `JsRemainder`, the source's
  computation `Ordinal`, and the plain English rule `EnglishSuffix`.
- `UuidV4` covers `isUuid` (`IsUuid`) and `uuid`. `uuid` is the method `Uuid`, which takes the
  random draw as an input sequence of digit values and fills the template with the loop
  `FillSlots`.
- `Values` is a JSON-like value type with `Undefined`, plus single-property access.
- `Upsert` covers `upsert` over an arbitrary element type and matcher predicate, with
  lodash's `_.reject` (`Reject`). A record matcher (`PropsMatcher`) is included for the
  documented example.
- `NestedPluck` covers `pluck`: the single-level `PluckKey`, `Split`/`Join` for
  `split('.')`, the path walk `Walk`, the fold `PluckPath`, and the method `Pluck`, which
  reassigns `elements` once per path segment as the source does.

Three points where the model settles a question about the source:

- **Marker pattern.** The pattern is `{[a-zA-Z_$]?[0-9a-zA-Z_$]*}`. Its optional first class is
  subsumed by the starred class, so a name may start with a digit (`{1}` is a marker) and the
  empty marker `{}` matches. `MarkerIsBracedName` proves exactly this. A reading in which digit-led
  names are not markers does not match the code, and the model follows the code.
- **Argument counter.** The source's counter starts at 1 and indexes `arguments`, so
  `arguments[1]` is the first parameter after the template. In the model, `Positional(args)`
  holds those parameters and the counter starts at 0, so `args[k]` is `arguments[k + 1]`.
  An argument that is `undefined` is `None`.
- **`upsert` documentation.** The doc comment of `upsert` (index.js:44-49) shows an output
  that differs from what the code returns only in element 0: the documentation gives its
  `data` as 5, and the code leaves it at 2. The comment's wording, "Replaces the element"
  (index.js:40, 53-55), promises a replacement in place. The code instead removes every
  matching element and appends the replacement at the end. The documented example cannot show
  that difference, because its matching element is already the last one. The model follows
  the code. `UpsertDocumentationExample` proves that on the documented input the code returns
  the first two elements unchanged, followed by the new element.

## Model

| member | source | states |
|---|---|---|
| `TemplateFormat.IsMarker` | index.js:90 | definition of the marker pattern `{[a-zA-Z_$]?[0-9a-zA-Z_$]*}` as written, optional lead class included; characterized by `MarkerIsBracedName` |
| `TemplateFormat.MarkerIsBracedName` | index.js:90 | a string matches the marker pattern exactly when it is `{`, then any number of characters from `[0-9a-zA-Z_$]`, then `}`; digit-led and empty names included |
| `TemplateFormat.MarkerAtMatches` | index.js:90 | the scan finds a marker at `p` ending at `e` exactly when `t[p..e]` matches the pattern (the regex's greedy match is the only one) |
| `TemplateFormat.NameEnd` | index.js:90 | the greedy run of name characters from `p`: all of them are name characters and the one after is not |
| `TemplateFormat.MarkerAt` | index.js:90 | a match found at `p` starts with `{`, ends with `}` and lies inside the template |
| `TemplateFormat.PiecesFrom` | index.js:90 | definition of the global `replace` scan from position `p`: where the pattern matches, a marker, resuming after the match; elsewhere, one copied character; characterized by `MarkerAtMatches` and `SourceOfPieces` |
| `TemplateFormat.Pieces` | index.js:90 | definition: the scan from the start of the template; characterized by `SourceOfPieces` |
| `TemplateFormat.SourceOfPieces` | index.js:90 | the left-to-right scan cuts the template into copied characters and non-overlapping markers, dropping and reordering nothing: re-assembling the pieces gives the template |
| `TemplateFormat.MarkerNames` | index.js:92 | one name per marker, in template order (the marker text without its braces) |
| `TemplateFormat.DefinedPrefix` | index.js:96 | the number of leading defined arguments: all before it are defined and the one at it, if any, is undefined |
| `TemplateFormat.Lookup` | index.js:93-94 | definition of `params[paramName]`, with '' when the key is absent |
| `TemplateFormat.Substitute` | index.js:91-97 | the callback: in named mode `params[name]`, or '' for a missing key, with the counter untouched; in positional mode the counter advances by one exactly when the argument it reads exists and is defined, which is then the value, and otherwise the value is '' |
| `TemplateFormat.Render` | index.js:90-97 | definition of the `replace` output: copied characters kept, each marker replaced by the callback's value, the counter threaded from marker to marker; characterized by `NamedMode` and `PositionalMode`, computed by `Format` |
| `TemplateFormat.NamedMode` | index.js:91-94 | in named mode every marker becomes the record's value for its own name, or '' when the key is missing, whatever the counter: repeated names give repeated values and no argument is consumed |
| `TemplateFormat.PositionalMode` | index.js:88-96 | in positional mode the k-th marker, whatever its name, gets the k-th defined argument; from the first undefined argument on, or once the arguments run out, every marker becomes '' |
| `TemplateFormat.NoMarkersUnchanged` | test/format.spec.js:53-58 | a template in which the pattern matches nowhere comes back unchanged, whatever the parameters |
| `TemplateFormat.BlankWithoutArguments` | test/format.spec.js:32-37 | with no argument after the template, or an undefined first one, every marker is removed and the literal text is kept |
| `TemplateFormat.Format` | index.js:87-99 | the scanning loop returns the rendering of the template's pieces with the counter starting at the first argument |
| `OrdinalSuffix.JsRemainder` | index.js:115-116 | JavaScript's `a % b` for positive `b`: in `[0, b)` for `a >= 0`, in `(-b, 0]` for `a < 0`, and congruent to `a` modulo `b` |
| `OrdinalSuffix.Ordinal` | index.js:113-130 | the result is always one of "st", "nd", "rd", "th" |
| `OrdinalSuffix.TeensTest` | index.js:117 | for a non-negative number the test `hundredRem - tenRem === 10` holds exactly when the last two digits are 10 to 19 |
| `OrdinalSuffix.OrdinalIsEnglish` | index.js:113-130 | for every non-negative integer the source's computation gives the English suffix: "th" after 11, 12 or 13 (also past the hundreds), else "st", "nd" or "rd" for a last digit of 1, 2 or 3, else "th" |
| `OrdinalSuffix.NegativeIsTh` | index.js:115-129 | every negative integer gets "th", since both truncating remainders are at most zero |
| `OrdinalSuffix.OrdinalExamples` | index.js:104-107 | 142 gives "nd" as documented; 1, 2, 3, 21 give "st", "nd", "rd", "st"; 11, 12, 13, 111 give "th" |
| `UuidV4.IsUuid` | index.js:165-168 | definition of the anchored, case-insensitive pattern, group by group; characterized by `IsUuidByPosition` |
| `UuidV4.IsUuidByPosition` | index.js:165-168 | `isUuid(s)` holds exactly when `s` has 36 characters, hyphens at 8, 13, 18 and 23, '4' at 14, one of 8, 9, a, b, A, B at 19 and a hex digit of either case everywhere else |
| `UuidV4.IsUuidExamples` | index.js:136-138 | the documented output `9716498c-45df-47d2-8099-3f678446d776` is accepted; a short string and one with variant digit `c` are not |
| `UuidV4.HexChar` | index.js:149 | definition of `value.toString(16)` for a value below 16; characterized by `HexRoundTrip` |
| `UuidV4.HexRoundTrip` | index.js:149 | `value.toString(16)` for a value below 16 is one lower-case hex digit that reads back as the value, and it is one of 8, 9, a, b exactly when the value is 8 to 11 |
| `UuidV4.HexValue` | index.js:149 | a hex digit's value is below 16, and 8 to 11 for the digits 8, 9, a, b |
| `UuidV4.HexValueInjective` | index.js:149 | distinct lower-case hex digits have distinct values |
| `UuidV4.FillSlots` | index.js:144-150 | the global replace of `[xy]` puts a lower-case hex digit at each `x`, one of 8, 9, a, b at each `y`, copies everything else, and the slot values it wrote are exactly the draw, in order |
| `UuidV4.ExtendByOne` | index.js:145-150 | one more step of the replace keeps the template's shape, moves the slot count on by one exactly at a slot, and extends the slot values read back by the value written there |
| `UuidV4.Uuid` | index.js:143-151 | for every draw of 30 values in 0..15 and one in 8..11, `uuid` returns a string that `isUuid` accepts, with version digit '4' and variant digit in 8, 9, a, b, carrying the draw |
| `UuidV4.ConformingIsUuid` | index.js:143-168 | every string of the template's shape passes `isUuid`, has '4' at 14, one of 8, 9, a, b at 19, and no upper-case letter |
| `UuidV4.EveryLowerCaseUuidIsReachable` | index.js:143-168 | conversely, every lower-case string `isUuid` accepts has the template's shape and carries a valid draw, and it is the only string of that shape carrying that draw, so `uuid` returns it for that draw |
| `UuidV4.DeterminedBySlotValues` | index.js:145-150 | the draw determines the output: two strings of a template's shape carrying the same slot values are equal |
| `UuidV4.SlotValues` | index.js:145-150 | one value read back per `[xy]` slot of the template |
| `UuidV4.SlotValuesAt` | index.js:145-150 | the value read back for the slot at position `p` is the value of the character at `p` |
| `Upsert.MatchCount` | index.js:59 | the number of matching elements is at most the length |
| `Upsert.Reject` | index.js:59 | `_.reject` keeps length minus the number of matches, and nothing it keeps matches |
| `Upsert.RejectKeepsTheRest` | index.js:59 | every non-matching element is kept as often as it occurs in the input; every matching one is gone |
| `Upsert.RejectKeepsOrder` | index.js:59 | what `_.reject` keeps is a subsequence of the input: the order is preserved |
| `Upsert.RejectAppend` | index.js:59 | rejecting from a concatenation is the concatenation of the rejections |
| `Upsert.RejectNothing` | index.js:59 | when nothing matches, `_.reject` returns its input |
| `Upsert.Upsert` | index.js:58-62 | the result has the number of non-matching elements plus one entries, ends with the replacement, and nothing before the replacement matches |
| `Upsert.UpsertKeepsTheRest` | index.js:51-62 | what precedes the replacement is exactly the non-matching elements of `base`, with their multiplicities, in their original order |
| `Upsert.UpsertWithoutMatchAppends` | index.js:54-55 | when no element matches, `upsert` appends the replacement to `base` |
| `Upsert.UpsertIdempotent` | index.js:58-62 | when the replacement itself satisfies the matcher, upserting it twice gives the same as upserting it once |
| `Upsert.UpsertDocumentationExample` | index.js:44-49 | on the documented input the code returns the first two elements unchanged followed by the new element, not the documented output |
| `Values.Property` | index.js:187 | definition of the single-property read behind `pluck`: the record's own field, or `undefined` for an absent key or a value that is not a record |
| `NestedPluck.PluckKey` | index.js:187 | the single-level pluck has one entry per element of the collection |
| `NestedPluck.Split` | index.js:184 | `split('.')` returns at least one part and no part contains a dot |
| `NestedPluck.JoinSplit` | index.js:184 | splitting on '.' loses nothing: joining the parts with '.' gives the path back, empty segments included |
| `NestedPluck.SplitJoin` | index.js:184 | splitting dot-free parts joined with '.' gives the parts back |
| `NestedPluck.SplitCount` | index.js:183-184 | the path has one more part than it has dots, and the dot count is zero exactly when the path contains no '.' |
| `NestedPluck.SplitWithoutDot` | index.js:183-191 | a path without a dot splits into itself alone |
| `NestedPluck.PluckPath` | index.js:185-188 | definition of the `forEach` fold: the single-level pluck applied once per segment, in order; characterized by `PluckPathWalks` and `OneSegment`, computed by `Pluck` |
| `NestedPluck.PluckPathWalks` | index.js:185-189 | folding single-level plucks over the segments keeps the collection's length and gives, per element, the value at the end of the path in that element (`undefined` once a step leaves the records) |
| `NestedPluck.OneSegment` | index.js:183-191 | a one-segment fold agrees with the single-level pluck |
| `NestedPluck.Pluck` | index.js:182-193 | the result is the fold of single-level plucks over `split(path, '.')`, which is the single-level pluck for a path without a dot; it has the collection's length and its k-th entry is the path walked in the k-th element |
| `NestedPluck.PluckDocumentationExample` | index.js:173-177 | 'p.c' splits into 'p' and 'c', and walking it in `{p: {c: 1}}` and `{p: {c: 2}}` gives 1 and 2 |

## Left out

- `immutableMerge` (index.js:33-35) is left out. It only delegates to lodash's `merge` and `cloneDeep`, whose rules are not part of this model.
- The environment detection and mixin bootstrap (index.js:1-11 and the end of the file) are left out: module loading, `window` globals, the error when lodash is missing, and chaining.
- The random source `_.random` is not modelled. Its draws are the `digits` input of `Uuid`.
- `Math.floor` on non-integers, `NaN` and infinities in `ordinal` is not modelled. Only integer input is; for an integer `Math.floor` is the identity.
- JavaScript coercions are not modelled:
  - a non-string substitution value being stringified by `replace`;
  - a non-string `template`;
  - `re.test` on a non-string.
- `_.isObject(params)` is also true for arrays and functions, and then the source switches to named mode. The model's mode is chosen by the `Params` constructor, and named mode takes a string-to-string record.
- Named lookups see only the record's own keys. Inherited properties such as `toString` on `Object.prototype` are not modelled.
- lodash's `_.matches` compares nested objects by deep partial equality. `PropsMatcher` compares each listed key by whole-value equality. The lemmas about `upsert` hold for any matcher predicate.
- Property access (`Values.Property`) reads only a plain object's own fields. Anything else gives `undefined`; the length of an array or string and indexed access into them are not modelled.
- `base` being left unchanged by `upsert` is not stated as a lemma. The model works on values, and `_.reject` builds a new array before `push`, so there is no shared state to describe.
- Concrete runs of `format` on the template strings of test/format.spec.js are not stated as lemmas. The behaviour they check is covered for all templates by `NamedMode`, `PositionalMode`, `BlankWithoutArguments` and `NoMarkersUnchanged`.
