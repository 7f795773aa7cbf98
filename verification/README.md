# n15-template string and record helpers, in Dafny

This project models the helper module `lib/utils.ts` of a brand web-site
template: the string helpers `capitalize`, `camelize` and `capitalizeVar`,
the list-to-prose joiner `arr2str`, and the record and string predicates
`isEmptyObj` and `isValidStr`. Every helper in the source is one
JavaScript expression, so the model is a set of pure Dafny functions and
lemmas about them.

- `js_string.dfy`, module `JsString`: the JavaScript built-ins the helpers are
  made of, over `seq<char>`: `charAt`, `slice` (with its negative-index
  rule), `split` on a one-character separator, `join`, `map`, `trim` (with
  the ECMAScript whitespace and line-terminator set) and `toUpperCase` /
  `toLowerCase` restricted to ASCII letters. The lemmas here are the
  split/join round trips, the piece count of a split, the length of a join,
  and "trim gives the empty string exactly when every character is
  whitespace".
- `utils.dfy`, module `Utils`: the six helpers, each written as the
  expression in the source, and the lemmas about them. `camelize` is
  related to an independent character-by-character definition (`WordCase`:
  a space stays, the character after a space or at position 0 is
  upper-cased, every other is lower-cased); length, space positions,
  idempotence and the piece-by-piece reading are proved from it.

Values of JavaScript's dynamic type are the datatype `Utils.Value`
(`Null | Undefined | Bool | Str | Other`), where `Other` stands for
numbers, objects and the rest and carries only their truthiness. A record
passed to `isEmptyObj` is given by the list of its values in enumeration
order (`Object.values`); the keys play no part in the result. The optional
`joiner` and `endJoiner` of `arr2str` are `Option`s, `None` taking the
defaults `", "` and `" and "`.

`capitalize("")` returns `""`: `"".charAt(0)` and `"".slice(1)` are both
`""` in JavaScript, so no index error arises (`Utils.CapitalizeExamples`).

## Model

| member | source | states |
|---|---|---|
| `JsString.Upper` | lib/utils.ts:8 | upper-casing one character: an ASCII lower-case letter becomes the matching capital, everything else is unchanged, and the result is never a lower-case letter |
| `JsString.Lower` | lib/utils.ts:8 | lower-casing one character: an ASCII capital becomes the matching lower-case letter, everything else is unchanged, and the result is never a capital |
| `JsString.CaseAbsorbs` | lib/utils.ts:8-10 | upper- and lower-casing are idempotent, each absorbs the other when applied after it, and neither creates or removes a space |
| `JsString.UpperStr` | lib/utils.ts:8 | `toUpperCase` keeps the length and upper-cases every character |
| `JsString.LowerStr` | lib/utils.ts:8 | `toLowerCase` keeps the length and lower-cases every character |
| `JsString.CharAt` | lib/utils.ts:8 | `charAt(k)` is the one character at `k` when `k` is in range and `""` otherwise (so `"".charAt(0)` is `""`, not an error) |
| `JsString.RelIndex` | lib/utils.ts:14 | a `slice` bound lies in `0..len`; a bound in range is itself, a negative one counts back from the end, one past the end is clamped to `len` and one before the start to `0` |
| `JsString.Slice` | lib/utils.ts:8-14 | `slice(start, end)` has `to - from` elements when the clamped `from` is below the clamped `to`, and none otherwise |
| `JsString.SliceAt` | lib/utils.ts:8-14 | element `i` of `slice(start, end)` is the input's element at the clamped `start` plus `i` |
| `JsString.SliceFromOne` | lib/utils.ts:8 | `slice(1)` is everything after the first element, and `""` on `""` |
| `JsString.SliceDropLast` | lib/utils.ts:14 | `slice(0, -1)` is every element but the last, and empty on an empty array |
| `JsString.Join` | lib/utils.ts:9-14 | `join` of no parts is `""`, and the first part begins the result |
| `JsString.MapSeq` | lib/utils.ts:9 | `map` keeps the length and applies the function at every index |
| `JsString.Split` | lib/utils.ts:9 | `split(' ')` gives at least one piece and no piece contains the separator |
| `JsString.SplitCount` | lib/utils.ts:9 | `split` gives exactly one piece more than the number of separators, empty pieces included |
| `JsString.SplitJoin` | lib/utils.ts:9 | joining the pieces of a split with the same separator gives back the input |
| `JsString.JoinSplit` | lib/utils.ts:9 | splitting the join of separator-free pieces gives back the same pieces, empty ones included |
| `JsString.SplitExample` | lib/utils.ts:9 | `"hELLO  wORLD".split(' ')` is `["hELLO", "", "wORLD"]`: a double space leaves an empty piece |
| `JsString.JoinSnoc` | lib/utils.ts:14 | joining one more part after at least one appends the separator and that part |
| `JsString.JoinLength` | lib/utils.ts:14 | a join of n >= 1 parts is as long as the parts together plus n-1 separators |
| `JsString.Trim` | lib/utils.ts:20 | `trim` returns a contiguous part of the input; everything before and after that part is whitespace, and the part neither starts nor ends with whitespace |
| `JsString.TrimEmptyIff` | lib/utils.ts:20 | `s.trim() === ''` holds exactly when every character of `s` is whitespace |
| `Utils.Capitalize` | lib/utils.ts:8 | `capitalize` keeps the length, upper-cases the first character and lower-cases every later one; `""` gives `""` |
| `Utils.CapitalizeIdempotent` | lib/utils.ts:8 | capitalizing twice is capitalizing once |
| `Utils.CapitalizeCons` | lib/utils.ts:8 | capitalizing a character followed by a tail upper-cases the character and lower-cases the whole tail |
| `Utils.CapitalizeExamples` | lib/utils.ts:8 | `capitalize("hello")` is `"Hello"`, `capitalize("hELLO wORLD")` is `"Hello world"` and `capitalize("")` is `""` |
| `Utils.CapitalizeVar` | lib/utils.ts:10 | `capitalizeVar` keeps the length, upper-cases the first character and leaves every later one as it was; `""` gives `""` |
| `Utils.CapitalizeVarIdempotent` | lib/utils.ts:10 | applying `capitalizeVar` twice is applying it once |
| `Utils.CapitalizeIsCapitalizeVarOfLower` | lib/utils.ts:8-10 | `capitalize(s)` equals `capitalizeVar` of the lower-cased `s` |
| `Utils.WordCase` | lib/utils.ts:9 | the character-by-character reference reading of `camelize` keeps the length |
| `Utils.WordCaseAt` | lib/utils.ts:9 | at each position the reference keeps a space, upper-cases a word-initial character and lower-cases any other |
| `Utils.Camelize` | lib/utils.ts:9 | split / map(capitalize) / join equals the character-by-character reference `WordCase` starting at a word start |
| `Utils.CamelizeAt` | lib/utils.ts:9 | `camelize` keeps the length and, at each position, keeps a space, upper-cases the first character of every word and lower-cases the rest |
| `Utils.CamelizeKeepsSpaces` | lib/utils.ts:9 | the output of `camelize` has a space exactly where the input has one |
| `Utils.CamelizeIdempotent` | lib/utils.ts:9 | camelizing twice is camelizing once |
| `Utils.CamelizeSegments` | lib/utils.ts:9 | the space-separated pieces of `camelize(s)` are `capitalize` of the pieces of `s`, one for one, empty pieces included |
| `Utils.Arr2Str` | lib/utils.ts:12-15 | for n >= 2 items: the first n-1 joined by the joiner, then the end joiner, then the last item; for one item: the end joiner followed by the item; an empty array is outside the function's domain |
| `Utils.Arr2StrPair` | lib/utils.ts:13-14 | two items read as first item, end joiner, second item |
| `Utils.Arr2StrAppend` | lib/utils.ts:13-14 | with at least three items, the second-to-last item follows a joiner and precedes the end joiner |
| `Utils.Arr2StrLength` | lib/utils.ts:13-14 | the prose is as long as the items plus n-2 joiners and one end joiner (one item: the item plus the end joiner) |
| `Utils.Arr2StrDefaults` | lib/utils.ts:13-14 | with the default joiners `["a", "b", "c"]` reads `"a, b and c"` and `["a"]` reads `" and a"` |
| `Utils.Truthy` | lib/utils.ts:24 | a value is truthy exactly when it is none of the falsy values null, undefined, `false`, `""` and a falsy non-string such as `0` |
| `Utils.IsBlank` | lib/utils.ts:19-20 | the `every` callback holds exactly for null, undefined and strings made only of whitespace |
| `Utils.IsEmptyObj` | lib/utils.ts:17-22 | `isEmptyObj` holds exactly when every value is null, undefined, or a string that trims to `""` |
| `Utils.IsEmptyObjIff` | lib/utils.ts:17-22 | equivalently: every value is null, undefined, or a string made only of whitespace; vacuously true for a record with no values |
| `Utils.IsEmptyObjExamples` | lib/utils.ts:17-22 | `{a: null, b: "  "}` and `{}` are empty |
| `Utils.IsEmptyObjCounterExamples` | lib/utils.ts:17-22 | `{a: 0}` is not empty (zero is neither null, undefined nor a string), and neither is `{a: "x"}` |
| `Utils.IsValidStr` | lib/utils.ts:24 | the result is truthy exactly when the argument is a non-empty string; a falsy argument is returned unchanged, a truthy one gives a boolean |

## Left out

- `cn` (lib/utils.ts:4-6): it only calls the foreign `clsx` and `tailwind-merge` libraries, whose merge rules are not part of this model.
- `sFetch` (lib/utils.ts:26-30): network I/O through `fetch` and `JSON.stringify`, with no logic of its own.
- lib/fonts.ts: font-loader configuration whose values come from `next/font/google`; `fontVariables` is only a space-join of those constants.
- app/layout.tsx and app/not-found.tsx: a static metadata record and page rendering (UI).
- eslint.config.mjs: lint configuration, not behaviour.
- JsString.Upper: models `toUpperCase` on ASCII letters only; JavaScript maps all of Unicode, and some mappings change the length (`"ß"` becomes `"SS"`), so the length-preserving contracts of `capitalize`, `capitalizeVar` and `camelize` hold only in this ASCII model.
- JsString.Lower: models `toLowerCase` on ASCII letters only, for the same reason.
- Characters are Unicode scalar values; JavaScript strings are UTF-16 code units, so `charAt(0)` of a string starting with a surrogate pair (which returns half of the pair) is not modelled.
- Utils.Arr2Str: requires a non-empty array; on `[]` the code reads `arr[-1]`, which is `undefined`, and string concatenation then yields the end joiner followed by the text `undefined`. That case is left outside the model instead of being given a meaning.
- Utils.IsEmptyObj: takes the record's values only (`Object.values`), so symbol keys, non-enumerable and inherited properties, which `Object.values` skips anyway, are not represented.
- Utils.IsValidStr: numbers, objects and other non-string values are reduced to their truthiness (`Value.Other`), which is all the expression inspects of them.
