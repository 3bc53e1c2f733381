# rotten-deps: a Dafny model of the dependency tally

rotten-deps reports how many of a project's installed npm packages are
outdated, per dependency type (production, dev, optional, peer) and in
total. It runs `npm ls --long --json` and `npm outdated --json --long`,
folds both JSON reports into one `result` object, and prints the share of
outdated packages (the "mark").

This project models the two pure cores of that tool:

- **index.js**, with its module-level `result` made an explicit state value
  (`Tally.Tally`) that every step takes and returns. The state holds the
  `all` counters and the categories in creation order: the four dependency types
  first, then any type created on the fly. `list()` (`Index.List`) counts each
  entry under `dependencies` in `all.installed`, then in one category. The
  category is picked by `dev === true`, then `optional === true`, then
  `peer === true`, with `dependencies` as the fallback. `outdated()`
  (`Index.Outdated`) counts each listing entry in `all.outdated`. It then finds
  the category named by the entry's `type`, creating it empty if it is missing.
  It bumps that category's `outdated` and appends `{package, current, wanted}`
  to its `packages`. `main` (`Index.Main`) runs the two steps in order from the
  initial state.
- **utils.js**: `parseArgs` (`Utils.ParseArgs`), a fold of the argument list
  into the `{long, verbose, json}` record that rejects unknown names;
  `countMark` (`Utils.CountMark`), the zero-guarded percentage in integer
  hundredths; and `safeConvertStdoutToJson` (`Utils.SafeConvert`), a total
  wrapper around a partial parse.

A thrown exception is a `Step` whose `fault` is set. The step also carries the
state as it stood when the exception left, because the JavaScript mutates
`result` in place. An `npm outdated` entry whose type is `"all"` therefore
shows as `all.outdated` raised by two, followed by a `NoPackages("all")`
fault: `all` has no `packages` list to push to. A type that names a
property every object inherits, such as `constructor` or `toString`, also
throws `NoPackages`, but `all.outdated` is raised by one only: the second
increment lands on the inherited member, not on `all`. A `null` entry
throws when its properties are read (`NullAccess`), after `all` was
already counted. So does an entry whose type cannot be converted to a
property key (`NoPrimitive`): an object with a field of its own named
`toString`, whose value `JSON.parse` never makes callable, or an array
holding such an object.

`npm` itself is not run. What `exec` yields is the input datatype
`Index.Exec`: `Completed(stdout, stderr)` or `Failed(output)`. `JSON.parse` is
the parameter `parse: string -> Option<Json>`. Parsed values are the
`Json.Json` datatype, with object fields in `for ... in` order.
`Json.ForIn` models what `for ... in` does with every kind of value, up to
the string caveat under "## Left out". `Json.Convertible` says which values
`obj[v]` can turn into a key, and `Json.PropertyKey` gives the key for those.

test/index.test.js:178-231 exercises a later `Rodeps` class that ignores an
unknown `outdated` type with one warning and counts wanted and latest
separately. index.js does neither: it creates the unknown category and has
no wanted/latest counters. The model follows index.js.

Files: `wrappers.dfy` (Option, Result), `json.dfy` (JSON values and property
access), `utils.dfy` (utils.js), `tally.dfy` (the `result` state),
`index.dfy` (index.js), `index_lemmas.dfy` (properties spanning several steps).

## Model

| member | source | states |
|---|---|---|
| `Utils.StripPrefix` | utils.js:29 | exactly one leading `--` is removed; any other argument is left as it is |
| `Utils.SetFlag` | utils.js:30-31 | an accepted name switches on its own flag and leaves the other two as they were |
| `Utils.ParseArgs` | utils.js:18-23 | with no arguments the result is `{long: false, verbose: false, json: false}` |
| `Utils.ParseArgsFromMeaning` | utils.js:27-38 | the loop succeeds iff every stripped argument is a flag name; on success a flag is on iff it was on before or some argument names it; on failure the error names the first unsupported argument |
| `Utils.ParseArgsMeaning` | utils.js:18-43 | `parseArgs` succeeds iff all arguments are supported, with exactly the named flags on; otherwise it throws naming the first unsupported one |
| `Utils.SingleFlag` | utils.js:27-31 | one accepted argument sets exactly its own flag |
| `Utils.ParseArgsOrderIndependent` | utils.js:27-31 | argument lists with the same elements both succeed or both fail, and give the same flags when they succeed |
| `Utils.ParseArgsFromDuplicate` | utils.js:27-38 | repeating an argument in place changes neither the flags nor the error, from any starting record |
| `Utils.ParseArgsFromLaterCopy` | utils.js:27-38 | dropping a later copy of an argument, anywhere after the first, changes neither the flags nor the error, from any starting record |
| `Utils.ParseArgsDuplicate` | utils.js:18-43 | duplicated arguments are idempotent for `parseArgs`, error included: a later copy anywhere in the list can be dropped |
| `Utils.SinglePrefixStripped` | utils.js:29-30 | bare `long` is accepted; `----long` is rejected as `--long`; `--invalid-arg` is rejected |
| `Utils.UnsupportedMessage` | utils.js:32-37 | an unsupported argument throws an error naming the stripped argument, whose message starts with "Unsupported argument" |
| `Utils.CountMark` | utils.js:76-82 | 0 when either count is 0; otherwise `outdated*100/installed` rounded half-up to hundredths (the result r satisfies `2*r*i <= 20000*o + i < 2*r*i + 2*i`); at most 100.00 when `outdated <= installed` |
| `Utils.HalfUpUnique` | utils.js:76-82 | the half-up bounds determine the mark: any value meeting them is what `countMark` returns |
| `Utils.CountMarkExamples` | test/utils.test.js:89-121 | 100/20 gives 20.00 and zero counts give 0, as the tests expect; 6/3 gives 50.00 and 6/2 gives 33.33 |
| `Utils.SafeConvert` | utils.js:89-95 | never fails: the parsed value when the text parses, the empty object when it does not |
| `Tally.Initial` | index.js:20-34 | the initial `result` is valid: `all` is 0/0, and the four types come in order with zero counters and empty `packages`; both sums are 0 |
| `Tally.IndexOf` | index.js:125 | finds the first category with the key, or reports that no category has it |
| `Index.ListEntry` | index.js:69-89 | one entry adds 1 to `all.installed` and, unless it is `null`, 1 to exactly the classified type; `null` throws with the categories untouched |
| `Index.ListEntries` | index.js:69-90 | the loop only changes `installed` counters of the four types; it throws iff some entry is `null`; the rise of `all.installed` equals the rise of the category sum, plus one on a throw; without a throw it equals the number of entries |
| `Index.List` | index.js:52-97 | a rejected exec rethrows with no change; non-empty stderr returns with no change; unparsable output changes nothing; a `null` document throws; success keeps `all.installed` equal to the category sum; nothing but `installed` changes |
| `Index.OutdatedEntry` | index.js:120-134 | one entry adds 1 to `all.outdated` and files itself under its type, changing that key's category only; `installed` is untouched; it throws iff the entry is `null`, its type cannot be converted to a key, or its key is "all" or an inherited name; an unconvertible type raises `all.outdated` by 1 and throws `NoPrimitive` with the categories unchanged; "all" raises `all.outdated` by 2 and then throws; an inherited name raises it by 1 and throws with the categories unchanged |
| `Index.FileEntry` | index.js:125-134 | a fileable entry goes to its type's category, created empty at the end when missing; only that key's `Lookup` changes, the category sum of `outdated` rises by 1 and `all` is untouched |
| `Index.OutdatedEntries` | index.js:120-135 | the loop throws iff some entry is not fileable; without a throw `all.outdated` rises by the number of entries, unknown types included, and so does the category sum; earlier categories keep their key, `installed` and earlier packages |
| `Index.Outdated` | index.js:99-142 | a rejection with empty or no stdout rethrows with no change; otherwise the output is parsed and an unparsable text changes nothing; `installed` is never touched; success keeps `all.outdated` equal to the category sum |
| `Index.Main` | index.js:178-183 | a run ends in a valid state; a run without a throw has `all.installed` and `all.outdated` equal to the category sums; a rejected `npm ls` ends the run in the initial state |
| `Index.PostMark` | index.js:147-151 | the mark `post()` prints is 0 when either total is 0, otherwise `all.outdated*100/all.installed` rounded half-up to hundredths; at most 100.00 when no more are outdated than installed |
| `IndexLemmas.PostMarkIsCountMark` | index.js:147-151 | the mark `post()` computes inline equals `countMark(all.installed, all.outdated)` (utils.js:76-82) |
| `IndexLemmas.ClassifyPrecedence` | index.js:74-89 | the type is dev if `dev === true`, else optional if `optional === true`, else peer if `peer === true`, else dependencies |
| `IndexLemmas.ClassCountPartition` | index.js:72-89 | for non-null entries the four per-type counts add up to the number of entries |
| `IndexLemmas.ListEntriesCounts` | index.js:69-90 | a successful loop raises each type's `installed` by the number of entries classified under it |
| `IndexLemmas.ListCounts` | index.js:63-90 | a successful `list()` raises `all.installed` by the number of keys under `dependencies`; the four category rises add up to that number; it throws iff an entry is `null` |
| `IndexLemmas.ListWithoutDependencies` | index.js:69 | parsed output without a `dependencies` key leaves the state unchanged |
| `IndexLemmas.ListExample` | index.js:69-89 | a tree with 2 production, 1 dev, 0 optional and 3 peer packages adds 6 installed, split 2/1/0/3; `dev: "true"` is not a flag |
| `IndexLemmas.OutdatedEntriesFiles` | index.js:120-135 | after a successful loop each key's category has its old `installed`, `outdated` raised by the number of entries of that type, and those entries' records appended in listing order |
| `IndexLemmas.OutdatedEntriesKeys` | index.js:125-127 | after a successful loop the categories are exactly the earlier ones plus the entries' types |
| `IndexLemmas.OutdatedNewType` | index.js:125-134 | an entry of a type without a category appends that category last, holding only this entry's record, with `outdated` 1 and `installed` 0 |
| `IndexLemmas.OutdatedOwnToString` | index.js:123-125 | an entry whose type is an object with its own `toString` field raises `all.outdated` by 1 and throws at the key conversion, with the categories unchanged |
| `IndexLemmas.OutdatedArrayOwnToString` | index.js:123-125 | the same holds when such an object sits inside an array type, since joining the array converts each element |
| `IndexLemmas.OutdatedPlainObjectType` | index.js:125-134 | an object type without its own `toString` converts to "[object Object]" and is filed under that key without a throw |
| `IndexLemmas.OutdatedAllType` | index.js:123-130 | an entry typed "all" raises `all.outdated` by 2 and then throws, with the categories unchanged |
| `IndexLemmas.OutdatedRejectedWithOutput` | index.js:102-112 | a rejected `npm outdated` that still printed something is processed exactly like a successful one |
| `IndexLemmas.MainAfterListStderr` | index.js:58-61 | output on the stderr of `npm ls` ends `list()` without a throw, so the run goes on to `outdated()` from the initial state |

## Left out

- Process execution (`child_process.exec` and its 60-second timeout): each command's outcome is an `Exec` input. A timeout is a `Failed` outcome.
- `JSON.parse` is an abstract parameter. Parsed objects are field sequences already in `for ... in` order; the engine's rule that integer-like keys come first is part of that assumption. Objects are assumed to have distinct keys. Numbers are integers, printed in plain decimal when used as a key.
- Property reads cover only fields of parsed objects. None of the names index.js reads (`dependencies`, `dev`, `optional`, `peer`, `type`, `current`, `wanted`) is a built-in property of strings, arrays, numbers or booleans.
- `pre()` (index.js:42-50) only checks that package.json exists and never throws, so it has no effect on the state. File I/O is left out.
- `post()` output is left out (index.js:153-175): console formatting, the per-type summary lines, and the `isLong` listing, which is dead code because `isLong` is fixed to false. Only the mark is modelled (`Index.PostMark`). `debug` and `isVerbose` are left out as well.
- `getNpmCommand` (platform check), `getPackageInfo` (file read with a fallback) and `printHelp` (console output) are left out. The thrown `Unsupported` error stands for "help printed, then error thrown".
- Index.PostMark: the same rounding gap as `Utils.CountMark` below, since index.js:147-151 also rounds the binary double with `toFixed(2)`: with 3 outdated of 20000 installed, `post()` prints 0.01 while `PostMark` gives 2 hundredths (0.02).
- Utils.CountMark: computes in integer hundredths with half-up rounding. `toFixed(2)` rounds the binary double of `outdated*100/installed`, so a quotient that is exactly halfway in decimal may round the other way: `countMark(20000, 3)` is 0.01 in JavaScript and 2 hundredths here. Inputs are naturals; string inputs are not modelled. Numeric strings such as the tests' `"100"`/`"20"` are coerced by the arithmetic, but the string `"0"` gets past the strict `=== 0` guard at utils.js:79, so `countMark("0", "0")` is NaN and `countMark("0", "20")` is Infinity; non-numeric strings give NaN. The call with no arguments is `CountMark(0, 0)`.
- Utils.ParseArgs: the accepted names are exactly `long`, `verbose` and `json`. In JavaScript, `argsMap[name] !== undefined` also holds for names inherited from `Object.prototype` (`constructor`, `toString`, ...). Such an argument is accepted: most of these names are added to the record as an extra key, while `__proto__` leaves the record as it was, because assigning `true` to it is ignored. The model rejects all of them.
- Utils.SafeConvert: takes the text as a string. The default argument `{}`, which `JSON.parse` turns into a parse failure, is not modelled.
- Index.OutdatedEntry: for an inherited type name, index.js:129 raises `outdated` on the inherited member itself, which becomes NaN: `Object.outdated` for `constructor`, `Object.prototype.outdated` for `__proto__`, and the inherited function (e.g. `Object.prototype.toString.outdated`) for the others. This happens before index.js:130 throws. That write to a built-in object is not modelled, since the run ends with the throw. Only the state of `result` is modelled.
- Json.ForIn: over a string, JavaScript visits one index per UTF-16 code unit, while the model visits one per Dafny `char` (Unicode scalar value). A string with characters outside the Basic Multilingual Plane therefore yields fewer keys in the model, e.g. one instead of two for a single emoji.
- Counters are unbounded naturals. JavaScript numbers lose precision above 2^53, which a package count never reaches.
- The later `Rodeps` class (wanted/latest counters, packages keyed by name, warn-and-skip for unknown types) is not part of this model. Only index.js as it stands is modelled.
