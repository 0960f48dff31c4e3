# Partial-template loader of layout-playground's gulpfile

The build script `gulpfile.js` registers Mustache partials before it renders the page
templates. Two functions do this work:

- `parseMustache(path, after, callback)` checks that a path names a `.mustache` file. It
  then derives the partial's name: it removes the first `.mustache`, removes the first
  occurrence of the strip prefix `after`, rewrites every `/` to `_` one at a time, and
  drops one leading `_`. Finally it hands the name and the file's text to `callback`.
- `parseGlobs(partialGlobs, callback)` expands each partial pattern. For every matched file
  it calls `parseMustache`, using as strip prefix the pattern's text before its first `*`.
  It stores each result in one dictionary, `partials[name] = content`, and reports either
  the dictionary or the first error.

The project has four modules:

- `Wrappers`: `Option` (with `None` for JavaScript's `undefined`) and `Result` (for the
  error-first callbacks).
- `JsString`: the JavaScript string operations the loader relies on. These are `indexOf`
  (first occurrence, or -1), `replace` with a string pattern (first occurrence only) and
  `substring` (clamped, swapped arguments).
- `PartialResolver`: `parseMustache`.
  - The specification function `PartialName` rewrites every `/` at once.
  - The method `DeriveName` keeps the source's loop, which rewrites one `/` per pass. It is
    proved to compute `PartialName`.
  - `ParseMustache` is proved to compute the reply `Resolve`.
- `GlobAggregator`: `parseGlobs`.
  - `Aggregate` folds the inner iterator's calls over the dictionary.
  - The method `ParseGlobs` keeps the two nested loops and the dictionary it updates, and
    is proved to compute `Aggregate`.
  - Lemmas about `Aggregate` cover when the batch fails, with which message, which keys
    result and which value wins.

Behaviour of the code a reader might not expect:

- `.mustache` may sit anywhere in the path, not only at its end. `x.mustache/y` is
  accepted and named `x_y`.
- Only one leading `_` is dropped, so a name can still start with `_`.
- Line 138 tests the glob's error `err`, not the parse error `parseErr`, and the model
  keeps that.
  - When the glob reported no error, a rejected file does not end the batch. Line 141 then
    stores `partials[undefined] = undefined`, which JavaScript writes under the property
    name `"undefined"`. This is why a dictionary value is an `Option<string>`.
  - When the glob reported an error, no file is stored, and the first rejected file ends
    the batch with its message.

## Model

| member | source | states |
|---|---|---|
| JsString.IndexFromFinds | gulpfile.js:105 | `indexOf` from a start index returns an occurrence, and none occurs earlier; -1 means none occurs |
| JsString.IndexOfFinds | gulpfile.js:105 | `path.indexOf(t)` is the first index where `t` occurs, and -1 exactly when it occurs nowhere |
| JsString.IndexOf | gulpfile.js:112 | the result is -1 or an index where `t` fits; an empty needle is found at 0 |
| JsString.IndexOfChar | gulpfile.js:112 | for a one-character needle, `indexOf(c) >= 0` exactly when `c` is in the string; the index holds `c` and no earlier position does |
| JsString.Replace | gulpfile.js:109 | `replace` leaves the string unchanged when the pattern is absent; otherwise the length changes by one occurrence; an empty pattern prepends the replacement |
| JsString.ReplaceFirstOccurrence | gulpfile.js:109 | `replace` with a string rewrites only the first occurrence: `(a+t+b).replace(t,u)` is `a+u+b` whatever `b` holds |
| JsString.ReplaceAtStart | gulpfile.js:111 | a pattern at the start of the string is the occurrence that is removed |
| JsString.ReplaceEmpty | gulpfile.js:101 | replacing the empty string by the empty string changes nothing |
| JsString.Substring | gulpfile.js:137 | `substring` returns the slice for in-range indices; a negative end is clamped to 0 and the arguments swapped; the result is no longer than the input |
| PartialResolver.NormaliseAfter | gulpfile.js:97-101 | a string prefix is kept; a function in second place or a falsy value becomes `''` |
| PartialResolver.Underscored | gulpfile.js:112-114 | the all-at-once rewriting keeps the length and leaves no `/` |
| PartialResolver.UnderscoredAt | gulpfile.js:112-114 | position by position, `/` becomes `_` and every other character is kept |
| PartialResolver.UnderscoredWithoutSlash | gulpfile.js:112-114 | a string without `/` is left unchanged by the rewriting |
| PartialResolver.SpliceUnderscore | gulpfile.js:113 | turning one `/` into `_` keeps the length, removes exactly one `/` and does not change the rewriting's final result |
| PartialResolver.ReplaceSlashStep | gulpfile.js:112-114 | one pass of the loop lowers the count of `/` by one, keeps the length and keeps the final result |
| PartialResolver.PartialName | gulpfile.js:109-118 | the derived name is never longer than the path and holds no `/`; `StripsFirstExtensionOnly`, `StripsFirstPrefixOnly`, `UnderscoredAt` and `DropLeadingUnderscore` give its contents step by step |
| PartialResolver.DropLeadingUnderscore | gulpfile.js:116-118 | a leading `_` is removed once; a name not starting with `_` is unchanged |
| PartialResolver.DeriveName | gulpfile.js:109-118 | the step-by-step derivation terminates and equals `PartialName`; the name holds no `/` |
| PartialResolver.Reply.Err | gulpfile.js:106 | the error argument is `''` exactly for a resolved file, and `'Invalid mustache file: '+path` for a rejected one |
| PartialResolver.Resolve | gulpfile.js:96-126 | a rejection names the path; a resolution carries the file's text and a name without `/` |
| PartialResolver.ParseMustache | gulpfile.js:96-126 | `parseMustache` hands its callback exactly `Resolve(path, after, content)` |
| PartialResolver.RejectedIffNoExtension | gulpfile.js:105-106 | a file is rejected exactly when `.mustache` occurs nowhere in its path |
| PartialResolver.AcceptedAt | gulpfile.js:105 | a path whose first `.mustache` follows a `.`-free stem is accepted at that index |
| PartialResolver.StripsFirstExtensionOnly | gulpfile.js:109 | only the first `.mustache` is removed; later text, later copies included, stays in the name |
| PartialResolver.StripsFirstPrefixOnly | gulpfile.js:101-111 | only the first occurrence of the prefix is removed, wherever it sits; an empty or falsy prefix removes nothing |
| PartialResolver.StemName | gulpfile.js:105-118 | a path ending in its only `.mustache` (the stem holds none) is accepted and named from the text before the extension |
| PartialResolver.DotFreeStem | gulpfile.js:105 | a stem without `.` holds no `.mustache` of its own |
| PartialResolver.FlatName | gulpfile.js:112-118 | `dir/file` is named `dir_file` when `dir` does not start with `_` |
| PartialResolver.LeadingUnderscoreName | gulpfile.js:116-118 | `_file` is named `file` |
| PartialResolver.ExtensionInsidePath | gulpfile.js:105-114 | `x.mustache/y` is accepted and named `x_y` |
| PartialResolver.SecondExtensionKept | gulpfile.js:109 | in `x.mustache.mustache` the second extension stays in the name |
| PartialResolver.OneUnderscoreDropped | gulpfile.js:116-118 | for a `.`-free, `/`-free `x`, `__x.mustache` is named `_x`, and dropping a leading `_` from that name changes it, so the step is not idempotent |
| PartialResolver.NotesRejected | gulpfile.js:105-106 | `notes.txt` is rejected with its path |
| GlobAggregator.GlobPrefix | gulpfile.js:137 | the strip prefix is a prefix of the pattern; `GlobPrefixBeforeFirstStar` says which one |
| GlobAggregator.GlobPrefixBeforeFirstStar | gulpfile.js:137 | the strip prefix is the pattern's text before its first `*`, and `''` without a `*` |
| GlobAggregator.GlobPrefixOfRoot | gulpfile.js:137 | a pattern `root*rest` with a `*`-free root has the root as its prefix |
| GlobAggregator.ConfiguredPrefixes | gulpfile.js:30-31 | the two configured partial patterns strip `src/templates/partials/` and `src/templates/layout/` |
| GlobAggregator.NestedPartialName | gulpfile.js:137 | under `root*rest`, with `root`, `dir` and `file` free of `.`, `root` + `dir/file.mustache` is named `dir_file` |
| GlobAggregator.RootPartialName | gulpfile.js:137 | under `root*rest`, with `root` and `file` free of `.`, `root` + `_file.mustache` is named `file` |
| GlobAggregator.ConfiguredNestedName | gulpfile.js:30 | under the configured partials pattern, `nav/top.mustache` is named `nav_top` |
| GlobAggregator.ConfiguredUnderscoredName | gulpfile.js:30 | under the same pattern, `_y.mustache` is named `y` |
| GlobAggregator.KeyOf | gulpfile.js:141 | a resolved file is stored under its name, a rejected one under `"undefined"` (the property an `undefined` name becomes) |
| GlobAggregator.ValueOf | gulpfile.js:141 | the stored value is `undefined` exactly for a rejected file, and the file's text otherwise |
| GlobAggregator.Aborts | gulpfile.js:138-139 | a call ends the batch exactly when its glob reported an error and its `parseErr` is non-empty |
| GlobAggregator.JobsOf | gulpfile.js:134-137 | one call per matched file, in order, each with the pattern's strip prefix and glob error |
| GlobAggregator.Jobs | gulpfile.js:130-137 | one call per file matched by any pattern; `JobsSplit` gives the pattern-after-pattern order |
| GlobAggregator.Aggregate | gulpfile.js:129-158 | a success keeps every starting key; a failure carries the error of some aborting call; `AggregateFails`, `FirstAbortReported`, `AggregateKeys`, `LastWriteWins` and `UnwrittenKeyKept` pin the whole result |
| GlobAggregator.AggregateFails | gulpfile.js:138-139 | the batch fails exactly when some file is rejected under a glob error |
| GlobAggregator.FirstAbortReported | gulpfile.js:152-154 | the reported error is `'Invalid mustache file: '` plus the path of the first such file |
| GlobAggregator.WrittenKeys | gulpfile.js:141 | the keys written are those of the calls made without a glob error |
| GlobAggregator.WrittenKeysAdded | gulpfile.js:129-141 | without an aborting call the batch succeeds, with the starting keys plus the written ones |
| GlobAggregator.AggregateKeys | gulpfile.js:129-141 | without an aborting call the keys are exactly the names of the files processed without a glob error; a rejected one adds `"undefined"` |
| GlobAggregator.UnwrittenKeyKept | gulpfile.js:141 | a key no call writes keeps its value |
| GlobAggregator.LastWriteWins | gulpfile.js:141 | a key holds the value of the last call writing it; collisions raise no error |
| GlobAggregator.RejectedStoresUndefined | gulpfile.js:138-141 | a file rejected while its glob reported no error leaves `undefined` under `"undefined"` and does not end the batch |
| GlobAggregator.NothingMatched | gulpfile.js:129-157 | no patterns, or patterns matching nothing, give success with an empty dictionary |
| GlobAggregator.JobsSplit | gulpfile.js:130-131 | the calls are taken pattern after pattern |
| GlobAggregator.ParseGlobs | gulpfile.js:128-160 | the nested loops update the dictionary and return exactly `Aggregate` over every matched file, in order, starting from `{}` |

## Left out

- File reading: `fs.readFileSync` (line 108) and `fs.readFile` with its `'Error reading file: '` path (lines 120-122). Reading is I/O. The file's text is a parameter, and a read error is not modelled.
- Glob expansion (line 133) is foreign code. Each pattern comes with the files it matched and a flag saying whether `glob` reported an error. The model does not restrict which files a failing glob delivers.
- `async.each` (lines 130-159) runs calls concurrently. `ParseGlobs` processes them in one sequential order: pattern after pattern, file after file, so it does not produce orders that interleave patterns. The lemmas about `Aggregate` hold for any sequence of calls, so they cover every completion order. With a different completion order, the first reported error and the last writer change accordingly.
- The callback argument of `parseMustache` (line 102): the model returns the callback's arguments as a `Reply` instead of calling a function.
- The `after` argument may be any JavaScript value. The model covers a string, a function and a falsy value; a truthy non-string value, which `replace` would convert to a string, is not modelled.
- `replace` replacement patterns such as `$&` are not modelled. The only replacements used are `''` and `'_'`, which hold none.
- A name that is a special property of plain objects, such as `__proto__`, is modelled as an ordinary key.
- The gulp tasks, the static server, live reload and the `paths` configuration object (lines 5-93, 162-221). The configured partial patterns of lines 30-31 appear only as examples.
