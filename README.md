# chipper start-up and build glue, modelled in Dafny

This project models two pieces of the PhET `chipper` repository.

- **`js/initialize-globals.js`** runs in every simulation page. It turns
  `location.search` into a query map and installs two functions:
  `phet.chipper.getQueryParameter` and `phet.chipper.getCacheBusterArgs`.
  From the `ea` and `eall` parameters and the production flag it decides
  whether to enable basic and slow assertions. When `postMessageOnError` is
  truthy, it installs an `error` listener that posts an error payload to
  `window.parent`. On a top-level page `window.parent` is the page itself,
  so the page then posts to itself.
- **`js/grunt/beforeRequirejsBuild.js`** runs before the require.js build.
  It chooses the locales to build from the grunt options `--locales` and
  `--localesRepo` and from the string files in a repository's
  `../babel/<repo>` directory. It also installs defaults on the shared
  `global.phet` record.

The modules:

| file | module | contents |
|---|---|---|
| `wrappers.dfy` | `Wrappers` | `Option` and `Result` |
| `js_strings.dfy` | `JsStrings` | the JavaScript string operations the two files use: `indexOf`, `lastIndexOf`, `substring` with its clamping and bound swapping, and `split` on one character; truthiness of an optional string; the decimal digits of a number |
| `uri_component.dfy` | `UriComponent` | `decodeURIComponent` with its UTF-8 decoding and its `URIError` cases (`None`), and an `encodeURIComponent` that serves as its inverse |
| `initialize_globals.dfy` | `InitializeGlobals` | the query-map loop as a method, proved against a left-to-right fold; the lookup; the cache buster; the assertion flags; the error payload; page state as a class |
| `before_requirejs_build.dfy` | `BeforeRequirejsBuild` | the filename regex; the scan of a babel directory; locale extraction; option dispatch; the defaults block as a class |

I/O is an input:

- the filesystem is a map from path to `NotADirectory` or `Directory(entries)`, and a path that does not exist is absent from it;
- `Date.now()` is a `now: nat` parameter;
- the page's production status, `window.parent` and `location.href` are parameters;
- grunt options are an optional string each.

Where the code and its comments disagree, the model follows the code:

- A repeated query key keeps the value of its last occurrence. The comment on `getQueryParameter` (initialize-globals.js:93) speaks of the first occurrence (`InitializeGlobals.RepeatedKeyLastWins`).
- A segment without `=` stores the string `"undefined"`. `nameValuePair[1]` is `undefined`, and `decodeURIComponent` turns its argument into a string first. That string is truthy, so `?eall` enables assertions.
- The failure paths of `getLocalesForRepo` do not return `[fallbackLocale]`:
  - Node's `assert(false, ...)` throws, and so does `assert(stringFiles.length > 0, ...)`.
  - The `catch` block asserts `false` again, so every failure ends in an `AssertionError` whose message is `Failure checking strings repo location: ../babel/<repo>`.
  - The `return locales` statements at beforeRequirejsBuild.js:37 and :53 are never reached.
- `SegmentValue` gives `Some("undefined")` directly for a segment without `=`. It does not decode the text `"undefined"`. `InitializeGlobals.UndefinedDecodesToItself` proves the two are the same.

## Model

| member | source | states |
|---|---|---|
| JsStrings.IndexOf | js/grunt/beforeRequirejsBuild.js:48 | `indexOf` of one character: -1 exactly when the character is absent, otherwise an index holding it with no earlier occurrence |
| JsStrings.LastIndexOf | js/grunt/beforeRequirejsBuild.js:48 | `lastIndexOf` of one character: -1 exactly when it is absent, otherwise an index holding it with no later occurrence |
| JsStrings.IndexOfAfter | js/grunt/beforeRequirejsBuild.js:48 | in `x + [c] + y` with no `c` in `x`, the first `c` is at `\|x\|` |
| JsStrings.LastIndexOfBefore | js/grunt/beforeRequirejsBuild.js:48 | in `x + [c] + y` with no `c` in `y`, the last `c` is at `\|x\|` |
| JsStrings.Clamp | js/grunt/beforeRequirejsBuild.js:48 | a `substring` bound is clamped into `[0, len]`: an in-range bound is kept, a negative one becomes 0 and one past the end becomes `len` |
| JsStrings.Substring | js/grunt/beforeRequirejsBuild.js:48 | `substring` with in-range bounds is the slice between them, in either order, so swapped bounds give the same slice; a negative end (`lastIndexOf` gives -1) takes the text before the start, and a start past the end of the string takes the text from the end bound on |
| JsStrings.SplitKeepsOut | js/initialize-globals.js:85-87 | a character absent from a string is absent from every piece of its split |
| JsStrings.Truthy | js/initialize-globals.js:125-126 | `undefined` and the empty string are the only falsy values a query parameter can take: the string 'false' is truthy |
| JsStrings.Split | js/initialize-globals.js:85 | `split` on one character gives at least one piece |
| JsStrings.SplitPieces | js/initialize-globals.js:85-87 | no piece contains the separator, and joining the pieces with it gives back the string |
| JsStrings.SplitJoin | js/grunt/beforeRequirejsBuild.js:78 | splitting a join of separator-free pieces gives back exactly those pieces, empty and duplicate ones included |
| JsStrings.SplitCount | js/grunt/beforeRequirejsBuild.js:78 | the number of pieces is the number of separators plus one |
| JsStrings.SplitHead | js/initialize-globals.js:87 | the first piece is the whole string or the prefix before the first separator |
| JsStrings.SplitCons | js/initialize-globals.js:87 | a separator-free head followed by the separator splits off as the first piece |
| JsStrings.NatToDecimal | js/initialize-globals.js:110 | `String(Date.now())` is a decimal numeral whose leading digit is 0 only for 0 |
| JsStrings.DecimalRoundTrip | js/initialize-globals.js:110 | reading the numeral back gives the number |
| UriComponent.EscapedByte | js/initialize-globals.js:88 | a `%XX` escape starts with `%`, spans three characters and gives a byte below 256 |
| UriComponent.EscapedBytes | js/initialize-globals.js:88 | a run of `n` escapes takes `3n` characters and gives `n` bytes |
| UriComponent.Utf8Decode | js/initialize-globals.js:88 | a two- to four-byte UTF-8 sequence decodes, when it is valid, to a scalar value of at least U+0080, so surrogates and values past U+10FFFF are never produced |
| UriComponent.Utf8DecodeCanonical | js/initialize-globals.js:88 | an accepted sequence is the UTF-8 encoding of its value, so overlong forms are rejected |
| UriComponent.DecodeUriComponent | js/initialize-globals.js:88 | `decodeURIComponent` never lengthens its input; the round trip, the `%`-free identity, the per-step characterisation of escapes and the malformed-escape throw are proved about it |
| UriComponent.EscapeRunDecodes | js/initialize-globals.js:88 | a step at `%` gives a character exactly when the escapes in front spell its UTF-8 encoding, in either hex case, and consumes exactly them; so escapes spelling no encoding (cut-off, lone continuation byte, lead byte 0xF8 or more, overlong, surrogate) throw |
| UriComponent.EscapedUnitDecodes | js/initialize-globals.js:88 | escapes that spell the UTF-8 encoding of a character decode to it in one step |
| UriComponent.DecodedUnitIsEncoding | js/initialize-globals.js:88 | a successful step at `%` consumed exactly the escapes of the UTF-8 encoding of the character it gives |
| UriComponent.UnitFailureThrows | js/initialize-globals.js:88 | a throwing step makes the whole decoding throw |
| UriComponent.DecodeCons | js/initialize-globals.js:88 | decoding a string is its first decoded character followed by the decoding of the rest |
| UriComponent.DecodePlainPrefix | js/initialize-globals.js:88 | a `%`-free prefix passes through decoding unchanged |
| UriComponent.DecodePlainChar | js/initialize-globals.js:88 | a character other than `%` in front of decodable text passes through decoding |
| UriComponent.MalformedEscapeThrows | js/initialize-globals.js:88 | a `%` not followed by two hexadecimal digits makes decoding throw, whatever `%`-free text precedes it |
| UriComponent.OverlongEscapeThrows | js/initialize-globals.js:88 | `%C0%80`, an overlong form of U+0000, throws |
| UriComponent.SurrogateEscapeThrows | js/initialize-globals.js:88 | `%ED%A0%80`, the encoding of the surrogate U+D800, throws |
| UriComponent.TwoByteEscapeDecodes | js/initialize-globals.js:88 | `%C3%A9` decodes to `é` |
| UriComponent.DecodeUnit | js/initialize-globals.js:88 | one decoding step consumes at least one character and leaves a character other than `%` unchanged |
| UriComponent.DecodeWithoutPercent | js/initialize-globals.js:88 | `decodeURIComponent` of text without `%` gives the text itself |
| UriComponent.EncodeDecodeRoundTrip | js/initialize-globals.js:88 | decoding the percent-encoding of any string gives the string |
| UriComponent.EscapedBytesOfPercentEncode | js/initialize-globals.js:88 | the escapes written for a byte sequence read back as those bytes |
| UriComponent.Utf8RoundTrip | js/initialize-globals.js:88 | decoding the UTF-8 encoding of a scalar value above U+007F gives that value |
| UriComponent.DecodeUnitOfEncodeChar | js/initialize-globals.js:88 | one decoding step over an encoded character gives the character and consumes exactly its encoding |
| InitializeGlobals.Segments | js/initialize-globals.js:84-85 | an empty `location.search` has no segments, a non-empty one at least one; SearchSegments gives them exactly |
| InitializeGlobals.SegmentKey | js/initialize-globals.js:87-88 | the key has no `=` and is the segment or its prefix before the first `=` |
| InitializeGlobals.SegmentValue | js/initialize-globals.js:87-88 | a segment without `=` stores the string "undefined"; SegmentKeyValue and SegmentValueBetweenEquals give the other cases |
| InitializeGlobals.SegmentWithoutPercent | js/initialize-globals.js:87-88 | a segment without `%` never throws |
| InitializeGlobals.AddSegments | js/initialize-globals.js:84-89 | the fold the loop computes only adds keys; AddSegmentsContents gives its full result |
| InitializeGlobals.AddSegmentsWithoutPercent | js/initialize-globals.js:84-89 | the fold cannot throw when no segment holds `%` |
| InitializeGlobals.ParseQuery | js/initialize-globals.js:82-89 | an empty search gives the empty map; AddSegmentsContents and ParseQueryContents give the other cases |
| InitializeGlobals.UndefinedDecodesToItself | js/initialize-globals.js:88 | `decodeURIComponent("undefined")` is `"undefined"` |
| InitializeGlobals.ParseQueryString | js/initialize-globals.js:82-90 | the loop over the `&` segments, splitting each on `=` and decoding, computes the left-to-right fold `ParseQuery`, or none when a decode throws |
| InitializeGlobals.AddSegmentsAt | js/initialize-globals.js:86-89 | one loop step fails when the segment fails to decode, and otherwise stores the segment before the rest |
| InitializeGlobals.AddSegmentsContents | js/initialize-globals.js:84-89 | the fold succeeds iff every value decodes; its keys are the old keys plus one per segment; each key holds the value of its last segment; other keys are unchanged |
| InitializeGlobals.ParseQueryContents | js/initialize-globals.js:84-89 | the parse succeeds iff every value decodes; its keys are exactly the segment keys, each with the value of its last segment |
| InitializeGlobals.ParseWithoutPercent | js/initialize-globals.js:84-89 | a search without `%` never throws |
| InitializeGlobals.SegmentsWithoutPercent | js/initialize-globals.js:85 | a search without `%` has no `%` in any segment |
| InitializeGlobals.GetQueryParameter | js/initialize-globals.js:98-100 | the lookup is defined iff the key was stored, and then it is the stored value |
| InitializeGlobals.QueryParameterOfParse | js/initialize-globals.js:86-100 | after a parse, the lookup of a key is undefined iff no segment has it, and otherwise is the value of the last segment that has it |
| InitializeGlobals.SegmentWithoutEquals | js/initialize-globals.js:87-88 | a segment without `=` is stored under its whole text with the string "undefined" |
| InitializeGlobals.SegmentValueBetweenEquals | js/initialize-globals.js:87-88 | in `key=value=rest` the stored value is the decoding of `value`, and `rest` is dropped |
| InitializeGlobals.SegmentKeyValue | js/initialize-globals.js:87-88 | `key=value` stores the decoding of `value` under `key` |
| InitializeGlobals.PlainSegment | js/initialize-globals.js:87-88 | `key=value` without escapes stores `value` itself |
| InitializeGlobals.SearchSegments | js/initialize-globals.js:85 | `?` followed by `&`-joined segments has exactly those segments |
| InitializeGlobals.AddSegmentsStep | js/initialize-globals.js:86-89 | storing a decodable first segment, then the rest, is the whole fold |
| InitializeGlobals.ThrowingSegmentSearch | js/initialize-globals.js:84-89 | a one-segment search whose value throws on decoding gives no map |
| InitializeGlobals.MalformedEscapeSearchThrows | js/initialize-globals.js:84-89 | `?key=%` throws while the map is filled |
| InitializeGlobals.LoneEscapeThrows | js/initialize-globals.js:84-89 | `?k=%` throws while the map is filled |
| InitializeGlobals.OneSegmentSearch | js/initialize-globals.js:84-89 | a one-segment search gives the one-entry map |
| InitializeGlobals.TwoSegmentSearch | js/initialize-globals.js:84-89 | a two-segment search stores both in order, so the second wins on a shared key |
| InitializeGlobals.EallSearchParses | js/initialize-globals.js:84-89 | `?eall` gives `{eall: "undefined"}` |
| InitializeGlobals.EaSearchParses | js/initialize-globals.js:84-89 | `?ea` gives `{ea: "undefined"}` |
| InitializeGlobals.EmptyEaSearchParses | js/initialize-globals.js:84-89 | `?ea=` gives `{ea: ""}` |
| InitializeGlobals.DecodeSpaceEscape | js/initialize-globals.js:88 | `%20` decodes to a space, as `bar%20baz` decodes to `bar baz` |
| InitializeGlobals.FlagAndPairSearch | js/initialize-globals.js:84-89 | `?flag&key=raw` stores "undefined" for the flag and the decoding of `raw` for the key |
| InitializeGlobals.RepeatedKeyLastWins | js/initialize-globals.js:86-93 | `?key=v1&key=v2` gives `{key: v2}`: the last occurrence wins |
| InitializeGlobals.CacheBusterArgs | js/initialize-globals.js:109-111 | `''` exactly when the `cacheBuster` value is the string 'false' (or for the build's stand-in); otherwise `bust=` followed by a numeral whose value is the time and which has no leading zero |
| InitializeGlobals.CacheBusterOfSearch | js/initialize-globals.js:109-111 | after a parse the cache buster is off iff the last `cacheBuster` segment stores 'false' |
| InitializeGlobals.CacheBusterSwitch | js/initialize-globals.js:110 | `{cacheBuster: 'false'}` gives `''`; `{cacheBuster: "undefined"}` gives `bust=<now>` |
| InitializeGlobals.AssertionFlagsFor | js/initialize-globals.js:123-126 | all assertions imply basic ones; production turns both off; each flag is characterised both ways by the truthiness of `eall` and `ea` |
| InitializeGlobals.EaAloneEnablesBasicOnly | js/initialize-globals.js:125-126 | a truthy `ea` without a truthy `eall` enables basic assertions only |
| InitializeGlobals.AssertionFlagsOfSearches | js/initialize-globals.js:125-126 | the maps of `?eall`, `?ea` and `?ea=` enable both levels, only basic, and neither |
| InitializeGlobals.ErrorPayloadFor | js/initialize-globals.js:138-151 | `type` is 'error' and `url` is the page address; `message` and `stack` are non-empty iff the event has non-empty ones, and then equal them, else `''` |
| InitializeGlobals.Window.constructor | js/initialize-globals.js:78-79 | a fresh page has nothing installed and no assertion level enabled |
| InitializeGlobals.Window.Initialize | js/initialize-globals.js:82-153 | on a decode failure nothing changes; otherwise the parsed map and the cache buster over it are installed, the assertion levels are enabled as the flags say, and the listener is installed iff `postMessageOnError` is truthy |
| InitializeGlobals.Window.PostedOnError | js/initialize-globals.js:136-152 | a payload is posted iff the listener is installed and `window.parent` is non-null (a top-level page is its own parent), and it is the event's payload |
| BeforeRequirejsBuild.StringsDirectory | js/grunt/beforeRequirejsBuild.js:29 | the scanned directory starts with `../babel/`, followed by the repository name |
| BeforeRequirejsBuild.FailureMessage | js/grunt/beforeRequirejsBuild.js:52 | the failure message is the fixed prefix followed by the directory |
| BeforeRequirejsBuild.Find | js/grunt/beforeRequirejsBuild.js:42 | a substring search returns -1 or an index at or after the start where the pattern occurs |
| BeforeRequirejsBuild.FindEarliest | js/grunt/beforeRequirejsBuild.js:42 | the search answers -1 exactly when there is no occurrence, and otherwise gives the earliest one |
| BeforeRequirejsBuild.RegexMatches | js/grunt/beforeRequirejsBuild.js:42 | the meaning of `/^.*-strings.*\.json/`: `-strings`, then `.json` starting no earlier than where `-strings` ends, with no line terminator before the `.json`; a matching name is long enough to hold both |
| BeforeRequirejsBuild.IsStringFileName | js/grunt/beforeRequirejsBuild.js:42 | the executable regex test; a name it accepts has room for `-strings` and `.json`, and StringFileNameIsRegex gives it its full meaning |
| BeforeRequirejsBuild.FirstLineBreak | js/grunt/beforeRequirejsBuild.js:42 | the first line terminator lies within the name, or the whole name has none |
| BeforeRequirejsBuild.FirstLineBreakIsFirst | js/grunt/beforeRequirejsBuild.js:42 | no line terminator comes before that index, and one stands at it |
| BeforeRequirejsBuild.LineBreakAfter | js/grunt/beforeRequirejsBuild.js:42 | a pattern free of line terminators that occurs within the first line ends inside it |
| BeforeRequirejsBuild.RegexImpliesTest | js/grunt/beforeRequirejsBuild.js:42 | every name the regex matches passes the executable test |
| BeforeRequirejsBuild.TestImpliesRegex | js/grunt/beforeRequirejsBuild.js:42 | every name that passes the executable test matches the regex |
| BeforeRequirejsBuild.StringFileNameIsRegex | js/grunt/beforeRequirejsBuild.js:42 | the test accepts a name iff `/^.*-strings.*\.json/` matches it: `-strings` then, eight or more characters on, `.json`, with no line terminator before the `.json` |
| BeforeRequirejsBuild.StringFileNameUnanchored | js/grunt/beforeRequirejsBuild.js:42 | the end is not anchored, so anything may follow a match, as in `x-strings.json.bak` |
| BeforeRequirejsBuild.StringFileNameOfParts | js/grunt/beforeRequirejsBuild.js:42 | `prefix-strings middle .json suffix` on one line matches |
| BeforeRequirejsBuild.NoStringsNoMatch | js/grunt/beforeRequirejsBuild.js:42 | a name without `-strings` is rejected |
| BeforeRequirejsBuild.StringFiles | js/grunt/beforeRequirejsBuild.js:41-43 | the filter keeps no more names than it is given |
| BeforeRequirejsBuild.StringFilesMembers | js/grunt/beforeRequirejsBuild.js:41-43 | the kept names are listed names that match, and every matching listed name is kept |
| BeforeRequirejsBuild.StringFilesAppend | js/grunt/beforeRequirejsBuild.js:41-43 | the filter keeps listing order: filtering a concatenation concatenates the results |
| BeforeRequirejsBuild.ExtractLocale | js/grunt/beforeRequirejsBuild.js:48 | the extracted locale is no longer than the file name |
| BeforeRequirejsBuild.ExtractLocaleAt | js/grunt/beforeRequirejsBuild.js:48 | the locale is the text between the first `_` and the last `.`, or from the `.` to just past the `_` when the `_` comes later, or from the start when there is no `.` |
| BeforeRequirejsBuild.LocaleOfWellFormedName | js/grunt/beforeRequirejsBuild.js:26-48 | `prefix_locale.ext` with no `_` in the prefix and no `.` in the extension gives `locale` |
| BeforeRequirejsBuild.LocaleWithoutUnderscore | js/grunt/beforeRequirejsBuild.js:48 | without `_` the locale starts at index 0: `name.ext` gives `name` |
| BeforeRequirejsBuild.LocaleWithSwappedBounds | js/grunt/beforeRequirejsBuild.js:48 | when the first `_` follows the last `.`, `substring` swaps the bounds: `a.b_c` gives `.b_` |
| BeforeRequirejsBuild.Locales | js/grunt/beforeRequirejsBuild.js:47-49 | one locale per string file |
| BeforeRequirejsBuild.LocalesAt | js/grunt/beforeRequirejsBuild.js:47-49 | the `k`-th locale is extracted from the `k`-th string file |
| BeforeRequirejsBuild.LocalesAppend | js/grunt/beforeRequirejsBuild.js:47-49 | extraction keeps order over concatenation |
| BeforeRequirejsBuild.LocalesForRepo | js/grunt/beforeRequirejsBuild.js:28-55 | succeeds iff the directory exists, is a directory and holds at least one string file; every failure is the same `AssertionError`; on success, the fallback followed by the files' locales |
| BeforeRequirejsBuild.LocalesForRepoContents | js/grunt/beforeRequirejsBuild.js:30-49 | on success: length is 1 plus the number of matches; the fallback comes first; entry `k+1` is the locale of the `k`-th match in listing order; the matches are exactly the matching entries |
| BeforeRequirejsBuild.WellFormedStringFile | js/grunt/beforeRequirejsBuild.js:26-42 | `sim-strings_locale.json` on one line is a string file |
| BeforeRequirejsBuild.WellFormedLocale | js/grunt/beforeRequirejsBuild.js:26-48 | the locale of `sim-strings_locale.json` is `locale` when the sim name has no `_` |
| BeforeRequirejsBuild.OneFileDirectory | js/grunt/beforeRequirejsBuild.js:41-49 | a directory holding one string file gives the fallback and that file's locale |
| BeforeRequirejsBuild.WellFormedDirectory | js/grunt/beforeRequirejsBuild.js:26-49 | a directory holding `sim-strings_locale.json` gives `[fallback, locale]` |
| BeforeRequirejsBuild.LocalesToBuild | js/grunt/beforeRequirejsBuild.js:68-87 | a success is a non-empty list; a failure carries the directory-check message |
| BeforeRequirejsBuild.ExplicitLocalesVerbatim | js/grunt/beforeRequirejsBuild.js:77-78 | a list other than `*` is its comma split: it joins back to the option, has one more piece than commas, and no piece holds a comma, so nothing is added or removed |
| BeforeRequirejsBuild.ExplicitLocalesList | js/grunt/beforeRequirejsBuild.js:77-78 | a comma-joined list of comma-free locales is built as exactly that list |
| BeforeRequirejsBuild.ThreeLocalesExample | js/grunt/beforeRequirejsBuild.js:63-78 | `--locales=ar,fr,es` builds `[ar, fr, es]` |
| BeforeRequirejsBuild.StarScansPackage | js/grunt/beforeRequirejsBuild.js:74-75 | `--locales=*` scans the package's own repository |
| BeforeRequirejsBuild.LocalesRepoScans | js/grunt/beforeRequirejsBuild.js:81-82 | `--localesRepo` without a truthy `--locales` scans that repository |
| BeforeRequirejsBuild.NoOptionsBuildsFallback | js/grunt/beforeRequirejsBuild.js:84-85 | with neither option truthy the result is exactly `[fallback]` |
| BeforeRequirejsBuild.LocalesTakesPrecedence | js/grunt/beforeRequirejsBuild.js:70-80 | a truthy `--locales` makes `--localesRepo` irrelevant |
| BeforeRequirejsBuild.FailureNeedsScan | js/grunt/beforeRequirejsBuild.js:68-87 | only `*` or a `--localesRepo` scan can fail |
| BeforeRequirejsBuild.TargetLocale | js/grunt/beforeRequirejsBuild.js:99 | the `--locale` option when truthy, the fallback otherwise |
| BeforeRequirejsBuild.DefaultCacheBuster | js/grunt/beforeRequirejsBuild.js:96 | an installed `getCacheBusterArgs` is kept; otherwise the stand-in always answers `''` |
| BeforeRequirejsBuild.DefaultCacheBusterIdempotent | js/grunt/beforeRequirejsBuild.js:96 | installing the default twice is installing it once |
| BeforeRequirejsBuild.BuildGlobals.constructor | js/grunt/beforeRequirejsBuild.js:92 | before the step runs, none of the four values it writes is set: `global.phet.chipper.getCacheBusterArgs`, the grunt config entry `requirejs.build.options.phetLocale`, `global.phet.localesToBuild` and `global.phet.mipmapsToBuild` |
| BeforeRequirejsBuild.BuildGlobals.BeforeBuild | js/grunt/beforeRequirejsBuild.js:92-110 | installs the cache buster default and the target locale, then either throws the scan's error and leaves the locales and mipmaps unchanged, or sets the chosen locales and an empty mipmap list |
| BeforeRequirejsBuild.RerunKeepsCacheBuster | js/grunt/beforeRequirejsBuild.js:96 | running the step twice leaves the cache buster a single run installs |

## Left out

- Filesystem calls, the clock, the `meta[name=phet-sim-level]` jQuery lookup, `window.parent`, `location.href`: inputs to the model rather than calls.
- `window.arch = window.arch || null`: plain global patching with no behaviour.
- `window.phet = window.phet || {}` and `window.phet.chipper = ... || {}`: the model starts from an empty page and does not model objects that already exist.
- The `typeof window !== 'undefined'` test: the script always runs in a browser.
- Property lookup on a plain object: `queryParamsMap[key]` also finds inherited properties such as `constructor`. The model's map holds only the parsed keys. Conversely, `queryParamsMap['__proto__'] = v` goes through the `__proto__` setter and stores nothing, so for `?__proto__=x` the script's lookup gives `Object.prototype` where the model's map holds `"x"`.
- Delivery of the error payload by `postMessage`, and its `JSON.stringify` serialisation: only the payload record is modelled.
- Extra listener arguments, and a page that installs more than one listener: not modelled.
- `grunt.log.debug` output and `grunt.config.set`: logging is dropped, and the config entry is the `phetLocale` field.
- `global.phet.strings`: this step does not write it.
- Grunt option values that are not strings: a bare `--locales` gives `true`, and then `split` throws a `TypeError`.
- Strings with lone surrogates: Dafny strings hold Unicode scalar values only.
- `decodeURIComponent` errors are `none` rather than a `URIError` object, and the page script is then treated as having thrown before installing anything.
- JsStrings.NatToDecimal: writes any natural number in plain decimal, whereas JavaScript switches to exponent notation from 1e21 on; `Date.now()` never reaches that.
- UriComponent.EncodeUriComponent models only the encoder needed as the decoder's inverse. It escapes every character outside the unreserved set and is not proved equal to the JavaScript function.
