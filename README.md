# SystemJS module-name resolution, modelled in Dafny

This project models the synchronous name-resolution core of SystemJS
(`src/resolve.js`). That core turns a module name, given relative to a parent
module, into a normalized URL. It does so in these steps:

- `paths` aliasing, with a one-time normalisation of the rules;
- the global `map`;
- the registry and `@node/` bypass;
- package ownership: the most specific configured package, or a match of a
  `packageConfigPaths` pattern;
- package configuration: `main`, the package `map` with and without the
  default extension, and the default extension with its meta opt-out;
- the plugin syntax `argument!plugin` and `plugin!argument`;
- the string side of conditional names (`#?` and `#{…}`).

## Modules

| file | module | contents |
|---|---|---|
| `js_string.dfy` | `JsString` | JavaScript `substr`, `indexOf`, `lastIndexOf`, truthiness and `||` on strings, including their behaviour at negative and out-of-range positions |
| `dicts.dfy` | `Dicts` | plain objects as ordered entry lists (`for-in` order) |
| `config.dfy` | `Configuration` | the package record, the classes `Config` and `Metadata`, and `Host` (see below) |
| `paths.dfy` | `Paths` | `applyPaths`, `normalizePaths` |
| `core_resolve.dfy` | `CoreResolution` | `coreResolve` |
| `package_match.dfy` | `PackageMatch` | `getPackage` |
| `config_paths.dfy` | `ConfigPaths` | `createPkgConfigPathObj`, `getPackageConfigMatch` |
| `extensions.dfy` | `Extensions` | `getMetaMatches`, `addDefaultExtension` |
| `package_resolve.dfy` | `PackageResolution` | `validMapping`, `doMapSync`, `applyPackageConfigSync`, `packageResolveSync` |
| `normalize.dfy` | `Normalization` | `getParentMetadata`, `normalizeSync` |
| `plugins.dfy` | `Plugins` | `parsePlugin`, `combinePluginParts` |
| `conditions.dfy` | `Conditions` | `parseCondition`, `serializeCondition`, the value checks of `resolveCondition`, `booleanConditional`, `interpolateConditional` |
| `findings.dfy` | `Findings` | the loader that `doMapSync` passes on |
| `errors.dfy` | `Errors` | the errors the pipeline throws |
| `wrappers.dfy` | `Wrappers` | `Option` |

### Conventions

- **Mutable state.** The loader configuration is a class, `Config`. Its
  methods change `paths`, `pathsLocked`, `packages` and `packageConfigKeys`
  in place. The per-call metadata is a class too, `Metadata`, because
  `doMapSync` shares one metadata object between the caller and the nested
  resolution.
- **Loops.** The source's loops are methods, each proved equal to a recurrence
  function: `applyPaths`, `getPackage`, `getPackageConfigMatch`, the
  `getMetaMatches` callback scan and `normalizePaths`. Lemmas state what each
  of those functions means.
- **Host.** Everything the core calls but does not define is a field of the
  datatype `Host`: `resolveUrlToParentIfNotPlain`, `getMapMatch`,
  `registry.has`, the document `baseURI`, and the package `createPackage()`
  returns. `Host.Valid` states one assumption about them: a name starting
  with `./` always resolves. `normalizePaths` relies on it. A second assumption
  is built into the lookups: `getMapMatch` finds nothing in an empty map (see
  "Left out").
- **Undefined values.** An `undefined` string is `None`. A falsy package
  `main` or `defaultExtension` is `""`, and an absent package `map` or `meta`
  is the empty dictionary. In the `module|export` form without `~`,
  `parseCondition` leaves `negate` undefined (src/resolve.js:788-795); the
  model uses `false`, so its condition round trips hold up to a falsy
  `negate`, which is all `serializeCondition` and `resolveCondition` test.
- **Conditions.** A condition's value is an input, a function from the parsed
  condition to a JavaScript value, because loading the condition module is
  asynchronous.
- **Call depth.** The recursion between `packageResolveSync` and `doMapSync`
  is bounded by a `fuel` count. When the fuel runs out, the model reports
  `CallStackExceeded`, the call-stack overflow a cyclic package map causes in
  JavaScript.
- **Metadata field names.** `src/systemjs-loader.js:88-98` creates the
  metadata record with the fields `pluginKey` and `packageKey`, but
  `src/resolve.js` reads and writes `pluginName` and `packageName`. The model
  uses the names `src/resolve.js` uses. Both start out `undefined`.
- **Where the code and its documented behaviour differ.**
  - `getPackageConfigMatch`: the comments at src/resolve.js:451 and
    src/resolve.js:671 say only that the most specific match wins. In the code
    (src/resolve.js:681), an exact match blocks the wildcard matches that come
    after it, once it has been chosen, but not a wildcard match chosen before
    it. So which package wins can depend on the order of the patterns. The
    model follows the code; `ConfigPaths.ExactMatchDependsOnOrder` shows both
    orders.
  - `applyPaths` (src/resolve.js:26-28): the `wildcard` variable is never
    assigned, so the `*` substitution is dead code.

## Model

| member | source | states |
|---|---|---|
| Configuration.Config.constructor | src/systemjs-loader.js:21-48 | a new loader has unlocked, empty `paths`, empty `map`, `packages`, `meta`, `packageConfigPaths` and `packageConfigKeys`, and `pluginFirst` off |
| Configuration.Metadata.constructor | src/systemjs-loader.js:88-98 | fresh metadata has no plugin and no package |
| Configuration.Config.NotePackageConfigKey | src/resolve.js:701-702 | a config document path is recorded once: appended when absent, the list unchanged otherwise |
| Paths.ApplyPaths | src/resolve.js:7-31 | the `for-in` scan returns the rewrite of the first matching rule, else the value of the empty key |
| Paths.FirstMatchingRuleDecides | src/resolve.js:12-23 | the first rule that matches decides the result; an exact key yields its value verbatim |
| Paths.NoMatchingRule | src/resolve.js:26-30 | with no matching rule the result is `paths['']`, undefined when absent |
| Paths.DirectoryRuleMatches | src/resolve.js:21-22 | a directory-like rule matches exactly the names starting with its key and the key without its last character |
| Paths.FileRuleMatchesExactly | src/resolve.js:17-22 | a rule whose value is not directory-like matches only its own key |
| Paths.DirectoryRuleRewrite | src/resolve.js:21-23 | a `dir/ -> target/` rule replaces the key by the value and keeps the rest of the name |
| Paths.DirectoryRuleBareName | src/resolve.js:21-23 | the key without its `/` maps to the value without its `/` |
| Paths.EmptyKeyPrefixesEveryName | src/resolve.js:21-23 | an empty key with a directory value prefixes every name |
| Paths.NormalizedPaths | src/resolve.js:117-128 | normalisation keeps the keys and their order |
| Paths.NormalizePaths | src/resolve.js:117-128 | every value is replaced in place by its resolved form (document base, else `./value` against `baseURL`), then the paths are locked |
| CoreResolution.CoreResolve | src/resolve.js:130-160 | locks the paths on first use (normalising them exactly once) and returns the decision procedure's result on the locked paths |
| CoreResolution.RelativeNamesIgnoreGlobalMap | src/resolve.js:133-137 | a name that resolves as a URL is unaffected by the global map, and is either its resolved URL or that URL's `paths` rewrite |
| CoreResolution.UnmappedPlainName | src/resolve.js:152-159 | an unmapped plain name is returned as is when registered or `@node/`, otherwise it gets the `paths` rewrite or `baseURL` in front |
| PackageMatch.OwnsMeans | src/resolve.js:462 | a key owns a name when the name starts with it and ends or continues with `/` there |
| PackageMatch.GetPackage | src/resolve.js:458-471 | the loop with running best and strict `>` computes the owning package |
| PackageMatch.NoOwnerIffNoOwningKey | src/resolve.js:458-471 | there is no owner exactly when no key owns the name |
| PackageMatch.OwnerHasMostSegments | src/resolve.js:463-467 | no owning key has more `/` segments than the result |
| PackageMatch.OwnerIsFirstMostSpecific | src/resolve.js:461-467 | the result is an owning key, and every owning key before it has strictly fewer segments |
| PackageMatch.NestedOwners | src/resolve.js:462-463 | of two owners of one name the shorter prefixes the longer and has fewer segments |
| PackageMatch.OwnerIsLongestPrefix | src/resolve.js:458-471 | whenever some key owns the name there is a result, and it is at least as long as every owning key |
| ConfigPaths.CreatePkgConfigPathObj | src/resolve.js:661-669 | the compiled length is the least one that covers every `*` and leaves no `/` after it; the prefix is the pattern up to it; wildcard exactly when the pattern has a `*` |
| ConfigPaths.PatternMatchSeparators | src/resolve.js:666 | a regular-expression match has the pattern's `/` count and is at least as long as the pattern |
| ConfigPaths.LiteralPatternMatch | src/resolve.js:666 | a pattern without `*` matches only its own text |
| ConfigPaths.MatchFrom | src/resolve.js:666 | the match found is a prefix ending on a `/` or the end of the name that the pattern matches, and no such prefix ends earlier; with none found, no such prefix exists |
| ConfigPaths.MatchIsUnique | src/resolve.js:666 | at most one boundary-ending prefix of a name matches a pattern |
| ConfigPaths.RegexMatchMeans | src/resolve.js:666-680 | the group is exactly the boundary-ending prefix that matches the pattern |
| ConfigPaths.LengthGuardIsShortcut | src/resolve.js:678-679 | the `normalized.length < p.length` guard never hides a match |
| ConfigPaths.GetPackageConfigMatch | src/resolve.js:672-694 | the loop computes the scan's package name and config path, or nothing when the name is falsy |
| ConfigPaths.ScanDominates | src/resolve.js:681-685 | no matching pattern is longer than the kept match, unless it is a wildcard reached while an exact match was held |
| ConfigPaths.PackageConfigMatchIsMostSpecific | src/resolve.js:672-694 | none exactly when no pattern matches; otherwise the result is some pattern's match with `configPath` = match + pattern past its length; no match is longer, and no earlier match as long, unless that pattern is a wildcard reached while an exact match was held; and once an exact match has been kept at any point of the scan, the chosen match is exact and at least as long |
| ConfigPaths.MostSpecificDetermines | src/resolve.js:672-694 | these conditions single out the result: any match they accept, at any pattern, is the one returned |
| ConfigPaths.ExactNeverDisplaced | src/resolve.js:681-685 | once the scan keeps an exact match, every later step keeps an exact match at least as long |
| ConfigPaths.ExactPatternMatch | src/resolve.js:681-684 | for an exact pattern the package is the pattern up to its last `/` and the config path is the pattern itself |
| ConfigPaths.ExactMatchDependsOnOrder | src/resolve.js:681 | an exact pattern blocks a deeper wildcard only when it was the chosen match: the same patterns in two orders give different packages |
| ConfigPaths.DeeperWildcardFirst | src/resolve.js:681-685 | a deeper wildcard scanned before an exact pattern keeps its match, and the exact pattern's shorter match is refused as an answer |
| ConfigPaths.WildcardFirstKeepsDeeperMatch | src/resolve.js:681-685 | on `x/y`, the patterns `x/*/c` then `x/c` give `x/y` with `x/y/c`, and `x` with `x/c` is refused |
| ConfigPaths.ExactBlocksOnlyWhenChosen | src/resolve.js:681-685 | for a wildcard, an exact pattern and a deeper wildcard matching one name, the exact pattern is kept over the deeper wildcard only when it was scanned before any other match |
| Extensions.WildcardEntryMeans | src/resolve.js:717-732 | a meta key matches exactly when the path starts with the text before its first `*` and ends with the text after it; the reported pattern has `./` removed |
| Extensions.WildcardStep | src/resolve.js:719-735 | the scan reports the matches of the earlier keys, then this key's |
| Extensions.WildcardMatchesReported | src/resolve.js:730-734 | every reported wildcard match is a key's pattern reported with its `/` segment count |
| Extensions.ExactMatchReported | src/resolve.js:736-738 | the exact match is reported exactly when `subPath` or `./subPath` is a key, with depth 0 |
| Extensions.MetaOptsOut | src/resolve.js:478-495 | the callback scan returns true exactly when some reported match is exact or has text after its last `*` |
| Extensions.OptOutAt | src/resolve.js:482-484 | a reported wildcard pattern with text after its last `*` opts the path out |
| Extensions.ExactDecides | src/resolve.js:735-737 | when no wildcard match opts out, the path opts out exactly when it has an exact meta entry |
| Extensions.WildcardPrefix | src/resolve.js:719 | the matches of earlier keys are reported first |
| Extensions.AddDefaultExtension | src/resolve.js:473-503 | the method computes the default-extension result, consulting package meta on the path and then global meta on `pkgName/path` |
| Extensions.DefaultExtendedResult | src/resolve.js:473-503 | the result is the path or the path with `.ext`; the extension is appended exactly when the path qualifies and lacks it, and a qualifying path always ends with it |
| Extensions.DefaultExtendedIdempotent | src/resolve.js:498-502 | adding the default extension twice equals adding it once |
| PackageResolution.ValidMappingMeans | src/resolve.js:540-547 | a mapping is refused exactly when its target starts with the key and the path is longer than the key; so `./x -> ./x/y` applies to `./x` only |
| PackageResolution.StripDotSlashMeans | src/resolve.js:509 | a `main` starting with `./` loses exactly that prefix; any other `main` is kept |
| PackageResolution.MapLookup | src/resolve.js:518-528 | a hit is a `getMapMatch` answer for `./path` or `./path` with the extension, and a hit on `./path` is taken first |
| PackageResolution.FindMapHit | src/resolve.js:518-528 | the lookup tries `./path`, then the extended path only when it differs |
| PackageResolution.ConsistentGrows | src/resolve.js:212 | adding packages never invalidates the package configuration metadata recorded |
| PackageResolution.ParentMapMatch | src/resolve.js:190-195 | the parent map is followed only for names not starting with `.`, and only to a string target |
| PackageResolution.OwnerOf | src/resolve.js:201-202 | with no config-path patterns the owner is `getPackage`'s |
| PackageResolution.DoMapSync | src/resolve.js:549-561 | a missing target throws, a conditional target throws the synchronous-conditional error, a refused mapping gives nothing; unless the mapping is followed nothing changes, and a followed mapping with no fuel left is the call-stack error; the configuration only evolves (paths locked once, packages appended fresh) |
| PackageResolution.ApplyPackageConfigSync | src/resolve.js:505-538 | no path and no `main` gives the package name; with no map hit, or a refused mapping, the result is `pkgName/` + the extended path; a conditional hit throws, and so does a hit on a key without an entry; the packages change only when a mapping is followed |
| PackageResolution.PackageResolveSync | src/resolve.js:188-219 | without a parent map hit, or when `validMapping` refuses its target: the paths are locked; an unowned name is returned resolved with no package recorded; a config document key is returned with no package; otherwise the owner has an entry (the existing one or a fresh one) and the result is `applyPackageConfigSync`'s outcome on the rest of the name after `owner/` |
| PackageResolution.ResolveInPackage | src/resolve.js:201-218 | the owner is the config-path match, else `getPackage`'s; the metadata records it or clears it for config documents; the packages change only for an owned name, whose entry is registered and whose outcome is `applyPackageConfigSync`'s on the rest of the name |
| PackageResolution.FindOwner | src/resolve.js:203-204 | the owner is the config-path match when there is one, else `getPackage`'s |
| PackageResolution.ResolveInOwner | src/resolve.js:214-218 | the owner's configuration is registered (fresh when new), recorded in the metadata and applied, with the `applyPackageConfigSync` outcome (package name, extended fallback, conditional error); packages only grow and the paths settle |
| PackageResolution.PackageEntry | src/resolve.js:212 | the owner's registered configuration, or a fresh one appended under its name |
| Normalization.ParentPluginMeans | src/resolve.js:36-47 | a parent plugin is found exactly when the parent name has a `!`; it is the `parsePlugin` plugin in the `plugin!argument` form and the text after the first `!` otherwise |
| Normalization.OwnerIsRegistered | src/resolve.js:50-52 | the package `getPackage` reports for the parent is a registered one |
| Normalization.GetParentMetadata | src/resolve.js:33-57 | fresh metadata with the parent's plugin as name and argument, the parent's owning package and its configuration |
| Normalization.NormalizeSync | src/resolve.js:97-115 | a plugin name normalizes to a plugin name; with no packages and no `!` the result is `coreResolve` against the parent's plugin or the parent; the configuration only evolves |
| Normalization.ResolvePluginArgument | src/resolve.js:109-112 | the plugin is recorded in the metadata; a result is some resolved argument combined with the plugin; when the parent map is not followed, the result is the package pipeline's outcome for the argument (extensions skipped for a non-empty plugin), combined with the plugin, or its error; packages only grow and the paths settle |
| Plugins.ParsePlugin | src/resolve.js:336-358 | nothing exactly when there is no `!`; both parts are shorter than the name |
| Plugins.PluginFirstParts | src/resolve.js:345-347 | with `pluginFirst` the plugin is the text before the last `!` and the argument the text after |
| Plugins.ArgumentFirstParts | src/resolve.js:349-351 | otherwise the argument is the text before the last `!` and the plugin the text after it when non-empty |
| Plugins.DefaultPluginIsExtension | src/resolve.js:351 | an empty plugin part defaults to the argument's text after its last `.` |
| Plugins.Rejoin | src/resolve.js:361-366 | joining the two sides of a `!` gives the name back |
| Plugins.CombineParsed | src/resolve.js:336-366 | `combinePluginParts(parsePlugin(name))` is `name` whenever the plugin part was written out |
| Plugins.ParseCombined | src/resolve.js:336-366 | parsing combined parts returns them when the part after the `!` has no `!` and the plugin is non-empty |
| Conditions.ParseExport | src/resolve.js:788-796 | a `module|export` condition is well formed |
| Conditions.ParseBare | src/resolve.js:797-805 | a condition without `|` is well formed |
| Conditions.ParseCondition | src/resolve.js:783-812 | every parsed condition is well formed: a non-empty module, no `|` in the export, a leading `~` only when negated |
| Conditions.ParseAtLastBar | src/resolve.js:787-790 | with a `|`, the module is the text before the last `|` and the export the text after |
| Conditions.ParseSerialize | src/resolve.js:783-816 | parsing a serialized well-formed condition gives it back |
| Conditions.SerializeExport | src/resolve.js:814-816 | serializing a `module|export` parse gives the text back |
| Conditions.SerializeParse | src/resolve.js:783-816 | a `module|export` text with a non-empty module survives parse then serialize |
| Conditions.ConditionValue | src/resolve.js:818-828 | a boolean read fails exactly on a non-boolean; negation flips the truth value, otherwise the value is passed through |
| Conditions.BooleanConditionalOutcome | src/resolve.js:860-881 | no `#?` leaves the name; otherwise the condition after the last `#?` decides: a non-boolean is an error, true strips from `#?`, false gives `@empty` |
| Conditions.InterpolationFromMeans | src/resolve.js:830-833 | the leftmost `#{…}` with a non-empty body is found, ending at its first `}` |
| Conditions.ExpandLiteral | src/resolve.js:856 | a replacement without `$` is inserted literally |
| Conditions.InterpolateConditional | src/resolve.js:831-836 | a name with no interpolation is returned unchanged |
| Conditions.LeftmostInterpolation | src/resolve.js:830-833 | the match is the first interpolation and ends at its first `}` |
| Conditions.InterpolateOutcome | src/resolve.js:848-857 | a negated or non-string value is an error, a value with `/` is the separator error naming the parent, and a plain value replaces the first `#{…}` |
| Findings.ExtendedWithLoader | src/resolve.js:473-503 | with a loader, the step is `addDefaultExtension` |
| Findings.UnboundLoaderThrows | src/resolve.js:549-561 | as written, a path that should take the default extension throws once reached through `doMapSync` |
| Findings.BoundLoaderExtends | src/resolve.js:537 | with the loader passed on, the same path becomes `b.js`, and the step never fails |

## Findings

| source | as written | input that shows it | evidently intended | confidence | as-written member | corrected member |
|---|---|---|---|---|---|---|
| src/resolve.js:560 | `doMapSync` calls `packageResolveSync.call(this, …)` from a plain function call in an ES module, so the receiver is `undefined`. The nested `applyPackageConfigSync` then gets `undefined` as its loader, and `addDefaultExtension` reads `undefined.meta`. A plain-name target would already fail earlier, in `coreResolve`, which reads `this.registry`. | package `app` with `defaultExtension: "js"`, map `{"./a": "./b"}` and no meta, asked for `app/a` with `normalizeSync` | pass the `loader` on, as the asynchronous `doMap` does; the target then resolves to `app/b.js` | medium (not executed) | Findings.UnboundLoaderThrows | Findings.BoundLoaderExtends |

The rest of the model uses the corrected behaviour: `PackageResolution.DoMapSync`
hands the configuration on to the nested resolution.

## Left out

- The asynchronous pipeline (`normalize`, `pluginResolve`, `packageResolve`,
  `applyPackageConfig`, `doMap`, `resolveCondition`'s module load) is left
  out: it consists of promise chains around loading modules. Only the string
  logic of conditions is kept, with the condition value as an input.
- Builder-mode branches of `doMap`, `interpolateConditional` and
  `booleanConditional` are left out: they recurse through asynchronous
  normalisation.
- Of `loadPackageConfigPath`, only the de-duplicating push onto
  `packageConfigKeys` is modelled. Fetching the document and `setPkgConfig`
  are not part of this model.
- `setMeta` and `createMeta` are left out: they depend on `extendMeta`, which
  is not part of this model. Meta fragments therefore carry only their
  presence.
- `resolveUrlToParentIfNotPlain`, `getMapMatch`, `readMemberExpression`,
  `registry.has`, `baseURI` and `createPackage` are abstract inputs (`Host`,
  or the `read` function for conditions). `Host.Valid` assumes that
  `./`-prefixed names resolve.
- `PackageResolution.ParentMapMatch`, `PackageResolution.MapLookup` and
  `PackageResolution.FindMapHit` do not ask `host.mapMatch` when the map is
  empty. This assumes that `getMapMatch` finds nothing in an empty map; the
  source (src/resolve.js:192 and src/resolve.js:518) calls it on any map
  object, including `{}`.
- Strings are sequences of Unicode scalar values. JavaScript lengths and
  indices (src/resolve.js:21, 216, 677, 728) count UTF-16 code units. The
  results agree for well-formed strings, because every test the core makes is
  a prefix test, a suffix test or a search for an ASCII character.
- The `warn` call in `normalizePaths` is a side effect only and is left out.
- The memo cache of compiled config-path patterns is left out. The model
  recompiles each pattern, which gives the same result.
- JavaScript orders integer-like object keys before the others in `for-in`.
  Dictionaries here keep insertion order, which is the order for the
  non-numeric keys the resolver uses.
- The loader's `meta` getter (src/systemjs-loader.js:115-134) is modelled as
  passing `config.meta` to `addDefaultExtension`.
- PackageResolution.PackageResolveSync: the mutual recursion with `doMapSync`
  is bounded by a fuel count. A chain of package maps deeper than the fuel
  gives `CallStackExceeded` where JavaScript might still finish.
- PackageResolution.PackageResolveSync: when the parent package's map is
  followed (a hit whose target `validMapping` accepts), or the owner's package
  map is, the result is stated only through the configuration invariants,
  not as a closed formula.
- PackageResolution.ResolveInOwner: the result when the owner's package map
  is followed is the nested resolution's result, which is not restated.
- Normalization.ResolvePluginArgument: when the parent package's map is
  followed for the argument, only the shape of the result (a resolved
  argument combined with the plugin) is stated.
- PackageResolution.ApplyPackageConfigSync: the result when a map entry is
  followed successfully is the nested resolution's result, which is not
  restated.
- PackageResolution.DoMapSync: the result of a followed mapping (the nested
  `packageResolveSync` of the target plus the rest of the path, against
  `pkgName/`) is not restated; the contract gives the error cases, the
  refused mapping, the fuel limit and how the configuration may change.
- PackageResolution.ResolveInPackage: the result of an owned name whose
  package map is followed is not restated (see `DoMapSync`).
- Normalization.NormalizeSync: the contract gives the full result only when
  no packages and no config-path patterns are configured.
- The error messages are modelled in `Errors.Message`, but nothing is proved
  about their text.
