# Language server folder resolution

This project is a Dafny model of `LanguageServerFolderService`. That service decides which on-disk folder the Python extension loads its language server from. It answers with either:
- the name of a folder that is already downloaded, or
- the name `languageServer.<version>` that a fresh download should get.

It works in four steps:
1. **Discovery.** Every sub-directory of the extension's storage directory whose basename starts with `languageServer` is a candidate. Its version is read from what is left once the first 15 UTF-16 code units are cut off: the prefix and one separator. That text is parsed with node-semver's `loose` option. A folder with nothing left, or with text that does not parse, gets a `0.0.0` built without that option.
2. **Current folder.**
   - With downloading disabled, the current folder is the bare `languageServer` at `0.0.0`.
   - Otherwise there is none when nothing was discovered.
   - Otherwise it is the last entry of a stable ascending sort by version: the highest version, with ties going to the later listed folder.
3. **Update decision** (`shouldLookForNewLanguageServer`):
   - An existing folder is kept unless both auto-update and download are on.
   - With auto-update on, a missing folder forces a look, and so does a folder below the minimum version the extension requires. `compare` parses that minimum with the folder version's own options: loosely for a parsed folder name, strictly for a `0.0.0` fallback.
   - Otherwise the download channel's rule decides.
4. **Name.**
   - An existing folder is kept when no look is wanted, when the lookup fails, or when the found version is not strictly newer.
   - Otherwise the name is `languageServer.<raw version text>`.

The modules:
- `Wrappers`: `Option` and `Result`.
- `Text`: `FindChar`, `Split`/`Join`, `StartsWith`, `Basename`, UTF-16 lengths and JavaScript's `substring`, and decimal digits, with the laws the other modules need.
- `SemVer`: the node-semver version value and its precedence order (`compare`). It also has a parser for a subset of version text, in a strict and a loose mode, and the canonical formatter. The module proves that `compare` is a total order, that the loose mode only widens the strict one, and that parsing undoes formatting.
- `LanguageServerFolders`: the service itself.
  - **Discovery.** `FolderVersion` and `Discover` model the discovery step.
  - **Current folder.** `LastMaxIndex` and `CurrentDirectory` model it.
  - **Update decision.** `ShouldLookForNewLanguageServer` models it.
  - **Name.** `SelectFolderName` and `LanguageServerFolderName` model it.
  - **End-to-end lemmas.** Among them: the name the resolver invents for a new download is exactly the folder the next resolution selects once that download exists on disk and is listed after the folders already there.

The model is pure and takes these parts of the service's surroundings as inputs:
- the configuration (`Settings`);
- the minimum version text from the extension's manifest;
- the directory listing (`subDirs`);
- the download channel's rule (`rule`);
- the outcome of the package lookup (`latest`, `None` when the lookup is rejected or yields nothing).

Two places where the TypeScript would throw are explicit `Failure` values:
- **`InvalidMinimumVersion`.** `compare` is handed a minimum version that does not parse.
- **`MissingServerVersion`.** `serverVersion!` is dereferenced with no current folder and no package.

Behaviour of the code that the lemmas make explicit:
- **No current folder.** When there is no current folder, the result of the lookup names the folder even if the update decision was "do not look". The early return on line 33 requires a current folder, so the decision is only consulted when a folder exists.
- **`0.0.0` is not the lowest version.** Every release version is at or above `0.0.0`. Among pre-releases, exactly the `0.0.0-x` ones are below it. So a folder named `languageServer.0.0.0-alpha` ranks below the bare `languageServer` folder and below every folder with an unparsable suffix.
- **Separator not checked.** The separator after the prefix is dropped without being checked. `languageServer-1.2.3` and `languageServerX1.2.3` both carry `1.2.3`. This holds for any separator in the Basic Multilingual Plane. A separator outside it takes two UTF-16 code units, so the cut splits it and leaves a lone low surrogate in front of the version. That text never parses, and the folder counts as `0.0.0`.
- **Strict fallback.** The `0.0.0` fallback is built without the `loose` option. When it is the current folder and both settings are on, the minimum version is parsed strictly. A minimum such as `0.5.01` then makes `compare` throw, although it parses loosely.

## Model

| member | source | states |
|---|---|---|
| LanguageServerFolders.FolderVersion | src/activation/languageServer/languageServerFolderService.ts:88-91 | For a name that starts with `languageServer`: nothing or one character after the prefix, or a first character outside the Basic Multilingual Plane, gives the `0.0.0` fallback. Otherwise the text after the prefix and that character is parsed loosely, and `0.0.0` stands in when that fails. |
| LanguageServerFolders.PrefixedFolderSuffix | src/activation/languageServer/languageServerFolderService.ts:89 | For a name that starts with `languageServer`, the 15-code-unit cut gives the empty text when nothing follows the prefix. It gives the text after the next character when that character is one code unit, and a split surrogate pair otherwise. |
| LanguageServerFolders.PrefixedFolderVersion | src/activation/languageServer/languageServerFolderService.ts:88-91 | For a name that starts with `languageServer`: at most one character after the prefix, or a first character outside the Basic Multilingual Plane, gives the `0.0.0` fallback. Otherwise the folder's version is what the text after prefix and separator parses to loosely. |
| LanguageServerFolders.BareFolderVersion | src/activation/languageServer/languageServerFolderService.ts:88-90 | The bare prefix, and the prefix followed by any single character, both carry the `0.0.0` fallback. |
| LanguageServerFolders.FolderVersionOfName | src/activation/languageServer/languageServerFolderService.ts:89-90 | A name made of the prefix, one separator and a loosely parsable text carries that text's version when the separator is in the Basic Multilingual Plane. With any other separator it carries the `0.0.0` fallback. |
| Text.DropCodeUnitsLength | src/activation/languageServer/languageServerFolderService.ts:89 | `substring(n)` removes exactly `n` UTF-16 code units, or all of them when there are fewer. Its result is a suffix of the input, and it can only split a surrogate pair strictly inside the string. |
| Text.DropPrefixAndOne | src/activation/languageServer/languageServerFolderService.ts:89 | Cutting a one-unit-per-character prefix and one more unit leaves what follows the next character, or splits it when that character takes two units. |
| LanguageServerFolders.Discover | src/activation/languageServer/languageServerFolderService.ts:80-86 | Every discovered entry's basename starts with the prefix. Each entry carries the version of its basename, built loosely exactly when its suffix parsed. There are never more entries than sub-directories. |
| LanguageServerFolders.DiscoverSound | src/activation/languageServer/languageServerFolderService.ts:82-84 | Every discovered path is one of the listed sub-directories. |
| LanguageServerFolders.DiscoverComplete | src/activation/languageServer/languageServerFolderService.ts:83-85 | Every listed sub-directory whose basename starts with the prefix is among the discovered paths. |
| LanguageServerFolders.DiscoverAppend | src/activation/languageServer/languageServerFolderService.ts:83-85 | Discovery keeps list order: discovering `a + b` gives the discoveries of `a` followed by those of `b`. |
| LanguageServerFolders.DiscoverOne | src/activation/languageServer/languageServerFolderService.ts:84-85 | A single directory is kept, with its basename's version and options, exactly when its basename starts with the prefix. Otherwise it is dropped. |
| LanguageServerFolders.LastMaxIndex | src/activation/languageServer/languageServerFolderService.ts:77-78 | The chosen entry is where a stable ascending sort puts its last element. No entry has a higher version, and every later entry has a strictly lower one. |
| LanguageServerFolders.LastMaxUnique | src/activation/languageServer/languageServerFolderService.ts:77-78 | Only one index has that property, so the element the sort leaves last is determined. |
| LanguageServerFolders.LastMaxOfAppended | src/activation/languageServer/languageServerFolderService.ts:77-78 | An entry appended after entries of no higher version is the one selected, including on a tie. |
| LanguageServerFolders.CurrentDirectory | src/activation/languageServer/languageServerFolderService.ts:68-79 | With downloading disabled the result is the bare folder at the strict `0.0.0`. Otherwise there is no folder exactly when nothing was discovered, and any folder returned is the discovered entry a stable sort leaves last. |
| LanguageServerFolders.ShouldLookForNewLanguageServer | src/activation/languageServer/languageServerFolderService.ts:52-67 | This is the full decision table. The minimum is parsed with the folder version's options. An existing folder with either setting off gives no look. Auto-update with no folder gives a look, and so does a folder strictly below the parsed minimum. The call fails exactly when both settings are on, a folder exists and the minimum does not parse in that folder's mode. In the remaining cases the channel rule decides. |
| LanguageServerFolders.SelectFolderName | src/activation/languageServer/languageServerFolderService.ts:33-44 | The current folder's basename is kept when no look is wanted, when the lookup found nothing, or when the found version is not newer. The new name `languageServer.<raw>` is used when a package was found and there is no folder, or a look was wanted and the package is strictly newer. It fails exactly when there is neither a folder nor a package. |
| LanguageServerFolders.LanguageServerFolderName | src/activation/languageServer/languageServerFolderService.ts:28-45 | The resolver answers only with the current folder's basename or `languageServer.<raw>` of the found package. It fails exactly when both settings are on, a folder exists and the minimum does not parse in that folder's mode, or when there is neither a folder nor a package; those are its only two errors. |
| LanguageServerFolders.DownloadDisabledUsesBareFolder | src/activation/languageServer/languageServerFolderService.ts:28-72 | With downloading disabled the answer is `languageServer`. This holds whatever is on disk, whatever the lookup returns, and whatever the channel rule and the minimum version are. |
| LanguageServerFolders.FailedLookupKeepsCurrentFolder | src/activation/languageServer/languageServerFolderService.ts:32-41 | When a current folder exists, the update decision does not throw and the lookup yields nothing, the answer is that folder's basename. |
| LanguageServerFolders.VersionedFolderDiscovered | src/activation/languageServer/languageServerFolderService.ts:84-90 | A directory whose basename is `languageServer.<raw>` is discovered with the version `raw` parses to loosely, marked loose. |
| LanguageServerFolders.BareFolderDiscovered | src/activation/languageServer/languageServerFolderService.ts:84-90 | A directory whose basename is the bare prefix is discovered at the strict `0.0.0`. |
| LanguageServerFolders.BareFolderReadsMinimumStrictly | src/activation/languageServer/languageServerFolderService.ts:60 | With both settings on and only the bare folder on disk, the decision fails exactly when the minimum version does not parse strictly. |
| LanguageServerFolders.ChosenVersionBoundsDisk | src/activation/languageServer/languageServerFolderService.ts:40-44 | When the resolver names a new folder for a found package, every folder on disk has a version at most the package's. |
| LanguageServerFolders.AppendedMaximumIsSelected | src/activation/languageServer/languageServerFolderService.ts:73-78 | A directory listed after folders of no higher version becomes the current folder, with the entry its own discovery gives. |
| LanguageServerFolders.NewFolderIsSelectedNext | src/activation/languageServer/languageServerFolderService.ts:40-44 | Suppose the resolver names `languageServer.<raw>` and a folder of that name is then added under the storage directory, listed after every folder already on disk. The next discovery selects that folder as current, with the package's version built loosely. |
| LanguageServerFolders.DownloadedMaximumIsSelected | src/activation/languageServer/languageServerFolderService.ts:73-90 | A `languageServer.<raw>` folder added under the storage directory and listed after every folder already on disk, none of which is above its version, becomes the current folder at the version `raw` parses to loosely. |
| SemVer.Compare | src/activation/languageServer/languageServerFolderService.ts:77 | The result is -1, 0 or 1. Major, then minor, then patch decide first, and 0 implies equal major, minor and patch. With an equal core, the pre-release comparison decides. |
| SemVer.ComparePre | src/activation/languageServer/languageServerFolderService.ts:77 | A version with a pre-release ranks below the same core without one, a release ranks above it, and two releases are equal. |
| SemVer.CompareIdentifier | src/activation/languageServer/languageServerFolderService.ts:77 | Numeric identifiers compare numerically and rank below alphanumeric ones. |
| SemVer.CompareIdentifiersFirstDifference | src/activation/languageServer/languageServerFolderService.ts:77 | Two pre-release lists compare as their identifiers at the first position where they differ. |
| SemVer.CompareIdentifiers | src/activation/languageServer/languageServerFolderService.ts:77 | A proper prefix of a pre-release list ranks below the longer list. |
| SemVer.CompareTextFirstDifference | src/activation/languageServer/languageServerFolderService.ts:77 | Alphanumeric identifiers compare by their first differing character. |
| SemVer.PreReleaseBelowRelease | src/activation/languageServer/languageServerFolderService.ts:77 | Any pre-release is strictly below its release. |
| SemVer.CompareAntisymmetric | src/activation/languageServer/languageServerFolderService.ts:77 | Swapping the arguments negates the comparison. |
| SemVer.CompareZeroIsEquality | src/activation/languageServer/languageServerFolderService.ts:77 | Two versions compare equal exactly when they are the same version. |
| SemVer.CompareTransitive | src/activation/languageServer/languageServerFolderService.ts:77 | Strict precedence is transitive. |
| SemVer.LessEqTransitive | src/activation/languageServer/languageServerFolderService.ts:77 | At-most precedence is transitive. |
| SemVer.LessEqTotal | src/activation/languageServer/languageServerFolderService.ts:40 | Any two versions are comparable. "Not at most" is the same as "strictly above", so `compare(...) <= 0` failing means strictly newer. |
| SemVer.ZeroIsLowestRelease | src/activation/languageServer/languageServerFolderService.ts:90 | The fallback `0.0.0` is at or below every release version and strictly above every `0.0.0-x` pre-release. |
| SemVer.ParseIdentifier | src/activation/languageServer/languageServerFolderService.ts:90 | A pre-release identifier parses exactly when it is non-empty `[0-9A-Za-z-]` text, and in strict mode is not all digits with a leading zero. It is numeric exactly when it is all digits. |
| SemVer.Parse | src/activation/languageServer/languageServerFolderService.ts:90 | Loose mode is `semver.parse(suffix, true)` on line 90; strict mode is the parse `compare` does on line 60 for a fallback folder. Every version it accepts is well formed, so `ParseFormat` applies to it, and the empty text is never a version. `StrictParseIsLoose` adds that the loose mode accepts all strict text with the same result. |
| SemVer.ParseCanonical | src/activation/languageServer/languageServerFolderService.ts:90 | Every accepted text has a canonical form that parses back to the same version, in the same mode. |
| SemVer.StrictParseIsLoose | src/activation/languageServer/languageServerFolderService.ts:60 | Text the strict mode parses is parsed by the loose mode to the same version. |
| SemVer.LeadingZeroIsLooseOnly | src/activation/languageServer/languageServerFolderService.ts:60 | Any all-digit field with a leading zero is rejected strictly and accepted loosely with its decimal value. |
| SemVer.ZeroPaddedVersionIsLooseOnly | src/activation/languageServer/languageServerFolderService.ts:60 | A `MAJOR.MINOR.PATCH` text with any zero-padded field, such as `0.5.01`, fails to parse strictly and parses loosely to its numeric fields. |
| SemVer.ParseFormat | src/activation/languageServer/languageServerFolderService.ts:90 | Parsing the canonical text of any well-formed version gives that version back, in either mode. |
| SemVer.ParsedTextCharacters | src/activation/languageServer/languageServerFolderService.ts:44 | Text that parses as a version contains only identifier characters, `.` and `+`. In particular a raw version has no `/`, so `languageServer.<raw>` is a single path component. |
| Text.Basename | src/activation/languageServer/languageServerFolderService.ts:84 | The basename is a `/`-free suffix of the path. When shorter than the path, it is preceded by a `/`. |
| Text.BasenameOfChild | src/activation/languageServer/languageServerFolderService.ts:84 | The basename of `dir + "/" + name` is `name` when `name` has no `/`. |
| Text.BasenameOfName | src/activation/languageServer/languageServerFolderService.ts:34 | A path without `/` is its own basename. |

## Left out

- `getLatestLanguageServerVersion` (lines 47-51) and `getDownloadChannel` (lines 92-95) are service-locator lookups. Their effects enter as inputs:
  - the found package, or `None` when the promise is rejected, as `.catch(() => undefined)` turns that into `undefined`;
  - the channel rule, as the function `rule`. The channel rules themselves are not part of this model.
- The directory listing `fs.getSubDirectories(storagePath)` is the input `subDirs`. The file system, the storage path and listing order are whatever that sequence says.
- The configuration service becomes one `Settings` value. The source reads the settings three times, on lines 54, 55 and 70, and the model assumes all three reads agree.
- Dependency injection, `async`/`await` and the tracing decorators are left out; they do not affect the result.
- The sort on line 77 is characterised by its outcome rather than modelled step by step. `LastMaxIndex` returns the element a stable ascending sort leaves last. This assumes the JavaScript engine's `Array.prototype.sort` is stable, which ECMAScript 2019 requires.
- Text.Basename: models POSIX `path.basename` as the text after the last `/`. It does not strip trailing separators, and it does not treat `\` as a separator as the Windows flavour does.
- SemVer.Parse: accepts `MAJOR.MINOR.PATCH[-pre][+build]`. The strict mode rejects leading zeros in numeric fields and numeric pre-release identifiers, and the loose mode accepts them, as node-semver's two grammars do. Where node-semver accepts more, the model answers `None`, so a folder gets the `0.0.0` fallback and a minimum version makes the decision fail. It leaves out:
  - the `v` prefix both modes accept, and the `=` prefix the loose mode also accepts;
  - surrounding whitespace;
  - the 256-character input limit;
  - the `Number.MAX_SAFE_INTEGER` bound on numeric fields. node-semver rejects a larger major, minor or patch. It keeps a larger numeric pre-release identifier as a string and compares it through `+a`, so `1.0.0-9007199254740993` and `1.0.0-9007199254740992` compare equal there, while the model compares unbounded integers and tells them apart.
- SemVer.Parse: does not model the loose mode's optional `-` before a pre-release. The loose grammar reads `1.2.3alpha` as `1.2.3-alpha`. It reads `1.2.3-` as the pre-release identifier `-` with its dash omitted, giving version `1.2.3--`. The model rejects both, so a folder named `languageServer.1.2.3-` has version `1.2.3--` in the source and `0.0.0` in the model.
- `Package` carries the found version together with its `raw` text. node-semver keeps `raw` as the string the version was built from. The lemmas that need the two to agree require `Parse(raw, true) == Some(version)`.
- JavaScript compares alphanumeric identifiers by UTF-16 code unit and Dafny compares `char` values. They agree on the ASCII alphabet that parsed identifiers are limited to.
- The model returns the two thrown errors as `Failure` values. The source throws them: a `TypeError` from `compare` on an invalid version, and a `TypeError` from `serverVersion!` on `undefined`. Their messages are not modelled.
- `src/common/terminal/environmentActivationProviders/pipEnvActivationProvider.ts` is not part of this model. It activates pipenv environments and plays no part in folder resolution.
