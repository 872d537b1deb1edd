# JobActualizador update core in Dafny

JobActualizador is a React Native client that asks a backend API two things:
is the API compatible with this client (`ApiManagerService.checkApiVersion`),
and is there a newer build of the app (`UpdateService.checkForUpdates`). When
there is, it downloads and installs the new Android package. A simulation mode
(`SimulationService`) lets a tester pretend to run another app version. The
override is persisted field by field in the device's key-value store.

This project models the decision logic of those three services as pure Dafny
functions and proves properties of it:

- `wrappers.dfy` holds `Option`.
- `decimal.dfy` holds decimal digit strings of naturals and their round trip.
- `js_text.dfy` holds the JavaScript string primitives the code relies on:
  `split`, `join`, `trimStart`/`trimEnd`, `endsWith`, `includes` and `||` on
  strings.
- `js_number.dfy` holds the JavaScript numbers the code relies on:
  - `parseInt(s, 10)`, with its leading white space, sign, digit prefix and `NaN`;
  - `Number(s)` on a version segment, including `Infinity`, the `0x`/`0o`/`0b`
    forms and exponents;
  - `<` involving `NaN`, `++`, and `toString`.
- `lexicographic.dfy` holds the lexicographic order on integer triples.
- `types.dfy` holds the API payloads and the build metadata (`Constants.expoConfig`).
- `storage.dfy` holds the key-value store and its keys.
- `simulation.dfy` holds `SimulationService`.
- `apimanager.dfy` holds `ApiManagerService`.
- `update.dfy` holds `UpdateService`.

Time (`new Date().toISOString()`) is passed in as a `now` parameter. The build
version is passed in as a `BuildConfig`. HTTP responses are datatypes with one
constructor per case the code distinguishes. The file-system answers (cache
listing, deletions, free disk space) are an `Update.Device` parameter, and each
of them may be a rejection.

Two behaviours of the code are easy to misread:

- **`compareVersions` does not pad missing segments.** It reads `undefined`
  past the end of the array and compares it with `>`/`<`. Both comparisons
  are false, so a missing or non-numeric segment decides nothing. `"1.0"` and
  `"1.0.5"` therefore compare equal, and the relation is not transitive
  (`Update.CompareVersionsNotTransitive`). It is transitive among versions
  whose first three segments are numbers (`Update.CompareVersionsTransitive`).
- **`checkForUpdates` uses the real build version**, not the simulated one
  (UpdateService.ts line 26), and so does `Update.CheckForUpdates`.

## Model

| member | source | states |
|---|---|---|
| Storage.GetItem | utils/Storage.ts:26-33 | a read yields a value exactly when the key is stored, and then the stored value |
| Storage.SetItem | utils/Storage.ts:35-41 | after a write the key reads back the written value and every other key reads as before |
| Build.RealAppVersion | services/SimulationService.ts:63-65 | the real version is the configured build version when non-empty, else "1.0.0"; never empty |
| Simulation.Initialize | services/SimulationService.ts:37-48 | enabled iff the stored flag is exactly "true"; the stored version, else the real version (never empty); the stored date, else now; a stored non-empty count is read with `parseInt`, and a missing or empty one reads as 0 |
| Simulation.StoredCountReloads | services/SimulationService.ts:47 | a count stored as the decimal text of n (such as "3") reloads as n |
| Simulation.GetAppVersion | services/SimulationService.ts:87-92 | the simulated version while simulation is enabled, otherwise the real build version |
| Simulation.SetAppVersion | services/SimulationService.ts:94-98 | only the version field changes, and only the version key of the store, which now holds it |
| Simulation.SetBuildDate | services/SimulationService.ts:104-108 | only the date field and the date key change, both to the given date |
| Simulation.IncrementInstallCount | services/SimulationService.ts:114-119 | the returned count is one more than before (NaN stays NaN), the field holds it, and the store holds its decimal text and nothing else changes |
| Simulation.SetEnabled | services/SimulationService.ts:71-85 | the flag is set and persisted as "true"/"false"; exactly when enabling with no stored version, the real version and now are seeded into fields and store; otherwise only the flag key changes |
| Simulation.IncrementParts | services/SimulationService.ts:156-163 | three or more parts: the third is incremented and the others kept; two parts: a 1 is appended; one part: 0 and 1 are appended |
| Simulation.SimulateSuccessfulInstall | services/SimulationService.ts:127-149 | disabled: nothing changes; enabled: the given (non-empty) or incremented version and now are set, the count goes up by one, and only those three keys of the store change |
| Simulation.Reset | services/SimulationService.ts:170-182 | the version becomes the real one, the date now and the count 0, in fields and store, leaving the enabled flag and other keys alone |
| Simulation.GetState | services/SimulationService.ts:187-196 | the service is reloaded from the store without changing it, and the snapshot reports the reloaded fields and the real version |
| Simulation.GetStateKeepsSyncedFields | services/SimulationService.ts:187-196 | when fields and store agree, reloading changes nothing and the snapshot shows the current version and count |
| Simulation.GetStateEstablishesSync | services/SimulationService.ts:37-48 | after reloading, fields and store agree (given a stored date) |
| Simulation.SetAppVersionKeepsSync | services/SimulationService.ts:94-98 | setting a non-empty version keeps fields and store in agreement |
| Simulation.EmptyVersionReloadsAsReal | services/SimulationService.ts:45 | an empty version is kept in memory, but the next reload replaces it with the real version |
| Simulation.SetBuildDateKeepsSync | services/SimulationService.ts:104-108 | setting a non-empty date keeps fields and store in agreement |
| Simulation.CountTextReadsBack | services/SimulationService.ts:47 | a count written with `toString` (an integer below 10^21 in magnitude, or NaN) is read back by `parseInt` as the same count |
| Simulation.IncrementInstallCountKeepsSync | services/SimulationService.ts:114-119 | incrementing keeps fields and store in agreement |
| Simulation.SetEnabledKeepsSync | services/SimulationService.ts:71-85 | enabling or disabling keeps fields and store in agreement |
| Simulation.SimulateSuccessfulInstallKeepsSync | services/SimulationService.ts:127-149 | a simulated install keeps fields and store in agreement |
| Simulation.ResetRestoresSync | services/SimulationService.ts:170-182 | after a reset with a non-empty clock reading, version, date and count agree with the store whatever they held before; the enabled flag, which reset does not write, must already agree |
| Simulation.SetEnabledIdempotent | services/SimulationService.ts:71-85 | setting the same flag twice is the same as setting it once |
| Simulation.FirstEnableSeedsRealVersion | services/SimulationService.ts:75-81 | the first enable makes the effective version the real build version and persists it |
| Simulation.EnableKeepsStoredVersion | services/SimulationService.ts:76-82 | enabling with a stored version leaves the version and date untouched |
| Simulation.ResetIdempotent | services/SimulationService.ts:170-182 | resetting twice is the same as resetting once |
| Simulation.InstallMovesEffectiveVersion | services/SimulationService.ts:127-138 | after a simulated install the effective version is the installed one |
| Simulation.IncrementNats | services/SimulationService.ts:155-165 | the reference definition of the increment on natural-number versions: patch + 1, or the missing minor/patch filled as 0 and 1 |
| Simulation.IncrementVersion | services/SimulationService.ts:155-165 | never empty; when the numbers print plainly, re-reading the result with `split('.').map(Number)` gives exactly the array step applied to the input's numbers |
| Simulation.IncrementNatVersion | services/SimulationService.ts:155-165 | on versions spelled as natural numbers, incrementing the text agrees with the reference increment on the numbers |
| Simulation.IncrementPatchExample | services/SimulationService.ts:153 | "1.0.0" becomes "1.0.1" |
| Simulation.IncrementPastNineExample | services/SimulationService.ts:153 | "1.2.9" becomes "1.2.10" |
| Simulation.IncrementOnePartExample | services/SimulationService.ts:161-162 | "2" becomes "2.0.1" |
| Simulation.IncrementTwoPartExample | services/SimulationService.ts:159-160 | "1.5" becomes "1.5.1" |
| JsNumber.ParseInt | services/ApiManagerService.ts:190 | `parseInt` is NaN exactly when no digit follows the leading white space and optional sign |
| JsNumber.ParseIntOfNat | services/ApiManagerService.ts:190 | the decimal text of a natural, followed by any non-digit, parses to that natural |
| JsNumber.ParseIntOfNegative | services/ApiManagerService.ts:190 | "-" followed by the decimal text of a positive natural parses to its negation |
| JsNumber.ParseIntOfNonNumeric | services/ApiManagerService.ts:190 | text starting with a character that is not white space, a sign or a digit parses to NaN |
| JsNumber.IntegerRoundTrip | services/SimulationService.ts:47 | `parseInt(i.toString())` is `i` for every integer below 10^21 in magnitude |
| JsNumber.Increment | services/SimulationService.ts:158 | `++` adds one to a finite number and leaves NaN and the infinities unchanged |
| JsNumber.PlainRoundTrip | services/SimulationService.ts:156-164 | `Number(n.toString())` is `n` for NaN, the infinities and integers below 10^21, and the text holds no '.' |
| JsNumber.JoinNumbersRoundTrip | services/SimulationService.ts:156-164 | splitting `parts.join('.')` on '.' and mapping `Number` gives back the parts |
| JsNumber.VersionNumbers | services/UpdateService.ts:13-14 | one number per '.'-separated segment, each that segment's `Number` value |
| JsNumber.NoDigitsIsNaN | services/UpdateService.ts:13-14 | a decimal segment whose unsigned part does not start with a digit is NaN |
| JsNumber.LessTransitive | services/UpdateService.ts:17-18 | `<` on numbers is transitive |
| JsNumber.IncomparableMeansEqualValue | services/UpdateService.ts:17-18 | two non-NaN numbers neither of which is below the other are equal |
| JsText.Split | services/SimulationService.ts:156 | `split` yields at least one piece, no piece contains the separator, and joining the pieces gives back the text |
| JsText.SplitJoin | services/SimulationService.ts:156-164 | splitting undoes joining when no part contains the separator |
| ApiManager.ApiUrl | services/ApiManagerService.ts:33-34 | the stored endpoint when non-empty, else http://localhost:5000/api |
| ApiManager.SetApiUrl | services/ApiManagerService.ts:61-65 | only the endpoint key is written; the reloaded base URL is the new one, or the default when it is empty |
| ApiManager.GetUrl | services/ApiManagerService.ts:71-73 | the path is controller, one '/', method; it splits back into the two when neither holds a '/' |
| ApiManager.ParseVersion | services/ApiManagerService.ts:189-196 | each of the first three slots is the `parseInt` value of its segment, 0 when that segment has no leading digits; missing minor and patch segments read as 0 |
| ApiManager.ParseVersionNonNumericMiddle | services/ApiManagerService.ts:190-195 | a non-numeric middle segment reads as 0 while its neighbours keep their values |
| ApiManager.ParseVersionMixedExample | services/ApiManagerService.ts:190-195 | "1.x.3" parses to 1.0.3 |
| ApiManager.ParseVersionOfSpelled | services/ApiManagerService.ts:189-196 | "a.b.c" with natural a, b, c parses to (a, b, c) |
| ApiManager.ParseVersionOfDigitPrefixes | services/ApiManagerService.ts:190 | each segment counts only its leading digits (for example "3-beta" reads as 3) |
| ApiManager.ParseVersionIgnoresExtraSegments | services/ApiManagerService.ts:191-195 | segments after the third do not matter |
| ApiManager.ParseVersionWithoutDigits | services/ApiManagerService.ts:190-195 | a version with no digits and no dots parses to 0.0.0 |
| ApiManager.ParseVersionOfEmptyAndX | services/ApiManagerService.ts:190-195 | "" and "x" parse to 0.0.0 |
| ApiManager.IsVersionValid | services/ApiManagerService.ts:176-187 | valid exactly when the required triple is lexicographically at most the current one |
| ApiManager.IsVersionValidReflexive | services/ApiManagerService.ts:176-187 | every version satisfies itself |
| ApiManager.IsVersionValidTransitive | services/ApiManagerService.ts:176-187 | the relation is transitive |
| ApiManager.IsVersionValidTotal | services/ApiManagerService.ts:176-187 | of any two versions one satisfies the other |
| ApiManager.IsVersionValidAntisymmetric | services/ApiManagerService.ts:176-187 | versions satisfying each other parse to the same triple |
| ApiManager.CheckApiVersion | services/ApiManagerService.ts:106-174 | a failed request lets the client go on; no data is invalid with a message; a client below a present minimum is refused with a message naming both versions; otherwise valid exactly when the API version is compatible, and no message is returned |
| ApiManager.ClientTooOldMessageNamesBoth | services/ApiManagerService.ts:144-146 | the client-too-old message contains the client version and the minimum |
| ApiManager.IncompatibleApiMessageNamesBoth | services/ApiManagerService.ts:161-163 | the incompatible-API message contains the API version and the required 1.0.0 |
| ApiManager.ClientCheckTakesPrecedence | services/ApiManagerService.ts:141-148 | a client below the minimum is refused even when the API itself is compatible |
| ApiManager.ApiCompatibleMeaning | services/ApiManagerService.ts:152-158 | the API is compatible exactly when 1.0.0 is in its compatible list or its parsed version is at least 1.0.0; the exact-match test adds nothing |
| ApiManager.ClientTooOldScenario | services/ApiManagerService.ts:141-148 | client 1.5.0 against minimum 2.0.0 is refused with the two versions in the message |
| ApiManager.ExactApiVersionScenario | services/ApiManagerService.ts:152-153 | an API at exactly 1.0.0 with no minimum is valid for any client |
| ApiManager.SimulatedVersionDecides | services/ApiManagerService.ts:126-148 | with simulation on, the simulated version, not the build version, must meet the minimum |
| ApiManager.ScreenReaction | App.tsx:54-68 | a result with an API version counts as connected and warns only when invalid with a message; otherwise a connection error |
| ApiManager.IncompatibleApiIsNotWarned | services/ApiManagerService.ts:160-166 | an incompatible API yields an invalid result without a message, so the screen connects silently |
| ApiManager.IncompatibleApiExample | services/ApiManagerService.ts:160-166 | API version 0.9.0 gives an invalid result that the screen treats as a connection with no warning |
| ApiManager.CheckApiVersionIntended | services/ApiManagerService.ts:160-166 | same validity, version and payload as the code, and an invalid data result always carries a message (the incompatible-API text when the client passes) |
| ApiManager.IntendedCheckAlwaysWarns | app/index.tsx:136-146 | with the corrected check, every invalid data result raises a warning on screen |
| Lexicographic.LexCompare | services/UpdateService.ts:16-20 | -1, 0 or 1 exactly as the first triple is below, equal to or above the second |
| Lexicographic.LexLeqTransitive | services/ApiManagerService.ts:180-186 | the lexicographic order is transitive |
| Lexicographic.LexLeqAntisymmetric | services/ApiManagerService.ts:180-186 | the lexicographic order is antisymmetric |
| Update.CompareVersions | services/UpdateService.ts:12-21 | the result is -1, 0 or 1 |
| Update.CompareVersionsMeaning | services/UpdateService.ts:12-21 | 0 exactly when no slot among the first three is ordered; otherwise the sign of the first ordered slot |
| Update.CompareVersionsReflexive | services/UpdateService.ts:12-21 | a version compares equal to itself |
| Update.CompareVersionsAntisymmetric | services/UpdateService.ts:12-21 | swapping the arguments negates the result |
| Update.CompareVersionsIgnoresExtraSegments | services/UpdateService.ts:16 | segments after the third do not matter on either side |
| Update.CompareVersionsTransitive | services/UpdateService.ts:12-21 | among versions whose first three segments are numbers, at-most is transitive |
| Update.CompareVersionsOfNats | services/UpdateService.ts:12-21 | on natural-number versions the result is the lexicographic comparison of the triples |
| Update.ComparatorsAgreeOnNats | services/UpdateService.ts:67-68 | on natural-number versions `compareVersions(a, b) >= 0` agrees with `isVersionValid(a, b)` |
| Update.MissingSegmentBreaksTransitivity | services/UpdateService.ts:16-20 | x.y.z and x.y.w both compare equal to x.y while x.y.z compares above x.y.w |
| Update.CompareVersionsNotTransitive | services/UpdateService.ts:16-20 | "1.0.5" = "1.0" = "1.0.3", yet "1.0.5" > "1.0.3" |
| Update.ShortVersionExample | services/UpdateService.ts:16-20 | "1.0" and "1.0.5" compare equal |
| Update.PlatformName | services/UpdateService.ts:25 | "Android" exactly on android, "iOS" otherwise |
| Update.UpdateEndpoint | services/UpdateService.ts:34-36 | the endpoint is Sistema/GetAppVersion with the platform as one more path segment, and ends in /Android exactly on android |
| Update.Decide | services/UpdateService.ts:58-85 | no result when the latest or minimum version is missing; otherwise an update is needed exactly when current is below latest, compatible exactly when current is at least the minimum, forced exactly when the server forces it or the client is incompatible |
| Update.CheckForUpdates | services/UpdateService.ts:23-92 | no result without a data response; otherwise the decision taken on the real build version, which is reported as current |
| Update.IncompatibleForcesUpdate | services/UpdateService.ts:80 | an incompatible client is always forced to update, and a forced update the server did not ask for means the client is incompatible |
| Update.NeedsUpdateMeansOlder | services/UpdateService.ts:67-68 | on natural-number versions: update needed iff the latest triple is above the current one; compatible iff the minimum is at most the current one |
| Update.AvailableUpdateScenario | services/UpdateService.ts:67-85 | build 1.0.0 against latest 1.0.1 and minimum 1.0.0 gets an optional update to 1.0.1 |
| Update.UpdateAvailable | services/UpdateService.ts:67-85 | an older but compatible client gets an optional update offering the latest version |
| Update.BelowMinimumScenario | services/UpdateService.ts:68-80 | build 0.9.0 against minimum 1.0.0 is incompatible and forced to update |
| Update.BelowMinimumForcesUpdate | services/UpdateService.ts:68-80 | a client below the minimum is incompatible and forced to update |
| Update.ShortBuildVersionPassesMinimum | services/UpdateService.ts:68-80 | a build version "1.0" passes a minimum of "1.0.5" and is not forced |
| Update.DownloadFileName | services/UpdateService.ts:106 | update.apk exactly when the URL is empty or ends in '/'; otherwise the whole text after the last '/' (the whole URL when it has none) |
| Update.DownloadFileNameOfPath | services/UpdateService.ts:106 | a URL ending in /name gives name; a URL ending in '/' gives update.apk |
| Update.ApkFiles | services/UpdateService.ts:119 | keeps exactly the listed `.apk` files, each as often as listed |
| Update.FreeMegabytes | services/UpdateService.ts:137 | the free space in MB is rounded to the nearest integer, halves up |
| Update.PrepareDownload | services/UpdateService.ts:94-140 | the download goes ahead exactly on android with a download URL, a free-space answer and at least 100 MB free; otherwise the platform alert, the space alert, or the generic "Error" alert of the outer catch (lines 206-209) when the URL is missing or the free-space query rejects; the old packages are removed only once the URL is known, and the target is the cache directory plus the file name |
| Update.Cleanup | services/UpdateService.ts:114-127 | the clean-up removes the stale packages in listing order up to the first rejected deletion, all of them when none is rejected, and none when the listing is rejected |
| Update.CleanupRemovesOnlyCachedPackages | services/UpdateService.ts:114-124 | whatever the clean-up removes is an `.apk` file listed in the cache directory |
| Update.UpdateWithoutUrlFails | services/UpdateService.ts:106 | an update offered without `urlDescarga` ends, when downloaded, in the generic error alert with nothing deleted |
| Update.StaleApksAreCachedPackages | services/UpdateService.ts:114-124 | the clean-up deletes exactly the `.apk` files of the cache directory |
| Update.InsufficientSpaceMessageShape | services/UpdateService.ts:137 | the space alert shows the rounded free megabytes and ends with the required 100 MB |
| Update.MinSpaceText | services/UpdateService.ts:131-137 | the required-space line reads "Requerido: 100 MB" |

## Left out

- HTTP: requests, the axios instance, headers, the 15-second timeouts and `Promise.race` are left out. Responses are parameters with one constructor per case the code tells apart.
- The `X-App-Version` header is left out; it carries `Simulation.GetAppVersion`.
- `sendGetRequest` and `getApiUrl` are left out; they are plumbing with no decision in them.
- Debug logging and the `DEBUG` switch are left out.
- The download itself, its progress fraction and the install intent (UpdateService.ts from line 142 on) are left out; they are I/O.
- Storage failures are left out: a failed read is an absent key and writes always land.
- The clock is left out; `new Date().toISOString()` is the `now` parameter.
- The build configuration is left out; `Constants.expoConfig?.version` is a `BuildConfig`.
- `FileSystem.cacheDirectory`, the cache listing, the outcome of each `deleteAsync` and `getFreeDiskStorageAsync` are the fields of an `Update.Device`. A rejected call is `None` (or the position of the first rejected deletion). The free space is a natural number of bytes rather than a float.
- Update.PrepareDownload: the text of a thrown error is the parameter `errorText`. The runtime produces it (the `TypeError` of `split` on a missing URL, or the rejection of the free-space query), and its wording is not modelled.
- Number rounding: finite numbers are exact decimals. IEEE-754 binary64 rounding, overflow to `Infinity` and loss of precision above 2^53 are not modelled.
- Concurrency is left out: each asynchronous method runs to completion before the next starts. In particular, the constructors' un-awaited `initialize()` does not race other calls.
- The getters `isEnabled`, `getBuildDate` and `getInstallCount` are left out; they only read a field of `Simulation.Service`.
- Simulation.IncrementInstallCountKeepsSync: holds only for counts below 10^21 in magnitude. Above that, `toString` switches to exponent notation and `parseInt` reads back only the leading digit.
- Simulation.SimulateSuccessfulInstallKeepsSync: carries the same 10^21 bound on the count.
- Simulation.SetAppVersionKeepsSync: requires a non-empty version. An empty one is reloaded as the real version (`Simulation.EmptyVersionReloadsAsReal`).
- Simulation.IncrementVersion: the read-back holds only when every part and the incremented patch are plain numbers: integers below 10^21, NaN or an infinity.
- Update.CompareVersionsTransitive: holds only when the first three segments of all three versions are numbers. Without that, the code's comparison is not transitive (`Update.CompareVersionsNotTransitive`).

## Findings

| source | as written | input that shows it | evidently intended | confidence | as-written member | corrected member |
|---|---|---|---|---|---|---|
| services/ApiManagerService.ts:160-166 | an incompatible API gets its warning text built into `message`, but the returned record leaves `message` out | a `/version` payload `{version: "0.9.0"}` with no minimum client version: the result is invalid with no message, and the screens (App.tsx:54-62, app/index.tsx:136-143) connect without the compatibility warning | return the message with the invalid result, so that the screens raise the warning | not executed | ApiManager.IncompatibleApiIsNotWarned, ApiManager.IncompatibleApiExample | ApiManager.CheckApiVersionIntended, ApiManager.IntendedCheckAlwaysWarns |
