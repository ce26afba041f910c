# CSP Reporter front-end: session, routing and request rules

This project models the client-side core of the CSP Reporter administration front-end and proves properties of it. The front-end is a Vue single-page application.

- **Access rules** (`src/modules/auth.js`): `validateAccessToken` checks the protected header of an encrypted access token (JWE). `hasPermission` and `hasRouteAccess` are the two role rules.
- **Utilities** (`src/modules/utils.js`): the UUID shape check and the find-by-id lookups. Also the `"a-b"` range parser `rangeToList`, the validators for uploaded files, and `basename`/`extname`.
- **Router** (`src/router/index.js`): the route table with its metadata. It also covers the session snapshot taken when the module loads (with the cleanup of a stale token), the roles read from the stored user, and the `beforeEach` guard. The guard sets the page title and either lets a navigation through or redirects it.
- **Session store** (`src/stores/auth.js`): the persisted token and user profile. The profile is normalised to four members before it is stored.
- **Navigation bar store** (`src/stores/navbar.js`): the persisted `auto` → `open` → `close` toggle.
- **HTTP interceptors** (`src/modules/http.js`):
  - Before a mutating request, the CSRF cookie is refreshed when the remembered expiry is missing, unreadable or past.
  - After a response with status 403, or a network error, the session is dropped from storage.
- **Chunk naming** (`manualChunks` in `vite.config.js`): a bundled dependency's chunk is named after its package directory and its file stem.

The browser's `localStorage` is one `WebStorage.Storage` object, a class over a `map<string, string>`. It is shared by the router, the session store and the interceptors. A property that spans modules is stated on that map. For example, `AuthStore.RouterSeesStoredRoles` states that the router reads back exactly the roles the store wrote.

Support modules model the JavaScript built-ins the core relies on:
- `JsString`: `trim`, `indexOf`, `lastIndexOf`, `includes`, `split` and `substring`.
- `JsNumber`: `Number(string)`.
- `Json`: `JSON.parse` and `JSON.stringify` on null, booleans, integers, strings, arrays and objects, with numbers held as exact integers rather than doubles. It comes with a proved round trip.
- `Wrappers`: an `Option` type, which stands for JavaScript's `null`/`undefined`.

Other inputs enter as parameters:
- **Outside calls.** The JOSE header decoder, `new Date(text)`, the text `setItem` stores for a date, the clock, `getModuleInfo(id).isIncluded` and the outcome of the CSRF fetch.
- **Build-time environment.** `VITE_APP_TITLE` and `VITE_APP_DESC`.

Where the code and its design description differ, the model follows the code:
- The router's role check is commented out (`src/router/index.js:170-173`). A signed-in user is therefore never sent to `403`, and the session is not cleared on a role mismatch (`Router.RolesNeverRedirect`).
- The session snapshot is taken once, when the module loads. It is not re-read on each navigation.
- The CSRF fetch goes through the same axios instance as every other request. A failed fetch with status 403, or a network error, therefore also passes through the response interceptor, and that drops the session (`Http.CsrfSuccessMiddleware`, `Http.AfterRefresh`).
- A missing token passed to `validateAccessToken` is not refused early. (`undefined < 1` is false.) It reaches the decoder, which decides the outcome.

## Model

| member | source | states |
|---|---|---|
| Auth.TrimToken | src/modules/auth.js:4 | a missing token stays missing; a present one is trimmed |
| Auth.ValidateAccessToken | src/modules/auth.js:3-22 | a token that is blank after trimming gives `false` without decoding; otherwise the call throws exactly when the decoder throws, and gives `true` exactly when `typ`, `alg`, `enc`, `epk.kty` and `epk.crv` are `JWE`, `ECDH-ES+A256KW`, `A256GCM`, `EC` and `P-256` |
| Auth.BlankTokenIgnoresDecoder | src/modules/auth.js:6-9 | a blank token is refused whatever the decoder would return |
| Auth.ExpectedHeaderOnlyChecksFive | src/modules/auth.js:12-17 | two headers that agree on the five checked members are both accepted or both rejected |
| Auth.ChangingOneFieldRejects | src/modules/auth.js:12-17 | from an accepted header, changing any one checked member, or dropping `epk`, makes it rejected |
| Auth.AnyIn | src/modules/auth.js:34-36 | `some(includes)` holds exactly when some element of the first list is in the second |
| Auth.HasPermission | src/modules/auth.js:24-37 | true exactly when both arguments are arrays and share an element (so two non-empty arrays) |
| Auth.PermissionNeedsBothLists | src/modules/auth.js:25-32 | an empty or non-array argument always refuses |
| Auth.PermissionIsSymmetric | src/modules/auth.js:34-36 | swapping the two arguments does not change the answer |
| Auth.HasRouteAccess | src/modules/auth.js:39-56 | true exactly when both are arrays, the user holds some role, and the route lists none or shares one |
| Auth.RouteAccessNeedsRoles | src/modules/auth.js:40-55 | without roles (empty or not an array) there is never route access |
| Auth.UnrestrictedRoute | src/modules/auth.js:44-47 | a route listing no roles admits every user with at least one role |
| Auth.RouteAccessIsPermission | src/modules/auth.js:24-56 | on a route that lists roles, route access and permission agree |
| Utils.IsValidUuid | src/modules/utils.js:3-12 | only a present string of length 36 can be accepted |
| Utils.MatchesAll | src/modules/utils.js:8-11 | an anchored fixed-length pattern matches exactly when the lengths agree and every character is in its position's class |
| Utils.UuidPatternPositions | src/modules/utils.js:9 | the pattern has 36 positions: hyphens at 8, 13, 18, 23, the version class at 14, the variant class at 19, hex elsewhere |
| Utils.UuidPositions | src/modules/utils.js:3-12 | a string is a valid UUID exactly when it has length 36, hyphens at 8/13/18/23, `0`-`5` at 14, one of `089abAB` at 19 and a hex digit of either case everywhere else |
| Utils.UuidNeedsLength36 | src/modules/utils.js:4-6 | a missing value or any other length is refused |
| Utils.FindIndex | src/modules/utils.js:88-90 | `findIndex` gives the first index whose element satisfies the predicate, or -1 when none does |
| Utils.FindIdIndex | src/modules/utils.js:75-81 | -1 for a non-array or an invalid id; otherwise the first index holding the id, or -1 when it is absent |
| Utils.FindIdObjectIndex | src/modules/utils.js:83-91 | the same for the first item whose `id` member is the id |
| Utils.FindIdItem | src/modules/utils.js:93-103 | `null` exactly for a bad argument; `undefined` when no item matches; otherwise the first matching item |
| Utils.FindItemAgreesWithIndex | src/modules/utils.js:83-103 | `findIdItem` returns exactly the item at the index `findIdObjectIndex` reports |
| Utils.Distinct | src/modules/utils.js:127 | `[...new Set(s)]` has the same elements as `s`, no repeats, and is no longer |
| Utils.DistinctPrefix | src/modules/utils.js:127 | the distinct elements of a prefix are a prefix of the distinct elements: the set keeps first occurrences in their order |
| Utils.DistinctOfDistinct | src/modules/utils.js:147 | a sequence without repeats is unchanged by the set round trip |
| Utils.DistinctPair | src/modules/utils.js:126-127 | two equal split pieces collapse into one; two different ones are kept |
| Utils.Insert | src/modules/utils.js:148 | inserting into an ascending sequence keeps it ascending and adds exactly one occurrence of the element |
| Utils.SortAscending | src/modules/utils.js:105-107 | `sort((a, b) => a - b)` is ascending and a permutation of its input |
| Utils.SortIncreasing | src/modules/utils.js:148 | sorting an increasing sequence changes nothing |
| Utils.BoundsOf | src/modules/utils.js:134 | bounds exist only for two numbers with `first < last`; there is no range exactly when one is `NaN` or `first >= last` |
| Utils.RangeOf | src/modules/utils.js:110-134 | the bounds `rangeToList` loops between, or no range; specified by `ShapeRejected`, `ReadBounds`, `DecimalRange`, `TwoPieces` and `LeadingDashCountsFromZero`, and `RangeToList` counts between them |
| Utils.ReadBounds | src/modules/utils.js:126-134 | bounds read from the pieces are strictly ordered |
| Utils.RangeToList | src/modules/utils.js:109-151 | for bounds the model tracks: `[]` when there is no range; otherwise exactly `first, first + 1, ..., last` |
| Utils.Enumerate | src/modules/utils.js:142-144 | the loop pushes `first` to `last` inclusive, one apart |
| Utils.ShapeRejected | src/modules/utils.js:112-119 | empty text, text shorter than 3, and text with no `-` or with two gives `[]` |
| Utils.SplitAtOnlyDash | src/modules/utils.js:112-126 | two digit strings joined by `-` pass the shape checks and split into those two strings |
| Utils.DecimalRange | src/modules/utils.js:109-151 | `"a-b"` for naturals `a` and `b` gives no range when `a == b`; otherwise, when both are safe integers (at most 2^53 - 1), the bounds `a`, `b` when `a < b` and no range when `a > b`; with a larger bound the text is outside the model |
| Utils.DigitsPiece | src/modules/utils.js:129-130 | the decimal digits of `n` read back as `n` when `n` is a safe integer, and as a value outside the model when it is larger |
| Utils.TwoPieces | src/modules/utils.js:127-134 | two pieces holding `a` and `b` give bounds exactly when `a < b` (equal pieces collapse and leave the second bound `NaN`) |
| Utils.LeadingDashCountsFromZero | src/modules/utils.js:110-145 | `"-b"` counts from 0 to `b` when it is at least 3 characters long and `b` is a safe integer, and gives `[]` when it is shorter |
| Utils.IsValidFileSize | src/modules/utils.js:153-161 | true exactly for a finite number, fractions included, greater than 0 and at most 3145728; `NaN`, the infinities and non-numbers give `false` |
| Utils.FileSizeEdges | src/modules/utils.js:153-161 | `0.5` and `1024.5` pass; `0`, `3145728.5`, `NaN`, both infinities and a non-number do not |
| Utils.IsValidMimeType | src/modules/utils.js:163-174 | true exactly for a non-empty string listed in a non-empty array |
| Utils.IsValidFile | src/modules/utils.js:176-185 | true exactly for a `File` whose type and size both pass, so its size is at most 3 MiB and its type is allowed |
| Utils.Basename | src/modules/utils.js:212-218 | `''` for an empty or missing path; otherwise the suffix after the last `/` (all of it without one), which holds no `/` |
| Utils.BasenameIdempotent | src/modules/utils.js:212-218 | the base name of a base name is itself |
| Utils.Extname | src/modules/utils.js:220-226 | the result holds no `.` and no `/`, and is the whole base name when the base name has no `.` |
| Utils.ExtnameEndsBasename | src/modules/utils.js:220-226 | the extension is the suffix of the base name right after its last `.` |
| JsString.Trim | src/modules/utils.js:110 | `trim()` removes exactly surrounding white space: the result is an infix with only white space around it, and neither starts nor ends with white space |
| JsString.TrimEmptyIff | src/modules/auth.js:4-6 | a text trims to nothing exactly when it is all white space |
| JsString.TrimOfTrimmed | src/modules/utils.js:110 | a text that neither starts nor ends with white space is unchanged by trimming |
| JsString.TrimPadded | src/modules/utils.js:110 | white space around a text without white space at its ends is exactly what `trim()` removes |
| JsString.IndexOf | src/modules/utils.js:115 | `indexOf` gives the first occurrence, or -1 when there is none |
| JsString.LastIndexOf | src/modules/utils.js:116 | `lastIndexOf` gives the last index holding the character, or -1 |
| JsString.FirstIsLastIff | src/modules/utils.js:116 | first and last occurrence coincide exactly when the character occurs at most once |
| JsString.Split | src/modules/utils.js:126 | `split(sep)` gives at least one piece; the pieces joined with `sep` are the input, and no piece contains `sep` |
| JsString.SplitFront | vite.config.js:35 | the first piece is the text before the first separator; there are two or more pieces exactly when the separator occurs; the second piece is the first piece of the rest |
| JsString.LastPart | src/modules/utils.js:217 | `split(sep).reverse()[0]` is a suffix without `sep`, with `sep` right before it unless it is the whole text |
| JsString.AfterLast | src/modules/utils.js:217 | for a one-character separator, the suffix after its last occurrence, or the whole text when it does not occur |
| JsString.Substring | vite.config.js:39 | `substring(a, b)` with `0 <= a <= b <= length` is the slice from `a` to `b`; with both bounds at most 0 it is empty (so `substring(0, -1)` is `''`) |
| JsString.NatToDigits | src/modules/utils.js:129-130 | the shortest decimal digits of `n`, which read back as `n`: the text `Number` reads in the range lemmas |
| JsNumber.SafeInteger | src/modules/utils.js:129-130 | a natural is an exact number exactly when it is at most `Number.MAX_SAFE_INTEGER` (2^53 - 1), and then it is itself; it is never `NaN` |
| JsNumber.ToNumber | src/modules/utils.js:129-130 | `Number(s)` on a string; specified by `ToNumberCases`, `PlainNaturalIsLiteral`, `ReadsDecimal` and `NumberIgnoresTrim` |
| JsNumber.ToNumberCases | src/modules/utils.js:129-130 | `Number(s)` is 0 for blank text; it is an exact natural exactly for blank text and for `+`-optional digits whose value is a safe integer, and then it is that value; it is `NaN` exactly for text that is no numeric literal |
| JsNumber.PlainNaturalIsLiteral | src/modules/utils.js:129-130 | digits, optionally preceded by `+`, are a numeric literal |
| JsNumber.ReadsDecimal | src/modules/utils.js:129-130 | a decimal natural with white space around it reads as itself when it is a safe integer, and as a value outside the model when it is larger |
| JsNumber.NumberIgnoresTrim | src/modules/utils.js:129-130 | the explicit `trim()` before `Number` changes nothing |
| Json.LookupLast | src/router/index.js:19 | a member found is one named `key` (the last one wins); none is found only when no member has that name |
| Json.Parse | src/stores/auth.js:19 | `JSON.parse(text)`, `None` where it throws; specified by `RoundTrip` (it undoes `Stringify`), `UnicodeEscape` and `SurrogatePairString` |
| Json.Stringify | src/stores/auth.js:26-31 | `JSON.stringify(v)`; specified by `RoundTrip` (`Parse` gives `v` back) |
| Json.Member | src/router/index.js:19 | only an object has named members |
| Json.LookupAt | src/stores/auth.js:26-31 | the member at a position is found when no later member has its name |
| Json.UnicodeEscape | src/stores/auth.js:19 | an escape read is either 6 characters standing for a character below U+10000 that is no surrogate, or 12 characters (a surrogate pair) standing for one beyond U+FFFF; no escape reads as a lone surrogate |
| Json.PairChar | src/stores/auth.js:19 | a surrogate pair stands for a character beyond U+FFFF whose offset from U+10000 splits into the high and the low surrogate's parts |
| Json.SurrogatePairEscape | src/stores/auth.js:19 | the escapes `\uD83D\uDE00` read as the single character U+1F600 |
| Json.SurrogatePairString | src/stores/auth.js:19 | inside a string literal that pair is one character of the string |
| Json.RoundTrip | src/stores/auth.js:17-32 | `JSON.parse(JSON.stringify(v))` gives back `v` |
| WebStorage.Storage.constructor | src/router/index.js:4 | the storage starts with the given entries |
| WebStorage.Storage.GetItem | src/modules/http.js:16 | `getItem` returns the stored value, or `null` exactly for a missing key |
| WebStorage.Storage.SetItem | src/modules/http.js:37 | `setItem` stores the value under the key; the other entries are unchanged |
| WebStorage.Storage.RemoveItem | src/modules/http.js:54-56 | `removeItem` drops the key; the other entries are unchanged |
| Router.FindRouteIn | src/router/index.js:165 | a name resolves to a route of the table with that name, or to nothing when no route has it |
| Router.FindRoute | src/router/index.js:41-148 | a name looked up in the route table declared at these lines, in order; specified by `FindRouteIn`, `RouteNamesDistinct` and `LoginAndCheckRoutes` |
| Router.RouteNamesDistinct | src/router/index.js:41-148 | the ten routes have ten different names |
| Router.UserRoles | src/router/index.js:15-25 | the roles are never `null`; they are `[]` or the `roles` member of the parsed stored user, and they are that member whenever it is present and not `null` |
| Router.MissingUserHasNoRoles | src/router/index.js:19 | without a stored user (`JSON.parse(null)` is `null`) the roles are `[]` |
| Router.UnparseableUserHasNoRoles | src/router/index.js:18-22 | a stored user that `JSON.parse` rejects gives `[]` |
| Router.StoredRolesAreRead | src/router/index.js:19 | any stored text that parses to an object gives that object's `roles` when it is not `null`, and `[]` when `roles` is missing or `null` |
| Router.RemoveAccessToken | src/router/index.js:6-9 | exactly the token and the user entries are removed |
| Router.Startup | src/router/index.js:4-27 | the session is authenticated exactly when a non-empty token was stored; without one the token and user entries are dropped and the roles are `[]`; otherwise storage is untouched |
| Router.TitleFormat | src/router/index.js:156-158 | for a route with a title, the page title is that title, then ` - `, then the app title; for a route without one it is the app title, then ` - `, then the app description |
| Router.PageTitle | src/router/index.js:156-158 | the text assigned to `document.title`; specified by `TitleFormat` and `TitlesTellPagesApart` |
| Router.Decide | src/router/index.js:160-180 | how the guard calls `next`; specified by `GuestOnPrivatePage`, `GuestOnPublicPage`, `SignedInNavigation`, `RolesNeverRedirect`, `RedirectTarget` and `RedirectSettles` |
| Router.BeforeEach | src/router/index.js:154-181 | one run of the `beforeEach` callback: the title and the decision; specified by `TitleFormat` and the rows for `Decide` |
| Router.TitlesTellPagesApart | src/router/index.js:156-158 | routes with different titles get different page titles |
| Router.GuestOnPrivatePage | src/router/index.js:160-166 | without a session, a non-public target is redirected to `auth_login`, except `auth_login` itself |
| Router.GuestOnPublicPage | src/router/index.js:160-180 | without a session, a public target is let through |
| Router.SignedInNavigation | src/router/index.js:169-180 | with a session, `auth_login` and `auth_register` are sent to `auth_check`, and every other target is let through |
| Router.RolesNeverRedirect | src/router/index.js:169-180 | a route's listed roles never change the guard's decision |
| Router.LoginAndCheckRoutes | src/router/index.js:62-79 | `auth_login` and `auth_check` resolve to their public routes |
| Router.RedirectTarget | src/router/index.js:160-177 | a guest is only redirected to `auth_login`, a signed-in user only to `auth_check` |
| Router.RedirectSettles | src/router/index.js:154-181 | every redirect names a route of the table that the guard then lets through, so a navigation settles after at most one redirect |
| AuthStore.Field | src/stores/auth.js:27-30 | `data?.[key] ?? default` is the member when present and not `null`, and the default otherwise |
| AuthStore.NormalisedUser | src/stores/auth.js:26-31 | the object `setUserData` serialises; specified by `NormalisedUserMembers`, `NormalisedUserHasNoOtherMembers` and `NormaliseIsIdempotent` |
| AuthStore.ReadUser | src/stores/auth.js:17-23 | the parsed text, `null` where parsing throws, and `null` for a missing entry |
| AuthStore.NormalisedUserMembers | src/stores/auth.js:25-32 | the stored profile's four members are the given ones, with `null` or `[]` as defaults |
| AuthStore.NormalisedUserHasNoOtherMembers | src/stores/auth.js:26-31 | the stored profile has no other member |
| AuthStore.UserRoundTrip | src/stores/auth.js:17-32 | `userData` reads back exactly the profile `setUserData` wrote |
| AuthStore.NormaliseIsIdempotent | src/stores/auth.js:25-32 | normalising a stored profile again gives the same profile |
| AuthStore.RouterSeesStoredRoles | src/stores/auth.js:25-32 | the router's `getUserRoles` reads back the roles `setUserData` stored (`[]` when none were given) |
| AuthStore.Store.constructor | src/stores/auth.js:5-7 | the store is a view of the given storage |
| AuthStore.Store.AccessToken | src/stores/auth.js:9-11 | the token is the `access_token` entry, or `null` when it is missing |
| AuthStore.Store.UserData | src/stores/auth.js:17-23 | the user is the parsed `user` entry, and `null` when it is missing or does not parse |
| AuthStore.Store.SetAccessToken | src/stores/auth.js:13-15 | `null`/`undefined` removes the token entry and anything else stores it; the token then reads back as given and the user is unchanged |
| AuthStore.Store.SetUserData | src/stores/auth.js:25-32 | only the user entry changes, to the serialised normalised profile, which then reads back; the token is unchanged |
| AuthStore.Store.Clean | src/stores/auth.js:34-36 | only the token entry is removed; the user entry stays |
| AuthStore.CleanTwice | src/stores/auth.js:34-36 | cleaning twice leaves storage as cleaning once does |
| NavbarStore.NextState | src/stores/navbar.js:12-20 | the next state is always known: `open` exactly after `auto`, `close` exactly after `open`, `auto` after anything else |
| NavbarStore.ThreeTogglesReturn | src/stores/navbar.js:12-20 | three toggles bring a known state back |
| NavbarStore.EachStateHasOnePredecessor | src/stores/navbar.js:12-20 | on known states toggling is one-to-one |
| NavbarStore.ToggledStateCycles | src/stores/navbar.js:6-20 | after one toggle, even from an unexpected persisted text, the state is known and repeats with period three |
| NavbarStore.Navbar.constructor | src/stores/navbar.js:6 | the state is the persisted text, or `auto` when there is none |
| NavbarStore.Navbar.GetState | src/stores/navbar.js:8-10 | the getter returns the current state |
| NavbarStore.Navbar.ToggleState | src/stores/navbar.js:12-20 | the state becomes the next state of the previous one, and is a known state |
| Http.CsrfRefresh | src/modules/http.js:9-34 | a refresh is planned only with an expiry exactly 50 minutes after now, which is later than now and a valid date |
| Http.IsMutating | src/modules/http.js:10-12 | the method test of the request interceptor; specified by `ReadsNeverRefresh` and `RefreshIff` |
| Http.CsrfIsStale | src/modules/http.js:21-25 | the test on the remembered expiry; specified by `RefreshIff` and `FreshExpiryIsKept` |
| Http.ReadsNeverRefresh | src/modules/http.js:10-14 | a request whose method is not `post`, `patch`, `put` or `delete` (or is missing) never refreshes |
| Http.RefreshIff | src/modules/http.js:16-34 | a mutating request refreshes exactly when the remembered expiry is missing, empty, not a date, or before now |
| Http.FreshExpiryIsKept | src/modules/http.js:21-25 | an expiry at or after now causes no refresh |
| Http.RefreshLastsAlmostFiftyMinutes | src/modules/http.js:26-38 | a remembered expiry that reads back at most a second early prevents another refresh for the next 49 min 59 s |
| Http.AfterError | src/modules/http.js:48-61 | a 403 or a network error removes the token, user and csrf entries and keeps every other entry; any other error changes nothing |
| Http.ForcesLogin | src/modules/http.js:50-53 | the 403 or network-error test of the response interceptor; specified by `AfterError` and `ForcedLogoutIsIdempotent` |
| Http.PermissionsErrorMiddleware | src/modules/http.js:48-61 | the error is passed on unchanged and storage becomes as `AfterError` says |
| Http.ForcedLogoutIsIdempotent | src/modules/http.js:50-57 | after a forced logout, a further error of any kind changes nothing |
| Http.CsrfSuccessMiddleware | src/modules/http.js:9-46 | the request configuration is returned unchanged; the refresh is the one `CsrfRefresh` plans from the remembered expiry, and storage afterwards is the result of that refresh's fetch ending as given |
| Http.AfterRefresh | src/modules/http.js:35-58 | the storage once the cookie fetch has ended; specified by `CsrfSuccessMiddleware`, `FailedRefreshKeepsStorage` and `RefreshTouchesOnlyCsrf` |
| Http.FailedRefreshKeepsStorage | src/modules/http.js:35-58 | a failed fetch that is neither a 403 nor a network error leaves storage as it was |
| Http.RefreshTouchesOnlyCsrf | src/modules/http.js:35-38 | a successful refresh changes no entry other than `csrf` |
| ViteConfig.Stem | vite.config.js:37-39 | the file name up to its last `.`, which is followed by no other `.`; empty for a name without `.` |
| ViteConfig.PackagePath | vite.config.js:33-35 | the text after the first `node_modules/`, up to the next one, holds no `node_modules/` |
| ViteConfig.FirstSegment | vite.config.js:33-36 | the text before the first `/` (all of it without one) holds no `/` |
| ViteConfig.PackageChunkName | vite.config.js:33-39 | the name built from the text after `node_modules/`; specified by `ChunkName` and `NoDotEndsWithDash` |
| ViteConfig.ManualChunks | vite.config.js:26-40 | the `manualChunks` hook; specified by `NoChunkIff`, `ThrowsIff`, `ChunkName` and `OnlyPackagePathCounts` |
| ViteConfig.NoChunkIff | vite.config.js:29-31 | the hook returns nothing exactly for a module outside the bundle or one whose id does not mention `node_modules` |
| ViteConfig.ThrowsIff | vite.config.js:29-36 | the hook throws exactly for a bundled module that mentions `node_modules` without a following `/` |
| ViteConfig.ChunkName | vite.config.js:26-40 | the name is the package path's first segment, `-`, and the stem of its last segment |
| ViteConfig.OnlyPackagePathCounts | vite.config.js:33-39 | two ids with the same package path get the same name |
| ViteConfig.NoDotEndsWithDash | vite.config.js:37-39 | a last segment without `.` leaves the name ending right after the `-` |

## Left out

- Formatters: `formatNumber`, `formatCurrency`, `formatDateTime` and `formatFileSize` depend on `Intl` locale data and on floating point.
- `isValidDate`: it is folded into the parameter `parseDate`, which returns `None` for an invalid date.
- Utils.RangeToList: its precondition also excludes bounds above `Number.MAX_SAFE_INTEGER` (2^53 - 1). `Number` rounds such digits to the nearest double, so `"9007199254740992-9007199254740993"` gives two equal bounds and `[]`, and a bound that becomes `Infinity` makes the loop run forever. The model marks those texts as untracked rather than computing the rounding.
- Utils.DigitsPiece: states the read-back only for safe integers; for larger `n` the rounded double `Number` gives is not modelled.
- Utils.LeadingDashCountsFromZero: covers only a safe-integer `b`, for the same reason.
- Utils.DecimalRange: gives no bounds when either natural is above the safe limit, for the same reason.
- JsNumber.ToNumberCases: digits whose value is above the safe limit give a value outside the model, not the rounded double.
- JsNumber.ReadsDecimal: a natural above the safe limit reads as a value outside the model, not the rounded double.
- Utils.RangeToList: its precondition excludes bounds written as numeric literals other than plain naturals (a fraction, an exponent, `Infinity`, `0x` integers). JavaScript reads those as floating-point numbers, and the model does not track floats. A piece of `split('-')` never holds a `-`, so every bound `Number` reads is `NaN` or non-negative, and `Math.abs` changes none of them; the model leaves it out.
- Utils.RangeToList: the `console.warn` for lists of 1000 or more numbers is not modelled.
- Utils.RangeToList: the `Array.isArray(str)` branch is not modelled. It cannot be taken, because `str` is a string by then.
- Utils.RangeToList: the model does not apply `trim()` to the pieces separately. `Number` trims its argument itself (`JsNumber.NumberIgnoresTrim`).
- Utils.IsValidFileSize: a finite size is an exact `real`. Every finite double is one, so the two comparisons agree with JavaScript's; how a caller's value was rounded to a double before the call is not modelled.
- Auth.ValidateAccessToken: the JOSE decoder (`decodeProtectedHeader`) is a parameter. Base64url decoding of the header and all cryptography are not part of this model.
- `console` output is not modelled, and neither is the assignment `token = null` after the check, which has no observable effect.
- Reactivity is not modelled. This covers Pinia's store machinery, Vue's `computed` and `@vueuse/core`'s `useStorage` listeners. Each persisted ref and its storage entry are treated as one value. Writing `null` removes the entry.
- Time and asynchrony in the interceptors:
  - The CSRF `GET` is asynchronous; the model runs it to the given outcome before the interceptor returns.
  - The two `new Date()` readings are one instant, `now`.
  - `setHours` is taken as exactly 50 minutes later; a daylight-saving change in the local time zone is not modelled.
- The endpoint URL and the request's other configuration fields are carried unchanged and not looked at.
- `window.location.reload()` after a forced logout is not modelled; only its effect on storage is.
- The router:
  - The lazy `component` imports and the commented-out dashboard and role-check code (`src/router/index.js:29-37, 170-173`) are not modelled.
  - The route table's `path` patterns are kept as text; vue-router's path matching is not modelled.
- JSON numbers are integers only. Fractions and exponents do not occur in the stored profiles.
- Json: `Num` holds any integer exactly. JavaScript reads every JSON number into a double, so `JSON.parse` rounds integers beyond 2^53 - 1 in magnitude (`9007199254740993` reads as 9007199254740992), and `JSON.stringify` writes magnitudes of 10^21 and more with an exponent (`1e+21`). `Parse`, `Stringify` and `Json.RoundTrip` agree with JavaScript on numbers only for the safe integers. In the stored profile `first_name`, `last_name` and `email` are whatever the caller passed, `null` by default, and `roles` is the caller's value, `[]` by default; only a number among them would be affected.
- JSON strings are sequences of Unicode scalar values, Dafny's `char`, not of UTF-16 code units as in JavaScript. An escaped high surrogate followed by an escaped low one decodes to one character. A lone surrogate escape is accepted by `JSON.parse` but is refused by the model, because no `char` represents it. String lengths count characters, not UTF-16 units.
- The navigation bar store's persistence is the constructor's argument. Writes back to storage are not modelled.
- The build configuration other than `manualChunks` (plugins, aliases, output options) is not modelled.
