# A verified model of the scannablesAR asset registry

The service stores 3D-model assets. An admin uploads a model file, and
optionally a background image, to cloud storage. The service then saves a
record for the asset: name, file URLs, quantity, units sold, view and like
counters, creation time, and a 10-character short id. It answers with a share
link `<frontend>/view/<shortId>`. Visitors fetch a record by short id, which
counts a view, and like or unlike it. Admins edit quantity, units sold and
name, and delete records. Admin routes are guarded by a shared secret sent in
`x-api-key` or `authorization`.

This project models that core as pure functions:

- `Strings` and `JsValues`: the JavaScript semantics the handlers depend on.
  These are `String.prototype.trim` with the ECMAScript whitespace set,
  truthiness, `||`, and the `safeTrim` helper. Request values are
  `Undefined | Null | Num | Str`.
- `UploadNaming`: the storage `params` callback of `uploadMiddleware.js`. It
  covers `path.extname` and `path.basename` on POSIX paths, lower-casing of
  the extension, and sanitising of the stem to `[a-zA-Z0-9-]`. It builds the
  public id `<now>-<stem><ext>`.
- `AssetModel`: the record of `models/Model.js` together with the fields the
  handlers write. The store is a map from short id to record, and `save()`
  covers required-field validation and the unique short-id index.
- `Handlers`: every route of `app.js` as a transition from store and request
  to response and new store. This covers the admin gate, upload, edit, fetch
  (counts a view), like, delete, and the newest-first listing (a method with
  a loop).
- `HandlerProperties`: properties across handlers and request sequences:
  - what the gate accepts;
  - how views and likes accumulate;
  - every reachable store stays valid;
  - identity fields never change;
  - only upload and delete change which short ids exist.

The id generator (`nanoid(10)`) and the clock (`Date.now()`) are parameters.
The result of the storage upload is an input: the stored files' URLs and
original names, or an upload error.

Three points are worth knowing when reading the model:

- A short id already in use makes `save()` fail and the upload answers 500.
  The code makes no second attempt with a fresh id, and neither does the model.
- Quantity and units sold are kept as app.js writes them, whether a form
  string, a JSON number or `null`, and nothing enforces non-negative
  integers. This is a modelling choice: `qty`, `sold` and `bgUrl` are not
  declared in models/Model.js, so under Mongoose's default strict mode the
  program does not store them at all. The model keeps these undeclared
  fields (see "## Left out").
- A like count follows a walk floored at 0 after every step. That is not
  `max(0, sum of deltas)`: `ClampedWalkIsNotClampedSum` shows an unlike then
  a like from 0 ends at 1, not 0.

## Model

| member | source | states |
|---|---|---|
| Strings.Trim | app.js:31 | the trimmed string has no ECMAScript whitespace or line terminator at either end and is no longer than the input |
| Strings.TrimCutsWhitespace | app.js:31 | the trimmed string is a contiguous piece of the input, and everything cut off before and after it is whitespace |
| Strings.TrimPadded | app.js:31 | for any whitespace padding around a string with no whitespace at its ends, trim gives back exactly that string |
| Strings.TrimOfTrimmed | app.js:31 | a string without whitespace at either end is its own trim |
| Strings.TrimAllWhitespace | app.js:31 | a string of whitespace only trims to the empty string |
| Strings.TrimIdempotent | app.js:31 | trimming twice is the same as trimming once |
| Strings.ToLowerAscii | uploadMiddleware.js:10 | lower-casing keeps the length and maps each character to its lower-case form (A-Z only) |
| Strings.NatToDecimal | uploadMiddleware.js:16 | the rendering of the upload time is a non-empty run of digits with no leading zero unless the time is 0 |
| Strings.DecimalRoundTrip | uploadMiddleware.js:16 | reading the decimal rendering back gives the number |
| Strings.DecimalInjective | uploadMiddleware.js:16 | different times render differently |
| JsValues.SafeTrim | app.js:31 | a string is trimmed and any other value gives `""`; the result has no whitespace at its ends, is no longer than the input, and is empty for an all-whitespace string |
| JsValues.SafeTrimPadded | app.js:31 | whitespace around a trimmed string does not change what `safeTrim` returns |
| UploadNaming.StripTrailingSlashes | uploadMiddleware.js:10-11 | the path minus exactly its final run of `/` (a prefix ending in some other character) |
| UploadNaming.AfterLastSlash | uploadMiddleware.js:10-11 | the ending of the path after its last `/`, with no `/` in it |
| UploadNaming.LastSegment | uploadMiddleware.js:10-11 | the last path segment is the ending of the path with its trailing `/` run removed, holds no `/`, and is preceded there by a `/` unless it is the whole of it |
| UploadNaming.LastDot | uploadMiddleware.js:10 | the position of the last `.`, or none when there is no `.` |
| UploadNaming.SegmentExt | uploadMiddleware.js:10 | a non-empty extension is a proper ending of the segment that starts with its only `.`; there is no extension exactly when the segment is `..` or has no `.` after its first character |
| UploadNaming.ExtName | uploadMiddleware.js:10 | `path.extname` of a path is the extension of its last segment: when non-empty, a proper ending of that segment starting with `.` (SegmentExt states the rest) |
| UploadNaming.CutSuffix | uploadMiddleware.js:11 | `path.basename` with a suffix gives the segment unchanged, or the segment minus that non-empty suffix |
| UploadNaming.BaseName | uploadMiddleware.js:11 | `path.basename(p, ext)` is the last segment, or the last segment minus the non-empty suffix, and holds no `/` (CutSuffix and the segment lemmas state when it cuts) |
| UploadNaming.Sanitize | uploadMiddleware.js:11-12 | the sanitised stem has the same length, holds only `[a-zA-Z0-9-]`, and keeps every letter and digit in place |
| UploadNaming.LowerExt | uploadMiddleware.js:10 | the result is `path.extname` of the name with each character lower-cased in place: same length, no upper-case letter, empty or starting with `.` |
| UploadNaming.Stem | uploadMiddleware.js:11-12 | the stem holds only safe characters and is as long as the base name with the extension cut off |
| UploadNaming.Params | uploadMiddleware.js:14-18 | the folder is always `3d-models` and the resource type always `raw`, whatever the file |
| UploadNaming.ExtShorterThanSegment | uploadMiddleware.js:10-11 | the extension passed to `basename` is shorter than the last segment and never the whole name |
| UploadNaming.SanitizeReplacesWithDash | uploadMiddleware.js:12 | every character outside `[a-zA-Z0-9]` becomes `-` |
| UploadNaming.SanitizeFixesSafe | uploadMiddleware.js:12 | a string of safe characters is left unchanged |
| UploadNaming.SanitizeIdempotent | uploadMiddleware.js:12 | sanitising an already sanitised stem changes nothing |
| UploadNaming.SegmentMatchingExtensionIsCut | uploadMiddleware.js:10-11 | on one segment, a lower-case extension is cut off and stem plus extension rebuild the segment |
| UploadNaming.SegmentUnmatchedExtensionStays | uploadMiddleware.js:10-11 | on one segment, an extension that lower-casing changes is non-empty and cuts nothing |
| UploadNaming.SegmentExtensionDotDashed | uploadMiddleware.js:10-12 | sanitising a segment turns the dot that opens its extension into `-` |
| UploadNaming.MatchingExtensionIsCut | uploadMiddleware.js:10-11 | when the extension is already lower case, base name plus extension gives back the last segment |
| UploadNaming.UpperCaseExtensionStays | uploadMiddleware.js:10-12 | for an extension such as `.GLB`, nothing is cut and the stem is the whole last segment sanitised |
| UploadNaming.UpperCaseExtensionDotDashed | uploadMiddleware.js:10-12 | for such an extension, the stem's character where the extension began is `-` |
| UploadNaming.PublicIdStartsWithTime | uploadMiddleware.js:16 | the public id opens with the decimal time, which reads back as `now`, then a `-` |
| UploadNaming.PublicIdEndsWithExtension | uploadMiddleware.js:16 | the public id ends with the lower-cased extension |
| UploadNaming.PublicIdHoldsStem | uploadMiddleware.js:16 | between the `-` and the extension the public id holds exactly the sanitised stem |
| UploadNaming.PublicIdParts | uploadMiddleware.js:16 | the public id splits into time, `-`, stem and extension, and has their lengths combined |
| UploadNaming.PublicIdDeterminesTime | uploadMiddleware.js:16 | two equal public ids come from the same upload time |
| AssetModel.Required | models/Model.js:6-7 | a required String path accepts exactly the truthy values and the number 0, which is cast to the non-empty string "0"; `undefined`, `null` and `""` fail |
| AssetModel.NewRecord | models/Model.js:8-10 | a new record gets the fresh 10-character short id, 0 views, 0 likes and the creation time; the other fields are as given |
| AssetModel.Insert | models/Model.js:6-8 | saving fails on a missing or empty name or url, then on a short id already in use, leaving the store as it was; otherwise exactly the one record is added |
| AssetModel.InsertPreservesValid | models/Model.js:6-9 | inserting a freshly built record keeps every record valid and under its own short id |
| AssetModel.ShortIdsUnique | models/Model.js:8 | in a valid store, no two records share a short id |
| Handlers.PresentedToken | app.js:35 | the presented token has no whitespace at its ends; it is the trimmed `x-api-key` when that is non-empty, and empty when neither header is sent (PresentedTokenSource gives the `authorization` case) |
| Handlers.ConfiguredSecret | app.js:40 | the configured secret is the trimmed `ADMIN_TOKEN`, or empty when it is unset |
| Handlers.FrontendBase | app.js:81 | the link base is `FRONTEND_BASE_URL` when it is set and non-empty, and `http://localhost:5173` otherwise; it is never empty |
| Handlers.CheckAdmin | app.js:34-45 | passes exactly when the presented token is non-empty and equal to the configured secret; "Missing admin token" exactly when it is empty; otherwise "Invalid admin token" |
| Handlers.Denied | app.js:36-43 | a rejected admin request is answered 401 and the store is untouched |
| Handlers.FileUrl | app.js:63-66 | a stored file's URL is its `path` when that is truthy, and its `secure_url` otherwise; it is truthy exactly when one of the two is |
| Handlers.BuildRecord | app.js:63-77 | name is the form's name when truthy, else the file's original name; url from `path` or else `secure_url`; bgUrl `""` without a background file; qty and sold default to 100 and 0 when falsy; plus the schema defaults |
| Handlers.StripTrailingSlash | app.js:81 | at most one trailing `/` is removed from the base |
| Handlers.ViewLink | app.js:81-82 | the link ends in `/view/<shortId>`; cutting that ending gives back the base without its trailing `/` when it had one, and the base itself otherwise |
| Handlers.Upload | app.js:53-88 | 401 from the gate, 400 on an upload error, 400 without a model file, 500 "Server error" when the save fails (a missing name or url, or a short id in use), otherwise 201 with the new record and its link; only 201 changes the store, and it adds exactly the new record |
| Handlers.ApplyPatch | app.js:95-99 | qty and sold are replaced whenever present, even as 0 or null; name only when truthy; no other field changes |
| Handlers.Patch | app.js:93-107 | 401 from the gate; 404 for an unknown id with the store untouched; otherwise the patched record is stored and returned, and every other record is unchanged |
| Handlers.Fetch | app.js:124-135 | the record comes back with one more view, which is stored; no other record changes; 404 for an unknown id, creating nothing |
| Handlers.LikeDelta | app.js:146 | the delta is always 1 or -1, and -1 exactly when `change` is the number -1 |
| Handlers.Like | app.js:143-155 | likes become max(0, old + delta), are never negative, and are the answer; no other field or record changes; 404 for an unknown id |
| Handlers.LikeUndeclaredCount | app.js:148-155 | with `likes` not declared in the schema, the store never changes and, whatever the stored count, a like answers 1 and an unlike 0; 404 for an unknown id |
| Handlers.Delete | app.js:162-168 | 401 from the gate; 404 for an unknown id; otherwise exactly that record is removed, the rest untouched, and the answer is success |
| Handlers.InsertPosition | app.js:115 | the insertion point in a newest-first list comes after every record at least as new and before every older one |
| Handlers.InsertKeepsNewestFirst | app.js:115 | inserting at that point keeps the list newest first |
| Handlers.ListModels | app.js:112-116 | the answer is 200 with every stored record exactly once, ordered by creation time, newest first |
| HandlerProperties.PresentedTokenSource | app.js:35 | the token is the trimmed `x-api-key` when it is non-empty, else the trimmed `authorization` when that is non-empty, else empty |
| HandlerProperties.BlankSecretRejectsAll | app.js:40 | with the secret unset or all whitespace, every request is rejected |
| HandlerProperties.WhitespaceApiKeyShadowsAuthorization | app.js:35-38 | an `x-api-key` value that reaches the handler non-empty but all whitespace (such as U+00A0, which Node's parser keeps) hides `authorization`, and the request is rejected as missing its token |
| HandlerProperties.PaddedKeyAccepted | app.js:35-44 | whitespace around the presented key or the configured secret does not matter |
| HandlerProperties.BearerSchemeRejected | app.js:40-43 | `authorization: Bearer <secret>` is not the secret and is rejected as invalid |
| HandlerProperties.TrimmedSecretIsConfigured | app.js:40 | a secret without surrounding whitespace is used as it is |
| HandlerProperties.BearerTokenPresented | app.js:35 | a `Bearer <secret>` header is presented whole, scheme included |
| HandlerProperties.TrimmedAuthorizationPresented | app.js:35 | without `x-api-key`, a trimmed `authorization` value is the token presented |
| HandlerProperties.UploadThenFetch | app.js:126-135 | a record just uploaded is found under the short id it was returned with, with one view |
| HandlerProperties.UploadStoresCreated | app.js:79-84 | a successful upload stores the record it answers with, under the fresh id, with no views |
| HandlerProperties.FirstFetch | app.js:131 | the first fetch of a record without views answers it with one view |
| HandlerProperties.FetchTimesCountsEveryView | app.js:131-132 | n fetches in a row raise the view count by exactly n and change nothing else |
| HandlerProperties.ClampedWalkBounds | app.js:152 | from a non-negative count, the floored walk never ends below 0 nor below start plus the sum of the deltas |
| HandlerProperties.ClampedWalkOfIncrements | app.js:152 | with only +1 deltas, the floor never matters and the count is the start plus their number |
| HandlerProperties.ClampedWalkIsNotClampedSum | app.js:152 | an unlike then a like from 0 ends at 1 while max(0, sum) is 0 |
| HandlerProperties.Deltas | app.js:146 | each like request stands for its normalised delta |
| HandlerProperties.LikesFollowClampedWalk | app.js:146-154 | any sequence of likes and unlikes leaves the count at the floored walk of its deltas, never negative, with nothing else changed |
| HandlerProperties.UnlikeAtZeroStaysZero | app.js:152 | an unlike at 0 answers 0, not -1 |
| HandlerProperties.StringMinusOneIsALike | app.js:146 | the string "-1" counts as a like, since only the number -1 unlikes |
| HandlerProperties.TwoLikesCountTwo | app.js:152-155 | with `likes` stored, two likes of a new record answer 1 and then 2 |
| HandlerProperties.UndeclaredLikesDoNotAccumulate | app.js:152-155 | with `likes` not declared in the schema, after any earlier likes a like answers 1 and an unlike 0 |
| HandlerProperties.UndeclaredLikesKeepStore | app.js:154 | with `likes` not declared in the schema, like requests never change the store |
| HandlerProperties.PatchSoldOnly | app.js:97-99 | an edit with only `sold` changes `sold` and nothing else |
| HandlerProperties.PatchFalsyValues | app.js:97-99 | 0 and null are applied to qty and sold while an empty name is ignored |
| HandlerProperties.DeleteThenFetch | app.js:164-168 | after a delete the record is gone and fetching it answers 404 |
| HandlerProperties.EndToEndScenario | app.js:69-77 | uploading `model.glb` with `qty=50` gives name "model.glb", qty "50", sold 0, bgUrl "" and 0 views; two fetches give views 1 and 2; an unlike answers 0 |
| HandlerProperties.ScenarioUpload | app.js:69-77 | the upload step of that scenario: the new record with its defaults, stored under the fresh id |
| HandlerProperties.TwoViewsThenUnlike | app.js:126-155 | two fetches of a record without views or likes count 1 and 2 views, then an unlike answers 0 |
| HandlerProperties.ServePreservesValid | models/Model.js:5-11 | every request keeps each record under its own short id, with name and url present and counts non-negative |
| HandlerProperties.UploadPreservesValid | app.js:71-79 | an upload keeps the store valid |
| HandlerProperties.PatchPreservesValid | app.js:95-105 | an edit keeps the store valid, since a name is only replaced by a truthy one |
| HandlerProperties.FetchPreservesValid | app.js:131-132 | a fetch keeps the store valid |
| HandlerProperties.LikePreservesValid | app.js:152-154 | a like keeps the store valid |
| HandlerProperties.DeletePreservesValid | app.js:165 | a delete keeps the store valid |
| HandlerProperties.ServeKeepsIdentity | models/Model.js:8-10 | no request rewrites the short id, url or creation time of a record it keeps, and views never go down |
| HandlerProperties.UploadKeepsRecords | app.js:71-79 | an upload leaves every record already stored as it was |
| HandlerProperties.ServeMembership | app.js:53-168 | only an upload adds a record, a fresh one, and only a delete removes one, the one named; other requests keep the set of short ids |
| HandlerProperties.DeniedAdminRequestChangesNothing | app.js:34-45 | an admin request that fails the gate is answered 401 before the store is touched |
| HandlerProperties.RunPreservesValid | models/Model.js:5-11 | any sequence of requests from a valid store leaves a valid store |
| HandlerProperties.ReachableStoresAreValid | models/Model.js:5-11 | every store reachable from the empty one is valid: short ids unique, name and url present, counts non-negative |

## Left out

- HTTP plumbing is not modelled: Express routing, CORS, JSON parsing, `dotenv`, the port, `/ping` and the global error handler. A handler's output is its status and payload. Header values are taken as Node's HTTP parser delivers them, which is after leading and trailing spaces and tabs are dropped.
- The MongoDB connection, and the `process.exit` on connection failure, are not modelled.
- The storage upload itself is an input: Cloudinary, multer's multipart parsing, the 100 MB size limit and `cloudinaryConfig.js`. `cloudinaryConfig.js` is not part of this model.
- `nanoid(10)` and `Date.now()` are parameters. The generator's output is only assumed to be 10 URL-safe characters.
- Concurrency is not modelled. Handlers run one at a time, so the lost updates of the read-modify-write in fetch and like are out of scope.
- Catch-all 500 answers for unexpected failures are not modelled, such as a database error during edit, list, fetch, like or delete. Only a failed `save()` in upload is modelled. Logging is left out as well.
- The commented-out storage delete (app.js:167) is not modelled.
- Mongoose type casting and its strict-mode dropping of `bgUrl`, `qty` and `sold` are not modelled: the record keeps every field the handlers write. Under strict mode the program leaves these three fields out of the created `model` it answers with, and an edit of `qty` or `sold` changes nothing stored; the model instead stores and returns them. The dropping of `likes` is under Findings.
- Handlers.ListModels: records with equal creation times may come in any order, as the database leaves their order open.
- UploadNaming.CutSuffix: Node's separate treatment of a suffix at least as long as the last segment is not modelled; ExtShorterThanSegment shows that the extension passed is always shorter. Windows separators are not modelled.
- Strings.ToLowerAscii: only A-Z is lower-cased. JavaScript's full Unicode case mapping is not modelled.
- UploadNaming.Sanitize: a character above U+FFFF (an emoji such as 😀) is one `char` in the model but two UTF-16 code units in JavaScript. The regular expression has no `u` flag, so the program turns such a character into `--` while the model gives one `-`; for a file name like `😀.glb` the model's public id is one character shorter than the program's. Characters of the Basic Multilingual Plane are modelled exactly.
- Request values are `undefined`, `null`, integers and strings only. JSON booleans, arrays and objects are not modelled: a PATCH body `{"qty": false}` would be applied, `{"name": true}` is truthy, and `{"change": true}` counts as a like, none of which the model can express.
- Numbers in request values are integers. Fractions, NaN and Infinity in request bodies are not modelled, nor in the stored counters (`views || 0` with NaN).

## Findings

| source | as written | input that shows it | evidently intended | confidence | as-written member | corrected member |
|---|---|---|---|---|---|---|
| app.js:152-155 | the like handler writes `likes`, which models/Model.js:5-11 does not declare, so under Mongoose's default strict mode the value is never saved and each request reads `undefined \|\| 0` | any stored record: two like requests in a row both answer `{ likes: 1 }` | the count is stored and accumulates: 1, then 2 | not executed; rests on Mongoose's default strict-mode schema behaviour | HandlerProperties.UndeclaredLikesDoNotAccumulate | HandlerProperties.TwoLikesCountTwo |
