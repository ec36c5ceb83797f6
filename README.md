# nlw-spacetime server routes, modelled in Dafny

This project models the three route files of the nlw-spacetime server, a
small "memories" web application. Users sign in with GitHub, then create,
list, read, update and delete memories. A memory is a short text with a
media URL, and it can be public. A separate route stores an uploaded image
or video and answers its URL.

- `schema.dfy` (module `Schema`) holds the request values and the schema
  checks the routes run before any lookup. Values are JSON. The checks are
  a string field, a number field, a boolean coerced from any value with a
  default of false, and a UUID-shaped string.
- `memories.dfy` (module `Memories`) holds the memory table, a map from
  memory id to record. The rules of the five memory routes are pure
  functions: `ReadReply`, `CreateOutcome`, `UpdateOutcome`,
  `DeleteOutcome`, and for listing the query `ByCreation` and the
  projection `ListItems`. The class `MemoryTable` holds the table and
  runs each route as a method. A method that changes the table is proved
  to leave exactly the table its rule function gives. Lemmas relate the
  routes: a created, updated or deleted memory is what a later read sees,
  and a route run by one user never changes another user's rows or list.
- `auth.dfy` (module `Auth`) models registration. `ResolveProfile` covers
  the code check, the GitHub round trip (a parameter) and the profile
  schema. `FindOrCreate` covers the find-or-create on the user table,
  which is keyed by the unique GitHub id. `TokenFor` builds the token
  payload. The class `UserTable` runs the route imperatively, and lemmas
  prove that it is idempotent on the GitHub id and never refreshes a
  stored user.
- `upload.dfy` (module `Upload`) models the upload route as pure string
  logic. It covers the MIME-type pattern, the extension of the client
  file name, the stored name and the answered URL.

Each memory route runs for the requester whose verified session token has
subject `sub`. The route hook verifies the token (server/src/routes/memories.ts:8-10),
so every handler here takes `sub` as a parameter.

The store and the server supply several values: fresh memory and user
ids, the creation timestamp, the GitHub profile, the URL check on
`avatar_url`, the multipart parser and the upload UUID. Each of these
appears in the model as a parameter. A fresh memory or user id comes with a
`requires` saying it is not yet in use.

Behaviour of the route code that a reader might not expect, and that the
model keeps:

- Every list excerpt ends in `"..."`, even for bodies of 115 characters or
  fewer.
- A missing row is not answered as "not found". The lookup throws, and the
  model records that as the failure `NotFound`. A malformed id or body also
  throws and becomes `InvalidId` or `InvalidBody`. Only the ownership and
  visibility refusals are the handler's own 401 reply (`Unauthorized`).
- The list route returns only the requester's own memories. It has no
  public listing.
- The profile schema accepts empty `login` and `name` strings.
- The upload route is defined, but server/src/server.ts:18-19 does not
  register it.

## Model

| member | source | states |
|---|---|---|
| Schema.StringField | server/src/routes/memories.ts:53-59 | a `z.string()` field is present exactly when the body is an object whose field holds a JSON string, and it yields that string |
| Schema.NumberField | server/src/routes/auth.ts:37-44 | a `z.number()` field is present exactly when the object's field holds a JSON number, and it yields that number |
| Schema.CoercedBool | server/src/routes/memories.ts:56 | `z.coerce.boolean().default(false)`: false when the field is absent, otherwise the JavaScript truthiness of the value |
| Schema.Truthy | server/src/routes/memories.ts:56 | a JSON value coerces to false exactly when it is `null`, `false`, `0` or the empty string, and to true otherwise |
| Schema.IsUuid | server/src/routes/memories.ts:33 | `z.string().uuid()`, as the version-independent 8-4-4-4-12 hexadecimal layout: an accepted id has 36 characters, dashes exactly at positions 8, 13, 18 and 23, and hexadecimal digits everywhere else |
| Schema.UuidHasNoSlash | server/src/routes/upload.ts:34-37 | a UUID-shaped string holds no path separator |
| Memories.ParseMemoryBody | server/src/routes/memories.ts:53-59 | the body is accepted exactly when `text` and `mediaUrl` are strings; it then yields them and `isPublic` as the truthiness of the supplied value, false when omitted; otherwise it fails with `InvalidBody` |
| Memories.Excerpt | server/src/routes/memories.ts:26 | the excerpt is a prefix of the text of length min(115, length of text) followed by `"..."` (length min(115, length of text) + 3); a text of at most 115 characters is kept whole and still gets the marker |
| Memories.ListItems | server/src/routes/memories.ts:22-28 | one item per listed memory, in the same order, with that memory's id, media URL and excerpt |
| Memories.ByCreation | server/src/routes/memories.ts:13-20 | the answer holds every row whose owner is `sub`, each once, no other row, each as stored, in ascending `createdAt` order |
| Memories.ListingDependsOnOwnRows | server/src/routes/memories.ts:13-20 | whether a sequence answers `u`'s list query depends only on the rows `u` owns |
| Memories.ReadReply | server/src/routes/memories.ts:31-50 | a read succeeds exactly when the id is a UUID, the row exists and is public or owned by the requester, and then returns the row whole and unchanged; a non-UUID id fails before lookup, a missing id fails with `NotFound`, a private row read by a non-owner gives 401 and never the record |
| Memories.CreateOutcome | server/src/routes/memories.ts:52-71 | a bad body fails with the table unchanged; otherwise exactly one row is added under the fresh id, owned by the requester, with the supplied text, media URL and visibility and the store's timestamp, and every existing row is kept as it was |
| Memories.Replaced | server/src/routes/memories.ts:97-106 | the updated row keeps its id, owner and creation time and takes text, media URL and visibility from the parsed body |
| Memories.UpdateOutcome | server/src/routes/memories.ts:73-109 | checks run in the source's order (id, body, lookup, owner), and each failure leaves the table unchanged; a non-owner gets 401; the owner's update replaces exactly text, media URL and visibility (false when omitted), keeps id, owner and creation time, and leaves every other row unchanged |
| Memories.DeleteOutcome | server/src/routes/memories.ts:111-132 | a delete succeeds exactly when the id is a UUID, the row exists and the requester owns it; a non-UUID id, a missing id or a non-owner fails with the table unchanged (the last with 401); the owner's delete removes exactly that id and keeps every other row |
| Memories.OthersRowsUntouched | server/src/routes/memories.ts:93-95 | no create, update or delete run by `sub` changes the set of rows another user owns, or any of those rows |
| Memories.OthersListingUnchanged | server/src/routes/memories.ts:12-20 | after any create, update or delete by `sub`, another user's previous list answer is still a correct answer |
| Memories.CreateThenRead | server/src/routes/memories.ts:45-70 | after a create, the owner reads back exactly the created record; if it is private, any other reader gets 401 |
| Memories.UpdateThenRead | server/src/routes/memories.ts:97-108 | after a successful update, the owner's read returns the updated record |
| Memories.DeleteThenRead | server/src/routes/memories.ts:111-132 | the owner's delete of an existing memory succeeds, and afterwards every reader's lookup of that id fails with `NotFound` |
| Memories.CreateAppendsToListing | server/src/routes/memories.ts:13-20 | when the clock does not run backwards, the previous list followed by the new memory is a correct answer to the owner's list query after a create |
| Memories.MemoryTable.List | server/src/routes/memories.ts:12-29 | the list response is the projection, item by item, of some sequence holding exactly the requester's rows, each once, in ascending creation order |
| Memories.MemoryTable.Read | server/src/routes/memories.ts:31-50 | the handler answers what `ReadReply` gives for the current table |
| Memories.MemoryTable.Create | server/src/routes/memories.ts:52-71 | the reply and the new table are those of `CreateOutcome` on the old table, and the table stays well keyed |
| Memories.MemoryTable.Update | server/src/routes/memories.ts:73-109 | the reply and the new table are those of `UpdateOutcome` on the old table |
| Memories.MemoryTable.Delete | server/src/routes/memories.ts:111-132 | the reply and the new table are those of `DeleteOutcome` on the old table |
| Auth.ValidateProfile | server/src/routes/auth.ts:37-44 | a profile passes exactly when it has a numeric `id`, string `login` and `name`, and a string `avatar_url` that parses as a URL; the fields are then copied unchanged |
| Auth.ResolveProfile | server/src/routes/auth.ts:8-44 | a body without a string `code` stops before GitHub is called; a failed GitHub round trip stops; a malformed profile stops; otherwise it yields the validated profile |
| Auth.FindOrCreate | server/src/routes/auth.ts:47-63 | an existing user with that GitHub id is returned as stored with the table unchanged; otherwise exactly one user is added under the fresh id, copying GitHub id, login, name and avatar URL from the profile; the table grows by at most one, existing users are kept, and GitHub ids and local ids stay unique |
| Auth.TokenFor | server/src/routes/auth.ts:66-72 | the token subject is the local user id, and the `name` and `avatarUrl` claims are the stored user's |
| Auth.RegisterOutcome | server/src/routes/auth.ts:7-77 | any failure before the lookup leaves the table unchanged and creates no user; on success the token belongs to the stored user with the profile's GitHub id, the table grows by at most one, and an existing user's table is unchanged |
| Auth.RegisterTwiceSameSubject | server/src/routes/auth.ts:47-63 | two registrations resolving to the same GitHub id issue the same token subject, the second leaves the table as the first left it, and the table grows by at most one user over both |
| Auth.ReturningUserClaimsAreStored | server/src/routes/auth.ts:47-72 | a returning user's token carries the stored id, name and avatar, not the fresh profile's |
| Auth.FirstRegistrationCreatesUser | server/src/routes/auth.ts:54-72 | a first registration adds exactly the one user copied from the profile, and the token's subject is its new id |
| Auth.UserTable.Register | server/src/routes/auth.ts:7-77 | the route's answer and new user table are those of `RegisterOutcome` on the old table |
| Upload.AcceptsMimeType | server/src/routes/upload.ts:28 | an accepted MIME type has a seven-character prefix, `image/` or `video/` followed by one ASCII letter, that is already a word of the pattern, so anything may follow it |
| Upload.AcceptsMimeTypeMeansPrefixMatch | server/src/routes/upload.ts:11 | a MIME type is accepted exactly when some prefix of it is a word of `image/` or `video/` followed by one or more ASCII letters; with no end anchor, one letter after the slash is enough |
| Upload.MimeTypeExamples | server/src/routes/upload.ts:28 | `image/png`, `video/mp4` and `image/svg+xml` are accepted; `application/pdf`, `image/` and `image/1png` are refused |
| Upload.TrimmedEnd | server/src/routes/upload.ts:35 | trailing separators of the client name are ignored when its extension is taken |
| Upload.LastIndexOf | server/src/routes/upload.ts:35 | the result is the position of the last occurrence of the character, or -1 when there is none |
| Upload.ComponentStart | server/src/routes/upload.ts:35 | the last path component starts at the beginning of the name or right after a separator, and runs to the trimmed end with no separator in it, so it starts right after the last separator |
| Upload.LastComponent | server/src/routes/upload.ts:35 | the last path component holds no separator |
| Upload.ComponentExtension | server/src/routes/upload.ts:35 | the extension of a component is non-empty exactly when the component is not `..` and has a dot after its first character; it is then the suffix that starts at the component's last dot |
| Upload.Extname | server/src/routes/upload.ts:35 | the extension of the client name is non-empty exactly when its last component is not `..` and has a dot after its first character; it is then that component's suffix from its last dot |
| Upload.ComponentExtensionExamples | server/src/routes/upload.ts:35 | `photo.png` gives `.png`, `b.tar.gz` gives `.gz`, `a.` gives `.`, and `.bashrc`, `README` and `..` give no extension |
| Upload.NestedNameExample | server/src/routes/upload.ts:35 | the last component of `a/b.tar.gz` is `b.tar.gz`, and its extension is `.gz` |
| Upload.DotInFolderExample | server/src/routes/upload.ts:35 | a dot in an earlier component gives no extension: `d.x/f` has none |
| Upload.TrailingSlashExample | server/src/routes/upload.ts:35 | trailing separators are dropped first: `a.t/` has extension `.t` |
| Upload.ComponentExtensionShape | server/src/routes/upload.ts:35 | the extension of a separator-free component is empty or a dot followed by no other dot and no separator |
| Upload.ExtnameShape | server/src/routes/upload.ts:35 | the extension is empty or a dot with no other dot and no separator after it, and it is the end of the client name, trailing separators aside |
| Upload.StoredFileName | server/src/routes/upload.ts:37 | the stored name is the fresh id followed by the client name's extension, and nothing else |
| Upload.StoredFileNameShape | server/src/routes/upload.ts:34-37 | the stored name is the fresh UUID followed by the client name's extension, takes nothing else from the client name, and has no separator |
| Upload.FileUrl | server/src/routes/upload.ts:53-56 | the URL string starts with the request protocol and ends in `/uploads/` followed by the stored name |
| Upload.FileUrlLastSegment | server/src/routes/upload.ts:53-56 | the string the URL is built from is `protocol://hostname/uploads/` followed by the stored name, and everything after its last `/` is exactly that name |
| Upload.Upload | server/src/routes/upload.ts:17-58 | the parser is called with the 5,242,880-byte limit; a request with no file or with a refused MIME type gets 400 and nothing is stored or named; otherwise the file is stored under the fresh UUID plus the extension and its URL is answered |
| Upload.UploadStoresUnderFreshName | server/src/routes/upload.ts:28-56 | an accepted upload had an accepted MIME type; it is stored inside the uploads folder under the fresh id and the client's extension, and everything after the last `/` of the URL string is that name |

## Left out

- Database I/O is not modelled. The memory and user tables are maps, and ids and timestamps are parameters from the store.
- The store's unique constraint on the GitHub id is built into the user table's key. The race between two concurrent first registrations is outside this sequential model.
- The foreign key from a memory's owner to the user table is not modelled.
- The two GitHub HTTP calls (server/src/routes/auth.ts:16-35) are one parameter, `fetchProfile`, which returns no profile when either call fails.
- Token signing, verification and expiry (`JWT_EXPIRES_IN`) are not modelled. The token is its payload, and a verified request is its subject `sub`. A request with a bad token is refused by the hook before any handler runs, and no handler here sees it.
- Auth.ValidateProfile: the URL check on `avatar_url` is the parameter `isUrl`, because the URL parser is library code.
- Schema.NumberField: JSON numbers are integers. A non-integral `id` or `isPublic` number is not modelled.
- Memories.Excerpt: characters are counted as Unicode scalar values. JavaScript counts UTF-16 code units, so the two differ for text outside the Basic Multilingual Plane.
- Memories.ByCreation: the store's `orderBy` is modelled as taking the earliest remaining row each time. Rows with the same `createdAt` may come in any order, as in the store.
- The failure kinds `InvalidId`, `InvalidBody` and `NotFound` are thrown and reach the framework's error handler. The status that handler sends is not modelled.
- Upload.Extname: it follows POSIX path rules. Backslash separators are not modelled.
- Upload.FileUrl: URL normalisation is not modelled, such as percent-encoding of unusual characters in the extension or lowercasing of the host.
- Upload.FileUrlLastSegment and Upload.UploadStoresUnderFreshName: they speak of the string the URL is parsed from, not of the parsed URL's path. A client name such as `a.png?x` or `a.png#x` gives the extension `.png?x` or `.png#x`. The stored file keeps that name, but `new URL` at server/src/routes/upload.ts:56 reads the `?` or `#` part as query or fragment, so the answered URL's path ends in `<uuid>.png` and does not name the stored file.
- Upload.Upload: the multipart parser's enforcement of the size limit is not modelled, because its truncate-or-fail behaviour is not visible in the route.
- Upload.Upload: the upload UUID carries no requirement that it is unused; Upload.UploadStoresUnderFreshName requires only that it is UUID-shaped. The model has no uploads folder, so a reused UUID overwriting a stored file (server/src/routes/upload.ts:46-50) is not represented.
- Schema.IsUuid: it checks the 8-4-4-4-12 hexadecimal layout only. No version or variant digit is checked. The source pins no zod release, and some releases of `.uuid()` also check those digits.
- Upload.Upload: creating the uploads folder and streaming the file to disk (server/src/routes/upload.ts:39-50) are not modelled. `Stored` marks that the write happened.
- The web client's middleware, callback route and media picker are not modelled, and neither is the framework wiring in server/src/server.ts.
