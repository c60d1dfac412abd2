# Upload acceptance, stored names and recursive listing of a small Express file server

The file server has two entry files, `server.js` and `app.js`. Each accepts
multipart uploads through multer, and `server.js` can also list every stored
file recursively. This project models the parts of that code with real logic:

- **Allow-list parsing** (`UploadPolicy`). The `ALLOWED_EXTENSIONS` setting is
  split on commas. `server.js` lower-cases every piece and `app.js` keeps the
  raw pieces. If the setting is unset or empty, both lists are `[""]`.
- **The file filter** (`UploadPolicy`). The filter computes `path.extname` of
  the client's file name, lower-cases it and drops its first character. It
  accepts the file exactly when the result is in the list. Otherwise it
  passes the error `Tipo de archivo no permitido` to multer.
- **`path.extname`** (`NodePath`). This is Node's POSIX rule. Trailing slashes
  are ignored and the last segment is used. The extension runs from the last
  dot to the end. It is empty if the segment has no dot, if its only dot is
  the first character, or if the segment is `..`.
- **The stored file name** (`StorageName`). It is
  `fieldname-<Date.now()>-<round(random*1e9)><extname>`. The clock and the
  random value are parameters. `ParseStoredName` reads the parts back.
- **The `/upload` route** (`UploadRoute`). It covers the filter, the 5 MiB
  size limit, the naming and the handler's "no file" check, for both entry
  files.
- **`listFilesRecursively`** (`Listing`). It runs over an abstract tree
  `File(name)` / `Dir(name, children)` instead of the filesystem. There is a
  pure definition `Listed` and a method `ListFilesRecursively` with the
  source's loop. The lemmas show:
  - exactly one entry per non-directory node;
  - each entry is the node's path from the root;
  - the order is pre-order;
  - no directory is ever listed;
  - no entry appears twice.

`Options` holds the `Option` datatype. `Text` holds the string helpers the
code calls: ASCII lower-casing, one-character split and join, the last index
of a character, and decimal numerals.

Some behaviour of the code is easy to misread:

- An unset or empty allow-list does not reject everything. It becomes `[""]`,
  which accepts names whose `extname` is `""` or `"."` (such as `README`,
  `.env` and `a.`).
- The stored name ends with `extname(originalname)` exactly as written. That
  includes the dot and the original letter case, and there is no dot when the
  name has no extension.
- A rejected extension does not reach the handler's 400 branch. The filter
  calls `cb(new Error(...), false)`, and multer passes that error to the
  framework's error handling. The model records this as the `Forwarded`
  outcome.
- The 400 answer is given when no file reached the handler. That happens when
  the request has no part in the field `file`, and also when that part has an
  empty file name. multer skips such a part without running the filter, and
  a browser form with an empty file input sends exactly that. Only the field
  `file` reaches the filter (`upload.single('file')`), so the field name in a
  stored name is always `file` in both entry files.
- An accepted part larger than 5 MiB is not stored either. multer aborts the
  write and forwards its own `LIMIT_FILE_SIZE` error ("File too large"),
  which the model also records as `Forwarded`.
- There is no path-containment check anywhere, and the model has none.
- A stored name is not always different from the original name. For example,
  `file-1-2.txt` uploaded with timestamp 1 and random value 2 keeps its name.
  What the model does prove: for a fixed field name, the stored name
  determines the timestamp, the random value and the extension.

## Model

| member | source | states |
|---|---|---|
| `Text.Lower` | server.js:42 | `toLowerCase` on ASCII: same length, each character lower-cased in place, and the result has no upper-case letter |
| `Text.Split` | server.js:41 | `split(',')` gives one more piece than there are commas, and no piece contains a comma |
| `Text.Decimal` | server.js:34 | a number is rendered as a non-empty run of digits with no leading zero |
| `NodePath.Extname` | server.js:45 | `path.extname` is empty, or it is a dot followed by text with no further dot and no slash |
| `NodePath.ExtnameOfPlainName` | server.js:35 | for a name without slashes, `extname` is empty exactly when the name has no dot, has its only dot first, or is `..`; otherwise it is a proper suffix of the name |
| `NodePath.ExtnameAtLastDot` | server.js:45 | for a slash-free name (other than `..`) whose last dot is not its first character, `extname` is the suffix from that dot, so `a.` gives `.` |
| `NodePath.ExtnameLower` | server.js:45 | lower-casing the name and then taking `extname` gives the same result as lower-casing the extension |
| `UploadPolicy.SettingText` | server.js:40 | an unset variable reads as the empty string, a set one as its text (definition only; no contract) |
| `UploadPolicy.LowerEach` | server.js:42 | `map(ext => ext.toLowerCase())`: same number of entries, each entry lower-cased in place |
| `UploadPolicy.ServerAllowedExtensions` | server.js:40-42 | each entry is comma-free and lower-case; an unset or empty setting gives exactly `[""]` |
| `UploadPolicy.ServerAllowedJoin` | server.js:40-42 | there is one entry per comma plus one, and joined with commas the entries give back the lower-cased setting |
| `UploadPolicy.ServerAllowedIsSplitOfLower` | server.js:40-42 | the server list is exactly the comma split of the lower-cased setting |
| `UploadPolicy.AppAllowedExtensions` | app.js:21 | each entry is comma-free; an unset or empty setting gives `[""]` |
| `UploadPolicy.AppAllowedJoin` | app.js:21 | there is one entry per comma plus one, and joined with commas the entries give back the raw setting |
| `UploadPolicy.CheckedExtension` | server.js:45 | `extname(originalname).toLowerCase().substring(1)` (definition only; its properties are the next row) |
| `UploadPolicy.CheckedExtensionShape` | server.js:45 | the checked extension has no dot or slash and is lower-case; it is empty exactly when `extname` is `""` or `"."`; otherwise a dot followed by it is the lower-cased `extname` |
| `UploadPolicy.ServerFileFilter` | server.js:44-48 | server.js's filter; a rejection always carries the error `Tipo de archivo no permitido` |
| `UploadPolicy.AppFileFilter` | app.js:20-29 | app.js's filter; a rejection always carries the same error |
| `UploadPolicy.ServerFilterDecision` | server.js:44-48 | server.js accepts exactly when the checked extension is a comma piece of the lower-cased setting; otherwise it rejects with `Tipo de archivo no permitido` |
| `UploadPolicy.CheckedExtensionCaseInsensitive` | app.js:22 | two names equal up to letter case yield the same checked extension |
| `UploadPolicy.FilterCaseInsensitive` | server.js:44-48 | two names equal up to letter case get the same verdict, whatever the list |
| `UploadPolicy.ServerSettingCaseInsensitive` | server.js:40-46 | in server.js, two settings equal up to letter case give every file the same verdict |
| `UploadPolicy.ExtensionlessVerdict` | server.js:45-46 | a name whose `extname` is `""` or `"."` is accepted exactly when `""` is in the list |
| `UploadPolicy.EmptyEntryAcceptsOnlyExtensionless` | server.js:45-46 | the list `[""]` accepts exactly the names whose `extname` is `""` or `"."` |
| `UploadPolicy.EmptySettingAcceptsOnlyExtensionless` | server.js:40-46 | with the setting unset or empty, both filters accept exactly the names whose `extname` is `""` or `"."` |
| `UploadPolicy.AppUppercaseEntryNeverMatches` | app.js:21-24 | in app.js, a list entry with an upper-case letter never equals any checked extension |
| `UploadPolicy.AppAcceptsOnlyWhatServerAccepts` | app.js:20-29 | everything app.js accepts, server.js accepts too |
| `UploadPolicy.FiltersAgreeOnLowerCaseSetting` | app.js:20-29 | on a setting without upper-case letters, the two filters give every file the same verdict |
| `UploadPolicy.AppRejectsWhatServerAccepts` | app.js:21-24 | for a setting that is one comma-free entry with an upper-case letter, a file whose checked extension is that entry lower-cased is accepted by server.js and rejected by app.js |
| `UploadPolicy.PngExample` | app.js:21-24 | with the setting `PNG`, server.js accepts `<stem>.png` for every plain non-empty stem (`photo.png`, say) and app.js rejects it |
| `StorageName.UniqueSuffix` | server.js:34 | `Date.now() + '-' + round(random * 1e9)`: at least three characters, starting and ending with a digit, with no dot and no slash |
| `StorageName.StoredName` | server.js:33-36 | the stored name starts with the field name and a dash, ends with the original `extname` in its original case, and has room for two numerals and a dash between them |
| `StorageName.ParseSuffixRoundTrip` | server.js:34 | the unique suffix `t-r` followed by an extension reads back as `t`, `r` and that extension |
| `StorageName.ParseStoredNameRoundTrip` | server.js:34-35 | given the field name, a stored name reads back as its timestamp, its random value and the original `extname` |
| `StorageName.StoredNameEqualIff` | app.js:15-16 | for one field name, two stored names are equal exactly when the timestamps, the random values and the original extensions are equal; distinct (t, r) pairs never collide, and the original name matters only through its extension |
| `UploadRoute.ServerUpload` | server.js:50-64 | server.js's route, which treats a part with an empty file name as no file; a "no file" answer is a 400, and a stored file is answered 200 with a body that ends with the stored name |
| `UploadRoute.AppUpload` | app.js:31-48 | app.js's route, which also treats a part with an empty file name as no file; a "no file" answer is a 400, and a stored file is answered 200 with the fixed success message |
| `UploadRoute.ServerUploadOutcome` | server.js:50-64 | answers 400 exactly when no file part arrives or its file name is empty; any other part is stored exactly when the filter accepts it and it is at most 5 MiB, under a name that reads back as (t, r, extname); a rejected part forwards the filter's error and an accepted oversize part forwards multer's size error |
| `UploadRoute.AppUploadOutcome` | app.js:31-48 | the same outcomes for app.js (400 for a missing or nameless part), which filters with the raw list and sends a fixed success message |
| `UploadRoute.RepeatedUploadsStoreApart` | server.js:33-36 | uploading the same accepted file with different (t, r) stores it under two different names |
| `Listing.PathJoin` | server.js:72 | `path.join(base, name)` for a directory entry: the name itself under the empty base, otherwise one character longer than base and name together; `Listing.PathJoinParts` adds that it ends with the name and starts with the base and a slash |
| `Listing.PathJoinParts` | server.js:72 | a joined path ends with the name and, under a non-empty base, starts with the base followed by one slash |
| `Listing.Listed` | server.js:67-80 | the pre-order listing as a pure definition (no contract of its own; the rows below characterise it) |
| `Listing.ListFilesRecursively` | server.js:67-80 | the loop returns the pre-order listing, with one entry per non-directory node |
| `Listing.ListedConcat` | server.js:70-78 | the listing of two runs of entries is the first listing followed by the second |
| `Listing.ListedCount` | server.js:69-78 | the listing has exactly as many entries as there are non-directory nodes at any depth |
| `Listing.SubdirectorySpliced` | server.js:73-74 | a subdirectory's results appear exactly at its position among its siblings; an empty directory contributes nothing |
| `Listing.ListedIsFile` | server.js:71-77 | every listed entry is the path of names, joined by `/`, from the base to a non-directory node |
| `Listing.FileIsListed` | server.js:70-78 | every non-directory node at any depth is listed under its path |
| `Listing.PathOfInjective` | server.js:72 | different name paths from one base give different relative paths |
| `Listing.NoDirectoryListed` | server.js:73-77 | in a tree a directory read can produce, no directory's path is ever listed, even for an empty directory |
| `Listing.ListedDistinct` | server.js:67-80 | in a tree a directory read can produce, no path is listed twice |

## Findings

| source | as written | input that shows it | evidently intended | confidence | as-written member | corrected member |
|---|---|---|---|---|---|---|
| app.js:21 | the allow-list is the raw comma split, but the extension it is compared with is lower-cased, so an entry with an upper-case letter never matches | `ALLOWED_EXTENSIONS=PNG` and the file `photo.png`: app.js rejects it | a case-insensitive allow-list, as server.js:40-42 does by lower-casing each entry | medium, not executed | `UploadPolicy.AppRejectsWhatServerAccepts`, `UploadPolicy.PngExample` | `UploadPolicy.ServerAllowedExtensions` |

The corrected definition is the server.js list. It is proved case-insensitive
in the setting by `UploadPolicy.ServerSettingCaseInsensitive` and in the file
name by `UploadPolicy.FilterCaseInsensitive`. `UploadPolicy.AppAcceptsOnlyWhatServerAccepts`
shows the app.js list is never more permissive, and
`UploadPolicy.FiltersAgreeOnLowerCaseSetting` shows that the two agree on
settings without upper-case letters.

## Left out

- Express wiring is framework glue and is not modelled. This covers static
  hosting, route registration, `listen`, dotenv, the HTML root page and
  creating the upload directory at start-up.
- The `destination` callback and the `subfolder` field are left out. They
  only call `path.join` and `mkdirSync`, which are filesystem effects. The
  code has no containment check, so no rejection rule is modelled.
- app.js's flat `GET /files` listing and its `GET /files/:filename` retrieval
  with `sendFile` are filesystem calls and are left out.
- The size limit is modelled only on the part's total length. multer's
  streaming, and the partial file it removes on abort, are not modelled.
- multer's own multipart errors are not modelled. One example is a file
  sent in a field other than `file`, which multer forwards as
  `LIMIT_UNEXPECTED_FILE`. The model starts from a part in the field `file`,
  so its stored names always begin with `UploadRoute.FileField`.
- `UploadRoute.ServerUploadOutcome`: `Stored` assumes the write to disk
  succeeds. A failing `mkdirSync` in the destination callback or a failing
  disk write makes multer forward an error instead, and filesystem failures
  are out of scope.
- `UploadRoute.AppUploadOutcome`: the same assumption of a successful write
  holds for app.js.
- busboy's reduction of the client's file name to its last path component
  is not modelled. That step also turns `.` and `..` into the empty name.
  `FilePart.originalname` is the name after that step, and an empty one is
  treated as no file.
- The HTTP status that Express's error handling picks for a forwarded
  filter error is not modelled.
- `/list-files` answers 500 when the directory read throws. That error path
  is I/O and is not modelled.
- The listing takes each directory's entries in the order of the tree.
  The order of the real directory read is whatever the filesystem returns.
- `Dir` stands only for entries where `isDirectory()` is true. Symbolic links
  and other entries are `File` nodes and are never followed.
- `Listing.PathJoin` models `path.join` only for the names a directory read
  returns (non-empty, no slash, not `.` or `..`). Node's normalisation of
  other names is not modelled. `NoDirectoryListed` and `ListedDistinct`
  assume such names and unique sibling names (`WellFormed`).
- `Date.now()` and `Math.random()` are parameters. Uniqueness across
  concurrent requests is out of scope.
- `Text.Lower`: lower-cases ASCII letters only. JavaScript's `toLowerCase` is
  Unicode-aware, and Unicode case mapping is out of scope.
- `Text.Decimal`: renders every natural number in plain decimal.
  JavaScript switches to exponent notation from 1e21, which a millisecond
  timestamp never reaches.
- `NodePath.Extname`: follows Node's POSIX `path.extname`. The Windows
  variant (backslash separators) is not modelled.
