# File name and URL handling of the upload controller

This project models the string handling in the file controller of a REST backend for a
story-sharing application:

- the extension taken from an uploaded file's original name,
  `originalname.split(".").filter(Boolean).slice(1).join(".")`;
- the name the upload is stored under, `Date.now() + "." + ext`;
- the name an image fetched by URL is saved under, `` `${uuid}.${extension}` ``;
- the public URL that the upload response returns, `base + req.file.path`.

The work is split into three modules:

- `JsString` (js_string.dfy) models the JavaScript built-ins the controller chains
  together: `split` on a one-character separator, `filter(Boolean)` on strings, `slice(start)`
  and `join`.
- `NumberText` (number_text.dfy) models the decimal text JavaScript produces when an integer
  timestamp is added to a string.
- `FileController` (file_controller.dfy) models the four operations.

Everything is pure: the clock value (`Date.now()`) and the UUID (`uuidv4()`) are parameters.

The extension has a second, independent definition that works one character at a time.
`Collapse` drops leading and trailing dots and turns every run of dots into a single dot.
The extension is then the text after the first dot of the collapsed name. The lemma
`CollapseIsJoinedSegments` proves that this agrees with the split/filter/join chain.
The same definition gives the round trip: the extension that a stored name yields is
the extension it was stored with.

## Model

| member | source | states |
|---|---|---|
| `JsString.Split` | src/Controllers/fileController.ts:13 | `split(".")` yields one more piece than there are dots, and no piece contains a dot |
| `JsString.DropEmpty` | src/Controllers/fileController.ts:13 | `filter(Boolean)` keeps every non-empty piece and only those; a single piece is kept exactly when it is non-empty |
| `JsString.DropEmptyAppend` | src/Controllers/fileController.ts:13 | filtering a concatenation is the concatenation of the filtered parts, so the kept pieces stay in order and repeats stay |
| `JsString.JoinLength` | src/Controllers/fileController.ts:13 | `join(".")` on at least one piece is as long as the pieces together plus one separator per gap; `SplitJoinRoundTrip` and `JoinSplitRoundTrip` are its inverse partners |
| `JsString.SliceFrom` | src/Controllers/fileController.ts:13 | `slice(1)` is everything after index 0, and the empty array when there is nothing to drop |
| `JsString.SplitJoinRoundTrip` | src/Controllers/fileController.ts:13 | joining the pieces of a split with the same separator gives back the original string |
| `JsString.JoinSplitRoundTrip` | src/Controllers/fileController.ts:13 | splitting a join of at least one separator-free piece gives back exactly those pieces |
| `NumberText.Decimal` | src/Controllers/fileController.ts:14 | the timestamp's text is non-empty, digits only (so it has no dot), and has no leading zero except for 0 |
| `NumberText.DecimalRoundTrip` | src/Controllers/fileController.ts:14 | reading the rendered digits back gives the timestamp |
| `NumberText.DecimalInjective` | src/Controllers/fileController.ts:14 | different timestamps give different texts |
| `FileController.Segments` | src/Controllers/fileController.ts:13 | every non-empty segment of the name is non-empty and has no dot |
| `FileController.Extension` | src/Controllers/fileController.ts:13 | the extension never starts or ends with a dot and never has two dots in a row |
| `FileController.CollapseIsJoinedSegments` | src/Controllers/fileController.ts:13 | the non-empty segments joined with dots equal the character-level collapse of the name |
| `FileController.CollapseFixesDotted` | src/Controllers/fileController.ts:13 | collapsing leaves a name unchanged exactly when it has no leading, trailing or doubled dot |
| `FileController.ExtensionByCharacters` | src/Controllers/fileController.ts:13 | the extension is the text after the first dot of the collapsed name: the non-empty segments minus the first, joined by dots |
| `FileController.ExtensionEmptyIff` | src/Controllers/fileController.ts:13-14 | the extension is empty exactly when the name has at most one non-empty segment, and then the stored name is the timestamp followed by a lone dot |
| `FileController.ExtensionSegments` | src/Controllers/fileController.ts:13 | with two or more non-empty segments, the extension splits into exactly the segments after the first, so it has one segment fewer |
| `FileController.ExtensionAfterStem` | src/Controllers/fileController.ts:13 | after a non-empty, dot-free stem and a dot, the extension is the rest of the name collapsed |
| `FileController.ExtensionMultiPart` | src/Controllers/fileController.ts:13 | `"a.tar.gz"` gives `"tar.gz"` and `"a..b"` gives `"b"` |
| `FileController.ExtensionNone` | src/Controllers/fileController.ts:13 | `"readme"`, `""`, `"..."` and `".bashrc"` give the empty extension |
| `FileController.StoredFilename` | src/Controllers/fileController.ts:14 | the first dot of the stored name separates the timestamp text from the extension, and the timestamp text reads back as the timestamp |
| `FileController.StoredFilenameRoundTrip` | src/Controllers/fileController.ts:13-14 | deriving the extension of a stored name gives back the extension it was stored with |
| `FileController.StoredExtensionIff` | src/Controllers/fileController.ts:13-14 | after a timestamp and a dot, an extension comes back unchanged exactly when it has no leading, trailing or doubled dot |
| `FileController.UniqueFilename` | src/Controllers/fileController.ts:53-56 | the generated name contains a dot, starts with the UUID and ends with a dot followed by the extension |
| `FileController.UuidHasNoDot` | src/Controllers/fileController.ts:54 | a UUID v4 text is non-empty and has no dot |
| `FileController.UniqueFilenameParts` | src/Controllers/fileController.ts:53-56 | the first dot of the generated name separates the UUID from the extension, and deriving an extension from the name gives the extension collapsed |
| `FileController.DownloadedImageIsPng` | src/Controllers/fileController.ts:25 | the name a downloaded image is saved under has the extension `"png"` |
| `FileController.UploadUrl` | src/Controllers/fileController.ts:21 | the URL is the fixed prefix `https://193.106.55.140:80/` (the `base` constant of line 7) followed by the file path unchanged |
| `FileController.UploadUrlRoundTrip` | src/Controllers/fileController.ts:21 | the path can be read back from its URL, and every URL with the prefix is the URL of the path read from it |

## Left out

- Multer's disk storage, the `public/` destination and how multer builds `req.file.path` from destination and file name are not modelled. The upload URL takes the path as given.
- The HTTP GET by axios in `downloadImage`, its streaming into `fs.createWriteStream`, the resolution of the save path and the logging are network and filesystem I/O. Only the file name it generates is modelled.
- `Date.now()` and `uuidv4()` are a clock and a random generator from a library. They are parameters: a natural number, and a string that `UuidHasNoDot` and `UniqueFilenameParts` require to have the UUID v4 text form.
- NumberText.Decimal: the model writes every natural number in plain decimal digits. JavaScript agrees only for integers up to 2^53: above that it prints the shortest digits that round back to the same double, and from 10^21 on it uses exponent notation. `Date.now()` never exceeds 8.64·10^15 milliseconds, the limit on time values in the ECMAScript standard (ECMA-262, "Time Values and Time Range"), so every real timestamp is in the range where the two agree.
- UploadUrl: the handler reads `req.file!.path`, which throws a TypeError when the request carries no file. The model takes a path and does not represent that error.
- UniqueFilename: JavaScript strings are sequences of UTF-16 code units, while a Dafny `string` is a sequence of Unicode scalar values. Splitting on `.` is unaffected, but the length ensures of `UniqueFilename` and `UploadUrl` count Dafny characters, not code units.
- The other controllers, the routers, the schemas, application start-up and the integration tests are database, routing or start-up code with no string logic of their own.
- The authentication and token-rotation logic is not part of this model, because its implementation files are not available.
