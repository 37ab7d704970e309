# express-edit-text, modelled in Dafny

express-edit-text is an Express application for editing the text files under one
directory from a browser. `editText` (lib/index.js) mounts two routes:

- a listing of every regular file under the editable directory;
- an `/edit` route. It loads a file and, on POST, runs a pluggable validator and
  then saves the submitted content.

bin/server.js is an older standalone server with its own copies of both routes.
Its copies have no validator and create no directories. It also checks its
environment at startup.

This project models the decisions those handlers make:

- **Containment check.** `paths.dfy` models Node's POSIX `path.join` and
  `path.normalize` at the level of '/'-separated segments, and `path.dirname` as
  Node's backward scan over the characters.
  `containment.dfy` models the check both edit routes run before they touch the
  filesystem.
- **Filesystem.** `filestore.dfy` holds a value `FsState` (files by path, plus a
  set of directories) and a class `FileSystem` whose fields `mkdir -p` and
  `writeFile` update in place. `mkdir -p`, `writeFile` and `readFile` fail by a
  flag in `Faults`; a failing `ls` is the input `None`, and a failing `lstat` is
  the `stat` parameter returning `None`.
- **Validators.** `validation.dfy` has the example validator and the "no validator
  configured" case.
- **Routes.** `edit_text.dfy` models the two routes of lib/index.js.
  `server.dfy` models the standalone routes and the startup checks.
- **Specifications.** Each route body is an imperative method that mutates the
  `FileSystem` object. The method is proved equal to a specification function on
  `FsState`, and the properties below are lemmas about those functions.

Throughout, the model follows the code as written, including where the code
behaves in ways its authors evidently did not intend:

- **A trailing slash names the root itself.** The check accepts a filename that
  resolves to the editable directory itself with a trailing '/', such as "/",
  "./" or "x/../". An accepted path that does not end with '/' is a strict
  descendant of the root. One that ends with '/' may name the root itself
  (`AcceptedIsDescendant`, `RootWithSlashAccepted`).
  Saving to such a path fails (`SaveToDirectoryFails`).
- **The check compares strings, so some roots break it.** These are the three
  rows under "## Findings":
  - A root whose last segment is ".." lets a filename climb out of it with
    "..". For example, DIR ".." accepts "../x".
  - A root with no segments rejects every plain filename. A relative one ("."
    or "") accepts only names of itself such as "./". An absolute one ("/." or
    "/..", which normalize to "/") rejects everything.
  - A root ending with '/' (including "/") rejects every filename.
  For every other root, the check is proved to accept exactly the paths that
  continue the root's segments (`AcceptedIff`). Those paths stay below the root
  on disk, whatever the working directory (`AcceptedStaysInside`).
- **There is no default validator.** `editText` destructures `validator` without
  a default (lib/index.js:16). With no validator configured, the call at
  lib/index.js:72 throws a TypeError on every POST, so every save shows the
  generic message and nothing is written (`Validation.Missing`,
  `MissingValidatorRefusesEveryPost`).
- **A failed save in the standalone server is titled "Success".** This is the
  title bin/server.js:119 gives it (`ServerView`, `ServerWriteFailure`).

## Model

Predicates and helpers with no contract of their own are covered by the rows
of the members that use them. These are `Strings.StartsWith` and
`Strings.EndsWith` (JavaScript's `startsWith` and `endsWith`, used at
lib/index.js:54, validation/validator.js:3 and bin/server.js:17),
`EditText.ReadBack` (the read and its catch at lib/index.js:93-98) and
`FileStore.Valid`.

| member | source | states |
|---|---|---|
| Strings.AsciiLower | bin/server.js:26 | `toLowerCase` keeps the length and lowers each ASCII letter, so it decides equality with "true" |
| Strings.Utf16Length | bin/server.js:28 | JavaScript's `length` counts at least one and at most two UTF-16 units per character |
| Strings.Utf16LengthAstral | bin/server.js:28 | characters outside the Basic Multilingual Plane count two units each |
| Paths.Split | lib/index.js:52-53 | splitting on '/' always yields at least one segment |
| Paths.Normalize | lib/index.js:53-54 | `path.normalize` never returns the empty string |
| Paths.ParseIsNormal | lib/index.js:53-54 | the segment fold leaves no "", "." or '/'-holding segment; ".." survives only as a leading run of a relative path |
| Paths.SplitAppend | lib/index.js:52 | the segments of a + "/" + b are those of a followed by those of b |
| Paths.SplitJoined | lib/index.js:53-54 | splitting the joined segments gives the segments back |
| Paths.StepsAppend | lib/index.js:53-54 | folding a + b is folding b onto the fold of a |
| Paths.Join | lib/index.js:52 | `path.join` never returns the empty string; `JoinIsNormal` states that it is normal |
| Paths.ParseFormat | lib/index.js:53-54 | parsing a formatted normal path gives back its kind and its segments |
| Paths.NormalizeIdempotent | lib/index.js:54 | normalizing twice is normalizing once |
| Paths.JoinIsNormal | lib/index.js:52-54 | `path.join` already returns a normal path, so the check's second normalize changes nothing |
| Paths.DirnameEnd | lib/index.js:58 | the scan returns -1 or the index of a '/' with a non-'/' character after it in the scanned part, never index 0 |
| Paths.Dirname | lib/index.js:58 | `path.dirname` is never empty, and is shorter than any path of two or more characters |
| Paths.DirnameOfNormal | lib/index.js:58 | for a normal path with a segment, `path.dirname` keeps its kind (absolute or relative) and drops exactly its last segment |
| Paths.DirnameDropsLast | lib/index.js:58 | for every path with a segment, `path.dirname` of its normal form keeps its kind and drops exactly its last segment |
| Paths.Lineage | lib/index.js:58 | `mkdir -p d` leaves d in place, and every directory it makes is no longer than d or at most one character long |
| Containment.Resolve | lib/index.js:52-56 | an accepted path is normal and starts with normalize(root) + "/"; accepted or not, the path reported is `path.join(root, filename)` |
| Containment.AcceptedIsDescendant | lib/index.js:52-56 | every accepted filename resolves to the root's segments followed by more, compared as strings; strictly more unless it ends with '/'; only roots not ending with '/', and not absolute without segments, accept anything. Past a root ending in "..", the added segments may themselves be ".." (see Findings) |
| Containment.DescendantIsAccepted | lib/index.js:52-56 | for a root with a segment and no trailing '/', every path under it is accepted |
| Containment.AcceptedIff | lib/index.js:52-56 | for such a root, acceptance holds exactly when the resolved path continues the root's segments as strings |
| Containment.TrailingSlashRootRejectsAll | lib/index.js:53-54 | a root ending with '/' (including "/") rejects every filename |
| Containment.SameSegmentsRejected | lib/index.js:53-54 | a filename that resolves to the root's own segments without a trailing '/' is rejected |
| Containment.RootItselfRejected | lib/index.js:53-54 | the filenames "" and "." are rejected under every root |
| Containment.ParseJoin | lib/index.js:52 | the joined path keeps the root's kind and continues the root's fold with the filename's segments |
| Containment.StepsWithoutParent | lib/index.js:53 | with no "..", the fold appends the names and drops "" and "." |
| Containment.PlainNameAccepted | lib/index.js:52-56 | a filename with a name and no ".." is accepted, and resolves to the root's segments followed by its names |
| Containment.RootWithSlashAccepted | lib/index.js:52-56 | the filename "/" is accepted and resolves to the root's own segments |
| Containment.ParentEscapeSegments | lib/index.js:52-53 | "../" + rest drops the root's last segment and then appends the names of rest |
| Containment.ParentEscapeRejected | lib/index.js:52-56 | climbing out of the root's last segment without coming back into it is rejected |
| Containment.AcceptedAddsNoParent | lib/index.js:52-56 | under a root whose last segment is not "..", every segment an accepted filename adds is a name, never ".." |
| Containment.EmptyRootAcceptsOnlyItself | lib/index.js:53-54 | a relative root with no segments ("." or "") accepts only paths naming the root itself with a trailing '/' |
| Containment.AcceptedStaysInside | lib/index.js:52-56 | for every root whose last segment is not "..", and every working directory, an accepted path resolves on disk to the root followed by more, strictly unless it ends with '/' |
| Containment.ParentRootEscapes | lib/index.js:52-56 | the root ".." accepts "../x", which resolves to "../../x"; with the working directory /a/b, that is /x, outside the root /a |
| Containment.DotRootRejectsPlainName | lib/index.js:53-54 | the root "." rejects the filename "x" |
| Containment.AbsoluteEmptyRootRejectsAll | lib/index.js:53-54 | an absolute root with no segments, such as "/." or "/..", rejects every filename |
| Containment.SlashDotRootRejectsPlainName | lib/index.js:53-54 | the root "/." rejects the filename "x" |
| Containment.SlashRootRejectsPlainName | lib/index.js:53-54 | the root "/srv/" rejects the filename "x" |
| Containment.Within | lib/index.js:52-56 | the corrected check reports `path.join(root, filename)` whether it accepts or not |
| Containment.WithinStaysInside | lib/index.js:52-56 | for every root and every working directory, what the corrected check accepts lies on disk under the root |
| Containment.WithinAgrees | lib/index.js:52-56 | for a root with a segment, no trailing '/' and a last segment other than "..", the corrected check decides exactly as the check as written |
| Containment.WithinAcceptsPlainNames | lib/index.js:52-56 | under every non-empty root, including ".", ".." and roots ending with '/', a filename with a name and no ".." is accepted |
| Containment.WithinRefusesParentEscape | lib/index.js:52-56 | the corrected check refuses "../x" under the root ".." |
| Containment.WithinAcceptsUnderDot | lib/index.js:53-54 | the corrected check accepts "x" under the root "." |
| Containment.WithinAcceptsUnderSlashRoot | lib/index.js:53-54 | the corrected check accepts "x" under the root "/srv/" |
| FileStore.WithDirs | lib/index.js:58 | `mkdir -p` adds exactly the directory and its ancestors and leaves the files alone |
| FileStore.MakeDirsIdempotent | lib/index.js:58 | `mkdir -p` of a directory a second time changes nothing |
| FileStore.CanMakeDirs | lib/index.js:58-59 | `mkdir -p dir` can succeed only when neither dir nor its parent is a file |
| FileStore.WithFile | lib/index.js:73 | a write sets exactly one path to the content and leaves every other file as it was |
| FileStore.ReadAfterWrite | lib/index.js:73-94 | reading a path just written returns the written content |
| FileStore.WriteLeavesOthers | lib/index.js:73 | a write to one path leaves what every other path reads |
| FileStore.LastWriteWins | lib/index.js:73 | of two writes to one path, the second wins |
| FileStore.CanWrite | lib/index.js:73 | a writable path is never its own parent directory |
| FileStore.Read | lib/index.js:94 | a read returns the file's text exactly when the path is a file and the read does not fail |
| FileStore.KindOf | lib/index.js:33-34 | `lstat` reports a regular file exactly for files and a directory exactly for directories; otherwise it rejects |
| FileStore.MakeDirsKeepsValid | lib/index.js:58-61 | a successful `mkdir -p` keeps files and directories disjoint |
| FileStore.WriteKeepsValid | lib/index.js:73 | a successful write keeps files and directories disjoint and file paths free of a trailing '/' |
| FileStore.WritableAfterMakeDirs | lib/index.js:58-73 | once its parent exists, a path that is not a directory and does not end with '/' can be written |
| FileStore.LineageBelow | lib/index.js:58 | a path of two or more characters is none of the directories `mkdir -p` makes for its parent |
| FileStore.FileSystem.MakeDirectories | lib/index.js:58-61 | reports failure exactly when a file blocks the directories or the call fails, and then changes nothing |
| FileStore.FileSystem.WriteFile | lib/index.js:73 | writes exactly when the path is writable, and otherwise changes nothing |
| FileStore.FileSystem.ReadFile | lib/index.js:94 | returns what `Read` gives for the current state |
| FileStore.FileSystem.Lstat | lib/index.js:33 | returns what `KindOf` gives for the current state |
| Validation.ExampleValidator | validation/validator.js:2-9 | passes exactly the content not starting with "Invalid", and otherwise throws with the fixed message |
| Validation.ExampleIgnoresFilenameAndDir | validation/validator.js:2-3 | the verdict depends on the content alone |
| Validation.ExampleAccepts | validation/validator.js:2-9 | "", "Not Invalid" and "invalid" pass |
| Validation.ExampleRejectsPrefixed | validation/validator.js:3-7 | anything starting with "Invalid" is refused with the fixed `validationErrorMessage` |
| Validation.MissingRejectsAll | lib/index.js:16 | with no validator configured, every call throws |
| EditText.Edit | lib/index.js:45-108 | the route's page or thrown error, and the filesystem it leaves, are those of `HandleEdit` |
| EditText.EditAccepted | lib/index.js:58-102 | past the check, the page and the filesystem are those of `EditAt` |
| EditText.HandleEdit | lib/index.js:52-102 | every thrown error names `path.join(root, filename)`, for a refused filename or for directories not created; a file changes only for a POST whose filename was accepted |
| EditText.EditAt | lib/index.js:58-102 | past the check, the request throws exactly when `mkdir -p` of the parent fails; otherwise the directories are exactly those after `mkdir -p`, and the file is loaded exactly when the request is not a POST |
| EditText.View | lib/index.js:85-102 | the page shows the outcome's content, never both an error and a success message, and a success message only under the configured title |
| EditText.EditorMessage | lib/index.js:75-79 | the message shown is never empty, and is either the generic one or the caught `validationErrorMessage` |
| EditText.DirectoryLoadsEmpty | lib/index.js:92-98 | while files and directories are kept apart, a GET of a directory or of a path ending with '/' loads "" |
| EditText.ViewTitles | lib/index.js:85-102 | error pages are titled "Error"; other pages use the configured title; "File saved." appears exactly after a save; the page shows the outcome's content |
| EditText.RejectedBeforeAnyEffect | lib/index.js:52-56 | a refused filename throws before any filesystem effect, and only refused filenames give that error |
| EditText.AcceptedRunsOn | lib/index.js:52-58 | an accepted filename runs the rest of the route on `path.join(root, filename)` |
| EditText.EditAtOnlyDirectoryError | lib/index.js:58-61 | past the check, the only error thrown is the directory-creation error |
| EditText.AcceptedIsLong | lib/index.js:54 | an accepted path has at least two characters |
| EditText.MakeDirsFailureHasNoEffect | lib/index.js:58-61 | when `mkdir -p` fails, the request throws and the filesystem is unchanged |
| EditText.ValidationFailsClosed | lib/index.js:71-86 | when the validator throws, no file changes, and the page shows the submitted content with the validator's message |
| EditText.WritesOnlyAfterPass | lib/index.js:71-73 | a file changes only for a POST the validator passed, and only to the submitted content at the resolved path |
| EditText.RouteWritesOnlyAfterPass | lib/index.js:52-73 | across the whole route, a file changes only for an accepted POST the validator passed |
| EditText.EditorMessageRule | lib/index.js:75-79 | the message is the caught `validationErrorMessage` when it is present and non-empty, and 'Could not save the file' otherwise; it is never empty |
| EditText.ErrorPageKeepsSubmission | lib/index.js:83-86 | an error page comes from a POST, shows exactly the submitted content (no read back) and a non-empty message; a failed write shows the generic message |
| EditText.SaveSucceeds | lib/index.js:71-99 | a passed POST to a plain file path saves the content, and the page shows that content as saved |
| EditText.SaveToDirectoryFails | lib/index.js:73-79 | a POST to a directory, or to a path ending with '/', fails with the generic message |
| EditText.MissingFileLoadsEmpty | lib/index.js:92-98 | a GET of a missing file loads "" |
| EditText.LoadIsIdempotent | lib/index.js:58-100 | a request other than POST changes no file, and repeating it gives the same page and state |
| EditText.SaveThenLoad | lib/index.js:58-100 | after a save, a GET of the same path loads the saved content |
| EditText.RouteSaveThenLoad | lib/index.js:45-108 | after a save, a GET of the same filename loads the saved content |
| EditText.LastSaveWins | lib/index.js:73 | of two saves to the same path, the second content remains and no other file changes |
| EditText.EditAtKeepsValid | lib/index.js:58-100 | a request keeps the filesystem invariant |
| EditText.EditKeepsValid | lib/index.js:45-108 | the whole route keeps the filesystem invariant |
| EditText.MissingValidatorRefusesEveryPost | lib/index.js:16 | with no validator, every POST is refused with the generic message and writes nothing |
| EditText.ExampleRefusesInvalid | validation/validator.js:3-7 | with the example validator, a POST starting with "Invalid" is refused with the fixed message and changes no file |
| EditText.ListFiles | lib/index.js:27-37 | the listing route returns what `ListFilesSpec` gives: a listing error when `ls` fails, otherwise the loop over the names |
| EditText.Listing | lib/index.js:31-37 | the loop yields no more entries than names, and a failure names the path of a name whose `lstat` rejected |
| EditText.ListFilesSpec | lib/index.js:27-37 | the route throws the listing error exactly when `ls` fails; otherwise it throws only for a name's joined path, or yields no more entries than names |
| EditText.ListingStep | lib/index.js:32-37 | one turn of the loop: a rejected `lstat` ends the listing, a regular file adds its entry, anything else adds nothing |
| EditText.ListingStopsAtError | lib/index.js:33 | an `lstat` rejection throws, and no partial list is returned |
| EditText.ListingIsFilter | lib/index.js:31-37 | the listing succeeds exactly when every name can be `lstat`ed, and is then the entries of the regular files in `ls` order |
| EditText.RegularNamesMembers | lib/index.js:34 | a name is listed exactly when `ls` printed it and it is a regular file |
| EditText.RegularNamesSnoc | lib/index.js:32-37 | filtering one more name adds it exactly when it is a regular file |
| EditText.ListingFirstFailure | lib/index.js:33 | a failing listing reports the path of the first name whose `lstat` rejects |
| EditText.Entries | lib/index.js:35 | each entry holds its name and the url 'edit?filename=' + the encoded name |
| EditText.EntryUrlsDistinct | lib/index.js:35 | with an injective encoding, two entries share a url exactly when they share a name |
| Server.LoadConfigAcceptsExactly | bin/server.js:15-33 | startup succeeds exactly when SCRIPT_NAME does not end with '/', DIR is set, and either DISABLE_AUTH is "true" in any case or SECRET has at least 8 UTF-16 units and SIGN_IN_URL is set |
| Server.LoadConfig | bin/server.js:15-33 | a loaded configuration has a non-empty DIR and a script name not ending with '/', and with auth on it holds a secret and a sign-in URL |
| Server.Message | bin/server.js:17-32 | every startup error is thrown with a non-empty message, the source's text for that check |
| Server.MessagesDistinct | bin/server.js:17-32 | two startup errors carry the same message only if they are the same error, so the message tells which check failed |
| Server.AuthDisabledIsLowerTrue | bin/server.js:26 | `(DISABLE_AUTH || 'false').toLowerCase() === 'true'` holds exactly for the four letters of "true" in any case |
| Server.LoadedConfig | bin/server.js:15-33 | after startup, DIR is the non-empty value given, the script name does not end with '/', the port defaults to 80, and with auth on there is a long enough secret and a sign-in URL |
| Server.ConfigErrorOrder | bin/server.js:16-23 | a script name ending with '/' is reported first, and a missing DIR before the auth settings |
| Server.AstralSecretIsLongEnough | bin/server.js:28 | four characters outside the Basic Multilingual Plane make a long enough secret |
| Server.ListAll | bin/server.js:64-80 | a listing error when `ls` fails; otherwise one entry per name in order, with url scriptName + '/edit?filename=' + the encoded name |
| Server.ServerUrlInjective | bin/server.js:73 | with an injective encoding, two names share a url exactly when they are equal |
| Server.ServerEdit | bin/server.js:91-139 | the route's page or thrown error, and the filesystem it leaves, are those of `ServerHandleEdit` |
| Server.ServerEditAccepted | bin/server.js:104-134 | past the check, the page and the filesystem are those of `ServerEditAt` |
| Server.ServerHandleEdit | bin/server.js:97-134 | the only error thrown names `path.join(DIR, filename)` as outside the editable directory, and no directory is ever created |
| Server.ServerEditAt | bin/server.js:104-134 | past the check, the route never throws and creates no directory; the filesystem changes only for a POST that saved |
| Server.ServerView | bin/server.js:119-134 | the page shows the outcome's content; it is titled "Success" exactly for a failed write (and the validation outcome this route never produces) and "Edit" otherwise; 'File saved.' appears exactly after a save; never both an error and a success message |
| Server.ServerRejectedBeforeAnyEffect | bin/server.js:97-102 | a refused filename throws before any read or write, and only refused filenames give that error |
| Server.ServerAcceptedRunsOn | bin/server.js:97-103 | an accepted filename runs the rest of the route on `path.join(DIR, filename)` |
| Server.ServerSavesUnvalidated | bin/server.js:108-112 | no request ends in a validation error, and any writable POST stores exactly the submitted content |
| Server.ServerWriteFailure | bin/server.js:111-120 | a failed write shows the submitted content and 'Could not save the file' under the title "Success", and changes nothing |
| Server.ServerMakesNoDirectories | bin/server.js:104-133 | no directory is ever created, so a POST into a missing directory fails |
| Server.ServerSaveReadsBack | bin/server.js:122-131 | a successful save re-reads the file: the page shows the submitted content, or "" when the read fails |
| Server.ServerLoadChangesNothing | bin/server.js:125-134 | a request other than POST changes nothing and shows the file's text or "" |
| Server.ServerEditKeepsValid | bin/server.js:91-139 | the standalone route keeps the filesystem invariant |

## Left out

- The process's working directory is a parameter `cwd`, given as its segments. Where relative paths land on disk is stated with `Containment.Resolved`, the segments `path.resolve` gives. The handlers never call `path.resolve`; it is used only to state containment.

- Express routing, middleware, body parsing, multipart parsing, static files, the 404 and 500 handlers and `app.listen`: framework glue. The request arrives as an `EditRequest` with a string filename and a string content. A missing or repeated `filename` query parameter, or a missing or repeated `content` field, is not modelled. A repeated `content` field arrives as an array; then the validator or `writeFile` throws, and the page shows the generic message 'Could not save the file'.
- Authentication and claims (`signedIn`, `hasClaims`, `withUser`, and the stubs installed when auth is disabled): an external decision, taken as already made.
- Mustache rendering: a render is the `EditView` value (title, content, editError, editSuccess). `action`, `filename`, `user` and `scriptName` are passed through to the template and are not modelled. The listing title is not modelled either.
- The real `fs`, shelljs `ls`, `mkdir` and `error`, and `lstat`: the filesystem is `FsState`. The names `ls` prints are an input, `None` when `ls` fails. `lstat` is a `stat` parameter that returns `None` when it rejects. Only `mkdir -p`, `writeFile` and `readFile` fail by a flag in `Faults`.
- FileStore.CanMakeDirs: a failing `mkdir -p` is modelled as changing nothing, though shelljs may leave some directories created.
- Symbolic links and permissions are not modelled. The filesystem keys each path by the string `path.join` returns, so two spellings of one file on disk are two keys. Resolution against the working directory appears only in the containment lemmas.
- `encodeURIComponent`: a function parameter. Distinct urls are proved under the hypothesis that it is injective.
- `toLowerCase` is modelled on ASCII letters only. No other character lowers to any of the letters of "true", so the DISABLE_AUTH decision is the same.
- The port is kept as the string found in PORT, or "80"; the number 80 is not distinguished from the string.
- MUSTACHE_DIRS handling, `debug` logging, the SIGINT handler and the commented-out `/throw` route.
- The asynchronous scheduling of `await`ed calls and concurrent requests. A request runs to completion on one state. Two requests in sequence are covered by `LastSaveWins` and `SaveThenLoad`.
- The Node `path` functions are modelled for POSIX only. `path.join` is modelled for the two arguments the handlers pass.

## Findings

The check at lib/index.js:52-56 is repeated at bin/server.js:97-102. Each row
below holds for both copies. The routes keep modelling the check as written.
`Containment.Within` is the corrected check, and `WithinAgrees` shows that it
decides exactly as the original for every root except the three kinds these rows
name. So every route property proved with the original check also holds with
the corrected one for those roots.

| source | as written | input that shows it | evidently intended | confidence | as-written member | corrected member |
|---|---|---|---|---|---|---|
| lib/index.js:52-56 | the accepted path must start with normalize(DIR) + '/' as a string, and a ".." in the filename that climbs above DIR stays in that string when DIR's last segment is itself ".." | DIR "..", filename "../x": the joined path "../../x" starts with "../"; from the working directory /a/b it is /x, outside /a | only paths inside the editable directory are read or written | not executed (high) | Containment.ParentRootEscapes | Containment.WithinStaysInside |
| lib/index.js:53-54 | normalize(".") is ".", so the required prefix is "./", which no normal path with a name starts with; likewise "/." and "/.." normalize to "/", so the prefix is "//" | DIR ".", filename "x": "x" is rejected; DIR "/.", filename "x": "/x" is rejected | DIR "." edits the files of the working directory | not executed (medium) | Containment.DotRootRejectsPlainName | Containment.WithinAcceptsUnderDot |
| lib/index.js:53-54 | normalize keeps DIR's trailing '/', so the required prefix ends with "//" | DIR "/srv/", filename "x": "/srv/x" does not start with "/srv//" | a trailing '/' on DIR makes no difference | not executed (medium) | Containment.SlashRootRejectsPlainName | Containment.WithinAcceptsUnderSlashRoot |
