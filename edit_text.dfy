/** The two routes `editText` mounts: the listing of the editable directory, and
    the `/edit` route that loads a file, or on POST validates and saves it. */
module EditText {
  import opened Wrappers
  import opened Strings
  import opened Paths
  import opened Containment
  import opened FileStore
  import opened Validation
  import opened Requests

  // ---------------------------------------------------------------------------
  // The edit route

  /** How a request ends, and the filesystem it leaves. */
  datatype Handled = Handled(outcome: Result<Outcome, RequestError>, after: FsState)

  /** The content a read-back shows: the file's text, or "" when the read rejects. */
  function ReadBack(s: FsState, p: string, fault: bool): string {
    match Read(s, p, fault)
    case Some(text) => text
    case None => ""
  }

  /** The `editError` the catch block picks from the error it caught: its
      `validationErrorMessage` when that is present and not empty, the generic
      message otherwise. */
  function EditorMessage(validationErrorMessage: Option<string>): (m: string)
    ensures m != ""
    ensures m == SaveError || validationErrorMessage == Some(m)
  {
    if validationErrorMessage.Some? && validationErrorMessage.value != "" then validationErrorMessage.value
    else SaveError
  }

  /** The whole edit request on filesystem state s. */
  function HandleEdit(s: FsState, root: string, req: EditRequest, validator: Validator, faults: Faults): (h: Handled)
    ensures h.outcome.Err? ==>
      || h.outcome.error == OutsideEditableDir(Join(root, req.filename))
      || h.outcome.error == CouldNotCreateDirectories(Join(root, req.filename))
    ensures h.after.files != s.files ==> req.verb == Post && Resolve(root, req.filename).Ok?
  {
    match Resolve(root, req.filename)
    case Err(filePath) => Handled(Err(OutsideEditableDir(filePath)), s)
    case Ok(filePath) => EditAt(s, filePath, root, req, validator, faults)
  }

  /** The request once the containment check has accepted filePath. */
  function EditAt(s: FsState, filePath: string, root: string, req: EditRequest, validator: Validator,
                  faults: Faults): (h: Handled)
    ensures h.outcome.Err? <==> !CanMakeDirs(s, Dirname(filePath), faults.mkdirFails)
    ensures h.outcome.Ok? ==> h.after.dirs == WithDirs(s, Dirname(filePath)).dirs
    ensures h.outcome.Ok? ==> (h.outcome.value.Loaded? <==> req.verb != Post)
  {
    if !CanMakeDirs(s, Dirname(filePath), faults.mkdirFails) then
      Handled(Err(CouldNotCreateDirectories(filePath)), s)
    else
      var made := WithDirs(s, Dirname(filePath));
      if req.verb == Post then
        var verdict := validator(req.filename, req.content, root);
        if verdict.Throws? then
          Handled(Ok(ValidationFailed(req.content, EditorMessage(verdict.validationErrorMessage))), made)
        else if !CanWrite(made, filePath, faults.writeFails) then
          Handled(Ok(SaveFailed(req.content, EditorMessage(None))), made)
        else
          var written := WithFile(made, filePath, req.content);
          Handled(Ok(Saved(ReadBack(written, filePath, faults.readFails))), written)
      else
        Handled(Ok(Loaded(ReadBack(made, filePath, faults.readFails))), made)
  }

  /** The values the `edit` template gets for each outcome. */
  function View(editTitle: string, o: Outcome): (v: EditView)
    ensures v.content == o.content
    ensures v.editError == "" || v.editSuccess == ""
    ensures v.editSuccess != "" ==> v.title == editTitle
  {
    match o
    case Loaded(content) => EditView(editTitle, content, "", "")
    case Saved(content) => EditView(editTitle, content, "", SavedMessage)
    case ValidationFailed(content, message) => EditView("Error", content, message, "")
    case SaveFailed(content, message) => EditView("Error", content, message, "")
  }

  /** The `/edit` route body, step by step on the filesystem object. */
  method Edit(fs: FileSystem, root: string, editTitle: string, req: EditRequest,
              validator: Validator, faults: Faults)
    returns (r: Result<EditView, RequestError>)
    modifies fs
    ensures fs.State() == HandleEdit(old(fs.State()), root, req, validator, faults).after
    ensures r == Response(HandleEdit(old(fs.State()), root, req, validator, faults).outcome,
                          o => View(editTitle, o))
  {
    var filePath := Join(root, req.filename);
    var expected := Normalize(root);
    if !StartsWith(Normalize(filePath), expected + "/") {
      return Err(OutsideEditableDir(filePath));
    }
    r := EditAccepted(fs, filePath, root, editTitle, req, validator, faults);
  }

  /** The rest of the route body, once filePath has passed the containment check. */
  method EditAccepted(fs: FileSystem, filePath: string, root: string, editTitle: string, req: EditRequest,
                      validator: Validator, faults: Faults)
    returns (r: Result<EditView, RequestError>)
    modifies fs
    ensures fs.State() == EditAt(old(fs.State()), filePath, root, req, validator, faults).after
    ensures r == Response(EditAt(old(fs.State()), filePath, root, req, validator, faults).outcome,
                          o => View(editTitle, o))
  {
    var failed := fs.MakeDirectories(Dirname(filePath), faults.mkdirFails);
    if failed {
      return Err(CouldNotCreateDirectories(filePath));
    }
    var editError := "";
    var editSuccess := "";
    var content := "";
    if req.verb == Post {
      content := req.content;
      var error := false;
      var verdict := validator(req.filename, content, root);
      if verdict.Throws? {
        editError := EditorMessage(verdict.validationErrorMessage);
        error := true;
      } else {
        var written := fs.WriteFile(filePath, content, faults.writeFails);
        if !written {
          editError := EditorMessage(None);
          error := true;
        }
      }
      if error {
        return Ok(EditView("Error", content, editError, ""));
      }
      editSuccess := SavedMessage;
    }
    if req.verb == Get || editError == "" {
      var read := fs.ReadFile(filePath, faults.readFails);
      content := if read.Some? then read.value else "";
    }
    return Ok(EditView(editTitle, content, "", editSuccess));
  }

  /** Error pages are titled "Error" and carry the message; other pages carry the
      configured title, and "File saved." exactly after a save. */
  lemma ViewTitles(editTitle: string, o: Outcome)
    requires editTitle != "Error"
    ensures View(editTitle, o).title == "Error" <==> o.ValidationFailed? || o.SaveFailed?
    ensures View(editTitle, o).editSuccess == SavedMessage <==> o.Saved?
    ensures View(editTitle, o).content == o.content
  {
  }

  // ---------------------------------------------------------------------------
  // Properties of the edit route

  /** A filename the containment check refuses is an error, before any change to
      the filesystem; and only such filenames give that error. */
  lemma RejectedBeforeAnyEffect(s: FsState, root: string, req: EditRequest, validator: Validator, faults: Faults)
    ensures var h := HandleEdit(s, root, req, validator, faults);
      h.outcome == Err(OutsideEditableDir(Join(root, req.filename))) <==> Resolve(root, req.filename).Err?
    ensures Resolve(root, req.filename).Err? ==> HandleEdit(s, root, req, validator, faults).after == s
  {
    AcceptedRunsOn(s, root, req, validator, faults);
    EditAtOnlyDirectoryError(s, Join(root, req.filename), root, req, validator, faults);
  }

  /** Past the containment check, the only error the route throws is the one for
      directories it could not create. */
  lemma EditAtOnlyDirectoryError(s: FsState, p: string, root: string, req: EditRequest, validator: Validator,
                          faults: Faults)
    ensures var o := EditAt(s, p, root, req, validator, faults).outcome;
      o.Err? ==> o.error == CouldNotCreateDirectories(p)
  {
  }

  /** An accepted filename runs the rest of the route on the resolved path. */
  lemma AcceptedRunsOn(s: FsState, root: string, req: EditRequest, validator: Validator, faults: Faults)
    ensures Resolve(root, req.filename).Ok? ==>
      HandleEdit(s, root, req, validator, faults) == EditAt(s, Join(root, req.filename), root, req, validator, faults)
  {
  }

  /** An accepted path is at least two characters long: it starts with the root's
      normal form (never empty) and a '/'. */
  lemma AcceptedIsLong(root: string, filename: string)
    ensures Resolve(root, filename).Ok? ==> |Join(root, filename)| >= 2
  {
  }

  /** When `mkdir -p` fails the request is an error and nothing is written. */
  lemma MakeDirsFailureHasNoEffect(s: FsState, p: string, root: string, req: EditRequest, validator: Validator,
                                   faults: Faults)
    requires !CanMakeDirs(s, Dirname(p), faults.mkdirFails)
    ensures EditAt(s, p, root, req, validator, faults) == Handled(Err(CouldNotCreateDirectories(p)), s)
  {
  }

  /** Validation fails closed: when the validator throws, no file changes, and the
      page shows the submitted content with the validator's message (or the
      generic one when it carries none). */
  lemma ValidationFailsClosed(s: FsState, p: string, root: string, req: EditRequest, validator: Validator,
                              faults: Faults)
    requires req.verb == Post
    requires validator(req.filename, req.content, root).Throws?
    ensures EditAt(s, p, root, req, validator, faults).after.files == s.files
    ensures var h := EditAt(s, p, root, req, validator, faults);
      h.outcome.Ok? ==>
        h.outcome == Ok(ValidationFailed(req.content,
                          EditorMessage(validator(req.filename, req.content, root).validationErrorMessage)))
  {
  }

  /** Every change to a file is the submitted content of a POST the validator let
      through, written to the resolved path. */
  lemma WritesOnlyAfterPass(s: FsState, p: string, root: string, req: EditRequest, validator: Validator,
                            faults: Faults)
    ensures var h := EditAt(s, p, root, req, validator, faults);
      h.after.files != s.files ==>
        && req.verb == Post
        && validator(req.filename, req.content, root) == Pass
        && h.after.files == s.files[p := req.content]
  {
  }

  /** The same for the whole route: a file changes only under a POST whose filename
      the containment check accepted and whose content the validator passed. */
  lemma RouteWritesOnlyAfterPass(s: FsState, root: string, req: EditRequest, validator: Validator, faults: Faults)
    ensures var h := HandleEdit(s, root, req, validator, faults);
      h.after.files != s.files ==>
        && req.verb == Post
        && Resolve(root, req.filename).Ok?
        && validator(req.filename, req.content, root) == Pass
        && h.after.files == s.files[Join(root, req.filename) := req.content]
  {
    RejectedBeforeAnyEffect(s, root, req, validator, faults);
    AcceptedRunsOn(s, root, req, validator, faults);
    WritesOnlyAfterPass(s, Join(root, req.filename), root, req, validator, faults);
  }

  /** The generic message is shown exactly when the caught error has no non-empty
      `validationErrorMessage` (or carries the generic text itself). */
  lemma EditorMessageRule(m: Option<string>)
    ensures EditorMessage(m) != ""
    ensures EditorMessage(m) == SaveError <==> m.None? || m.value == "" || m.value == SaveError
    ensures m.Some? && m.value != "" ==> EditorMessage(m) == m.value
  {
  }

  /** An error page shows the submitted content and comes from a POST: no read
      back happens, and its message is never empty. */
  lemma ErrorPageKeepsSubmission(s: FsState, p: string, root: string, req: EditRequest, validator: Validator,
                                 faults: Faults)
    ensures var o := EditAt(s, p, root, req, validator, faults).outcome;
      o.Ok? && (o.value.ValidationFailed? || o.value.SaveFailed?) ==>
        req.verb == Post && o.value.content == req.content && o.value.message != ""
    ensures var o := EditAt(s, p, root, req, validator, faults).outcome;
      o.Ok? && o.value.SaveFailed? ==> o.value.message == SaveError
  {
  }

  /** A POST whose directories can be made, that the validator passes and whose
      path is a plain file path, saves: the file holds exactly the submitted
      content, and the page shows it. */
  lemma SaveSucceeds(s: FsState, p: string, root: string, req: EditRequest, validator: Validator)
    requires |p| >= 2
    requires req.verb == Post
    requires CanMakeDirs(s, Dirname(p), false)
    requires validator(req.filename, req.content, root) == Pass
    requires p !in s.dirs && !EndsWith(p, "/")
    ensures var h := EditAt(s, p, root, req, validator, NoFaults);
      && h.outcome == Ok(Saved(req.content))
      && p in h.after.files
      && h.after.files[p] == req.content
  {
    WritableAfterMakeDirs(s, p);
  }

  /** A path that is a directory, or that ends with '/' (as "/" and "./" resolve
      to), cannot be saved: the page shows the generic error. */
  lemma SaveToDirectoryFails(s: FsState, p: string, root: string, req: EditRequest, validator: Validator,
                             faults: Faults)
    requires req.verb == Post
    requires CanMakeDirs(s, Dirname(p), faults.mkdirFails)
    requires validator(req.filename, req.content, root) == Pass
    requires p in s.dirs || EndsWith(p, "/")
    ensures EditAt(s, p, root, req, validator, faults).outcome == Ok(SaveFailed(req.content, SaveError))
  {
  }

  /** A GET of a file that does not exist loads "" and writes no file. */
  lemma MissingFileLoadsEmpty(s: FsState, p: string, root: string, filename: string, validator: Validator,
                              faults: Faults)
    requires CanMakeDirs(s, Dirname(p), faults.mkdirFails)
    requires p !in s.files
    ensures EditAt(s, p, root, EditRequest(Get, filename, ""), validator, faults).outcome == Ok(Loaded(""))
  {
  }

  /** With files and directories kept apart, a GET of a directory, or of any path
      ending with '/', finds no file to read and loads "". */
  lemma DirectoryLoadsEmpty(s: FsState, p: string, root: string, req: EditRequest, validator: Validator,
                            faults: Faults)
    requires Valid(s)
    requires req.verb != Post
    requires CanMakeDirs(s, Dirname(p), faults.mkdirFails)
    requires p in s.dirs || EndsWith(p, "/")
    ensures EditAt(s, p, root, req, validator, faults).outcome == Ok(Loaded(""))
  {
  }

  /** Any request other than a POST writes no file, and repeating it on the state it
      leaves gives the same outcome and the same state. */
  lemma LoadIsIdempotent(s: FsState, p: string, root: string, req: EditRequest, validator: Validator,
                         faults: Faults)
    requires req.verb != Post
    ensures EditAt(s, p, root, req, validator, faults).after.files == s.files
    ensures var h := EditAt(s, p, root, req, validator, faults);
      EditAt(h.after, p, root, req, validator, faults) == h
  {
    if CanMakeDirs(s, Dirname(p), faults.mkdirFails) {
      MakeDirsIdempotent(s, Dirname(p));
    }
  }

  /** Saving and then loading the same path shows what was saved. */
  lemma SaveThenLoad(s: FsState, p: string, root: string, req: EditRequest, filename: string,
                     validator: Validator, faults: Faults)
    requires |p| >= 2
    requires req.verb == Post
    requires EditAt(s, p, root, req, validator, faults).outcome.Ok?
    requires EditAt(s, p, root, req, validator, faults).outcome.value.Saved?
    ensures var after := EditAt(s, p, root, req, validator, faults).after;
      EditAt(after, p, root, EditRequest(Get, filename, ""), validator, NoFaults).outcome
      == Ok(Loaded(req.content))
  {
    var d := Dirname(p);
    LineageBelow(d, p);
    var after := WithFile(WithDirs(s, d), p, req.content);
    assert Lineage(d) !! after.files.Keys;
    MakeDirsIdempotent(after, d);
    assert WithDirs(after, d) == after;
  }

  /** The same for the whole route: a saved filename, requested again, loads what
      was saved. */
  lemma RouteSaveThenLoad(s: FsState, root: string, req: EditRequest, validator: Validator, faults: Faults)
    requires req.verb == Post
    requires HandleEdit(s, root, req, validator, faults).outcome.Ok?
    requires HandleEdit(s, root, req, validator, faults).outcome.value.Saved?
    ensures var after := HandleEdit(s, root, req, validator, faults).after;
      HandleEdit(after, root, EditRequest(Get, req.filename, ""), validator, NoFaults).outcome
      == Ok(Loaded(req.content))
  {
    var p := Join(root, req.filename);
    RejectedBeforeAnyEffect(s, root, req, validator, faults);
    AcceptedRunsOn(s, root, req, validator, faults);
    AcceptedIsLong(root, req.filename);
    SaveThenLoad(s, p, root, req, req.filename, validator, faults);
    var after := EditAt(s, p, root, req, validator, faults).after;
    RejectedBeforeAnyEffect(after, root, EditRequest(Get, req.filename, ""), validator, NoFaults);
    AcceptedRunsOn(after, root, EditRequest(Get, req.filename, ""), validator, NoFaults);
  }

  /** Of two saves to the same path, the second one's content is what remains, and
      no other file is touched. */
  lemma LastSaveWins(s: FsState, p: string, root: string, first: EditRequest, second: EditRequest,
                     validator: Validator, faults: Faults)
    requires first.verb == Post && second.verb == Post
    requires EditAt(s, p, root, first, validator, faults).outcome.Ok?
    requires EditAt(s, p, root, first, validator, faults).outcome.value.Saved?
    ensures var mid := EditAt(s, p, root, first, validator, faults).after;
      var h := EditAt(mid, p, root, second, validator, faults);
      h.outcome.Ok? && h.outcome.value.Saved? ==> h.after.files == s.files[p := second.content]
  {
    var mid := WithFile(WithDirs(s, Dirname(p)), p, first.content);
    assert EditAt(s, p, root, first, validator, faults).after == mid;
    var h := EditAt(mid, p, root, second, validator, faults);
    if h.outcome.Ok? && h.outcome.value.Saved? {
      assert h.after == WithFile(WithDirs(mid, Dirname(p)), p, second.content);
      assert h.after.files == mid.files[p := second.content];
      assert mid.files == s.files[p := first.content];
    }
  }

  /** A request never breaks the filesystem's invariant. */
  lemma EditAtKeepsValid(s: FsState, p: string, root: string, req: EditRequest, validator: Validator,
                         faults: Faults)
    requires Valid(s)
    ensures Valid(EditAt(s, p, root, req, validator, faults).after)
  {
    if CanMakeDirs(s, Dirname(p), faults.mkdirFails) {
      MakeDirsKeepsValid(s, Dirname(p), faults.mkdirFails);
      var made := WithDirs(s, Dirname(p));
      if CanWrite(made, p, faults.writeFails) {
        WriteKeepsValid(made, p, req.content, faults.writeFails);
      }
    }
  }

  lemma EditKeepsValid(s: FsState, root: string, req: EditRequest, validator: Validator, faults: Faults)
    requires Valid(s)
    ensures Valid(HandleEdit(s, root, req, validator, faults).after)
  {
    RejectedBeforeAnyEffect(s, root, req, validator, faults);
    AcceptedRunsOn(s, root, req, validator, faults);
    EditAtKeepsValid(s, Join(root, req.filename), root, req, validator, faults);
  }

  /** Without a configured validator every POST is refused with the generic message,
      and no file is ever written. */
  lemma MissingValidatorRefusesEveryPost(s: FsState, p: string, root: string, req: EditRequest, faults: Faults)
    requires req.verb == Post
    ensures EditAt(s, p, root, req, Missing, faults).after.files == s.files
    ensures var o := EditAt(s, p, root, req, Missing, faults).outcome;
      o.Ok? ==> o == Ok(ValidationFailed(req.content, SaveError))
  {
  }

  /** With the example validator, a POST of content starting with "Invalid" is
      refused with its fixed message and leaves the files as they were. */
  lemma ExampleRefusesInvalid(s: FsState, p: string, root: string, filename: string, rest: string, faults: Faults)
    ensures var req := EditRequest(Post, filename, InvalidPrefix + rest);
      var h := EditAt(s, p, root, req, Example, faults);
      && h.after.files == s.files
      && (h.outcome.Ok? ==> h.outcome == Ok(ValidationFailed(InvalidPrefix + rest, InvalidMessage)))
  {
    ExampleRejectsPrefixed(filename, rest, root);
  }

  // ---------------------------------------------------------------------------
  // The listing route

  function EditUrl(encode: string -> string, name: string): string {
    "edit?filename=" + encode(name)
  }

  /** The loop over the names `ls -R` printed, up to the last one: an entry for
      each regular file, in order; the first name whose `lstat` rejects ends it.
      stat(name) is what `lstat` reports for pathOf(name), the name joined to the
      editable directory. */
  function Listing(stat: string -> Option<Kind>, pathOf: string -> string, names: seq<string>,
                   encode: string -> string): (r: Result<seq<ListingEntry>, RequestError>)
    ensures r.Ok? ==> |r.value| <= |names|
    ensures r.Err? ==> exists k :: 0 <= k < |names| && stat(names[k]).None? && r.error == StatFailed(pathOf(names[k]))
    decreases |names|
  {
    if names == [] then Ok([])
    else
      var before := Listing(stat, pathOf, names[..|names| - 1], encode);
      var name := names[|names| - 1];
      if before.Err? then before
      else match stat(name)
        case None => Err(StatFailed(pathOf(name)))
        case Some(RegularFile) => Ok(before.value + [ListingEntry(name, EditUrl(encode, name))])
        case Some(Directory) => before
  }

  /** The listing route: `ls -R` gives the names, or None when `shell.error()` is
      set; each name is `lstat`ed at its path under root. */
  function ListFilesSpec(s: FsState, root: string, ls: Option<seq<string>>, encode: string -> string)
    : (r: Result<seq<ListingEntry>, RequestError>)
    ensures r == Err(CouldNotList(root)) <==> ls.None?
    ensures r.Err? && ls.Some? ==> exists k :: 0 <= k < |ls.value| && r.error == StatFailed(Join(root, ls.value[k]))
    ensures r.Ok? ==> |r.value| <= |ls.value|
  {
    match ls
    case None => Err(CouldNotList(root))
    case Some(names) => Listing(name => KindOf(s, Join(root, name)), name => Join(root, name), names, encode)
  }

  /** The listing route body: the loop that pushes one entry per regular file. */
  method ListFiles(fs: FileSystem, root: string, ls: Option<seq<string>>, encode: string -> string)
    returns (r: Result<seq<ListingEntry>, RequestError>)
    ensures r == ListFilesSpec(fs.State(), root, ls, encode)
  {
    if ls.None? {
      return Err(CouldNotList(root));
    }
    var names := ls.value;
    ghost var state := fs.State();
    ghost var stat := name => KindOf(state, Join(root, name));
    ghost var pathOf := name => Join(root, name);
    var files: seq<ListingEntry> := [];
    for i := 0 to |names|
      invariant Listing(stat, pathOf, names[..i], encode) == Ok(files)
    {
      var path := Join(root, names[i]);
      var kind := fs.Lstat(path);
      assert stat(names[i]) == kind && pathOf(names[i]) == path;
      ListingStep(stat, pathOf, names, i, encode, files);
      if kind.None? {
        ListingStopsAtError(stat, pathOf, names, i + 1, encode);
        return Err(StatFailed(path));
      }
      if kind == Some(RegularFile) {
        files := files + [ListingEntry(names[i], EditUrl(encode, names[i]))];
      }
    }
    WholePrefix(names);
    return Ok(files);
  }

  lemma WholePrefix(names: seq<string>)
    ensures names[..|names|] == names
  {
  }

  /** One more turn of the loop. */
  lemma ListingStep(stat: string -> Option<Kind>, pathOf: string -> string, names: seq<string>, i: nat,
                    encode: string -> string, files: seq<ListingEntry>)
    requires i < |names|
    requires Listing(stat, pathOf, names[..i], encode) == Ok(files)
    ensures Listing(stat, pathOf, names[..i + 1], encode)
         == if stat(names[i]).None? then Err(StatFailed(pathOf(names[i])))
            else if stat(names[i]) == Some(RegularFile) then Ok(files + [ListingEntry(names[i], EditUrl(encode, names[i]))])
            else Ok(files)
  {
    assert names[..i + 1][..i] == names[..i];
  }

  /** An error on a prefix of the names is the error of the whole listing. */
  lemma {:induction false} ListingStopsAtError(stat: string -> Option<Kind>, pathOf: string -> string,
                                               names: seq<string>, i: nat, encode: string -> string)
    requires i <= |names|
    requires Listing(stat, pathOf, names[..i], encode).Err?
    ensures Listing(stat, pathOf, names, encode) == Listing(stat, pathOf, names[..i], encode)
    decreases |names| - i
  {
    if i < |names| {
      assert names[..i + 1][..i] == names[..i];
      ListingStopsAtError(stat, pathOf, names, i + 1, encode);
    } else {
      assert names[..i] == names;
    }
  }

  /** The names of regular files among names, in order: an independent, front-first
      statement of the filter. */
  function RegularNames(stat: string -> Option<Kind>, names: seq<string>): seq<string> {
    if names == [] then []
    else (if stat(names[0]) == Some(RegularFile) then [names[0]] else []) + RegularNames(stat, names[1..])
  }

  predicate AllStat(stat: string -> Option<Kind>, names: seq<string>) {
    forall k :: 0 <= k < |names| ==> stat(names[k]).Some?
  }

  function Entries(encode: string -> string, names: seq<string>): (r: seq<ListingEntry>)
    ensures |r| == |names|
    ensures forall k :: 0 <= k < |names| ==> r[k] == ListingEntry(names[k], EditUrl(encode, names[k]))
  {
    seq(|names|, k requires 0 <= k < |names| => ListingEntry(names[k], EditUrl(encode, names[k])))
  }

  lemma {:induction false} RegularNamesSnoc(stat: string -> Option<Kind>, names: seq<string>, name: string)
    ensures RegularNames(stat, names + [name])
         == RegularNames(stat, names) + (if stat(name) == Some(RegularFile) then [name] else [])
    decreases |names|
  {
    if names != [] {
      assert (names + [name])[0] == names[0];
      assert (names + [name])[1..] == names[1..] + [name];
      RegularNamesSnoc(stat, names[1..], name);
    } else {
      assert [name][1..] == [];
    }
  }

  /** The listing succeeds exactly when every name can be `lstat`ed, and then it is
      the entries of the regular files, in `ls` order. */
  lemma {:induction false} ListingIsFilter(stat: string -> Option<Kind>, pathOf: string -> string,
                                           names: seq<string>, encode: string -> string)
    ensures Listing(stat, pathOf, names, encode).Ok? <==> AllStat(stat, names)
    ensures Listing(stat, pathOf, names, encode).Ok? ==>
      Listing(stat, pathOf, names, encode).value == Entries(encode, RegularNames(stat, names))
    decreases |names|
  {
    if names != [] {
      var init := names[..|names| - 1];
      var name := names[|names| - 1];
      assert names == init + [name];
      ListingIsFilter(stat, pathOf, init, encode);
      RegularNamesSnoc(stat, init, name);
      assert AllStat(stat, names) <==> AllStat(stat, init) && stat(name).Some? by {
        assert forall k :: 0 <= k < |init| ==> init[k] == names[k];
      }
    }
  }

  /** A name is listed exactly when ls printed it and it is a regular file. */
  lemma {:induction false} RegularNamesMembers(stat: string -> Option<Kind>, names: seq<string>, name: string)
    ensures name in RegularNames(stat, names) <==> name in names && stat(name) == Some(RegularFile)
    decreases |names|
  {
    if names != [] {
      RegularNamesMembers(stat, names[1..], name);
      assert names == [names[0]] + names[1..];
    }
  }

  /** When the listing fails on an entry, it fails on the first name ls printed
      whose `lstat` rejects, and reports that name's path. */
  lemma ListingFirstFailure(stat: string -> Option<Kind>, pathOf: string -> string, names: seq<string>, i: nat,
                            encode: string -> string)
    requires i < |names| && AllStat(stat, names[..i])
    requires stat(names[i]) == None
    ensures Listing(stat, pathOf, names, encode) == Err(StatFailed(pathOf(names[i])))
  {
    ListingIsFilter(stat, pathOf, names[..i], encode);
    assert names[..i + 1][..i] == names[..i];
    ListingStopsAtError(stat, pathOf, names, i + 1, encode);
  }

  /** With an injective encoding, two entries share a url only when they share a
      name. */
  lemma EntryUrlsDistinct(encode: string -> string, names: seq<string>)
    requires forall a, b :: encode(a) == encode(b) ==> a == b
    ensures forall i, j :: 0 <= i < |names| && 0 <= j < |names| ==>
      (Entries(encode, names)[i].url == Entries(encode, names)[j].url <==> names[i] == names[j])
  {
    var r := Entries(encode, names);
    forall i, j | 0 <= i < |names| && 0 <= j < |names| && r[i].url == r[j].url
      ensures names[i] == names[j]
    {
      var pre := "edit?filename=";
      assert encode(names[i]) == r[i].url[|pre|..];
      assert encode(names[j]) == r[j].url[|pre|..];
    }
  }
}
