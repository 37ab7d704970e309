/** The standalone server: its startup configuration from the environment, its
    listing of the editable directory, and its own `/edit` route, which saves
    without validating and without creating directories. */
module Server {
  import opened Wrappers
  import opened Strings
  import opened Paths
  import opened Containment
  import opened FileStore
  import opened Requests
  import EditText

  // ---------------------------------------------------------------------------
  // Startup configuration

  /** The settings startup reads; secret and signInUrl are kept as found. */
  datatype Config = Config(port: string, scriptName: string, editableDir: string, disableAuth: bool,
                           secret: Option<string>, signInUrl: Option<string>)

  /** The errors startup throws, in the order it checks for them. */
  datatype ConfigError = ScriptNameEndsWithSlash | NoEditableDir | SecretMissingOrShort | NoSignInUrl

  const ScriptNameMessage: string := "SCRIPT_NAME should not end with /."
  const NoDirMessage: string := "No DIR environment variable set to specify the path of the editable files."
  const SecretMessage: string := "No SECRET environment variable set, or the SECRET is too short. Need 8 characters"
  const SignInUrlMessage: string := "No SIGN_IN_URL environment variable set"

  /** The text of the `Error` startup throws for e. */
  function Message(e: ConfigError): (m: string)
    ensures m != ""
  {
    match e
    case ScriptNameEndsWithSlash => ScriptNameMessage
    case NoEditableDir => NoDirMessage
    case SecretMissingOrShort => SecretMessage
    case NoSignInUrl => SignInUrlMessage
  }

  /** The length of each message, in characters. */
  lemma MessageLength(e: ConfigError)
    ensures |Message(e)| == match e
      case ScriptNameEndsWithSlash => 34
      case NoEditableDir => 74
      case SecretMissingOrShort => 81
      case NoSignInUrl => 39
  {
  }

  /** Each startup error is thrown with a message of its own, so the message tells
      which check failed. */
  lemma MessagesDistinct(a: ConfigError, b: ConfigError)
    ensures Message(a) == Message(b) <==> a == b
  {
    if a != b {
      MessageLength(a);
      MessageLength(b);
      assert |Message(a)| != |Message(b)|;
    }
  }

  const DefaultPort: string := "80"

  const MinSecretLength: nat := 8

  /** `process.env[key]` is truthy: set, and not the empty string. */
  predicate Set(env: map<string, string>, key: string) {
    key in env && env[key] != ""
  }

  /** `process.env[key] || fallback` */
  function OrElse(env: map<string, string>, key: string, fallback: string): string {
    if Set(env, key) then env[key] else fallback
  }

  function Lookup(env: map<string, string>, key: string): Option<string> {
    if key in env then Some(env[key]) else None
  }

  /** The module-level checks of the server script, in its order. */
  function LoadConfig(env: map<string, string>): (r: Result<Config, ConfigError>)
    ensures r.Ok? ==> r.value.editableDir != "" && !EndsWith(r.value.scriptName, "/")
    ensures r.Ok? && !r.value.disableAuth ==> r.value.secret.Some? && r.value.signInUrl.Some?
  {
    var port := OrElse(env, "PORT", DefaultPort);
    var scriptName := OrElse(env, "SCRIPT_NAME", "");
    if EndsWith(scriptName, "/") then Err(ScriptNameEndsWithSlash)
    else if !Set(env, "DIR") then Err(NoEditableDir)
    else
      var disableAuth := AsciiLower(OrElse(env, "DISABLE_AUTH", "false")) == "true";
      if !disableAuth && (!Set(env, "SECRET") || Utf16Length(env["SECRET"]) < MinSecretLength) then
        Err(SecretMissingOrShort)
      else if !disableAuth && !Set(env, "SIGN_IN_URL") then Err(NoSignInUrl)
      else Ok(Config(port, scriptName, env["DIR"], disableAuth, Lookup(env, "SECRET"), Lookup(env, "SIGN_IN_URL")))
  }

  /** DISABLE_AUTH is "true" in any mix of upper and lower case. */
  predicate AuthDisabled(env: map<string, string>) {
    && "DISABLE_AUTH" in env
    && |env["DISABLE_AUTH"]| == 4
    && forall k :: 0 <= k < 4 ==> LowerChar(env["DISABLE_AUTH"][k]) == "true"[k]
  }

  /** An environment the server starts with, stated without the checks' order. */
  predicate Acceptable(env: map<string, string>) {
    && !(Set(env, "SCRIPT_NAME") && EndsWith(env["SCRIPT_NAME"], "/"))
    && Set(env, "DIR")
    && (AuthDisabled(env) || (Set(env, "SECRET") && Utf16Length(env["SECRET"]) >= MinSecretLength && Set(env, "SIGN_IN_URL")))
  }

  lemma AuthDisabledIsLowerTrue(env: map<string, string>)
    ensures AsciiLower(OrElse(env, "DISABLE_AUTH", "false")) == "true" <==> AuthDisabled(env)
  {
    var v := OrElse(env, "DISABLE_AUTH", "false");
    if AsciiLower(v) == "true" {
      assert v != "false" by { assert AsciiLower("false")[0] == 'f'; }
      assert forall k :: 0 <= k < 4 ==> LowerChar(v[k]) == AsciiLower(v)[k];
    }
    if AuthDisabled(env) {
      assert AsciiLower(v) == "true" by {
        assert |AsciiLower(v)| == 4;
        forall k | 0 <= k < 4 ensures AsciiLower(v)[k] == "true"[k] {
        }
      }
    }
  }

  /** Startup succeeds exactly for the acceptable environments. */
  lemma LoadConfigAcceptsExactly(env: map<string, string>)
    ensures LoadConfig(env).Ok? <==> Acceptable(env)
  {
    AuthDisabledIsLowerTrue(env);
  }

  /** What a successful startup has settled: DIR is set and kept as given, the
      script name does not end with '/', the port falls back to 80, and with
      authentication on there is a secret of at least 8 UTF-16 units and a
      sign-in URL. */
  lemma LoadedConfig(env: map<string, string>)
    requires LoadConfig(env).Ok?
    ensures var c := LoadConfig(env).value;
      && c.editableDir == env["DIR"] && c.editableDir != ""
      && !EndsWith(c.scriptName, "/")
      && (c.port == DefaultPort <==> !Set(env, "PORT") || env["PORT"] == DefaultPort)
      && (c.disableAuth <==> AuthDisabled(env))
      && (!c.disableAuth ==>
            c.secret.Some? && Utf16Length(c.secret.value) >= MinSecretLength
            && c.signInUrl.Some? && c.signInUrl.value != "")
  {
    AuthDisabledIsLowerTrue(env);
  }

  /** The checks run in order: a script name ending with '/' is reported before
      anything else, and a missing DIR before the authentication settings. */
  lemma ConfigErrorOrder(env: map<string, string>)
    ensures Set(env, "SCRIPT_NAME") && EndsWith(env["SCRIPT_NAME"], "/") ==> LoadConfig(env) == Err(ScriptNameEndsWithSlash)
    ensures !(Set(env, "SCRIPT_NAME") && EndsWith(env["SCRIPT_NAME"], "/")) && !Set(env, "DIR")
            ==> LoadConfig(env) == Err(NoEditableDir)
  {
    assert !EndsWith("", "/");
  }

  /** The secret's length is counted in UTF-16 units: four characters outside the
      Basic Multilingual Plane make a long enough secret. */
  lemma AstralSecretIsLongEnough(env: map<string, string>)
    requires "SECRET" in env && env["SECRET"] == "\U{1F600}\U{1F600}\U{1F600}\U{1F600}"
    ensures Set(env, "SECRET") && Utf16Length(env["SECRET"]) >= MinSecretLength
  {
    Utf16LengthAstral(env["SECRET"]);
  }

  // ---------------------------------------------------------------------------
  // The listing route

  function ServerUrl(scriptName: string, encode: string -> string, name: string): string {
    scriptName + "/edit?filename=" + encode(name)
  }

  /** The listing route body: `ls` of the directory, non-recursive and without
      `lstat`, one entry per name in order. */
  method ListAll(scriptName: string, root: string, ls: Option<seq<string>>, encode: string -> string)
    returns (r: Result<seq<ListingEntry>, RequestError>)
    ensures ls.None? <==> r.Err?
    ensures r.Err? ==> r.error == CouldNotList(root)
    ensures r.Ok? ==>
      && |r.value| == |ls.value|
      && forall k :: 0 <= k < |r.value| ==>
           r.value[k] == ListingEntry(ls.value[k], ServerUrl(scriptName, encode, ls.value[k]))
  {
    if ls.None? {
      return Err(CouldNotList(root));
    }
    var names := ls.value;
    var files: seq<ListingEntry> := [];
    for i := 0 to |names|
      invariant |files| == i
      invariant forall k :: 0 <= k < i ==> files[k] == ListingEntry(names[k], ServerUrl(scriptName, encode, names[k]))
    {
      files := files + [ListingEntry(names[i], ServerUrl(scriptName, encode, names[i]))];
    }
    return Ok(files);
  }

  /** With an injective encoding, two names share a url only if they are equal. */
  lemma ServerUrlInjective(scriptName: string, encode: string -> string, a: string, b: string)
    requires forall x, y :: encode(x) == encode(y) ==> x == y
    ensures ServerUrl(scriptName, encode, a) == ServerUrl(scriptName, encode, b) <==> a == b
  {
    var pre := scriptName + "/edit?filename=";
    if ServerUrl(scriptName, encode, a) == ServerUrl(scriptName, encode, b) {
      assert encode(a) == ServerUrl(scriptName, encode, a)[|pre|..];
      assert encode(b) == ServerUrl(scriptName, encode, b)[|pre|..];
    }
  }

  // ---------------------------------------------------------------------------
  // The edit route

  /** The standalone route once the containment check has accepted filePath. */
  function ServerEditAt(s: FsState, filePath: string, req: EditRequest, faults: Faults): (h: EditText.Handled)
    ensures h.outcome.Ok? && h.after.dirs == s.dirs
    ensures h.after != s ==> req.verb == Post && h.outcome.value.Saved?
  {
    if req.verb == Post then
      if !CanWrite(s, filePath, faults.writeFails) then
        EditText.Handled(Ok(SaveFailed(req.content, SaveError)), s)
      else
        var written := WithFile(s, filePath, req.content);
        EditText.Handled(Ok(Saved(EditText.ReadBack(written, filePath, faults.readFails))), written)
    else
      EditText.Handled(Ok(Loaded(EditText.ReadBack(s, filePath, faults.readFails))), s)
  }

  /** The whole standalone edit request on filesystem state s. */
  function ServerHandleEdit(s: FsState, root: string, req: EditRequest, faults: Faults): (h: EditText.Handled)
    ensures h.outcome.Err? ==> h.outcome.error == OutsideEditableDir(Join(root, req.filename))
    ensures h.after.dirs == s.dirs
  {
    match Resolve(root, req.filename)
    case Err(filePath) => EditText.Handled(Err(OutsideEditableDir(filePath)), s)
    case Ok(filePath) => ServerEditAt(s, filePath, req, faults)
  }

  /** The values the server's `edit` template gets: a failed save is titled
      "Success", everything else "Edit". */
  function ServerView(o: Outcome): (v: EditView)
    ensures v.content == o.content
    ensures v.title == "Edit" || v.title == "Success"
    ensures v.title == "Success" <==> o.ValidationFailed? || o.SaveFailed?
    ensures v.editSuccess == SavedMessage <==> o.Saved?
    ensures v.editError == "" || v.editSuccess == ""
  {
    match o
    case Loaded(content) => EditView("Edit", content, "", "")
    case Saved(content) => EditView("Edit", content, "", SavedMessage)
    case ValidationFailed(content, message) => EditView("Success", content, message, "")
    case SaveFailed(content, message) => EditView("Success", content, message, "")
  }

  /** The standalone `/edit` route body, step by step on the filesystem object. */
  method ServerEdit(fs: FileSystem, root: string, req: EditRequest, faults: Faults)
    returns (r: Result<EditView, RequestError>)
    modifies fs
    ensures fs.State() == ServerHandleEdit(old(fs.State()), root, req, faults).after
    ensures r == Response(ServerHandleEdit(old(fs.State()), root, req, faults).outcome, ServerView)
  {
    var filePath := Join(root, req.filename);
    var expected := Normalize(root);
    if !StartsWith(Normalize(filePath), expected + "/") {
      return Err(OutsideEditableDir(filePath));
    }
    r := ServerEditAccepted(fs, filePath, req, faults);
  }

  /** The rest of the standalone route body, once filePath has passed the
      containment check. */
  method ServerEditAccepted(fs: FileSystem, filePath: string, req: EditRequest, faults: Faults)
    returns (r: Result<EditView, RequestError>)
    modifies fs
    ensures fs.State() == ServerEditAt(old(fs.State()), filePath, req, faults).after
    ensures r == Response(ServerEditAt(old(fs.State()), filePath, req, faults).outcome, ServerView)
  {
    var editError := "";
    var editSuccess := "";
    var content := "";
    if req.verb == Post {
      content := req.content;
      var error := false;
      var written := fs.WriteFile(filePath, content, faults.writeFails);
      if !written {
        editError := SaveError;
        error := true;
      }
      if error {
        return Ok(EditView("Success", content, editError, ""));
      }
      editSuccess := SavedMessage;
    }
    if req.verb == Get || editError == "" {
      var read := fs.ReadFile(filePath, faults.readFails);
      content := if read.Some? then read.value else "";
    }
    return Ok(EditView("Edit", content, "", editSuccess));
  }

  // ---------------------------------------------------------------------------
  // Properties of the standalone edit route

  /** The same containment check guards the standalone route: a refused filename is
      an error before any read or write. */
  lemma ServerRejectedBeforeAnyEffect(s: FsState, root: string, req: EditRequest, faults: Faults)
    ensures var h := ServerHandleEdit(s, root, req, faults);
      h.outcome == Err(OutsideEditableDir(Join(root, req.filename))) <==> Resolve(root, req.filename).Err?
    ensures Resolve(root, req.filename).Err? ==> ServerHandleEdit(s, root, req, faults).after == s
  {
  }

  /** An accepted filename runs the rest of the route on the resolved path. */
  lemma ServerAcceptedRunsOn(s: FsState, root: string, req: EditRequest, faults: Faults)
    ensures Resolve(root, req.filename).Ok? ==>
      ServerHandleEdit(s, root, req, faults) == ServerEditAt(s, Join(root, req.filename), req, faults)
  {
  }

  /** Nothing is validated: any POST whose path can be written is saved with
      exactly the submitted content, and no request ends in a validation error. */
  lemma ServerSavesUnvalidated(s: FsState, p: string, req: EditRequest, faults: Faults)
    ensures var o := ServerEditAt(s, p, req, faults).outcome; !(o.Ok? && o.value.ValidationFailed?)
    ensures req.verb == Post && CanWrite(s, p, faults.writeFails) ==>
      ServerEditAt(s, p, req, faults).after == WithFile(s, p, req.content)
  {
  }

  /** A failed write shows the submitted content with the generic message, under
      the title "Success", and changes nothing. */
  lemma ServerWriteFailure(s: FsState, p: string, req: EditRequest, faults: Faults)
    requires req.verb == Post && !CanWrite(s, p, faults.writeFails)
    ensures ServerEditAt(s, p, req, faults) == EditText.Handled(Ok(SaveFailed(req.content, SaveError)), s)
    ensures ServerView(SaveFailed(req.content, SaveError)) == EditView("Success", req.content, SaveError, "")
  {
  }

  /** No directories are made: a POST into a directory that does not exist fails,
      and no request ever adds a directory. */
  lemma ServerMakesNoDirectories(s: FsState, p: string, req: EditRequest, faults: Faults)
    ensures ServerEditAt(s, p, req, faults).after.dirs == s.dirs
    ensures req.verb == Post && Dirname(p) !in s.dirs ==>
      ServerEditAt(s, p, req, faults) == EditText.Handled(Ok(SaveFailed(req.content, SaveError)), s)
  {
  }

  /** A successful save re-reads the file: the page shows the submitted content,
      or "" when the read fails. */
  lemma ServerSaveReadsBack(s: FsState, p: string, req: EditRequest, faults: Faults)
    requires req.verb == Post && CanWrite(s, p, faults.writeFails)
    ensures ServerEditAt(s, p, req, faults).outcome
         == Ok(Saved(if faults.readFails then "" else req.content))
  {
  }

  /** Loading changes nothing, and shows the file or "". */
  lemma ServerLoadChangesNothing(s: FsState, p: string, req: EditRequest, faults: Faults)
    requires req.verb != Post
    ensures ServerEditAt(s, p, req, faults).after == s
    ensures ServerEditAt(s, p, req, faults).outcome
         == Ok(Loaded(if !faults.readFails && p in s.files then s.files[p] else ""))
  {
  }

  /** A request never breaks the filesystem's invariant. */
  lemma ServerEditKeepsValid(s: FsState, root: string, req: EditRequest, faults: Faults)
    requires Valid(s)
    ensures Valid(ServerHandleEdit(s, root, req, faults).after)
  {
    ServerRejectedBeforeAnyEffect(s, root, req, faults);
    ServerAcceptedRunsOn(s, root, req, faults);
    var p := Join(root, req.filename);
    if Resolve(root, req.filename).Ok? && req.verb == Post && CanWrite(s, p, faults.writeFails) {
      WriteKeepsValid(s, p, req.content, faults.writeFails);
    }
  }
}
