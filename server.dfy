/** The exposure registry: how the startup-time list of records is bound to
    the resource surface (one resource per file) and to the two tools
    list_files and read_file. Path resolution filepath.Abs(filepath.Join(
    folder, name)) is the parameter `resolve`; its error is discarded by
    the server, so it is a total function here. The filesystem at request
    time is a map from absolute path to what os.ReadFile returns. */
module Server {
  import opened Common
  import opened Manifest

  /** os.ReadFile outcomes by absolute path. A path that is not a key does
      not exist. */
  type FileSystem = map<string, Result<seq<byte>>>

  /** os.ReadFile(path): the bytes, or the text of the error. */
  function ReadWholeFile(fs: FileSystem, path: string): Result<seq<byte>>
  {
    if path in fs then fs[path] else Err("open " + path + ": no such file or directory")
  }

  // ---------------------------------------------------------------------
  // Resource surface

  /** The descriptor handed to AddResource. */
  datatype Resource = Resource(uri: string, name: string, description: string, mimeType: string)

  /** A registered resource together with the path its read handler was
      built for (the argument of makeResourceHandler). */
  datatype Registration = Registration(resource: Resource, path: string)

  /** The description "File: <name> (<mime>, <size> bytes)". */
  function Description(f: FileEntry): string
  {
    "File: " + f.name + " (" + f.mimeType + ", " + Decimal(f.size) + " bytes)"
  }

  /** registerResources: one registration per record, in list order, each
      addressed by "file:///" followed by the record's resolved path and
      reading that same path. */
  method RegisterResources(folder: string, files: seq<FileEntry>, resolve: (string, string) -> string)
    returns (registry: seq<Registration>)
    ensures |registry| == |files|
    ensures forall k :: 0 <= k < |files| ==>
      && registry[k].path == resolve(folder, files[k].name)
      && registry[k].resource.uri == "file:///" + registry[k].path
      && registry[k].resource.name == files[k].name
      && registry[k].resource.description == Description(files[k])
      && registry[k].resource.mimeType == files[k].mimeType
  {
    registry := [];
    for k := 0 to |files|
      invariant |registry| == k
      invariant forall j :: 0 <= j < k ==>
        && registry[j].path == resolve(folder, files[j].name)
        && registry[j].resource.uri == "file:///" + registry[j].path
        && registry[j].resource.name == files[j].name
        && registry[j].resource.description == Description(files[j])
        && registry[j].resource.mimeType == files[j].mimeType
    {
      var f := files[k];
      var absPath := resolve(folder, f.name);
      var uri := "file:///" + absPath;
      var resource := Resource(uri, f.name, Description(f), f.mimeType);
      registry := registry + [Registration(resource, absPath)];
    }
  }

  /** One item of a resource read's answer. */
  datatype ResourceContents = TextResourceContents(uri: string, mimeType: string, text: string)

  /** The handler makeResourceHandler(path) builds, applied to a request for
      `requestUri`: reads `path` afresh and answers with exactly one text
      item carrying the request's URI and "text/plain", whatever MIME type
      the resource declared; a failed read is returned as an error. */
  function ReadResource(path: string, fs: FileSystem, requestUri: string): (r: Result<seq<ResourceContents>>)
    ensures r.Ok? <==> ReadWholeFile(fs, path).Ok?
    ensures r.Ok? ==>
      && |r.value| == 1
      && r.value[0].uri == requestUri
      && r.value[0].mimeType == "text/plain"
      && (forall i :: 0 <= i < |r.value[0].text| ==> r.value[0].text[i] as int < 256)
      && TextToBytes(r.value[0].text) == ReadWholeFile(fs, path).value
    ensures r.Err? ==> r.error == "failed to read " + path + ": " + ReadWholeFile(fs, path).error
  {
    match ReadWholeFile(fs, path)
    case Err(e) => Err("failed to read " + path + ": " + e)
    case Ok(data) =>
      BytesToTextRoundTrip(data);
      Ok([TextResourceContents(requestUri, "text/plain", BytesToText(data))])
  }

  // ---------------------------------------------------------------------
  // Tool surface

  /** A tool call's result: a text, flagged as an error or not. */
  datatype ToolResult = ToolResult(isError: bool, text: string)

  /** A tool-call argument value; only strings matter to read_file. */
  datatype Arg = StringArg(s: string) | OtherArg

  /** request.RequireString(key): the argument when present and a string. */
  function RequireString(args: map<string, Arg>, key: string): (r: Option<string>)
    ensures r.Some? <==> key in args && args[key].StringArg?
    ensures r.Some? ==> args[key] == StringArg(r.value)
  {
    if key in args && args[key].StringArg? then Some(args[key].s) else None
  }

  /** list_files: the serialisation of the whole list as one text result;
      an error result only when serialisation fails. json.MarshalIndent is
      the parameter `marshal`. */
  function ListFiles(files: seq<FileEntry>, marshal: seq<FileEntry> -> Option<string>): (r: ToolResult)
    ensures r.isError <==> marshal(files).None?
    ensures r.isError ==> r.text == "failed to serialize file list"
    ensures !r.isError ==> r.text == marshal(files).value
  {
    match marshal(files)
    case None => ToolResult(true, "failed to serialize file list")
    case Some(data) => ToolResult(false, data)
  }

  /** Whether `name` is, exactly and case-sensitively, the name of a record. */
  predicate Listed(files: seq<FileEntry>, name: string)
  {
    exists k :: 0 <= k < |files| && files[k].name == name
  }

  /** What a read_file call yields: the tool result, and the one path it
      reads from the filesystem, if any. */
  datatype Response = Response(result: ToolResult, accessed: Option<string>)

  /** The specification of read_file. Without a string `name` it answers
      "missing required parameter: name"; with a name that no record has it
      answers "file not found: <name>"; in neither case does it touch the
      filesystem. Otherwise it reads the resolved path of that name and
      answers with the bytes, or with "failed to read file: <error>". */
  function ReadFileResponse(folder: string, files: seq<FileEntry>, args: map<string, Arg>,
                            resolve: (string, string) -> string, fs: FileSystem): (resp: Response)
    // containment: the only path ever read is that of a listed record
    ensures resp.accessed.Some? ==>
      exists k :: 0 <= k < |files| && resp.accessed.value == resolve(folder, files[k].name)
    // the filesystem is read exactly when the name is given and listed
    ensures resp.accessed.Some? <==>
      RequireString(args, "name").Some? && Listed(files, RequireString(args, "name").value)
    ensures RequireString(args, "name").None? ==>
      resp.result == ToolResult(true, "missing required parameter: name")
    ensures RequireString(args, "name").Some? && !Listed(files, RequireString(args, "name").value) ==>
      resp.result == ToolResult(true, "file not found: " + RequireString(args, "name").value)
    // a failed read is an error result, a successful one the bytes verbatim
    ensures resp.accessed.Some? ==>
      && (resp.result.isError <==> ReadWholeFile(fs, resp.accessed.value).Err?)
      && (resp.result.isError ==>
            resp.result.text == "failed to read file: " + ReadWholeFile(fs, resp.accessed.value).error)
      && (!resp.result.isError ==>
            (forall i :: 0 <= i < |resp.result.text| ==> resp.result.text[i] as int < 256) &&
            TextToBytes(resp.result.text) == ReadWholeFile(fs, resp.accessed.value).value)
  {
    match RequireString(args, "name")
    case None => Response(ToolResult(true, "missing required parameter: name"), None)
    case Some(name) =>
      if !Listed(files, name) then Response(ToolResult(true, "file not found: " + name), None)
      else
        var absPath := resolve(folder, name);
        match ReadWholeFile(fs, absPath)
        case Err(e) => Response(ToolResult(true, "failed to read file: " + e), Some(absPath))
        case Ok(data) =>
          BytesToTextRoundTrip(data);
          Response(ToolResult(false, BytesToText(data)), Some(absPath))
  }

  /** The read_file handler: a linear search with a `found` flag that stops
      at the first record with the requested name, then at most one read. */
  method ReadFile(folder: string, files: seq<FileEntry>, args: map<string, Arg>,
                  resolve: (string, string) -> string, fs: FileSystem)
    returns (result: ToolResult, accessed: Option<string>)
    ensures Response(result, accessed) == ReadFileResponse(folder, files, args, resolve, fs)
  {
    var arg := RequireString(args, "name");
    if arg.None? {
      return ToolResult(true, "missing required parameter: name"), None;
    }
    var name := arg.value;

    var found := false;
    var i := 0;
    while i < |files|
      invariant 0 <= i <= |files|
      invariant forall j :: 0 <= j < i ==> files[j].name != name
    {
      if files[i].name == name {
        found := true;
        break;
      }
      i := i + 1;
    }
    if !found {
      return ToolResult(true, "file not found: " + name), None;
    }

    var absPath := resolve(folder, name);
    accessed := Some(absPath);
    var data := ReadWholeFile(fs, absPath);
    if data.Err? {
      return ToolResult(true, "failed to read file: " + data.error), accessed;
    }
    return ToolResult(false, BytesToText(data.value)), accessed;
  }

  /** The two surfaces agree: reading the resource registered for a record
      and calling read_file with that record's name read the same path and,
      when it can be read, answer with the same text. */
  lemma ResourceAndToolAgree(folder: string, files: seq<FileEntry>, registry: seq<Registration>,
                             resolve: (string, string) -> string, fs: FileSystem, k: nat, requestUri: string)
    requires |registry| == |files| && k < |files|
    requires registry[k].path == resolve(folder, files[k].name)
    ensures ReadFileResponse(folder, files, map["name" := StringArg(files[k].name)], resolve, fs).accessed
            == Some(registry[k].path)
    ensures ReadResource(registry[k].path, fs, requestUri).Ok? <==>
            !ReadFileResponse(folder, files, map["name" := StringArg(files[k].name)], resolve, fs).result.isError
    ensures ReadResource(registry[k].path, fs, requestUri).Ok? ==>
            ReadResource(registry[k].path, fs, requestUri).value[0].text ==
            ReadFileResponse(folder, files, map["name" := StringArg(files[k].name)], resolve, fs).result.text
  {
    var args := map["name" := StringArg(files[k].name)];
    assert RequireString(args, "name") == Some(files[k].name);
    assert Listed(files, files[k].name);
  }
}
