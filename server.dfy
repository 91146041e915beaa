/** The request handling of the file server (quicr/examples/server.rs:143-197): the wire
    format check, the path check that confines every request to the served root, the
    file read, and the response and log text a request produces. */
module Server {
  import opened Wrappers
  import Utf8
  import opened Paths
  import opened Failures
  import Escape

  /** The literal `GET ` that starts every request. */
  const GetPrefix: seq<byte> := [0x47, 0x45, 0x54, 0x20]
  /** The `\r\n` that ends every request. */
  const Terminator: seq<byte> := [0x0D, 0x0A]

  const MissingGet: Fail := Message("missing GET")
  const MissingCrLf: Fail := Message("missing \\r\\n")
  const MalformedPath: string := "path is malformed UTF-8"
  const NotAbsolute: Fail := Message("path must be absolute")
  const IllegalComponent: string := "illegal component in path: "
  const ReadFailed: string := "failed reading file"

  /** The request a client sends for `path`. */
  function FormatRequest(path: seq<byte>): seq<byte>
  {
    GetPrefix + path + Terminator
  }

  /** The failure for a path that is not UTF-8: a context whose cause is the
      `Utf8Error`. */
  function MalformedFail(e: Utf8.Utf8Error): Fail
  {
    Context(MalformedPath, Message(Utf8.ErrorMessage(e)))
  }

  /** The wire checks of `process_get`, in their order: the `GET ` prefix, then the
      `\r\n` terminator after it, then UTF-8 of what lies between. */
  function ParseRequest(x: seq<byte>): (r: Result<seq<byte>, Fail>)
    ensures r == Err(MissingGet) <==> !(|x| >= 4 && x[..4] == GetPrefix)
    ensures r == Err(MissingCrLf)
        <==> |x| >= 4 && x[..4] == GetPrefix && !(|x| >= 6 && x[|x| - 2..] == Terminator)
    ensures r.Ok? <==> |x| >= 6 && x[..4] == GetPrefix && x[|x| - 2..] == Terminator && Utf8.Valid(x[4..|x| - 2])
    ensures r.Ok? ==> x == FormatRequest(r.value)
    ensures r.Err? && r.error != MissingGet && r.error != MissingCrLf
        ==> |x| >= 6 && r.error == MalformedFail(Utf8.Validate(x[4..|x| - 2]).value)
  {
    if |x| < 4 || x[..4] != GetPrefix then Err(MissingGet)
    else if |x[4..]| < 2 || x[|x| - 2..] != Terminator then Err(MissingCrLf)
    else
      var path := x[4..|x| - 2];
      assert x == GetPrefix + path + Terminator;
      match Utf8.Validate(path)
      case Some(e) => Err(MalformedFail(e))
      case None => Ok(path)
  }

  /** Formatting a request and checking it give back the path, or the UTF-8 error. */
  lemma ParseFormatRequest(path: seq<byte>)
    ensures ParseRequest(FormatRequest(path))
         == if Utf8.Valid(path) then Ok(path) else Err(MalformedFail(Utf8.Validate(path).value))
  {
    var x := FormatRequest(path);
    assert x[..4] == GetPrefix;
    assert x[|x| - 2..] == Terminator;
    assert x[4..|x| - 2] == path;
  }

  /** The first component from index `from` on that is not `Normal`. */
  function FirstIllegal(cs: seq<Component>, from: nat): (r: Option<nat>)
    ensures r.Some? ==> (from <= r.value < |cs| && !cs[r.value].Normal?
                         && forall j :: from <= j < r.value ==> cs[j].Normal?)
    ensures r.None? ==> forall j :: from <= j < |cs| ==> cs[j].Normal?
    decreases |cs| - from
  {
    if from >= |cs| then None
    else if !cs[from].Normal? then Some(from)
    else FirstIllegal(cs, from + 1)
  }

  /** What `process_get` makes of the path text: it must start with the root marker,
      every later component must be a normal name, and those names are pushed onto
      `root` in order. */
  function ResolvePath(root: seq<byte>, path: seq<byte>): (r: Result<seq<byte>, Fail>)
    ensures r.Ok? ==> HasRoot(path) && |root| <= |r.value| && r.value[..|root|] == root
  {
    ComponentsRooted(path);
    var cs := Components(path);
    if |cs| == 0 || cs[0] != RootDir then Err(NotAbsolute)
    else match FirstIllegal(cs, 1)
      case Some(k) => Err(Message(IllegalComponent + Debug(cs[k])))
      case None =>
        ResolveKeepsRoot(root, Names(cs[1..]));
        Ok(Resolve(root, Names(cs[1..])))
  }

  /** The outcome of `fs::read` on a path: the file's bytes, or the Display text of the
      `io::Error`. */
  datatype IoResult = Contents(data: seq<byte>) | IoError(display: string)

  /** The file tree the server reads from, as a lookup. */
  type FileSystem = seq<byte> -> IoResult

  /** `fs::read(&real_path).context("failed reading file")`. */
  function ReadFile(fs: FileSystem, resolved: seq<byte>): Result<seq<byte>, Fail>
  {
    match fs(resolved)
    case Contents(data) => Ok(data)
    case IoError(d) => Err(Context(ReadFailed, Message(d)))
  }

  /** `process_get` as a whole. */
  function ProcessGetSpec(root: seq<byte>, x: seq<byte>, fs: FileSystem): (r: Result<seq<byte>, Fail>)
    ensures r.Ok? ==> ParseRequest(x).Ok? && ResolvePath(root, ParseRequest(x).value).Ok?
    ensures r.Ok? ==> fs(ResolvePath(root, ParseRequest(x).value).value) == Contents(r.value)
  {
    match ParseRequest(x)
    case Err(e) => Err(e)
    case Ok(path) =>
      match ResolvePath(root, path)
      case Err(e) => Err(e)
      case Ok(resolved) => ReadFile(fs, resolved)
  }

  /** `process_get`: after the wire checks, takes the first component, then pushes
      each later one onto a copy of `root`, stopping at the first that is not normal. */
  method ProcessGet(root: seq<byte>, x: seq<byte>, fs: FileSystem) returns (r: Result<seq<byte>, Fail>)
    ensures r == ProcessGetSpec(root, x, fs)
  {
    var parsed := ParseRequest(x);
    if parsed.Err? {
      return Err(parsed.error);
    }
    var path := parsed.value;
    var realPath := root;
    var components := Components(path);
    if |components| == 0 || components[0] != RootDir {
      return Err(NotAbsolute);
    }
    var i := 1;
    while i < |components|
      invariant 1 <= i <= |components|
      invariant forall j :: 1 <= j < i ==> components[j].Normal?
      invariant realPath == Resolve(root, Names(components[1..i]))
      invariant FirstIllegal(components, 1) == FirstIllegal(components, i)
    {
      match components[i] {
        case Normal(name) =>
          ResolveStep(root, components, i);
          realPath := Push(realPath, name);
        case c =>
          return Err(Message(IllegalComponent + Debug(c)));
      }
      i := i + 1;
    }
    assert components[1..i] == components[1..];
    r := ReadFile(fs, realPath);
  }

  lemma ResolveStep(root: seq<byte>, cs: seq<Component>, i: nat)
    requires 1 <= i < |cs| && forall j :: 1 <= j <= i ==> cs[j].Normal?
    ensures Resolve(root, Names(cs[1..i + 1])) == Push(Resolve(root, Names(cs[1..i])), cs[i].name)
  {
    var names := Names(cs[1..i + 1]);
    assert names[..|names| - 1] == Names(cs[1..i]);
  }

  /** The bytes written back: the file, or the failure text. */
  function Response(r: Result<seq<byte>, Fail>): seq<byte>
  {
    match r
    case Ok(data) => data
    case Err(e) => FailureResponse(e)
  }

  /** The request step of `handle_request` (lines 156-167): the escaped text for the
      "got request" log line, and the response, where every failure of `process_get`
      becomes "failed to process request: " and the error's chain. */
  method HandleRequest(root: seq<byte>, req: seq<byte>, fs: FileSystem) returns (content: string, resp: seq<byte>)
    ensures content == Escape.EscapeAll(req)
    ensures resp == Response(ProcessGetSpec(root, req, fs))
  {
    content := Escape.EscapeRequest(req);
    var r := ProcessGet(root, req, fs);
    match r
    case Ok(data) =>
      resp := data;
    case Err(e) =>
      var pretty := Pretty(e);
      resp := Utf8.Encode(FailurePrefix + pretty + "\n");
  }

  // ---- the path check ----

  /** After the root marker, the first component that is not normal is always a
      `ParentDir`, and there is one exactly when a piece of the path is "..". */
  lemma RootedFirstIllegal(path: seq<byte>)
    requires HasRoot(path)
    ensures FirstIllegal(Components(path), 1).None? <==> [Dot, Dot] !in Pieces(path)
    ensures FirstIllegal(Components(path), 1).Some?
        ==> Components(path)[FirstIllegal(Components(path), 1).value] == ParentDir
  {
    var cs := Components(path);
    ComponentsRooted(path);
    ClassifyAllKinds(Pieces(path));
    var body := cs[1..];
    assert body == BodyComponents(path);
    if FirstIllegal(cs, 1).Some? {
      var k := FirstIllegal(cs, 1).value;
      assert cs[k] == body[k - 1];
    }
  }

  /** The path check accepts exactly the paths that start with '/' and have no ".."
      piece; a path that does not start with '/' (relative, or empty) is "not absolute",
      and any ".." rejects the whole path instead of being resolved. */
  lemma ResolvePathAccepts(root: seq<byte>, path: seq<byte>)
    ensures ResolvePath(root, path).Ok? <==> HasRoot(path) && [Dot, Dot] !in Pieces(path)
    ensures !HasRoot(path) ==> ResolvePath(root, path) == Err(NotAbsolute)
    ensures HasRoot(path) && [Dot, Dot] in Pieces(path)
        ==> ResolvePath(root, path) == Err(Message(IllegalComponent + "ParentDir"))
  {
    ComponentsRooted(path);
    if HasRoot(path) {
      RootedFirstIllegal(path);
    }
  }

  /** What an accepted path resolves to: `root` with the path's pieces pushed in input
      order, leaving out the empty ones and ".". The root is a prefix of the result, every
      pushed name is a normal name, and what follows the root splits back into exactly
      those names, so the result is a descendant of the root. */
  lemma ResolvePathDescendant(root: seq<byte>, path: seq<byte>)
    requires ResolvePath(root, path).Ok?
    ensures var names := KeptNames(Pieces(path));
            var resolved := ResolvePath(root, path).value;
            && (forall k :: 0 <= k < |names| ==> NormalName(names[k]))
            && resolved == Resolve(root, names)
            && |root| <= |resolved| && resolved[..|root|] == root
            && BodyComponents(resolved[|root|..])
               == seq(|names|, k requires 0 <= k < |names| => Normal(names[k]))
  {
    ResolvePathAccepts(root, path);
    ComponentsRooted(path);
    var cs := Components(path);
    var body := cs[1..];
    assert body == ClassifyAll(Pieces(path));
    ClassifyAllNames(Pieces(path));
    ClassifyAllNormalNames(path);
    var names := Names(body);
    assert names == KeptNames(Pieces(path));
    forall k | 0 <= k < |names| ensures NormalName(names[k]) {
      assert body[k] in body;
    }
    ResolveIsDescendant(root, names);
  }

  /** A client that asks for normal names joined under '/' is served the file at the
      root with those names pushed, whatever the names are. */
  lemma ServeFormattedRequest(root: seq<byte>, names: seq<seq<byte>>, fs: FileSystem)
    requires forall k :: 0 <= k < |names| ==> NormalName(names[k])
    requires Utf8.Valid([Slash] + Suffix(names))
    ensures ProcessGetSpec(root, FormatRequest([Slash] + Suffix(names)), fs)
         == ReadFile(fs, Resolve(root, names))
  {
    var path := [Slash] + Suffix(names);
    ParseFormatRequest(path);
    ComponentsRooted(path);
    assert !IncludeCurDir(path);
    SuffixComponents([Slash], names);
    var cs := Components(path);
    assert cs[1..] == seq(|names|, k requires 0 <= k < |names| => Normal(names[k]));
    assert FirstIllegal(cs, 1).None?;
    assert Names(cs[1..]) == names;
  }

  /** A rejected request reads no file: its response is the same whatever the file
      tree holds. */
  lemma RejectionReadsNoFile(root: seq<byte>, x: seq<byte>, fs1: FileSystem, fs2: FileSystem)
    requires ParseRequest(x).Err? || ResolvePath(root, ParseRequest(x).value).Err?
    ensures ProcessGetSpec(root, x, fs1) == ProcessGetSpec(root, x, fs2)
    ensures ProcessGetSpec(root, x, fs1).Err?
  {
  }

  /** The prefix check comes before every other: `process_get` fails with
      "missing GET" exactly for the inputs that do not start with `GET `, whatever the
      root and the file tree. */
  lemma MissingGetFirst(root: seq<byte>, x: seq<byte>, fs: FileSystem)
    ensures ProcessGetSpec(root, x, fs) == Err(MissingGet) <==> !(|x| >= 4 && x[..4] == GetPrefix)
  {
    var parsed := ParseRequest(x);
    if parsed.Ok? {
      var path := parsed.value;
      var cs := Components(path);
      if |cs| > 0 && cs[0] == RootDir && FirstIllegal(cs, 1).Some? {
        var d := IllegalComponent + Debug(cs[FirstIllegal(cs, 1).value]);
        assert |d| > |MissingGet.display|;
      }
    }
  }
}
