/** Worked requests: what the server answers to particular inputs, derived from the
    model of quicr/examples/server.rs. Byte strings are written out as ASCII codes, with
    their text in the comment beside them. */
module Scenarios {
  import opened Wrappers
  import Utf8
  import opened Paths
  import opened Failures
  import opened Server

  /** "POST /x\r\n" */
  const PostRequest: seq<byte> := [0x50, 0x4F, 0x53, 0x54, 0x20, 0x2F, 0x78, 0x0D, 0x0A]
  /** "GET \r" */
  const ShortRequest: seq<byte> := [0x47, 0x45, 0x54, 0x20, 0x0D]
  /** "index.html" */
  const IndexHtml: seq<byte> := [0x69, 0x6E, 0x64, 0x65, 0x78, 0x2E, 0x68, 0x74, 0x6D, 0x6C]
  /** "secret" */
  const Secret: seq<byte> := [0x73, 0x65, 0x63, 0x72, 0x65, 0x74]
  /** "/../secret" */
  const TraversalPath: seq<byte> := [0x2F, 0x2E, 0x2E, 0x2F, 0x73, 0x65, 0x63, 0x72, 0x65, 0x74]
  /** "hi" */
  const Hi: seq<byte> := [0x68, 0x69]

  /** The text of a failure response for a failure without a cause. */
  lemma TextOfMessage(d: string)
    ensures FailureText(Message(d)) == "failed to process request: " + d + "\n"
  {
  }

  /** A method other than GET is refused before anything else is looked at. */
  lemma PostIsMissingGet(root: seq<byte>, fs: FileSystem)
    ensures ProcessGetSpec(root, PostRequest, fs) == Err(MissingGet)
    ensures FailureText(MissingGet) == "failed to process request: missing GET\n"
  {
    assert PostRequest[..4][0] != GetPrefix[0];
    TextOfMessage("missing GET");
  }

  /** "GET \r" has the prefix but no room after it for the terminator. */
  lemma ShortRequestIsMissingTerminator(root: seq<byte>, fs: FileSystem)
    ensures ProcessGetSpec(root, ShortRequest, fs) == Err(MissingCrLf)
  {
    assert ShortRequest[..4] == GetPrefix;
  }

  /** A request whose path is valid UTF-8 but has no root marker is refused as not
      absolute, whatever the root and the file tree. */
  lemma UnrootedIsNotAbsolute(root: seq<byte>, path: seq<byte>, fs: FileSystem)
    requires Utf8.Valid(path) && !HasRoot(path)
    ensures ProcessGetSpec(root, FormatRequest(path), fs) == Err(NotAbsolute)
  {
    ParseFormatRequest(path);
    ResolvePathAccepts(root, path);
  }

  /** "GET \r\n": the empty path has no root marker. */
  lemma EmptyPathIsNotAbsolute(root: seq<byte>, fs: FileSystem)
    ensures ProcessGetSpec(root, FormatRequest([]), fs) == Err(NotAbsolute)
  {
    Utf8.AsciiIsValid([]);
    UnrootedIsNotAbsolute(root, [], fs);
  }

  /** "GET index.html\r\n": a relative path is refused even when it names a file under
      the root. */
  lemma RelativePathIsNotAbsolute(root: seq<byte>, fs: FileSystem)
    ensures ProcessGetSpec(root, FormatRequest(IndexHtml), fs) == Err(NotAbsolute)
  {
    var path := IndexHtml;
    assert path[0] != Slash;
    assert forall i :: 0 <= i < |path| ==> path[i] < 0x80;
    Utf8.AsciiIsValid(path);
    UnrootedIsNotAbsolute(root, path, fs);
  }

  /** "GET /../secret\r\n": a parent-directory step is refused, not resolved, and no file
      is read. */
  lemma TraversalIsIllegal(root: seq<byte>, fs: FileSystem)
    ensures ProcessGetSpec(root, FormatRequest(TraversalPath), fs)
         == Err(Message(IllegalComponent + "ParentDir"))
  {
    assert TraversalPath == [Slash, Dot, Dot, Slash] + Secret;
    Utf8.AsciiIsValid(TraversalPath);
    ParentFirstIsIllegal(root, Secret, fs);
  }

  /** Any UTF-8 path that starts with "/../" is refused as an illegal component. */
  lemma ParentFirstIsIllegal(root: seq<byte>, rest: seq<byte>, fs: FileSystem)
    requires Utf8.Valid([Slash, Dot, Dot, Slash] + rest)
    ensures ProcessGetSpec(root, FormatRequest([Slash, Dot, Dot, Slash] + rest), fs)
         == Err(Message(IllegalComponent + "ParentDir"))
  {
    var path := [Slash, Dot, Dot, Slash] + rest;
    ParseFormatRequest(path);
    DotDotPiece(rest);
    ResolvePathAccepts(root, path);
  }

  lemma DotDotPiece(rest: seq<byte>)
    ensures [Dot, Dot] in Pieces([Slash, Dot, Dot, Slash] + rest)
  {
    var path := [Slash, Dot, Dot, Slash] + rest;
    assert FirstSlash(path) == 0;
    assert path[1..] == [Dot, Dot] + [Slash] + rest;
    FirstSlashAt([Dot, Dot], rest);
    assert Pieces(path) == [[]] + Pieces(path[1..]);
    assert Pieces(path[1..])[0] == [Dot, Dot];
  }

  /** A request for one normal name under a root that does not end in '/' reads the
      file at root + "/" + name. */
  lemma ServeSingle(root: seq<byte>, name: seq<byte>, fs: FileSystem)
    requires NormalName(name) && Utf8.Valid([Slash] + name)
    requires |root| > 0 && root[|root| - 1] != Slash
    ensures ProcessGetSpec(root, FormatRequest([Slash] + name), fs) == ReadFile(fs, root + [Slash] + name)
  {
    assert Suffix([name]) == name;
    assert Resolve(root, [name]) == root + [Slash] + name by {
      assert [name][..0] == [];
    }
    ServeFormattedRequest(root, [name], fs);
  }

  /** "GET /index.html\r\n": a file under the root is served as it is. */
  lemma ServesIndex(root: seq<byte>, fs: FileSystem)
    requires |root| > 0 && root[|root| - 1] != Slash
    requires fs(root + [Slash] + IndexHtml) == Contents(Hi)
    ensures Response(ProcessGetSpec(root, FormatRequest([Slash] + IndexHtml), fs)) == Hi
  {
    assert NormalName(IndexHtml);
    Utf8.AsciiIsValid([Slash] + IndexHtml);
    ServeSingle(root, IndexHtml, fs);
  }

  /** A file that cannot be read yields "failed reading file" and the I/O error's text. */
  lemma UnreadableFile(root: seq<byte>, name: seq<byte>, fs: FileSystem, reason: string)
    requires NormalName(name) && Utf8.Valid([Slash] + name)
    requires |root| > 0 && root[|root| - 1] != Slash
    requires fs(root + [Slash] + name) == IoError(reason)
    ensures ProcessGetSpec(root, FormatRequest([Slash] + name), fs)
         == Err(Context(ReadFailed, Message(reason)))
  {
    ServeSingle(root, name, fs);
  }

  /** The text of a failure response for a failure with one cause that has none. */
  lemma TextOfContext(d: string, reason: string)
    ensures FailureText(Context(d, Message(reason)))
         == "failed to process request: " + d + ": " + reason + "\n"
  {
    PrettyContext(d, Message(reason));
  }

  /** The text sent back for an unreadable file. */
  lemma ReadFailureText(reason: string)
    ensures FailureText(Context(ReadFailed, Message(reason)))
         == "failed to process request: " + "failed reading file" + ": " + reason + "\n"
  {
    TextOfContext(ReadFailed, reason);
  }

  /** The path of "/./n" or "//n" splits into an empty piece, a "." or empty piece, and n. */
  lemma MarkerPieces(mid: seq<byte>, n: seq<byte>)
    requires mid == [] || mid == [Dot]
    requires NoSlash(n)
    ensures Pieces([Slash] + mid + [Slash] + n) == [[], mid, n]
  {
    var p := [Slash] + mid + [Slash] + n;
    var q := mid + [Slash] + n;
    assert FirstSlash(p) == 0;
    assert p[..0] == [] && p[1..] == q;
    FirstSlashAt(mid, n);
    assert q[..|mid|] == mid && q[|mid| + 1..] == n;
    FirstSlashNone(n);
    assert Pieces(n) == [n];
    assert Pieces(q) == [mid] + Pieces(n);
  }

  lemma ClassifyUnroll(mid: seq<byte>, n: seq<byte>)
    requires mid == [] || mid == [Dot]
    requires NormalName(n)
    ensures ClassifyAll([[], mid, n]) == [Normal(n)]
  {
    var ps: seq<seq<byte>> := [[], mid, n];
    assert ps[1..] == [mid, n] && ps[1..][1..] == [n];
    assert Classify(n) == [Normal(n)];
    assert ClassifyAll([n]) == [Normal(n)] + ClassifyAll([n][1..]);
    assert [n][1..] == [];
    assert ClassifyAll([mid, n]) == Classify(mid) + ClassifyAll([n]);
    assert ClassifyAll(ps) == Classify([]) + ClassifyAll([mid, n]);
  }

  /** A "." component or a repeated '/' after the root is skipped, not refused:
      "/./n" and "//n" resolve exactly as "/n" does. */
  lemma MarkersAreSkipped(root: seq<byte>, n: seq<byte>)
    requires NormalName(n)
    ensures ResolvePath(root, [Slash, Dot, Slash] + n) == Ok(Resolve(root, [n]))
    ensures ResolvePath(root, [Slash, Slash] + n) == Ok(Resolve(root, [n]))
  {
    MarkerPieces([Dot], n);
    assert [Slash] + [Dot] + [Slash] + n == [Slash, Dot, Slash] + n;
    MarkerPieces([], n);
    assert [Slash] + [] + [Slash] + n == [Slash, Slash] + n;
    ClassifyUnroll([Dot], n);
    ClassifyUnroll([], n);
  }
}
