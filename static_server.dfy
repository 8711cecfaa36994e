/**
 * The request handler of the static server: confine the request path to the
 * document root (400 when that fails), serve `index.html` for a directory,
 * fall back to the root `index.html` for anything that cannot be read (the
 * single-page-application fallback), answer 404 when even that is missing,
 * and 500 when the request URL itself cannot be parsed.
 */
module StaticServer {
  import opened Wrappers
  import opened PosixPath
  import opened ContentTypes
  import opened Files
  import opened PathGuard

  /** A response body: the fixed texts of the error answers, or a file's bytes. */
  datatype Body = Text(text: string) | Bytes(data: seq<byte>)

  datatype Response = Response(status: int, headers: seq<(string, string)>, body: Body)

  /** A call the handler makes on the file system, with the path it passes. */
  datatype FsCall = StatCall(path: string) | ReadCall(path: string)

  /**
   * How a request is resolved: refused by the path guard, served from the
   * path it names (or that path's `index.html`), served from the root
   * `index.html` instead, or not found at all.
   */
  datatype Resolution =
    | Rejected
    | Primary(path: string, data: seq<byte>)
    | Fallback(path: string, data: seq<byte>)
    | NotFound

  /** A resolution and the file-system calls made to reach it, in order. */
  datatype Outcome = Outcome(resolution: Resolution, probes: seq<FsCall>)

  const BadRequest := Response(400, [], Text("Bad Request"))
  const NotFoundResponse := Response(404, [], Text("Not Found"))
  const InternalError := Response(500, [], Text("Internal Server Error"))

  /** The document root's `index.html`, the target of the fallback. */
  function RootIndex(root: string): string {
    Join2(root, "index.html")
  }

  /** Whatever the root, the fallback file is served as HTML. */
  lemma RootIndexIsHtml(root: string)
    ensures ContentType(RootIndex(root)) == Html
  {
    IndexIsHtml(root);
  }

  /**
   * The path read first: the joined path, or its `index.html` when it names
   * a directory. A failed `stat` leaves the path as it is.
   */
  function ReadTarget(fs: FileSystem, full: string): (t: string)
    ensures Key(full) in fs && fs[Key(full)].Directory? ==> t == Join2(full, "index.html")
    ensures !(Key(full) in fs && fs[Key(full)].Directory?) ==> t == full
    ensures Stat(fs, full).StatFailed? ==> t == full
  {
    if Stat(fs, full) == StatOk(true) then Join2(full, "index.html") else full
  }

  /** What the handler does with a joined path `full` inside `root`, as a value. */
  function Resolve(root: string, fs: FileSystem, full: string): (o: Outcome)
    ensures !o.resolution.Rejected? && o.probes != []
  {
    var target := ReadTarget(fs, full);
    var probes := [StatCall(full), ReadCall(target)];
    match ReadFile(fs, target)
    case ReadOk(data) => Outcome(Primary(target, data), probes)
    case ReadFailed(_) =>
      var index := RootIndex(root);
      var more := probes + [ReadCall(index)];
      match ReadFile(fs, index)
      case ReadOk(data) => Outcome(Fallback(index, data), more)
      case ReadFailed(_) => Outcome(NotFound, more)
  }

  /** The first target is served whenever it can be read; nothing else is read. */
  lemma ResolvePrimary(root: string, fs: FileSystem, full: string, data: seq<byte>)
    requires ReadFile(fs, ReadTarget(fs, full)) == ReadOk(data)
    ensures Resolve(root, fs, full)
            == Outcome(Primary(ReadTarget(fs, full), data), [StatCall(full), ReadCall(ReadTarget(fs, full))])
  {
  }

  /** When the first target cannot be read, the root `index.html` is read and, if readable, served. */
  lemma ResolveFallback(root: string, fs: FileSystem, full: string, data: seq<byte>)
    requires ReadFile(fs, ReadTarget(fs, full)).ReadFailed?
    requires ReadFile(fs, RootIndex(root)) == ReadOk(data)
    ensures Resolve(root, fs, full)
            == Outcome(Fallback(RootIndex(root), data),
                       [StatCall(full), ReadCall(ReadTarget(fs, full)), ReadCall(RootIndex(root))])
  {
  }

  /** Nothing is found exactly when neither read succeeds. */
  lemma ResolveNotFound(root: string, fs: FileSystem, full: string)
    ensures Resolve(root, fs, full).resolution.NotFound?
            <==> ReadFile(fs, ReadTarget(fs, full)).ReadFailed? && ReadFile(fs, RootIndex(root)).ReadFailed?
    ensures Resolve(root, fs, full).resolution.NotFound? ==>
            Resolve(root, fs, full).probes
            == [StatCall(full), ReadCall(ReadTarget(fs, full)), ReadCall(RootIndex(root))]
  {
  }

  /** What the handler does with a parsed request path, as a value. */
  function Pipeline(root: string, fs: FileSystem, pathname: string): (o: Outcome)
    ensures o.resolution.Rejected? <==> SafeJoinSpec(root, pathname).None?
    ensures o.resolution.Rejected? ==> o.probes == []
    ensures SafeJoinSpec(root, pathname).Some? ==> o == Resolve(root, fs, SafeJoinSpec(root, pathname).value)
  {
    var joined := SafeJoinSpec(root, pathname);
    if joined.None? || joined.value == "" then Outcome(Rejected, [])
    else Resolve(root, fs, joined.value)
  }

  /** The response sent for a resolution; a served file carries exactly one `content-type`. */
  function Respond(r: Resolution): (resp: Response)
    ensures resp.status == 200 <==> r.Primary? || r.Fallback?
    ensures resp.status == 200 ==> resp.body == Bytes(r.data)
                                   && resp.headers == [("content-type", ContentType(r.path))]
    ensures resp.status != 200 ==> resp.headers == [] && resp.body.Text?
  {
    match r
    case Rejected => BadRequest
    case Primary(path, data) => Response(200, [("content-type", ContentType(path))], Bytes(data))
    case Fallback(path, data) => Response(200, [("content-type", ContentType(path))], Bytes(data))
    case NotFound => NotFoundResponse
  }

  /**
   * The handler, step by step as the source runs it. `pathname` is `None`
   * when parsing the request URL throws. It returns the response and the
   * file-system calls it made.
   */
  method Handle(root: string, fs: FileSystem, pathname: Option<string>) returns (resp: Response, calls: seq<FsCall>)
    ensures pathname.None? ==> resp == InternalError && calls == []
    ensures pathname.Some? ==> resp == Respond(Pipeline(root, fs, pathname.value).resolution)
                               && calls == Pipeline(root, fs, pathname.value).probes
    ensures resp.status == 500 <==> pathname.None?
  {
    if pathname.None? {
      return InternalError, [];
    }
    var filePath := SafeJoin(root, pathname.value);
    if filePath.None? || filePath.value == "" {
      return BadRequest, [];
    }
    var found, path, data;
    found, path, data, calls := ReadWithFallback(root, fs, filePath.value);
    if !found {
      return NotFoundResponse, calls;
    }
    var contentType := ContentType(path);
    resp := Response(200, [("content-type", contentType)], Bytes(data));
  }

  /**
   * The reads after the path guard: `stat` the joined path, switch to its
   * `index.html` when it is a directory, read it, and when that fails read
   * the root `index.html` instead. `found` is false when neither read succeeds.
   */
  method ReadWithFallback(root: string, fs: FileSystem, full: string)
    returns (found: bool, path: string, data: seq<byte>, calls: seq<FsCall>)
    ensures found <==> !Resolve(root, fs, full).resolution.NotFound?
    ensures found ==> path == Resolve(root, fs, full).resolution.path && data == Resolve(root, fs, full).resolution.data
    ensures calls == Resolve(root, fs, full).probes
  {
    path := full;
    var stat := Stat(fs, path);
    calls := [StatCall(path)];
    if stat.StatOk? && stat.isDirectory {
      path := Join2(path, "index.html");
    }
    assert path == ReadTarget(fs, full);
    var read := ReadFile(fs, path);
    calls := calls + [ReadCall(path)];
    if read.ReadOk? {
      ResolvePrimary(root, fs, full, read.data);
      return true, path, read.data, calls;
    }
    var index := Join2(root, "index.html");
    var fallback := ReadFile(fs, index);
    calls := calls + [ReadCall(index)];
    if fallback.ReadFailed? {
      ResolveNotFound(root, fs, full);
      return false, path, [], calls;
    }
    ResolveFallback(root, fs, full, fallback.data);
    return true, index, fallback.data, calls;
  }

  // ---------------------------------------------------------------------
  // Properties of the handler

  /** The response to a parsed request path. */
  function Answer(root: string, fs: FileSystem, pathname: string): Response {
    Respond(Pipeline(root, fs, pathname).resolution)
  }

  /** A request is answered 400 exactly when the joined path does not start with the root, and then the file system is not touched. */
  lemma BadRequestIffOutsideRoot(root: string, fs: FileSystem, pathname: string)
    ensures Answer(root, fs, pathname).status == 400 <==> !(root <= Join2(root, TargetPath(pathname)))
    ensures Answer(root, fs, pathname).status == 400 ==> Answer(root, fs, pathname) == BadRequest
                                                         && Pipeline(root, fs, pathname).probes == []
  {
  }

  /** File-system failures never turn into a 500: every parsed request gets 200, 400 or 404. */
  lemma FsErrorsNeverServerError(root: string, fs: FileSystem, pathname: string)
    ensures Answer(root, fs, pathname).status in {200, 400, 404}
  {
  }

  /** A readable file named by the request is served with the type of its own extension. */
  lemma FileServed(root: string, fs: FileSystem, pathname: string, full: string)
    requires SafeJoinSpec(root, pathname) == Some(full)
    requires Key(full) in fs && fs[Key(full)].File? && !NamesDirectory(full)
    ensures Answer(root, fs, pathname)
            == Response(200, [("content-type", ContentType(full))], Bytes(fs[Key(full)].data))
  {
    assert Stat(fs, full) == StatOk(false);
  }

  /** A directory with a readable `index.html` is answered with that file, as HTML. */
  lemma DirectoryServesIndex(root: string, fs: FileSystem, pathname: string, full: string, data: seq<byte>)
    requires SafeJoinSpec(root, pathname) == Some(full)
    requires Stat(fs, full) == StatOk(true)
    requires ReadFile(fs, Join2(full, "index.html")) == ReadOk(data)
    ensures Answer(root, fs, pathname) == Response(200, [("content-type", Html)], Bytes(data))
  {
    IndexIsHtml(full);
  }

  /**
   * When the first read fails (no such file, a directory without index, an
   * unreadable file) the root `index.html` is served, as HTML, if it can be read.
   */
  lemma FallbackServesRootIndex(root: string, fs: FileSystem, pathname: string, full: string, data: seq<byte>)
    requires SafeJoinSpec(root, pathname) == Some(full)
    requires ReadFile(fs, ReadTarget(fs, full)).ReadFailed?
    requires ReadFile(fs, RootIndex(root)) == ReadOk(data)
    ensures Answer(root, fs, pathname) == Response(200, [("content-type", Html)], Bytes(data))
    ensures Pipeline(root, fs, pathname).probes
            == [StatCall(full), ReadCall(ReadTarget(fs, full)), ReadCall(RootIndex(root))]
  {
    ResolveFallback(root, fs, full, data);
    assert Pipeline(root, fs, pathname).resolution == Fallback(RootIndex(root), data);
    IndexIsHtml(root);
  }

  /** 404 is answered exactly when neither the requested path nor the root `index.html` can be read. */
  lemma NotFoundIff(root: string, fs: FileSystem, pathname: string)
    ensures Answer(root, fs, pathname).status == 404
            <==> SafeJoinSpec(root, pathname).Some?
                 && ReadFile(fs, ReadTarget(fs, SafeJoinSpec(root, pathname).value)).ReadFailed?
                 && ReadFile(fs, RootIndex(root)).ReadFailed?
    ensures Answer(root, fs, pathname).status == 404 ==> Answer(root, fs, pathname) == NotFoundResponse
  {
  }

  /** The handler only ever touches the joined path, its `index.html`, and the root `index.html`, in that order. */
  lemma ResolveProbes(root: string, fs: FileSystem, full: string)
    ensures var o := Resolve(root, fs, full);
            o.probes <= [StatCall(full), ReadCall(ReadTarget(fs, full)), ReadCall(RootIndex(root))]
  {
    match ReadFile(fs, ReadTarget(fs, full))
    case ReadOk(data) => ResolvePrimary(root, fs, full, data);
    case ReadFailed(_) =>
      match ReadFile(fs, RootIndex(root))
      case ReadOk(data) => ResolveFallback(root, fs, full, data);
      case ReadFailed(_) => ResolveNotFound(root, fs, full);
  }

  /** The bytes served are exactly those returned by the last read the handler made, on the path served. */
  lemma ServedBytesFromLastRead(root: string, fs: FileSystem, full: string)
    ensures var o := Resolve(root, fs, full);
            o.resolution.Primary? || o.resolution.Fallback? ==>
              o.probes[|o.probes| - 1] == ReadCall(o.resolution.path)
              && ReadFile(fs, o.resolution.path) == ReadOk(o.resolution.data)
  {
    match ReadFile(fs, ReadTarget(fs, full))
    case ReadOk(data) => ResolvePrimary(root, fs, full, data);
    case ReadFailed(_) =>
      match ReadFile(fs, RootIndex(root))
      case ReadOk(data) => ResolveFallback(root, fs, full, data);
      case ReadFailed(_) => ResolveNotFound(root, fs, full);
  }

  /** Calls drawn, in order, from three paths inside `root` stay inside `root`. */
  lemma PrefixWithin(root: string, probes: seq<FsCall>, all: seq<FsCall>)
    requires probes <= all
    requires forall i :: 0 <= i < |all| ==> Within(root, all[i].path)
    ensures forall i :: 0 <= i < |probes| ==> Within(root, probes[i].path)
  {
    forall i | 0 <= i < |probes|
      ensures Within(root, probes[i].path)
    {
      assert probes[i] == all[i];
    }
  }

  /** The calls stay inside `root` when the three paths the handler may touch do. */
  lemma ProbesWithin(root: string, fs: FileSystem, full: string)
    requires Within(root, full) && Within(root, ReadTarget(fs, full)) && Within(root, RootIndex(root))
    ensures var o := Resolve(root, fs, full);
            forall i :: 0 <= i < |o.probes| ==> Within(root, o.probes[i].path)
  {
    ResolveProbes(root, fs, full);
    PrefixWithin(root, Resolve(root, fs, full).probes,
                 [StatCall(full), ReadCall(ReadTarget(fs, full)), ReadCall(RootIndex(root))]);
  }

  /** Under a normal root no request is refused, and every file-system call names a path inside the root. */
  lemma ProbesStayInRoot(rootSegs: seq<string>, fs: FileSystem, pathname: string)
    requires AllNames(rootSegs)
    ensures !Pipeline(Abs(rootSegs), fs, pathname).resolution.Rejected?
    ensures var o := Pipeline(Abs(rootSegs), fs, pathname);
            forall i :: 0 <= i < |o.probes| ==> Within(Abs(rootSegs), o.probes[i].path)
  {
    SafeJoinUnderNormalRoot(rootSegs, pathname);
    ReadTargetInRoot(rootSegs, fs, pathname);
    RootIndexInRoot(rootSegs);
    ProbesWithin(Abs(rootSegs), fs, SafeJoinSpec(Abs(rootSegs), pathname).value);
  }

  lemma ReadTargetInRoot(rootSegs: seq<string>, fs: FileSystem, pathname: string)
    requires AllNames(rootSegs)
    ensures SafeJoinSpec(Abs(rootSegs), pathname).Some?
    ensures Within(Abs(rootSegs), ReadTarget(fs, SafeJoinSpec(Abs(rootSegs), pathname).value))
  {
    var segs := RequestSegments(pathname);
    var tail := if segs != [] && TrailingSeparator(pathname) then "/" else "";
    SafeJoinUnderNormalRoot(rootSegs, pathname);
    var full := SafeJoinSpec(Abs(rootSegs), pathname).value;
    assert Within(Abs(rootSegs), Join2(full, "index.html")) by {
      assert full == Abs(rootSegs + segs) + tail;
      IndexInRoot(rootSegs, segs, tail != "");
    }
  }

  /** The `index.html` of a directory inside the root is inside the root. */
  lemma IndexInRoot(rootSegs: seq<string>, segs: seq<string>, trailing: bool)
    requires AllNames(rootSegs) && AllNames(segs)
    ensures Within(Abs(rootSegs), Join2(Abs(rootSegs + segs) + (if trailing then "/" else ""), "index.html"))
  {
    assert AllNames(rootSegs + segs) by {
      assert forall i :: 0 <= i < |rootSegs| ==> (rootSegs + segs)[i] == rootSegs[i];
      assert forall i :: |rootSegs| <= i < |rootSegs + segs| ==> (rootSegs + segs)[i] == segs[i - |rootSegs|];
    }
    JoinIndex(rootSegs + segs, trailing);
    WithinAppend(rootSegs, segs + ["index.html"]);
    assert rootSegs + segs + ["index.html"] == rootSegs + (segs + ["index.html"]);
  }

  lemma RootIndexInRoot(rootSegs: seq<string>)
    requires AllNames(rootSegs)
    ensures Within(Abs(rootSegs), RootIndex(Abs(rootSegs)))
  {
    JoinIndex(rootSegs, false);
    assert Abs(rootSegs) + "" == Abs(rootSegs);
    WithinAppend(rootSegs, ["index.html"]);
  }
}
