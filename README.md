# Static file server: path guard, content types and request pipeline

The build script `scripts/postbuild.js` writes a small Node static file
server, `dist/server/entry.mjs`, whose source it carries as a string. That
server answers each HTTP request from the files under the working directory.
It works in four steps:

- **`safeJoin`** normalizes the request path as if it were rooted at `/`,
  strips the leading separators, joins what remains onto the document root,
  and refuses the result (`null`) unless it starts with the root.
- **Directory index.** When the joined path is a directory, the server reads
  its `index.html` instead.
- **Single-page-application fallback.** When the first read fails, the
  server reads the root `index.html`. When that fails as well, the answer is
  404.
- **Content type.** The type comes from a fixed table keyed by the
  lower-cased `extname` of the file actually served, with
  `application/octet-stream` as the default. Requests refused by `safeJoin`
  get 400, and an exception escaping the handler gets 500.

The model has six modules, one file each:

- `wrappers.dfy` (`Wrappers`): the `Option` type, standing in for `null`.
- `posix_path.dfy` (`PosixPath`): the parts of Node's `path.posix` that the
  server uses, as pure functions on strings:
  - splitting at `/`;
  - `normalize` (collapsing `.`, `..` and repeated separators, keeping a
    trailing separator);
  - two-argument `join`;
  - `extname`.
- `content_types.dfy` (`ContentTypes`): the MIME table, ASCII lower-casing,
  and the content-type lookup.
- `files.dfy` (`Files`): the document root as a read-only map from path to
  `File(bytes)`, `Directory` or `Unreadable`. `stat` and `readFile` are
  functions over that map.
- `path_guard.dfy` (`PathGuard`):
  - `safeJoin` as a method with the source's strip loop (`SafeJoin`);
  - the function it is proved against (`SafeJoinSpec`);
  - the containment lemmas.
- `static_server.dfy` (`StaticServer`):
  - the handler as a method that makes the calls step by step (`Handle`,
    with `ReadWithFallback`);
  - the resolution as a value: `Resolve`/`Pipeline` return a tagged
    `Primary`/`Fallback`/`NotFound`/`Rejected` result together with the
    sequence of file-system calls made;
  - `Respond`, which maps the result to a response;
  - the lemmas about responses.

The request pathname is a parameter of type `Option<string>`. `None` stands
for the URL parser throwing, which is the one failure inside the outer `try`
that the model keeps.

The document root is a parameter, `process.cwd()` in the source. The
working directory is always a normal absolute path, so the containment
lemmas take it as `Abs(rootSegs)`: the absolute path made of a sequence of
plain names. `PathGuard.RejectedUnderDottedRoot` shows why this matters: for
a root that is not normal, such as `/www/.`, the prefix check refuses even
`/`.

### What the code does with traversal and I/O errors

- **Traversal requests are not refused.** The request is normalized under
  `/`, where a `..` that would climb above the root is dropped. So
  `/blog/../../etc/passwd` becomes `/etc/passwd` and is joined to
  `<root>/etc/passwd`. Under a normal root, `PathGuard.SafeJoinUnderNormalRoot`
  proves that the join is never refused and that the result is the root's
  segments followed by the request's. Such a request is answered from
  `<root>/etc/passwd` if that exists and from the root `index.html`
  otherwise. `StaticServer.ProbesStayInRoot` proves that every `stat` and
  `readFile` names a path inside the root. The 400 branch is therefore
  unreachable for the real server. The model keeps it, with its exact
  condition (`StaticServer.BadRequestIffOutsideRoot`).
- **File-system errors never lead to 500.** Every `stat` error, and every
  `readFile` error, is caught by its own `try`. An unreadable file therefore
  leads to the fallback, or to 404, exactly like a missing one
  (`StaticServer.FsErrorsNeverServerError`). 500 remains only for a request
  URL that cannot be parsed.
- **The empty string is refused too.** `if (!filePath)` rejects `""` as well
  as `null`. The model keeps that test, although `SafeJoinSpec` proves the
  joined path is never empty.

## Model

| member | source | states |
|---|---|---|
| PosixPath.Split | scripts/postbuild.js:38 | the pieces between separators: always at least one, none containing `/` |
| PosixPath.Join | scripts/postbuild.js:38 | pieces joined by single separators start with the first piece and end with the last |
| PosixPath.SplitJoin | scripts/postbuild.js:38 | splitting the join of separator-free pieces gives the pieces back |
| PosixPath.SplitConcat | scripts/postbuild.js:38 | splitting `a/b` gives the pieces of `a` followed by those of `b` |
| PosixPath.DropEmpty | scripts/postbuild.js:38 | dropping the empty pieces of a path made of names and empty pieces leaves only names |
| PosixPath.Step | scripts/postbuild.js:38 | one normalization step pushes a name, pops one segment, or leaves the stack; only `..` pops, and under an absolute path `..` never pushes |
| PosixPath.CollapseParent | scripts/postbuild.js:38 | `..` removes the segment before it: a name followed by `..` leaves the stack as it was |
| PosixPath.Collapse | scripts/postbuild.js:38 | normalizing pieces under an absolute path keeps only names: no `.`, `..` or empty piece survives |
| PosixPath.CollapseConcat | scripts/postbuild.js:38 | normalization works left to right: normalizing `a + b` is normalizing `b` onto the result for `a` |
| PosixPath.CollapseNamesOrEmpty | scripts/postbuild.js:38 | on pieces that hold no `.` or `..`, normalization only drops the empty pieces |
| PosixPath.Normalize | scripts/postbuild.js:38 | `normalize` never returns the empty string, and keeps an absolute path absolute |
| PosixPath.NormalizeNamesOrEmpty | scripts/postbuild.js:38 | an absolute path without `.` or `..` pieces normalizes to the absolute path of its non-empty pieces, keeping a trailing separator |
| PosixPath.NormalizeAbs | scripts/postbuild.js:38 | normalization leaves an absolute path made of plain names unchanged |
| PosixPath.NormalizeName | scripts/postbuild.js:38 | a single plain name normalizes to itself |
| PosixPath.Join2 | scripts/postbuild.js:40 | two-argument `join` never returns the empty string |
| PosixPath.AbsAppend | scripts/postbuild.js:40 | the absolute path of `a + b` is the path of `a`, a separator, and the pieces of `b` |
| PosixPath.JoinIndex | scripts/postbuild.js:63 | joining `index.html` onto a normal absolute path, with or without a trailing separator, appends one segment |
| PosixPath.JoinNameShape | scripts/postbuild.js:63 | joining a plain name onto any path ends in that name, after a separator or alone |
| PosixPath.NormalizeAppendName | scripts/postbuild.js:63 | normalizing `x/n` for a plain name `n` ends in `n`, after a separator or alone |
| PosixPath.TrimTrailingSeparators | scripts/postbuild.js:79 | `extname` first drops trailing separators: a prefix of the path, not ending in `/`, followed in the path by separators only |
| PosixPath.LastComponent | scripts/postbuild.js:79 | the base name: a suffix of the path without separators, preceded by `/` unless it is the whole path |
| PosixPath.LastDot | scripts/postbuild.js:79 | the position of the last `.` in the base name, absent exactly when there is none |
| PosixPath.Extension | scripts/postbuild.js:79 | the extension of a base name is empty or a `.` followed by no further `.`, and is a suffix of the name; it is present exactly when the name is not `..` and has a `.` after its first character |
| PosixPath.Extname | scripts/postbuild.js:79 | `extname` is empty or one `.` followed by neither `.` nor `/`, and ends the path (trailing separators aside) |
| PosixPath.LastComponentAfter | scripts/postbuild.js:79 | the base name of `q + b` is `b` when `q` is empty or ends in a separator and `b` has none |
| PosixPath.LastDotOf | scripts/postbuild.js:79 | in `stem + ext`, where `ext` is a `.` followed by no other `.`, the last dot is where `ext` begins |
| PosixPath.ExtnameDotfile | scripts/postbuild.js:79 | a dotfile such as `.htaccess`, alone or after a separator, has an empty `extname` |
| PosixPath.ExtnameOf | scripts/postbuild.js:79 | a file named `stem + ext` has extension `ext` |
| PosixPath.JoinIndexExtname | scripts/postbuild.js:63-79 | `index.html` joined onto any path has extension `.html` |
| ContentTypes.TableEntries | scripts/postbuild.js:18-35 | the table maps `.html` to HTML and both `.jpg` and `.jpeg` to `image/jpeg`; it has no entry for `.bin` or the empty extension |
| ContentTypes.Lower | scripts/postbuild.js:79 | ASCII lower-casing: each `A`-`Z` is lowered and every other character kept |
| ContentTypes.ContentType | scripts/postbuild.js:79-80 | the type is always a table value or `application/octet-stream` |
| ContentTypes.ExtnameLower | scripts/postbuild.js:79 | `extname` commutes with lower-casing |
| ContentTypes.LowerIdempotent | scripts/postbuild.js:79 | lower-casing twice is lower-casing once |
| ContentTypes.ContentTypeIgnoresCase | scripts/postbuild.js:79-80 | a path and its lower case get the same type, so `.JS` maps like `.js` |
| ContentTypes.ContentTypeOfFile | scripts/postbuild.js:79-80 | a file `stem + ext` gets the table entry for the lower-cased `ext`, or octet-stream when there is none |
| ContentTypes.IndexIsHtml | scripts/postbuild.js:72-80 | `index.html` joined onto any path is served as `text/html; charset=utf-8` |
| ContentTypes.JpegAliases | scripts/postbuild.js:25-26 | `.jpg` and `.jpeg` files are both served as `image/jpeg` |
| ContentTypes.UpperCaseExtension | scripts/postbuild.js:79-80 | a `.JPG` file is served as `image/jpeg` |
| ContentTypes.UnknownExtension | scripts/postbuild.js:80 | an extension outside the table, `.bin`, is served as `application/octet-stream` |
| ContentTypes.DotfileIsOctetStream | scripts/postbuild.js:79-80 | a dotfile, `.html` included, is served as `application/octet-stream` |
| ContentTypes.NoExtension | scripts/postbuild.js:79-80 | a path with an empty `extname` is served as `application/octet-stream` |
| Files.Stat | scripts/postbuild.js:59 | `stat` succeeds exactly on an existing entry whose path has no trailing separator or that is a directory, and reports whether it is a directory |
| Files.ReadFile | scripts/postbuild.js:69-72 | `readFile` succeeds exactly on a readable file named without a trailing separator, and yields its bytes |
| PathGuard.StripLeadingSeparators | scripts/postbuild.js:39 | the strip keeps a suffix of the input, removes only separators, and leaves a string that is empty or does not start with `/` |
| PathGuard.RequestSegments | scripts/postbuild.js:38 | normalizing under `/` leaves only plain names: every `..` that would climb above the root is gone |
| PathGuard.NormalizeRequest | scripts/postbuild.js:38 | the request normalized under `/` is `/` followed by its segments, with the trailing separator kept |
| PathGuard.StripNormalizedRequest | scripts/postbuild.js:38-39 | stripping the normalized request leaves exactly its segments as a relative path |
| PathGuard.TargetPath | scripts/postbuild.js:38-39 | the target path has no leading `/`, no `.` or `..` piece, and only names before its last piece |
| PathGuard.SafeJoinSpec | scripts/postbuild.js:37-43 | the result is refused exactly when the joined path does not start with the root; otherwise it starts with the root and is not empty |
| PathGuard.SafeJoin | scripts/postbuild.js:37-43 | the strip loop terminates, and the method returns `SafeJoinSpec`; a result always starts with the root |
| PathGuard.TargetUnderNormalRoot | scripts/postbuild.js:40 | joining the target onto a normal root gives the root's segments followed by the request's, plus its trailing separator |
| PathGuard.JoinBelowNormalRoot | scripts/postbuild.js:40 | joining a relative path of names onto a normal root appends its segments |
| PathGuard.SafeJoinUnderNormalRoot | scripts/postbuild.js:37-43 | under a normal root no request is refused, whatever its `..` pieces; the result is the root's segments then the request's, and lies within the root |
| PathGuard.TargetOfSlash | scripts/postbuild.js:38-39 | the request `/` targets the root itself |
| PathGuard.NormalizeDottedRoot | scripts/postbuild.js:40 | `join` normalizes the root as well: `/www/.` becomes `/www` |
| PathGuard.RejectedUnderDottedRoot | scripts/postbuild.js:41 | the prefix check compares with the root as given, so under root `/www/.` even `/` is refused |
| StaticServer.ReadTarget | scripts/postbuild.js:57-64 | the first target is the joined path's `index.html` exactly when it names a directory, and the joined path itself otherwise, including after a failed `stat` |
| StaticServer.RootIndexIsHtml | scripts/postbuild.js:72-80 | the fallback file, the root `index.html`, is served as `text/html; charset=utf-8` whatever the root |
| StaticServer.Resolve | scripts/postbuild.js:57-77 | a joined path is never refused, and at least one file-system call is made |
| StaticServer.ResolvePrimary | scripts/postbuild.js:62-69 | a readable first target is served as the primary file, after exactly one `stat` and one read |
| StaticServer.ResolveFallback | scripts/postbuild.js:70-73 | when the first target cannot be read but the root `index.html` can, the root `index.html` is served, after `stat`, read, read |
| StaticServer.ResolveNotFound | scripts/postbuild.js:74-76 | nothing is found exactly when both reads fail, after `stat`, read, read |
| StaticServer.Pipeline | scripts/postbuild.js:53-77 | a request is refused exactly when `safeJoin` refuses it, and then nothing is touched; otherwise it resolves the joined path |
| StaticServer.Respond | scripts/postbuild.js:79-81 | 200 exactly for a served file, with its bytes and exactly one `content-type` header for the path served; every other answer has a fixed text body and no header |
| StaticServer.Handle | scripts/postbuild.js:50-84 | the handler answers 500 with no file-system call exactly when the URL cannot be parsed; otherwise it answers as `Pipeline` resolves and makes exactly its calls |
| StaticServer.ReadWithFallback | scripts/postbuild.js:57-77 | `stat`, the index rewrite, the read and the fallback read give the path and bytes `Resolve` serves, and exactly its calls |
| StaticServer.BadRequestIffOutsideRoot | scripts/postbuild.js:53-54 | 400 exactly when the joined path does not start with the root; the body is `Bad Request` and neither `stat` nor read is attempted |
| StaticServer.FsErrorsNeverServerError | scripts/postbuild.js:57-83 | whatever the file system holds, a parsed request gets 200, 400 or 404, never 500 |
| StaticServer.FileServed | scripts/postbuild.js:66-81 | a readable file named by the request is served with its own bytes and the type of its own extension |
| StaticServer.DirectoryServesIndex | scripts/postbuild.js:62-81 | a directory with a readable `index.html` is answered with that file's bytes as HTML |
| StaticServer.FallbackServesRootIndex | scripts/postbuild.js:70-81 | when the first read fails and the root `index.html` is readable, its bytes are served as HTML, after `stat`, read, read |
| StaticServer.NotFoundIff | scripts/postbuild.js:74-76 | 404 with body `Not Found` exactly when the request is accepted and neither its target nor the root `index.html` can be read |
| StaticServer.ResolveProbes | scripts/postbuild.js:57-77 | the calls made are always a prefix of: `stat` of the joined path, read of the target, read of the root `index.html` |
| StaticServer.ServedBytesFromLastRead | scripts/postbuild.js:67-73 | the bytes served are those of the last read made, on the path whose type is reported |
| StaticServer.ProbesWithin | scripts/postbuild.js:57-77 | when the three candidate paths lie within the root, every call the handler makes does |
| StaticServer.ReadTargetInRoot | scripts/postbuild.js:62-64 | under a normal root the first read's target, the path itself or its `index.html`, lies within the root |
| StaticServer.IndexInRoot | scripts/postbuild.js:63 | the `index.html` of a path within a normal root lies within the root |
| StaticServer.RootIndexInRoot | scripts/postbuild.js:72 | the root `index.html` lies within the root |
| StaticServer.ProbesStayInRoot | scripts/postbuild.js:37-77 | under a normal root no request is refused, and every `stat` and read the handler makes names a path within the root |

## Left out

- The HTTP server, `send`, `server.listen` and logging (scripts/postbuild.js:45-50, 87-89). These are network I/O. A response is a value with status, headers and body, and an exception thrown while writing it is not modelled.
- URL parsing, `new url.URL(req.url || '/', ...)` (scripts/postbuild.js:52). This is a library call. The pathname is an input, with `None` for a parse that throws. Percent-encoded characters are not decoded, just as the URL parser leaves them, so `%2F` is not a separator.
- The port, `process.env.PORT` with default 1977 (scripts/postbuild.js:15). This is environment access and float parsing.
- `process.cwd()` (scripts/postbuild.js:16). The root is a parameter.
- The outer script that writes `dist/server/entry.mjs` (scripts/postbuild.js:1-9, 90-93). This is file I/O only.
- Asynchronous and concurrent handling of requests. Each request is sequential in the source, and the model handles one at a time.
- The real file system. It is a map from paths without trailing separators to entries. There are no symbolic links and no I/O faults other than those the model lists. The file system never changes between the `stat` and the reads. A trailing separator asks for a directory, where Node reports `ENOTDIR`.
- ContentTypes.Lower: lowers the ASCII letters only. JavaScript's `toLowerCase` also lowers other letters and can change the length (`İ` becomes two characters). This cannot change a lookup. Only two non-ASCII characters lower-case to something with an ASCII letter: the Kelvin sign U+212A becomes `k`, which no key contains, and `İ` becomes `i` plus a combining dot, which no key contains. So an extension with a non-ASCII character matches no key under either lowering.
- The platform `path.join` (scripts/postbuild.js:40, 63, 72) is modelled as `path.posix.join`, which is what it is on the POSIX hosts the server runs on. Windows separators are not modelled.
- The rest of the repository: the site's pages and data, the font conversion script and the blog-post generator. They are static content or command-line I/O with no logic of this server.
