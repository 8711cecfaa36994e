/**
 * The document root's file system as the handler sees it: a read-only map
 * from paths to entries, with the two calls the handler makes, `stat` and
 * `readFile`. Keys are paths without trailing separators; a path that ends
 * in `/` names a directory, so it fails on anything else.
 */
module Files {
  import opened PosixPath

  newtype byte = x: int | 0 <= x < 256

  /** A file with its bytes, a directory, or a file that exists but cannot be read. */
  datatype Entry = File(data: seq<byte>) | Directory | Unreadable

  type FileSystem = map<string, Entry>

  datatype FsError = NoEntry | IsDirectory | NotDirectory | AccessDenied

  datatype StatResult = StatOk(isDirectory: bool) | StatFailed(error: FsError)

  datatype ReadResult = ReadOk(data: seq<byte>) | ReadFailed(error: FsError)

  /** The entry a path refers to: trailing separators do not change it, and `/` stays `/`. */
  function Key(p: string): string {
    var t := TrimTrailingSeparators(p);
    if t == "" && p != "" then "/" else t
  }

  /** A trailing separator asks for a directory. */
  predicate NamesDirectory(p: string) {
    p != "" && p[|p| - 1] == '/'
  }

  /** `fs.stat`: succeeds on every entry there is (a file through a trailing separator excepted). */
  function Stat(fs: FileSystem, p: string): (r: StatResult)
    ensures r.StatOk? <==> Key(p) in fs && (NamesDirectory(p) ==> fs[Key(p)].Directory?)
    ensures r.StatOk? ==> (r.isDirectory <==> fs[Key(p)].Directory?)
  {
    var k := Key(p);
    if k !in fs then StatFailed(NoEntry)
    else if NamesDirectory(p) && !fs[k].Directory? then StatFailed(NotDirectory)
    else StatOk(fs[k].Directory?)
  }

  /** `fs.readFile`: only a readable file, named without a trailing separator, yields bytes. */
  function ReadFile(fs: FileSystem, p: string): (r: ReadResult)
    ensures r.ReadOk? <==> Key(p) in fs && fs[Key(p)].File? && !NamesDirectory(p)
    ensures r.ReadOk? ==> r.data == fs[Key(p)].data
  {
    var k := Key(p);
    if k !in fs then ReadFailed(NoEntry)
    else
      match fs[k]
      case Directory => ReadFailed(IsDirectory)
      case Unreadable => ReadFailed(if NamesDirectory(p) then NotDirectory else AccessDenied)
      case File(data) => if NamesDirectory(p) then ReadFailed(NotDirectory) else ReadOk(data)
  }
}
