/**
 * Content-type resolution: the fixed table from lower-case extension to MIME
 * type, and the type of a served file, found from the lower-cased `extname`
 * of its path with `application/octet-stream` for everything else.
 */
module ContentTypes {
  import opened Wrappers
  import opened PosixPath

  const OctetStream := "application/octet-stream"
  const Html := "text/html; charset=utf-8"

  /** The extension table; every key is a lower-case `.` followed by letters and digits. */
  const Table: map<string, string> := map[
    ".html" := Html,
    ".js" := "text/javascript; charset=utf-8",
    ".css" := "text/css; charset=utf-8",
    ".json" := "application/json; charset=utf-8",
    ".svg" := "image/svg+xml",
    ".png" := "image/png",
    ".jpg" := "image/jpeg",
    ".jpeg" := "image/jpeg",
    ".gif" := "image/gif",
    ".webp" := "image/webp",
    ".ico" := "image/x-icon",
    ".ttf" := "font/ttf",
    ".woff" := "font/woff",
    ".woff2" := "font/woff2",
    ".txt" := "text/plain; charset=utf-8",
    ".xml" := "application/xml; charset=utf-8"
  ]

  /** Lower-casing of one character (the ASCII letters `A`-`Z`). */
  function LowerChar(c: char): char {
    if 'A' <= c <= 'Z' then (c as int + 32) as char else c
  }

  function Lower(s: string): (r: string)
    ensures |r| == |s|
    ensures forall i :: 0 <= i < |s| ==> r[i] == LowerChar(s[i])
  {
    seq(|s|, i requires 0 <= i < |s| => LowerChar(s[i]))
  }

  /**
   * The `content-type` of the file at `filePath`. The source writes
   * `mime.get(ext) || 'application/octet-stream'`; no table entry is empty,
   * so this is a lookup with a default.
   */
  function ContentType(filePath: string): (t: string)
    ensures t == OctetStream || t in Table.Values
  {
    var ext := Lower(Extname(filePath));
    if ext in Table then Table[ext] else OctetStream
  }

  // ---------------------------------------------------------------------
  // Lower-casing commutes with the extension functions

  lemma LowerSlice(s: string, i: nat, j: nat)
    requires i <= j <= |s|
    ensures Lower(s[i..j]) == Lower(s)[i..j]
  {
  }

  /** A string without upper-case letters is its own lower case. */
  lemma LowerNoUpper(s: string)
    requires forall i :: 0 <= i < |s| ==> !('A' <= s[i] <= 'Z')
    ensures Lower(s) == s
  {
  }

  /** The lower case of the extensions the lemmas below name. */
  lemma LowerLiterals()
    ensures Lower(".html") == ".html" && Lower(".jpg") == ".jpg" && Lower(".jpeg") == ".jpeg"
    ensures Lower(".bin") == ".bin" && Lower(".JPG") == ".jpg"
  {
  }

  /** The table entries the lemmas below name. */
  lemma TableEntries()
    ensures ".html" in Table && Table[".html"] == Html
    ensures ".jpg" in Table && Table[".jpg"] == "image/jpeg"
    ensures ".jpeg" in Table && Table[".jpeg"] == "image/jpeg"
    ensures ".bin" !in Table && "" !in Table
  {
  }

  lemma LowerIdempotent(s: string)
    ensures Lower(Lower(s)) == Lower(s)
  {
  }

  lemma {:induction false} TrimLower(p: string)
    ensures TrimTrailingSeparators(Lower(p)) == Lower(TrimTrailingSeparators(p))
    decreases |p|
  {
    if p != "" && p[|p| - 1] == '/' {
      LowerSlice(p, 0, |p| - 1);
      TrimLower(p[..|p| - 1]);
    }
  }

  lemma LowerAppendChar(s: string, c: char)
    ensures Lower(s + [c]) == Lower(s) + [LowerChar(c)]
  {
  }

  lemma {:induction false} LastComponentLower(p: string)
    ensures LastComponent(Lower(p)) == Lower(LastComponent(p))
    decreases |p|
  {
    if p == "" {
      assert Lower(p) == "";
    } else if p[|p| - 1] == '/' {
      assert Lower(p)[|p| - 1] == '/';
      assert Lower("") == "";
    } else {
      var init := p[..|p| - 1];
      var c := p[|p| - 1];
      assert LastComponent(Lower(p)) == LastComponent(Lower(init)) + [LowerChar(c)] by {
        LowerSlice(p, 0, |p| - 1);
        assert Lower(p)[|p| - 1] == LowerChar(c) != '/';
        assert Lower(p)[..|p| - 1] == Lower(init);
      }
      assert LastComponent(p) == LastComponent(init) + [c];
      LastComponentLower(init);
      LowerAppendChar(LastComponent(init), c);
    }
  }

  lemma {:induction false} LastDotLower(b: string)
    ensures LastDot(Lower(b)) == LastDot(b)
    decreases |b|
  {
    if b != "" && b[|b| - 1] != '.' {
      LowerSlice(b, 0, |b| - 1);
      LastDotLower(b[..|b| - 1]);
    }
  }

  lemma ExtensionLower(b: string)
    ensures Extension(Lower(b)) == Lower(Extension(b))
  {
    LastDotLower(b);
    if b == ".." {
      assert Lower(b) == "..";
    } else {
      assert Lower(b) != "..";
      match LastDot(b)
      case None =>
        assert Extension(Lower(b)) == "" == Extension(b);
      case Some(k) =>
        if k == 0 {
          assert Extension(Lower(b)) == "" == Extension(b);
        } else {
          assert Extension(b) == b[k..];
          assert Extension(Lower(b)) == Lower(b)[k..];
          LowerSlice(b, k, |b|);
        }
    }
  }

  lemma ExtnameLower(p: string)
    ensures Extname(Lower(p)) == Lower(Extname(p))
  {
    TrimLower(p);
    LastComponentLower(TrimTrailingSeparators(p));
    ExtensionLower(LastComponent(TrimTrailingSeparators(p)));
  }

  // ---------------------------------------------------------------------
  // Properties of content-type resolution

  /** Resolution ignores the case of the path: `.JS` maps like `.js`. */
  lemma ContentTypeIgnoresCase(p: string)
    ensures ContentType(Lower(p)) == ContentType(p)
  {
    ExtnameLower(p);
    LowerIdempotent(Extname(p));
  }

  /**
   * A file named `stem + ext` (after a separator or alone) has the table's
   * type for the lower-cased `ext`, or the octet-stream type if the table has none.
   */
  lemma ContentTypeOfFile(q: string, stem: string, ext: string)
    requires q == "" || q[|q| - 1] == '/'
    requires stem != "" && '/' !in stem && '/' !in ext
    requires ext != "" && ext[0] == '.' && '.' !in ext[1..]
    requires stem + ext != ".."
    ensures ContentType(q + (stem + ext)) == if Lower(ext) in Table then Table[Lower(ext)] else OctetStream
  {
    ExtnameOf(q, stem, ext);
  }

  /** `index.html` joined onto any path is served as HTML. */
  lemma IndexIsHtml(x: string)
    ensures ContentType(Join2(x, "index.html")) == Html
  {
    JoinIndexExtname(x);
    LowerLiterals();
    TableEntries();
    var ext := Lower(Extname(Join2(x, "index.html")));
    assert ext == ".html";
  }

  lemma JpgType(q: string, stem: string)
    requires q == "" || q[|q| - 1] == '/'
    requires stem != "" && '/' !in stem
    ensures ContentType(q + (stem + ".jpg")) == "image/jpeg"
  {
    LowerLiterals();
    TableEntries();
    assert ".jpg"[1..] == "jpg";
    ContentTypeOfFile(q, stem, ".jpg");
  }

  lemma JpegType(q: string, stem: string)
    requires q == "" || q[|q| - 1] == '/'
    requires stem != "" && '/' !in stem
    ensures ContentType(q + (stem + ".jpeg")) == "image/jpeg"
  {
    LowerLiterals();
    TableEntries();
    assert ".jpeg"[1..] == "jpeg";
    ContentTypeOfFile(q, stem, ".jpeg");
  }

  /** `.jpg` and `.jpeg` name the same type. */
  lemma JpegAliases(q: string, stem: string)
    requires q == "" || q[|q| - 1] == '/'
    requires stem != "" && '/' !in stem
    ensures ContentType(q + (stem + ".jpg")) == ContentType(q + (stem + ".jpeg")) == "image/jpeg"
  {
    JpgType(q, stem);
    JpegType(q, stem);
  }

  /** An upper-case extension maps like its lower case: `.JPG` like `.jpg`. */
  lemma UpperCaseExtension(q: string, stem: string)
    requires q == "" || q[|q| - 1] == '/'
    requires stem != "" && '/' !in stem
    ensures ContentType(q + (stem + ".JPG")) == "image/jpeg"
  {
    LowerLiterals();
    TableEntries();
    assert ".JPG"[1..] == "JPG";
    ContentTypeOfFile(q, stem, ".JPG");
  }

  /** An extension outside the table, such as `.bin`, is served as octet-stream. */
  lemma UnknownExtension(q: string, stem: string)
    requires q == "" || q[|q| - 1] == '/'
    requires stem != "" && '/' !in stem
    ensures ContentType(q + (stem + ".bin")) == OctetStream
  {
    assert ".bin"[1..] == "bin";
    ContentTypeOfFile(q, stem, ".bin");
    LowerLiterals();
    TableEntries();
  }

  /** A dotfile such as `.htaccess` or `.html` is served as octet-stream, whatever its name. */
  lemma DotfileIsOctetStream(q: string, name: string)
    requires q == "" || q[|q| - 1] == '/'
    requires '/' !in name
    requires name != "" && name[0] == '.' && '.' !in name[1..]
    ensures ContentType(q + name) == OctetStream
  {
    ExtnameDotfile(q, name);
    NoExtension(q + name);
  }

  /** A path without extension (no dot, or a leading dot only) is served as octet-stream. */
  lemma NoExtension(p: string)
    requires Extname(p) == ""
    ensures ContentType(p) == OctetStream
  {
    assert Lower("") == "";
    TableEntries();
  }
}
