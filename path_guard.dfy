/**
 * `safeJoin`: confining an untrusted request path to the document root.
 * The request is normalized as a path under `/`, stripped of its leading
 * separators, joined onto the root, and rejected unless the joined path
 * starts with the root.
 */
module PathGuard {
  import opened Wrappers
  import opened PosixPath

  /** What remains of `s` once its leading separators are gone. */
  function StripLeadingSeparators(s: string): (r: string)
    ensures r == "" || r[0] != '/'
    ensures EndsWith(s, r)
    ensures forall i :: 0 <= i < |s| - |r| ==> s[i] == '/'
    decreases |s|
  {
    if s != "" && s[0] == '/' then StripLeadingSeparators(s[1..]) else s
  }

  /** The segments of the request after normalization under `/`: only names, since `..` stops at the root. */
  function RequestSegments(pathname: string): (segs: seq<string>)
    ensures AllNames(segs)
  {
    Collapse([], Split("/" + pathname), false)
  }

  /** The request keeps a trailing separator through normalization. */
  predicate TrailingSeparator(pathname: string) {
    pathname == "" || pathname[|pathname| - 1] == '/'
  }

  /** The relative path made of `segs`, with a trailing separator if asked for and there are segments. */
  function Relative(segs: seq<string>, trailing: bool): string {
    if segs == [] then "" else Join(segs) + (if trailing then "/" else "")
  }

  lemma SplitRelative(segs: seq<string>, trailing: bool)
    requires AllNames(segs)
    ensures Split(Relative(segs, trailing)) == if segs == [] then [""] else segs + (if trailing then [""] else [])
  {
    if segs != [] {
      SplitJoin(segs);
      if trailing {
        assert Relative(segs, trailing) == Join(segs) + "/" + "";
        SplitConcat(Join(segs), "");
      } else {
        assert Relative(segs, trailing) == Join(segs);
      }
    }
  }

  lemma RelativePieces(segs: seq<string>, trailing: bool)
    requires AllNames(segs)
    ensures var pieces := Split(Relative(segs, trailing));
            forall i :: 0 <= i < |pieces| ==> pieces[i] != ".." && pieces[i] != "."
    ensures var pieces := Split(Relative(segs, trailing));
            forall i :: 0 <= i < |pieces| - 1 ==> IsName(pieces[i])
  {
    SplitRelative(segs, trailing);
    var pieces := Split(Relative(segs, trailing));
    forall i | 0 <= i < |pieces|
      ensures pieces[i] != ".." && pieces[i] != "."
      ensures i < |pieces| - 1 ==> IsName(pieces[i])
    {
      if i < |segs| {
        assert pieces[i] == segs[i];
      } else {
        assert pieces[i] == "";
      }
    }
  }

  /** Normalizing the request under `/` gives `/` followed by its segments, relative. */
  lemma NormalizeRequest(pathname: string)
    ensures Normalize("/" + pathname) == "/" + Relative(RequestSegments(pathname), TrailingSeparator(pathname))
  {
    var p := "/" + pathname;
    var segs := RequestSegments(pathname);
    var trailing := TrailingSeparator(pathname);
    assert p != "" && p[0] == '/';
    assert p[|p| - 1] == '/' <==> trailing;
    assert Collapse([], Split(p), false) == segs;
    if segs == [] {
      assert Relative(segs, trailing) == "";
    } else {
      ConcatAssoc("/", Join(segs), if trailing then "/" else "");
    }
  }

  /** One leading separator before a string that does not start with one is all that is stripped. */
  lemma StripOneSeparator(rest: string)
    requires rest == "" || rest[0] != '/'
    ensures StripLeadingSeparators("/" + rest) == rest
  {
    assert ("/" + rest)[1..] == rest;
  }

  /** Normalizing under `/` and stripping the leading separator leaves the request's segments, relative. */
  lemma StripNormalizedRequest(pathname: string)
    ensures StripLeadingSeparators(Normalize("/" + pathname))
            == Relative(RequestSegments(pathname), TrailingSeparator(pathname))
  {
    var segs := RequestSegments(pathname);
    var rest := Relative(segs, TrailingSeparator(pathname));
    NormalizeRequest(pathname);
    if segs != [] {
      assert IsName(segs[0]) && segs[0] <= Join(segs);
      assert rest[0] == segs[0][0];
    }
    StripOneSeparator(rest);
  }

  /**
   * The request path as it is joined onto the root: normalized under `/`
   * with its leading separators stripped. It is relative, and no piece of
   * it is `.` or `..`; every piece but a trailing empty one is a name.
   */
  function TargetPath(pathname: string): (t: string)
    ensures t == "" || t[0] != '/'
    ensures var pieces := Split(t);
            forall i :: 0 <= i < |pieces| ==> pieces[i] != ".." && pieces[i] != "."
    ensures var pieces := Split(t);
            forall i :: 0 <= i < |pieces| - 1 ==> IsName(pieces[i])
  {
    RelativePieces(RequestSegments(pathname), TrailingSeparator(pathname));
    StripNormalizedRequest(pathname);
    StripLeadingSeparators(Normalize("/" + pathname))
  }

  /** `safeJoin` as a function: the joined path, unless it does not start with `base`. */
  function SafeJoinSpec(base: string, pathname: string): (r: Option<string>)
    ensures r.Some? ==> base <= r.value && r.value != ""
    ensures r.None? <==> !(base <= Join2(base, TargetPath(pathname)))
  {
    var full := Join2(base, TargetPath(pathname));
    if base <= full then Some(full) else None
  }

  /**
   * `safeJoin` as the source writes it: normalize, strip the leading
   * separators one at a time, join, check the prefix.
   */
  method SafeJoin(base: string, pathname: string) returns (r: Option<string>)
    ensures r == SafeJoinSpec(base, pathname)
    ensures r.Some? ==> base <= r.value
  {
    var targetPath := Normalize("/" + pathname);
    while targetPath != "" && targetPath[0] == '/'
      invariant StripLeadingSeparators(targetPath) == TargetPath(pathname)
      decreases |targetPath|
    {
      targetPath := targetPath[1..];
    }
    var full := Join2(base, targetPath);
    if !(base <= full) {
      return None;
    }
    return Some(full);
  }

  /** `path` is `root` or lies below it, segment by segment. */
  predicate Within(root: string, path: string) {
    path == root || (if root == "/" then "/" else root + "/") <= path
  }

  /** Appending segments to an absolute path stays within it. */
  lemma WithinAppend(a: seq<string>, b: seq<string>)
    requires |b| > 0
    ensures Within(Abs(a), Abs(a + b))
  {
    AbsAppend(a, b);
    if a != [] {
      assert Abs(a + b) == (Abs(a) + "/") + Join(b);
    }
  }

  lemma PrefixConcat(s: string, t: string)
    ensures s <= s + t
  {
    assert (s + t)[..|s|] == s;
  }

  /** Appending at least one segment to an absolute path, then maybe a separator, lands strictly below it. */
  lemma BelowAppend(a: seq<string>, b: seq<string>, tail: string)
    requires AllNames(a) && |b| > 0
    ensures (if Abs(a) == "/" then "/" else Abs(a) + "/") <= Abs(a + b) + tail
  {
    AbsAppend(a, b);
    if a == [] {
      assert Abs(a + b) == "/" + Join(b) by {
        assert a + b == b;
      }
      ConcatAssoc("/", Join(b), tail);
      PrefixConcat("/", Join(b) + tail);
    } else {
      assert Abs(a) != "/" by {
        assert IsName(a[0]) && a[0] <= Join(a);
      }
      ConcatAssoc(Abs(a) + "/", Join(b), tail);
      PrefixConcat(Abs(a) + "/", Join(b) + tail);
    }
  }

  /** Joining the request onto a normal absolute root appends the request's segments. */
  lemma TargetUnderNormalRoot(rootSegs: seq<string>, pathname: string)
    requires AllNames(rootSegs)
    ensures var segs := RequestSegments(pathname);
            Join2(Abs(rootSegs), TargetPath(pathname))
            == Abs(rootSegs + segs) + (if segs != [] && TrailingSeparator(pathname) then "/" else "")
  {
    var segs := RequestSegments(pathname);
    var trailing := TrailingSeparator(pathname);
    assert TargetPath(pathname) == Relative(segs, trailing) by {
      StripNormalizedRequest(pathname);
    }
    if segs == [] {
      assert Join2(Abs(rootSegs), "") == Abs(rootSegs) by {
        assert Abs(rootSegs) != "";
        NormalizeAbs(rootSegs);
      }
      assert rootSegs + segs == rootSegs;
      assert Abs(rootSegs) + "" == Abs(rootSegs);
    } else {
      JoinBelowNormalRoot(rootSegs, segs, trailing);
    }
  }

  /**
   * For a normal absolute root (the working directory always is one) the
   * join is never rejected: the result is the root's segments followed by
   * the request's normalized segments, inside the root.
   */
  lemma SafeJoinUnderNormalRoot(rootSegs: seq<string>, pathname: string)
    requires AllNames(rootSegs)
    ensures var segs := RequestSegments(pathname);
            SafeJoinSpec(Abs(rootSegs), pathname)
            == Some(Abs(rootSegs + segs) + (if segs != [] && TrailingSeparator(pathname) then "/" else ""))
    ensures SafeJoinSpec(Abs(rootSegs), pathname).Some?
    ensures Within(Abs(rootSegs), SafeJoinSpec(Abs(rootSegs), pathname).value)
  {
    var root := Abs(rootSegs);
    var segs := RequestSegments(pathname);
    var tail := if segs != [] && TrailingSeparator(pathname) then "/" else "";
    var full := Join2(root, TargetPath(pathname));
    TargetUnderNormalRoot(rootSegs, pathname);
    if segs == [] {
      assert full == root by {
        assert rootSegs + segs == rootSegs;
        assert root + "" == root;
      }
    } else {
      BelowAppend(rootSegs, segs, tail);
      assert Within(root, full);
    }
    assert root <= full;
  }

  /** The pieces of a relative path of names are names or empty, and dropping the empty ones gives the names back. */
  lemma RelativeDropEmpty(segs: seq<string>, trailing: bool)
    requires AllNames(segs)
    ensures NamesOrEmpty(Split(Relative(segs, trailing)))
    ensures segs != [] ==> DropEmpty(Split(Relative(segs, trailing))) == segs
  {
    SplitRelative(segs, trailing);
    if segs == [] {
      assert Split(Relative(segs, trailing)) == [""];
    } else {
      assert NamesOrEmpty(segs);
      DropEmptyNames(segs);
      if trailing {
        assert Split(Relative(segs, trailing)) == segs + [""];
        NamesOrEmptyTrailing(segs);
      } else {
        assert Split(Relative(segs, trailing)) == segs;
      }
    }
  }

  lemma SplitBelowNormalRoot(rootSegs: seq<string>, segs: seq<string>, trailing: bool)
    requires AllNames(rootSegs) && AllNames(segs) && segs != []
    ensures var p := Abs(rootSegs) + "/" + Relative(segs, trailing);
            NamesOrEmpty(Split(p)) && DropEmpty(Split(p)) == rootSegs + segs
  {
    var root := Abs(rootSegs);
    var t := Relative(segs, trailing);
    SplitConcat(root, t);
    SplitAbs(rootSegs);
    RelativeDropEmpty(segs, trailing);
    NamesOrEmptyConcat(Split(root), Split(t));
    DropEmptyConcat(Split(root), Split(t));
  }

  lemma RelativeLast(segs: seq<string>, trailing: bool)
    requires AllNames(segs) && segs != []
    ensures var t := Relative(segs, trailing);
            t != "" && (t[|t| - 1] == '/' <==> trailing)
  {
    var j := Join(segs);
    assert j != "" && j[|j| - 1] != '/' by {
      assert IsName(segs[0]) && segs[0] <= j;
      AbsLast(segs);
      assert Abs(segs) == "/" + j;
      assert Abs(segs)[|Abs(segs)| - 1] == j[|j| - 1];
    }
    if trailing {
      assert Relative(segs, trailing) == j + "/";
    } else {
      assert Relative(segs, trailing) == j + "";
    }
  }

  /** Joining a relative path of names onto a normal absolute root appends its segments. */
  lemma JoinBelowNormalRoot(rootSegs: seq<string>, segs: seq<string>, trailing: bool)
    requires AllNames(rootSegs) && AllNames(segs) && segs != []
    ensures Join2(Abs(rootSegs), Relative(segs, trailing)) == Abs(rootSegs + segs) + (if trailing then "/" else "")
  {
    var t := Relative(segs, trailing);
    var p := Abs(rootSegs) + "/" + t;
    SplitBelowNormalRoot(rootSegs, segs, trailing);
    RelativeLast(segs, trailing);
    assert p[|p| - 1] == t[|t| - 1];
    assert p[0] == '/';
    NormalizeNamesOrEmpty(p);
  }

  /** The request `/` targets the root itself. */
  lemma TargetOfSlash()
    ensures TargetPath("/") == ""
  {
    StripNormalizedRequest("/");
    var pieces := ["", "", ""];
    assert "/" + "/" == "" + "/" + ("" + "/" + "");
    SplitConcat("", "" + "/" + "");
    SplitConcat("", "");
    assert Split("/" + "/") == pieces;
    assert NamesOrEmpty(pieces);
    CollapseNamesOrEmpty([], pieces, false);
    assert DropEmpty(pieces) == [];
  }

  lemma SplitDottedRoot()
    ensures Split("/www/.") == ["", "www", "."]
  {
    assert "/www/." == "" + "/" + ("www" + "/" + ".");
    SplitConcat("", "www" + "/" + ".");
    SplitConcat("www", ".");
    SplitNoSeparator("www");
    SplitNoSeparator(".");
  }

  lemma CollapseDottedRoot()
    ensures Collapse([], ["", "www", "."], false) == ["www"]
  {
    var pieces := ["", "www", "."];
    assert pieces[1..] == ["www", "."];
    assert pieces[1..][1..] == ["."];
    assert Step([], "www", false) == ["www"];
    assert Collapse(["www"], ["."], false) == ["www"];
  }

  /** An absolute path without trailing separator normalizes to `/` and the segments it collapses to. */
  lemma NormalizeCollapsed(p: string, segs: seq<string>)
    requires p != "" && p[0] == '/' && p[|p| - 1] != '/'
    requires segs != [] && Collapse([], Split(p), false) == segs
    ensures Normalize(p) == "/" + Join(segs)
  {
    assert Normalize(p) == "/" + Join(segs) + "";
  }

  lemma NormalizeDottedRoot()
    ensures Normalize("/www/.") == "/www"
  {
    var p := "/www/.";
    assert p[0] == '/' && p[|p| - 1] != '/';
    SplitDottedRoot();
    CollapseDottedRoot();
    NormalizeCollapsed(p, ["www"]);
    assert Join(["www"]) == "www";
  }

  /** With a root that is not normal, here `/www/.`, even the request `/` is rejected. */
  lemma RejectedUnderDottedRoot()
    ensures SafeJoinSpec("/www/.", "/") == None
  {
    TargetOfSlash();
    NormalizeDottedRoot();
    assert Join2("/www/.", "") == "/www";
  }
}
