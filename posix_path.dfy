/**
 * POSIX path strings as the server's path functions treat them: splitting at
 * `/`, `normalize` (collapsing `.`, `..` and repeated separators), two-argument
 * `join` and `extname`. Everything is a pure function on strings.
 */
module PosixPath {
  import opened Wrappers

  /** `suffix` is a suffix of `s`. */
  predicate EndsWith(s: string, suffix: string) {
    |suffix| <= |s| && s[|s| - |suffix|..] == suffix
  }

  /** A segment that normalization keeps as it is: not empty, not `.` or `..`, no separator. */
  predicate IsName(seg: string) {
    seg != "" && seg != "." && seg != ".." && '/' !in seg
  }

  predicate AllNames(segs: seq<string>) {
    forall i :: 0 <= i < |segs| ==> IsName(segs[i])
  }

  /** Every piece is a name or empty: nothing for `.` or `..` to act on. */
  predicate NamesOrEmpty(segs: seq<string>) {
    forall i :: 0 <= i < |segs| ==> segs[i] == "" || IsName(segs[i])
  }

  predicate NoneEmpty(segs: seq<string>) {
    forall i :: 0 <= i < |segs| ==> segs[i] != ""
  }

  /** The pieces of `s` between separators: `"/a//b"` gives `["", "a", "", "b"]`. */
  function Split(s: string): (segs: seq<string>)
    ensures |segs| >= 1
    ensures forall i :: 0 <= i < |segs| ==> '/' !in segs[i]
  {
    if s == "" then [""]
    else if s[0] == '/' then [""] + Split(s[1..])
    else
      var rest := Split(s[1..]);
      [[s[0]] + rest[0]] + rest[1..]
  }

  /** The segments separated by single `/` characters; the inverse of `Split`. */
  function Join(segs: seq<string>): (s: string)
    ensures |segs| > 0 ==> segs[0] <= s && EndsWith(s, segs[|segs| - 1])
  {
    if |segs| == 0 then ""
    else if |segs| == 1 then segs[0]
    else segs[0] + "/" + Join(segs[1..])
  }

  /** The pieces that are not empty, in order. */
  function DropEmpty(segs: seq<string>): (r: seq<string>)
    ensures NamesOrEmpty(segs) ==> AllNames(r)
  {
    if segs == [] then []
    else (if segs[0] == "" then [] else [segs[0]]) + DropEmpty(segs[1..])
  }

  /**
   * One step of normalization over the stack of segments kept so far: empty
   * pieces and `.` vanish, `..` removes the last kept segment, or is kept
   * itself when the path is relative (above the root) and there is nothing to remove.
   */
  function Step(stack: seq<string>, seg: string, aboveRoot: bool): (r: seq<string>)
    ensures IsName(seg) ==> r == stack + [seg]
    ensures r == stack || r == stack + [seg] || (|stack| > 0 && r == stack[..|stack| - 1])
    ensures |r| < |stack| ==> seg == ".."
    ensures seg == ".." && !aboveRoot ==> |r| < |stack| || r == stack
  {
    if seg == "" || seg == "." then stack
    else if seg == ".." then
      if |stack| > 0 && stack[|stack| - 1] != ".." then stack[..|stack| - 1]
      else if aboveRoot then stack + [".."]
      else stack
    else stack + [seg]
  }

  /** Normalizes the pieces `segs` onto `stack`, left to right. */
  function Collapse(stack: seq<string>, segs: seq<string>, aboveRoot: bool): (r: seq<string>)
    ensures NoneEmpty(stack) ==> NoneEmpty(r)
    ensures !aboveRoot && AllNames(stack) && (forall i :: 0 <= i < |segs| ==> '/' !in segs[i])
            ==> AllNames(r)
    decreases |segs|
  {
    if segs == [] then stack
    else Collapse(Step(stack, segs[0], aboveRoot), segs[1..], aboveRoot)
  }

  /** The absolute path made of the segments `segs` (`/` for none). */
  function Abs(segs: seq<string>): string {
    if segs == [] then "/" else "/" + Join(segs)
  }

  /**
   * `normalize`: `.` pieces and repeated separators disappear, `..` removes
   * the segment before it (at the root of an absolute path it is dropped), a
   * trailing separator is kept, and an empty result is `/`, `./` or `.`.
   */
  function Normalize(p: string): (r: string)
    ensures r != ""
    ensures p != "" && p[0] == '/' ==> r[0] == '/'
  {
    if p == "" then "."
    else
      var absolute := p[0] == '/';
      var trailing := p[|p| - 1] == '/';
      var segs := Collapse([], Split(p), !absolute);
      if segs == [] then (if absolute then "/" else if trailing then "./" else ".")
      else (if absolute then "/" else "") + Join(segs) + (if trailing then "/" else "")
  }

  /** Two-argument `join`: the non-empty arguments joined by `/`, then normalized; `.` if both are empty. */
  function Join2(a: string, b: string): (r: string)
    ensures r != ""
  {
    if a == "" && b == "" then "."
    else if a == "" then Normalize(b)
    else if b == "" then Normalize(a)
    else Normalize(a + "/" + b)
  }

  /** `p` without its trailing separators. */
  function TrimTrailingSeparators(p: string): (r: string)
    ensures r <= p
    ensures r == "" || r[|r| - 1] != '/'
    ensures forall i :: |r| <= i < |p| ==> p[i] == '/'
  {
    if p != "" && p[|p| - 1] == '/' then TrimTrailingSeparators(p[..|p| - 1]) else p
  }

  /** What follows the last separator of `p`. */
  function LastComponent(p: string): (b: string)
    ensures '/' !in b
    ensures EndsWith(p, b)
    ensures |b| < |p| ==> p[|p| - |b| - 1] == '/'
  {
    if p == "" || p[|p| - 1] == '/' then ""
    else LastComponent(p[..|p| - 1]) + [p[|p| - 1]]
  }

  /** The index of the last `.` in `b`, if there is one. */
  function LastDot(b: string): (k: Option<nat>)
    ensures k.None? <==> '.' !in b
    ensures k.Some? ==> k.value < |b| && b[k.value] == '.' && '.' !in b[k.value + 1..]
  {
    if b == "" then None
    else if b[|b| - 1] == '.' then Some(|b| - 1)
    else LastDot(b[..|b| - 1])
  }

  /** When the last `.` of `b` is its first character, no other character of `b` is a `.`. */
  lemma OnlyLeadingDot(b: string)
    requires LastDot(b) == Some(0)
    ensures forall k :: 0 < k < |b| ==> b[k] != '.'
  {
    forall k | 0 < k < |b|
      ensures b[k] != '.'
    {
      assert b[k] == b[1..][k - 1];
    }
  }

  /**
   * The extension of a last path component: from its last `.` on. A name
   * whose only `.` is its first character (`.htaccess`) has none, and
   * neither has `..`.
   */
  function Extension(b: string): (e: string)
    ensures e == "" || (e[0] == '.' && '.' !in e[1..])
    ensures EndsWith(b, e)
    ensures e != "" <==> b != ".." && exists k :: 0 < k < |b| && b[k] == '.'
  {
    if b == ".." then ""
    else
      match LastDot(b)
      case None => ""
      case Some(k) =>
        if k == 0 then OnlyLeadingDot(b); ""
        else assert b[k] == '.'; b[k..]
  }

  lemma EndsWithTrans(s: string, t: string, u: string)
    requires EndsWith(s, t) && EndsWith(t, u)
    ensures EndsWith(s, u)
  {
    assert s[|s| - |u|..] == s[|s| - |t|..][|t| - |u|..];
  }

  lemma EndsWithNoSeparator(s: string, t: string)
    requires EndsWith(s, t) && '/' !in s
    ensures '/' !in t
  {
    forall i | 0 <= i < |t| ensures t[i] != '/' {
      assert t[i] == s[|s| - |t| + i];
    }
  }

  /** `extname`: the extension of the last component, ignoring trailing separators. */
  function Extname(p: string): (e: string)
    ensures e == "" || (e[0] == '.' && '.' !in e[1..] && '/' !in e)
    ensures EndsWith(TrimTrailingSeparators(p), e)
  {
    var trimmed := TrimTrailingSeparators(p);
    var base := LastComponent(trimmed);
    var e := Extension(base);
    EndsWithTrans(trimmed, base, e);
    EndsWithNoSeparator(base, e);
    e
  }

  // ---------------------------------------------------------------------
  // Facts about splitting, joining and normalizing

  lemma {:induction false} SplitConcat(a: string, b: string)
    ensures Split(a + "/" + b) == Split(a) + Split(b)
    decreases |a|
  {
    if a == "" {
      assert a + "/" + b == "/" + b;
      assert ("/" + b)[1..] == b;
    } else {
      assert (a + "/" + b)[0] == a[0];
      assert (a + "/" + b)[1..] == a[1..] + "/" + b;
      SplitConcat(a[1..], b);
    }
  }

  lemma {:induction false} SplitNoSeparator(s: string)
    requires '/' !in s
    ensures Split(s) == [s]
    decreases |s|
  {
    if s != "" {
      assert '/' !in s[1..];
      SplitNoSeparator(s[1..]);
      assert [s[0]] + s[1..] == s;
    }
  }

  /** Splitting undoes joining. */
  lemma {:induction false} SplitJoin(segs: seq<string>)
    requires |segs| > 0
    requires forall i :: 0 <= i < |segs| ==> '/' !in segs[i]
    ensures Split(Join(segs)) == segs
    decreases |segs|
  {
    SplitNoSeparator(segs[0]);
    if |segs| > 1 {
      SplitJoin(segs[1..]);
      SplitConcat(segs[0], Join(segs[1..]));
    }
  }

  lemma {:induction false} JoinAppend(a: seq<string>, b: seq<string>)
    requires |a| > 0 && |b| > 0
    ensures Join(a + b) == Join(a) + "/" + Join(b)
    decreases |a|
  {
    assert (a + b)[0] == a[0];
    assert (a + b)[1..] == a[1..] + b;
    if |a| > 1 {
      JoinAppend(a[1..], b);
    }
  }

  lemma {:induction false} DropEmptyConcat(a: seq<string>, b: seq<string>)
    ensures DropEmpty(a + b) == DropEmpty(a) + DropEmpty(b)
    decreases |a|
  {
    if a == [] {
      assert a + b == b;
    } else {
      assert (a + b)[0] == a[0];
      assert (a + b)[1..] == a[1..] + b;
      DropEmptyConcat(a[1..], b);
    }
  }

  lemma {:induction false} DropEmptyNames(segs: seq<string>)
    requires AllNames(segs)
    ensures DropEmpty(segs) == segs
    decreases |segs|
  {
    if segs != [] {
      DropEmptyNames(segs[1..]);
    }
  }

  /** Normalizing `a + b` is normalizing `b` onto the result for `a`. */
  lemma {:induction false} CollapseConcat(stack: seq<string>, a: seq<string>, b: seq<string>, aboveRoot: bool)
    ensures Collapse(stack, a + b, aboveRoot) == Collapse(Collapse(stack, a, aboveRoot), b, aboveRoot)
    decreases |a|
  {
    if a == [] {
      assert a + b == b;
    } else {
      assert (a + b)[0] == a[0];
      assert (a + b)[1..] == a[1..] + b;
      CollapseConcat(Step(stack, a[0], aboveRoot), a[1..], b, aboveRoot);
    }
  }

  /** A name followed by `..` cancels out: `..` removes the segment before it. */
  lemma CollapseParent(stack: seq<string>, n: string, aboveRoot: bool)
    requires IsName(n)
    ensures Collapse(stack, [n, ".."], aboveRoot) == stack
  {
    assert [n, ".."][1..] == [".."];
    assert Step(stack, n, aboveRoot) == stack + [n];
    assert Collapse(stack + [n], [".."], aboveRoot) == Step(stack + [n], "..", aboveRoot);
    assert (stack + [n])[..|stack|] == stack;
  }

  /** A name is pushed, an empty piece is skipped. */
  lemma StepNameOrEmpty(stack: seq<string>, seg: string, aboveRoot: bool)
    requires seg == "" || IsName(seg)
    ensures Step(stack, seg, aboveRoot) == stack + (if seg == "" then [] else [seg])
  {
  }

  lemma NamesOrEmptyTail(segs: seq<string>)
    requires segs != [] && NamesOrEmpty(segs)
    ensures segs[0] == "" || IsName(segs[0])
    ensures NamesOrEmpty(segs[1..])
  {
  }

  lemma ConcatAssoc<T>(a: seq<T>, b: seq<T>, c: seq<T>)
    ensures (a + b) + c == a + (b + c)
  {
  }

  /** Without `.` or `..` pieces, normalization only drops the empty pieces. */
  lemma {:induction false} CollapseNamesOrEmpty(stack: seq<string>, segs: seq<string>, aboveRoot: bool)
    requires NamesOrEmpty(segs)
    ensures Collapse(stack, segs, aboveRoot) == stack + DropEmpty(segs)
    decreases |segs|
  {
    if segs == [] {
      assert stack + [] == stack;
    } else {
      var head := if segs[0] == "" then [] else [segs[0]];
      NamesOrEmptyTail(segs);
      StepNameOrEmpty(stack, segs[0], aboveRoot);
      var rest := DropEmpty(segs[1..]);
      assert Collapse(stack, segs, aboveRoot) == Collapse(stack + head, segs[1..], aboveRoot);
      CollapseNamesOrEmpty(stack + head, segs[1..], aboveRoot);
      assert DropEmpty(segs) == head + rest;
      ConcatAssoc(stack, head, rest);
    }
  }

  lemma SplitAbs(segs: seq<string>)
    requires AllNames(segs)
    ensures NamesOrEmpty(Split(Abs(segs)))
    ensures DropEmpty(Split(Abs(segs))) == segs
  {
    if segs == [] {
      SplitConcat("", "");
      assert Abs(segs) == "" + "/" + "";
    } else {
      SplitJoin(segs);
      SplitConcat("", Join(segs));
      assert Abs(segs) == "" + "/" + Join(segs);
      DropEmptyConcat([""], segs);
      DropEmptyNames(segs);
    }
  }

  /** An absolute path of names and empty pieces normalizes to its names, keeping a trailing separator. */
  lemma NormalizeNamesOrEmpty(p: string)
    requires p != "" && p[0] == '/'
    requires NamesOrEmpty(Split(p))
    ensures Normalize(p) == Abs(DropEmpty(Split(p)))
                            + (if DropEmpty(Split(p)) != [] && p[|p| - 1] == '/' then "/" else "")
  {
    var segs := Split(p);
    CollapseNamesOrEmpty([], segs, false);
    assert Collapse([], segs, false) == DropEmpty(segs);
  }

  /** The last character of `Abs(segs)` is a separator only for the root itself. */
  lemma AbsLast(segs: seq<string>)
    requires AllNames(segs)
    ensures Abs(segs)[|Abs(segs)| - 1] == '/' <==> segs == []
  {
    if segs != [] {
      var last := segs[|segs| - 1];
      assert IsName(last);
      assert Join(segs)[|Join(segs)| - 1] == last[|last| - 1];
    }
  }

  /** An absolute path made of names is already normal. */
  lemma NormalizeAbs(segs: seq<string>)
    requires AllNames(segs)
    ensures Normalize(Abs(segs)) == Abs(segs)
  {
    SplitAbs(segs);
    NormalizeNamesOrEmpty(Abs(segs));
    AbsLast(segs);
  }

  /** `Abs` of a longer segment list extends `Abs` of its prefix by a separator. */
  lemma AbsAppend(a: seq<string>, b: seq<string>)
    requires |b| > 0
    ensures Abs(a + b) == (if a == [] then Abs(b) else Abs(a) + "/" + Join(b))
  {
    if a == [] {
      assert a + b == b;
    } else {
      JoinAppend(a, b);
      assert Abs(a + b) == "/" + (Join(a) + "/" + Join(b));
      ConcatAssoc("/", Join(a) + "/", Join(b));
      ConcatAssoc("/", Join(a), "/");
    }
  }

  lemma NamesOrEmptyConcat(a: seq<string>, b: seq<string>)
    requires NamesOrEmpty(a) && NamesOrEmpty(b)
    ensures NamesOrEmpty(a + b)
  {
    forall i | 0 <= i < |a + b| ensures (a + b)[i] == "" || IsName((a + b)[i]) {
      if i < |a| { assert (a + b)[i] == a[i]; } else { assert (a + b)[i] == b[i - |a|]; }
    }
  }

  /** A trailing separator adds one empty piece. */
  lemma SplitTrailing(a: string)
    ensures Split(a + "/") == Split(a) + [""]
  {
    assert a + "/" == a + "/" + "";
    SplitConcat(a, "");
  }

  lemma NamesOrEmptyTrailing(segs: seq<string>)
    requires NamesOrEmpty(segs)
    ensures NamesOrEmpty(segs + [""])
    ensures DropEmpty(segs + [""]) == DropEmpty(segs)
  {
    NamesOrEmptyConcat(segs, [""]);
    DropEmptyConcat(segs, [""]);
    assert DropEmpty([""]) == [];
    assert DropEmpty(segs) + [] == DropEmpty(segs);
  }

  /** The pieces of a normal absolute path, with or without a trailing separator. */
  lemma SplitAbsTrailing(segs: seq<string>, trailing: bool)
    requires AllNames(segs)
    ensures NamesOrEmpty(Split(Abs(segs) + (if trailing then "/" else "")))
    ensures DropEmpty(Split(Abs(segs) + (if trailing then "/" else ""))) == segs
  {
    SplitAbs(segs);
    if trailing {
      SplitTrailing(Abs(segs));
      NamesOrEmptyTrailing(Split(Abs(segs)));
    } else {
      assert Abs(segs) + "" == Abs(segs);
    }
  }

  /** The file name `index.html` as a one-segment path. */
  lemma IndexIsName()
    ensures IsName("index.html")
    ensures Split("index.html") == ["index.html"]
    ensures DropEmpty(["index.html"]) == ["index.html"]
  {
    assert IsName("index.html");
    SplitNoSeparator("index.html");
  }

  /**
   * Joining `index.html` onto a normal absolute path, with or without a
   * trailing separator, appends one segment.
   */
  lemma JoinIndex(segs: seq<string>, trailing: bool)
    requires AllNames(segs)
    ensures Join2(Abs(segs) + (if trailing then "/" else ""), "index.html") == Abs(segs + ["index.html"])
  {
    var a := Abs(segs) + (if trailing then "/" else "");
    var p := a + "/" + "index.html";
    IndexIsName();
    SplitAbsTrailing(segs, trailing);
    SplitConcat(a, "index.html");
    assert Split(p) == Split(a) + ["index.html"];
    NamesOrEmptyConcat(Split(a), ["index.html"]);
    DropEmptyConcat(Split(a), ["index.html"]);
    assert DropEmpty(Split(p)) == segs + ["index.html"];
    assert p[0] == '/';
    NormalizeNamesOrEmpty(p);
    assert p[|p| - 1] == 'l';
    assert Join2(a, "index.html") == Normalize(p);
  }

  // ---------------------------------------------------------------------
  // Facts about extensions

  lemma {:induction false} LastComponentAfter(q: string, b: string)
    requires q == "" || q[|q| - 1] == '/'
    requires '/' !in b
    ensures LastComponent(q + b) == b
    decreases |b|
  {
    if b == "" {
      assert q + b == q;
    } else {
      var b' := b[..|b| - 1];
      assert (q + b)[..|q + b| - 1] == q + b';
      LastComponentAfter(q, b');
      assert b' + [b[|b| - 1]] == b;
    }
  }

  lemma {:induction false} LastDotOf(stem: string, ext: string)
    requires ext != "" && ext[0] == '.' && '.' !in ext[1..]
    ensures LastDot(stem + ext) == Some(|stem|)
    decreases |ext|
  {
    if |ext| > 1 {
      var ext' := ext[..|ext| - 1];
      assert ext[|ext| - 1] in ext[1..];
      assert (stem + ext)[..|stem + ext| - 1] == stem + ext';
      assert ext'[1..] <= ext[1..];
      LastDotOf(stem, ext');
    }
  }

  /**
   * The extension of a file name `stem + ext` placed after a separator is `ext`,
   * when `ext` is a dot followed by no further dot and `stem` is not empty.
   */
  lemma ExtnameOf(q: string, stem: string, ext: string)
    requires q == "" || q[|q| - 1] == '/'
    requires stem != "" && '/' !in stem && '/' !in ext
    requires ext != "" && ext[0] == '.' && '.' !in ext[1..]
    requires stem + ext != ".."
    ensures Extname(q + (stem + ext)) == ext
  {
    var p := q + (stem + ext);
    assert p[|p| - 1] == ext[|ext| - 1];
    if |ext| > 1 { assert ext[|ext| - 1] in ext[1..]; }
    assert TrimTrailingSeparators(p) == p;
    assert '/' !in stem + ext;
    LastComponentAfter(q, stem + ext);
    LastDotOf(stem, ext);
    assert (stem + ext)[|stem|..] == ext;
  }

  /** A dotfile such as `.htaccess`, after a separator or alone, has no extension. */
  lemma ExtnameDotfile(q: string, name: string)
    requires q == "" || q[|q| - 1] == '/'
    requires '/' !in name
    requires name != "" && name[0] == '.' && '.' !in name[1..]
    ensures Extname(q + name) == ""
  {
    var p := q + name;
    assert p[|p| - 1] == name[|name| - 1];
    assert TrimTrailingSeparators(p) == p;
    LastComponentAfter(q, name);
    forall k | 0 < k < |name|
      ensures name[k] != '.'
    {
      assert name[k] == name[1..][k - 1];
    }
  }

  lemma NormalizeName(n: string)
    requires IsName(n)
    ensures Normalize(n) == n
  {
    SplitNoSeparator(n);
    StepNameOrEmpty([], n, true);
    assert [] + [n] == [n];
    assert Collapse([], [n], true) == [n] by {
      assert [n][1..] == [];
    }
    assert n[0] != '/' by { assert n[0] in n; }
    assert n[|n| - 1] != '/' by { assert n[|n| - 1] in n; }
    assert Join([n]) == n;
    assert "" + n + "" == n;
  }

  /** The pieces of `x + "/" + n` normalize to those of `x` followed by the name `n`. */
  lemma CollapseAppendName(x: string, n: string, aboveRoot: bool)
    requires IsName(n)
    ensures Collapse([], Split(x + "/" + n), aboveRoot) == Collapse([], Split(x), aboveRoot) + [n]
  {
    SplitNoSeparator(n);
    SplitConcat(x, n);
    CollapseConcat([], Split(x), [n], aboveRoot);
    var kept := Collapse([], Split(x), aboveRoot);
    StepNameOrEmpty(kept, n, aboveRoot);
    assert Collapse(kept, [n], aboveRoot) == Collapse(kept + [n], [], aboveRoot) by {
      assert [n][1..] == [];
    }
  }

  /** Joining segments that end in the name `n`: what comes before `n` is empty or ends in a separator. */
  lemma JoinEndsInName(kept: seq<string>, n: string) returns (q: string)
    ensures q == "" || q[|q| - 1] == '/'
    ensures Join(kept + [n]) == q + n
  {
    if kept == [] {
      assert kept + [n] == [n];
      q := "";
    } else {
      JoinAppend(kept, [n]);
      q := Join(kept) + "/";
    }
  }

  lemma NormalizeAppendName(x: string, n: string) returns (q: string)
    requires x != "" && IsName(n)
    ensures q == "" || q[|q| - 1] == '/'
    ensures Normalize(x + "/" + n) == q + n
  {
    var p := x + "/" + n;
    var absolute := x[0] == '/';
    assert p[0] == x[0];
    CollapseAppendName(x, n, !absolute);
    var kept := Collapse([], Split(x), !absolute);
    assert p[|p| - 1] == n[|n| - 1];
    assert n[|n| - 1] != '/' by { assert n[|n| - 1] in n; }
    var lead := if absolute then "/" else "";
    assert Normalize(p) == lead + Join(kept + [n]) + "";
    var j := JoinEndsInName(kept, n);
    q := lead + j;
    if j == "" {
      assert q == lead;
    } else {
      assert q[|q| - 1] == j[|j| - 1];
    }
    ConcatAssoc(lead, j, n);
    assert Normalize(p) == q + n;
  }

  /** A file name joined onto any path is the last component of the result. */
  lemma JoinNameShape(x: string, n: string) returns (q: string)
    requires IsName(n)
    ensures q == "" || q[|q| - 1] == '/'
    ensures Join2(x, n) == q + n
  {
    if x == "" {
      NormalizeName(n);
      q := "";
    } else {
      q := NormalizeAppendName(x, n);
    }
  }

  /** `index.html` is the stem `index` with the extension `.html`. */
  lemma IndexParts()
    ensures "index" + ".html" == "index.html"
    ensures '/' !in "index" && '/' !in ".html" && '.' !in ".html"[1..]
  {
    assert ".html"[1..] == "html";
  }

  /** The extension of `index.html` joined onto any path is `.html`. */
  lemma JoinIndexExtname(x: string)
    ensures Extname(Join2(x, "index.html")) == ".html"
  {
    IndexIsName();
    var q := JoinNameShape(x, "index.html");
    IndexParts();
    ExtnameOf(q, "index", ".html");
  }
}
