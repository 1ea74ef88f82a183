/**
 * The POSIX flavour of Node's `path.dirname` and `path.join`, which the reader
 * uses to resolve a manifest href against the package document's folder.
 *
 * `Normalize` is stated over segments: the path is split at '/', empty and
 * "." segments are dropped, ".." removes the segment before it, and a ".."
 * with nothing left to remove is kept for a relative path and dropped for an
 * absolute one.  A leading '/' and a trailing '/' are kept.
 */
module PosixPath {

  /** The pieces of `s` between '/' separators: "a//b/" gives "a", "", "b", "". */
  function Split(s: string): (r: seq<string>)
    ensures |r| >= 1
    ensures forall i :: 0 <= i < |r| ==> '/' !in r[i]
    decreases |s|
  {
    if |s| == 0 then [""]
    else
      var rest := Split(s[1..]);
      if s[0] == '/' then [""] + rest else [[s[0]] + rest[0]] + rest[1..]
  }

  /** Segments glued back together with '/' between them. */
  function JoinSegments(segs: seq<string>): string
  {
    if |segs| == 0 then ""
    else if |segs| == 1 then segs[0]
    else segs[0] + "/" + JoinSegments(segs[1..])
  }

  /** A segment that names a file or folder: not empty, not "." and not "..". */
  predicate IsName(seg: string)
  {
    seg != "" && seg != "." && seg != ".." && '/' !in seg
  }

  /** The effect of one segment on the stack of segments kept so far. */
  function Push(stack: seq<string>, seg: string, allowAboveRoot: bool): seq<string>
  {
    if seg == "" || seg == "." then stack
    else if seg == ".." then
      if |stack| > 0 && stack[|stack| - 1] != ".." then stack[..|stack| - 1]
      else if allowAboveRoot then stack + [".."]
      else stack
    else stack + [seg]
  }

  /** The segments applied one after the other, left to right. */
  function Fold(stack: seq<string>, segs: seq<string>, allowAboveRoot: bool): seq<string>
    decreases |segs|
  {
    if |segs| == 0 then stack
    else Fold(Push(stack, segs[0], allowAboveRoot), segs[1..], allowAboveRoot)
  }

  /**
   * A stack that normalisation can produce: no empty, "." or '/'-holding
   * segments, every ".." before every name, and no ".." at all when climbing
   * above the root is not allowed.
   */
  ghost predicate Canonical(stack: seq<string>, allowAboveRoot: bool)
  {
    && (forall i :: 0 <= i < |stack| ==> stack[i] != "" && stack[i] != "." && '/' !in stack[i])
    && (forall i, j :: 0 <= i < j < |stack| && stack[j] == ".." ==> stack[i] == "..")
    && (!allowAboveRoot ==> forall i :: 0 <= i < |stack| ==> stack[i] != "..")
  }

  predicate IsAbsolute(path: string)
  {
    |path| > 0 && path[0] == '/'
  }

  predicate HasTrailingSeparator(path: string)
  {
    |path| > 0 && path[|path| - 1] == '/'
  }

  /** The segments `Normalize` keeps. */
  function NormalSegments(path: string): seq<string>
  {
    Fold([], Split(path), !IsAbsolute(path))
  }

  /** `path.normalize` (POSIX). */
  function Normalize(path: string): string
  {
    if |path| == 0 then "."
    else
      var segs := NormalSegments(path);
      if |segs| == 0 then
        if IsAbsolute(path) then "/"
        else if HasTrailingSeparator(path) then "./"
        else "."
      else
        (if IsAbsolute(path) then "/" else "")
        + JoinSegments(segs)
        + (if HasTrailingSeparator(path) then "/" else "")
  }

  /** `path.join(a, b)` (POSIX): the non-empty arguments joined by '/', then normalised. */
  function Join(a: string, b: string): string
  {
    var joined := if a == "" then b else if b == "" then a else a + "/" + b;
    if joined == "" then "." else Normalize(joined)
  }

  /**
   * The scan of `path.dirname` (POSIX): walking back from the end, past any
   * trailing separators, to the first '/' that precedes a non-separator;
   * index 0 is never examined.  -1 when there is none.
   */
  function DirEnd(p: string, i: int, matchedSlash: bool): (end: int)
    requires i < |p|
    ensures end == -1 || 1 <= end <= i
    decreases i
  {
    if i < 1 then -1
    else if p[i] == '/' then
      if !matchedSlash then i else DirEnd(p, i - 1, matchedSlash)
    else DirEnd(p, i - 1, false)
  }

  /** `path.dirname` (POSIX). */
  function Dirname(p: string): (r: string)
    ensures r == "." || r == "/" || r == "//" || (|r| < |p| && r == p[..|r|])
  {
    if |p| == 0 then "."
    else
      var end := DirEnd(p, |p| - 1, true);
      if end == -1 then (if p[0] == '/' then "/" else ".")
      else if p[0] == '/' && end == 1 then "//"
      else p[..end]
  }

  // ---------------------------------------------------------------------
  // Splitting and joining segments

  lemma {:induction false} SplitName(w: string)
    requires '/' !in w
    ensures Split(w) == [w]
    decreases |w|
  {
    if |w| > 0 {
      SplitName(w[1..]);
      assert [w[0]] + w[1..] == w;
    }
  }

  lemma {:induction false} SplitAfterName(w: string, t: string)
    requires '/' !in w
    ensures Split(w + "/" + t) == [w] + Split(t)
    decreases |w|
  {
    if |w| == 0 {
      assert (w + "/" + t)[1..] == t;
    } else {
      assert (w + "/" + t)[1..] == w[1..] + "/" + t;
      SplitAfterName(w[1..], t);
      assert [w[0]] + w[1..] == w;
    }
  }

  /** Joining the pieces of a split gives back the path. */
  lemma {:induction false} JoinSplit(s: string)
    ensures JoinSegments(Split(s)) == s
    decreases |s|
  {
    if |s| > 0 {
      var rest := Split(s[1..]);
      JoinSplit(s[1..]);
      if s[0] == '/' {
        assert Split(s) == [""] + rest;
        assert s == "" + "/" + s[1..];
      } else {
        var r := Split(s);
        assert r == [[s[0]] + rest[0]] + rest[1..];
        if |rest| == 1 {
          assert s == [s[0]] + rest[0];
        } else {
          assert r[1..] == rest[1..];
          assert JoinSegments(rest) == rest[0] + "/" + JoinSegments(rest[1..]);
          assert s == [s[0]] + rest[0] + "/" + JoinSegments(rest[1..]);
        }
      }
    }
  }

  /** Splitting segments that were joined gives back the segments. */
  lemma {:induction false} SplitJoin(segs: seq<string>)
    requires |segs| >= 1
    requires forall i :: 0 <= i < |segs| ==> '/' !in segs[i]
    ensures Split(JoinSegments(segs)) == segs
    decreases |segs|
  {
    if |segs| == 1 {
      SplitName(segs[0]);
    } else {
      SplitJoin(segs[1..]);
      SplitAfterName(segs[0], JoinSegments(segs[1..]));
    }
  }

  lemma {:induction false} JoinAppend(a: seq<string>, b: seq<string>)
    requires |a| >= 1 && |b| >= 1
    ensures JoinSegments(a + b) == JoinSegments(a) + "/" + JoinSegments(b)
    decreases |a|
  {
    if |a| == 1 {
      assert (a + b)[1..] == b;
    } else {
      assert (a + b)[1..] == a[1..] + b;
      JoinAppend(a[1..], b);
    }
  }

  /** The segments of `x/y` are those of `x` followed by those of `y`. */
  lemma SplitAppend(x: string, y: string)
    ensures Split(x + "/" + y) == Split(x) + Split(y)
  {
    JoinSplit(x);
    JoinSplit(y);
    JoinAppend(Split(x), Split(y));
    SplitJoin(Split(x) + Split(y));
  }

  lemma {:induction false} SplitFirstEmpty(s: string)
    ensures Split(s)[0] == "" <==> (s == "" || s[0] == '/')
  {
    if |s| > 0 && s[0] != '/' {
      var rest := Split(s[1..]);
      assert Split(s)[0] == [s[0]] + rest[0];
    }
  }

  lemma {:induction false} SplitLastEmpty(s: string)
    ensures Split(s)[|Split(s)| - 1] == "" <==> (s == "" || s[|s| - 1] == '/')
    decreases |s|
  {
    if |s| > 0 {
      var rest := Split(s[1..]);
      SplitLastEmpty(s[1..]);
      if |s| == 1 {
        assert s[1..] == "";
      } else {
        assert s[1..][|s[1..]| - 1] == s[|s| - 1];
      }
    }
  }

  // ---------------------------------------------------------------------
  // The stack of kept segments

  lemma {:induction false} FoldAppend(stack: seq<string>, a: seq<string>, b: seq<string>, allow: bool)
    ensures Fold(stack, a + b, allow) == Fold(Fold(stack, a, allow), b, allow)
    decreases |a|
  {
    if |a| == 0 {
      assert a + b == b;
    } else {
      assert (a + b)[0] == a[0];
      assert (a + b)[1..] == a[1..] + b;
      FoldAppend(Push(stack, a[0], allow), a[1..], b, allow);
    }
  }

  lemma PushCanonical(stack: seq<string>, seg: string, allow: bool)
    requires Canonical(stack, allow) && '/' !in seg
    ensures Canonical(Push(stack, seg, allow), allow)
  {
    var r := Push(stack, seg, allow);
    if seg == ".." && !(|stack| > 0 && stack[|stack| - 1] != "..") && allow {
      assert forall i :: 0 <= i < |stack| ==> stack[i] == "..";
    }
  }

  /** Normalisation only ever produces canonical stacks. */
  lemma {:induction false} FoldCanonical(stack: seq<string>, segs: seq<string>, allow: bool)
    requires Canonical(stack, allow)
    requires forall i :: 0 <= i < |segs| ==> '/' !in segs[i]
    ensures Canonical(Fold(stack, segs, allow), allow)
    decreases |segs|
  {
    if |segs| > 0 {
      PushCanonical(stack, segs[0], allow);
      FoldCanonical(Push(stack, segs[0], allow), segs[1..], allow);
    }
  }

  /** Applying a canonical stack's own segments changes nothing. */
  lemma {:induction false} FoldOfCanonical(p: seq<string>, q: seq<string>, allow: bool)
    requires Canonical(p + q, allow)
    ensures Fold(p, q, allow) == p + q
    decreases |q|
  {
    if |q| > 0 {
      var pq := p + q;
      assert q[0] == pq[|p|];
      if q[0] == ".." {
        assert forall i :: 0 <= i < |p| ==> p[i] == pq[i];
        if |p| > 0 {
          assert p[|p| - 1] == "..";
        }
      }
      assert Push(p, q[0], allow) == p + [q[0]];
      assert (p + [q[0]]) + q[1..] == pq;
      FoldOfCanonical(p + [q[0]], q[1..], allow);
    }
  }

  lemma NormalSegmentsCanonical(path: string)
    ensures Canonical(NormalSegments(path), !IsAbsolute(path))
  {
    FoldCanonical([], Split(path), !IsAbsolute(path));
  }

  /**
   * The segments of a normalised path: a leading "" for an absolute path, the
   * kept segments, and a trailing "" for a trailing separator.
   */
  lemma SplitNormalized(path: string)
    requires |NormalSegments(path)| > 0
    ensures Split(Normalize(path))
         == (if IsAbsolute(path) then [""] else [])
            + NormalSegments(path)
            + (if HasTrailingSeparator(path) then [""] else [])
  {
    var segs := NormalSegments(path);
    var core := JoinSegments(segs);
    NormalSegmentsCanonical(path);
    SplitJoin(segs);
    var front: seq<string> := if IsAbsolute(path) then [""] else [];
    var lead := (if IsAbsolute(path) then "/" else "") + core;
    if IsAbsolute(path) {
      SplitAppend("", core);
      assert "" + "/" + core == lead;
      assert Split("") == [""];
    } else {
      assert lead == core;
    }
    assert Split(lead) == front + segs;
    if HasTrailingSeparator(path) {
      SplitAppend(lead, "");
      assert lead + "/" + "" == Normalize(path);
      assert Split("") == [""];
    } else {
      assert lead == Normalize(path);
    }
  }

  /**
   * A normalised path has no "." segment, no empty segment except a leading one
   * (root) or a trailing one (trailing separator), and its ".." segments come
   * before every name; an absolute path keeps no ".." at all.
   */
  lemma NormalizedShape(path: string)
    ensures var r := Normalize(path);
            var parts := Split(r);
            r == "." || r == "./" || r == "/" ||
            (&& (forall i :: 0 <= i < |parts| ==> parts[i] != ".")
             && (forall i :: 0 < i < |parts| - 1 ==> parts[i] != "")
             && (forall i, j :: 0 <= i < j < |parts| && parts[j] == ".." ==> parts[i] == "..")
             && (IsAbsolute(path) ==> forall i :: 0 <= i < |parts| ==> parts[i] != ".."))
  {
    if |path| > 0 && |NormalSegments(path)| > 0 {
      SplitNormalized(path);
      NormalSegmentsCanonical(path);
    }
  }

  /** Normalising twice is the same as normalising once. */
  lemma NormalizeIdempotent(path: string)
    ensures Normalize(Normalize(path)) == Normalize(path)
  {
    var r := Normalize(path);
    if |path| > 0 {
      var segs := NormalSegments(path);
      if |segs| == 0 {
        if IsAbsolute(path) {
          assert Split("/") == [""] + Split("");
        } else if HasTrailingSeparator(path) {
          assert r == "." + "/" + "";
          SplitAppend(".", "");
          SplitName(".");
        } else {
          SplitName(".");
        }
      } else {
        var front: seq<string> := if IsAbsolute(path) then [""] else [];
        var back: seq<string> := if HasTrailingSeparator(path) then [""] else [];
        SplitNormalized(path);
        NormalSegmentsCanonical(path);
        SplitFirstEmpty(r);
        SplitLastEmpty(r);
        assert IsAbsolute(r) == IsAbsolute(path);
        assert HasTrailingSeparator(r) == HasTrailingSeparator(path);
        var allow := !IsAbsolute(path);
        calc {
          NormalSegments(r);
          Fold([], front + segs + back, allow);
          { FoldAppend([], front + segs, back, allow); FoldAppend([], front, segs, allow); }
          Fold(Fold(Fold([], front, allow), segs, allow), back, allow);
          { assert Fold([], front, allow) == []; }
          Fold(Fold([], segs, allow), back, allow);
          { FoldOfCanonical([], segs, allow); assert [] + segs == segs; }
          Fold(segs, back, allow);
          segs;
        }
      }
    }
  }

  // ---------------------------------------------------------------------
  // Characters that normalisation cannot introduce

  lemma {:induction false} SplitKeepsOut(s: string, c: char)
    requires c !in s
    ensures forall i :: 0 <= i < |Split(s)| ==> c !in Split(s)[i]
    decreases |s|
  {
    if |s| > 0 {
      SplitKeepsOut(s[1..], c);
    }
  }

  lemma {:induction false} FoldKeepsOut(stack: seq<string>, segs: seq<string>, allow: bool, c: char)
    requires c != '.'
    requires forall i :: 0 <= i < |stack| ==> c !in stack[i]
    requires forall i :: 0 <= i < |segs| ==> c !in segs[i]
    ensures forall i :: 0 <= i < |Fold(stack, segs, allow)| ==> c !in Fold(stack, segs, allow)[i]
    decreases |segs|
  {
    if |segs| > 0 {
      FoldKeepsOut(Push(stack, segs[0], allow), segs[1..], allow, c);
    }
  }

  lemma {:induction false} JoinKeepsOut(segs: seq<string>, c: char)
    requires c != '/'
    requires forall i :: 0 <= i < |segs| ==> c !in segs[i]
    ensures c !in JoinSegments(segs)
    decreases |segs|
  {
    if |segs| > 1 {
      JoinKeepsOut(segs[1..], c);
    }
  }

  /** Normalisation adds no character other than '/' and '.'. */
  lemma NormalizeKeepsOut(path: string, c: char)
    requires c != '/' && c != '.' && c !in path
    ensures c !in Normalize(path)
  {
    SplitKeepsOut(path, c);
    FoldKeepsOut([], Split(path), !IsAbsolute(path), c);
    JoinKeepsOut(NormalSegments(path), c);
  }

  // ---------------------------------------------------------------------
  // dirname and join on the shapes the reader meets

  lemma {:induction false} DirEndSkipsName(p: string, i: int, lo: int)
    requires 0 <= lo <= i < |p|
    requires forall k :: lo < k <= i ==> p[k] != '/'
    requires lo >= 1 ==> p[lo] == '/'
    requires i > lo
    ensures DirEnd(p, i, false) == DirEnd(p, lo, false)
    decreases i
  {
    if i - 1 > lo {
      DirEndSkipsName(p, i - 1, lo);
    }
  }

  /** The folder of `dir/file` is `dir`, for a file name without '/'. */
  lemma DirnameOfNested(dir: string, file: string)
    requires dir != "" && dir != "/"
    requires file != "" && '/' !in file
    ensures Dirname(dir + "/" + file) == dir
  {
    var p := dir + "/" + file;
    var last := |p| - 1;
    assert p[|dir|] == '/';
    assert forall k :: |dir| < k <= last ==> p[k] == file[k - |dir| - 1];
    if last > |dir| {
      DirEndSkipsName(p, last, |dir|);
    }
    assert DirEnd(p, last, true) == |dir|;
    assert p[..|dir|] == dir;
  }

  lemma {:induction false} DirEndInName(p: string, i: int)
    requires 0 <= i < |p|
    requires forall k :: 0 <= k <= i ==> p[k] != '/'
    ensures DirEnd(p, i, false) == -1
    decreases i
  {
    if i >= 1 {
      DirEndInName(p, i - 1);
    }
  }

  /** The folder of a file at the top of the archive is ".". */
  lemma DirnameOfTopLevel(file: string)
    requires file != "" && '/' !in file
    ensures Dirname(file) == "."
  {
    if |file| > 1 {
      DirEndInName(file, |file| - 2);
    }
  }

  /** A path made only of names, with no leading or trailing separator. */
  ghost predicate IsPlain(path: string)
  {
    forall i :: 0 <= i < |Split(path)| ==> IsName(Split(path)[i])
  }

  /** Joining two plain paths only glues them with one '/'. */
  lemma JoinPlain(a: string, b: string)
    requires IsPlain(a) && IsPlain(b)
    ensures Join(a, b) == a + "/" + b
  {
    var p := a + "/" + b;
    SplitAppend(a, b);
    SplitFirstEmpty(a);
    SplitLastEmpty(b);
    assert !IsAbsolute(p) by {
      assert Split(a)[0] != "";
    }
    assert !HasTrailingSeparator(p) by {
      assert Split(b)[|Split(b)| - 1] != "";
      assert p[|p| - 1] == b[|b| - 1];
    }
    var segs := Split(a) + Split(b);
    assert Canonical([] + segs, true);
    FoldOfCanonical([], segs, true);
    assert NormalSegments(p) == segs;
    JoinSplit(a);
    JoinSplit(b);
    JoinAppend(Split(a), Split(b));
  }

  /** Joining onto "." is plain normalisation of a relative path. */
  lemma JoinOntoDot(b: string)
    requires b != "" && b[0] != '/'
    ensures Join(".", b) == Normalize(b)
  {
    var p := "." + "/" + b;
    SplitAppend(".", b);
    SplitName(".");
    assert Split(p) == ["."] + Split(b);
    FoldAppend([], ["."], Split(b), true);
    assert Fold([], ["."], true) == [];
    assert p[|p| - 1] == b[|b| - 1];
  }

  /** A name followed by ".." leaves the stack as it was. */
  lemma NameThenParent(st: seq<string>, name: string, allow: bool)
    requires IsName(name)
    ensures Fold(st, [name, ".."], allow) == st
  {
    var pushed := Push(st, name, allow);
    assert pushed == st + [name];
    assert Push(pushed, "..", allow) == pushed[..|st|] == st;
    assert [name, ".."][1..] == [".."];
    assert [".."][1..] == [];
  }

  lemma SplitOfParentStep(a: string, name: string, b: string)
    requires IsName(name)
    ensures Split(a + "/" + name + "/" + "../" + b) == Split(a) + ([name, ".."] + Split(b))
  {
    SplitName(name);
    SplitName("..");
    SplitAppend(a, name);
    SplitAppend("..", b);
    assert "../" + b == ".." + "/" + b;
    assert a + "/" + name + "/" + "../" + b == (a + "/" + name) + "/" + (".." + "/" + b);
    SplitAppend(a + "/" + name, ".." + "/" + b);
  }

  /** A ".." segment at the head of `b` cancels the last name of the folder. */
  lemma JoinCancelsParent(a: string, name: string, b: string)
    requires a != "" && IsName(name) && b != ""
    ensures Join(a + "/" + name, "../" + b) == Join(a, b)
  {
    var left := a + "/" + name + "/" + "../" + b;
    var right := a + "/" + b;
    assert (a + "/" + name) + "/" + ("../" + b) == left;
    assert Join(a + "/" + name, "../" + b) == Normalize(left);
    assert Join(a, b) == Normalize(right);
    SplitOfParentStep(a, name, b);
    SplitAppend(a, b);
    var allow := !IsAbsolute(a);
    assert IsAbsolute(left) == IsAbsolute(a) && IsAbsolute(right) == IsAbsolute(a);
    assert left[|left| - 1] == b[|b| - 1] && right[|right| - 1] == b[|b| - 1];
    var st := Fold([], Split(a), allow);
    FoldAppend([], Split(a), [name, ".."] + Split(b), allow);
    FoldAppend(st, [name, ".."], Split(b), allow);
    NameThenParent(st, name, allow);
    FoldAppend([], Split(a), Split(b), allow);
    assert NormalSegments(left) == NormalSegments(right);
  }

  /** A ".." at the head of `b` cancels a lone folder name: the join climbs back to ".". */
  lemma JoinNameCancelsParent(name: string, b: string)
    requires IsName(name) && b != ""
    ensures Join(name, "../" + b) == Join(".", b)
  {
    var left := name + "/" + ("../" + b);
    var right := "." + "/" + b;
    SplitName(name);
    SplitName("..");
    SplitName(".");
    assert "../" + b == ".." + "/" + b;
    SplitAppend("..", b);
    SplitAppend(name, "../" + b);
    assert Split(left) == [name, ".."] + Split(b);
    SplitAppend(".", b);
    assert Split(right) == ["."] + Split(b);
    assert !IsAbsolute(left) && !IsAbsolute(right);
    assert left[|left| - 1] == b[|b| - 1] && right[|right| - 1] == b[|b| - 1];
    FoldAppend([], [name, ".."], Split(b), true);
    NameThenParent([], name, true);
    FoldAppend([], ["."], Split(b), true);
    assert Fold([], ["."], true) == [];
    assert NormalSegments(left) == NormalSegments(right);
  }

  /** Joining onto "." turns an absolute path into the relative one. */
  lemma JoinOntoDotDropsRoot(b: string)
    requires b != ""
    ensures Join(".", "/" + b) == Join(".", b)
  {
    var left := "." + "/" + ("/" + b);
    var right := "." + "/" + b;
    SplitName(".");
    assert ("/" + b)[1..] == b;
    assert Split("/" + b) == [""] + Split(b);
    SplitAppend(".", "/" + b);
    assert Split(left) == ["."] + ([""] + Split(b));
    SplitAppend(".", b);
    assert Split(right) == ["."] + Split(b);
    assert !IsAbsolute(left) && !IsAbsolute(right);
    assert left[|left| - 1] == b[|b| - 1] && right[|right| - 1] == b[|b| - 1];
    FoldAppend([], ["."], [""] + Split(b), true);
    FoldAppend([], [""], Split(b), true);
    FoldAppend([], ["."], Split(b), true);
    assert Fold([], ["."], true) == [] && Fold([], [""], true) == [];
    assert NormalSegments(left) == NormalSegments(right);
  }
}
