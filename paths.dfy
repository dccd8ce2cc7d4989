/**
 * The path handling of handleRequest on a Unix system: strings.TrimPrefix,
 * filepath.Join, filepath.Abs (through the lexical rules of filepath.Clean),
 * strings.HasPrefix and filepath.Ext. Paths are strings with `/` as the only
 * separator; no symbolic link is followed, as none of these functions does.
 */
module Paths {

  predicate IsRooted(p: string) {
    |p| > 0 && p[0] == '/'
  }

  /** A path element as it appears between separators. */
  predicate IsElement(s: string) {
    |s| > 0 && '/' !in s
  }

  /** An element that names a directory entry (neither `.` nor `..`). */
  predicate IsName(s: string) {
    IsElement(s) && s != "." && s != ".."
  }

  predicate AllNames(segs: seq<string>) {
    forall i :: 0 <= i < |segs| ==> IsName(segs[i])
  }

  predicate NoParent(segs: seq<string>) {
    forall i :: 0 <= i < |segs| ==> segs[i] != ".."
  }

  /** Length of the first element of `p` (up to the first `/`). */
  function NameLen(p: string): (n: nat)
    ensures n <= |p|
    ensures forall i :: 0 <= i < n ==> p[i] != '/'
    ensures n == |p| || p[n] == '/'
  {
    if p == [] || p[0] == '/' then 0 else 1 + NameLen(p[1..])
  }

  /** The elements of a path, in order; repeated, leading and trailing separators vanish. */
  function Segments(p: string): (segs: seq<string>)
    ensures forall i :: 0 <= i < |segs| ==> IsElement(segs[i])
    decreases |p|
  {
    if p == [] then []
    else if p[0] == '/' then Segments(p[1..])
    else
      var n := NameLen(p);
      assert forall c :: c in p[..n] ==> c != '/';
      [p[..n]] + Segments(p[n..])
  }

  /** Clean's treatment of one element: drop `.`, let `..` cancel the element before it. */
  function Step(rooted: bool, stack: seq<string>, s: string): seq<string> {
    if s == "." then stack
    else if s == ".." then
      if |stack| > 0 && stack[|stack| - 1] != ".." then stack[..|stack| - 1]
      else if rooted then stack          // `/..` is `/`
      else stack + [".."]                // a relative path keeps leading `..`
    else stack + [s]
  }

  function Resolve(rooted: bool, stack: seq<string>, segs: seq<string>): seq<string>
    decreases |segs|
  {
    if segs == [] then stack else Resolve(rooted, Step(rooted, stack, segs[0]), segs[1..])
  }

  function JoinSegs(segs: seq<string>): string {
    if segs == [] then ""
    else if |segs| == 1 then segs[0]
    else segs[0] + "/" + JoinSegs(segs[1..])
  }

  function Render(rooted: bool, segs: seq<string>): string {
    if rooted then "/" + JoinSegs(segs)
    else if segs == [] then "."
    else JoinSegs(segs)
  }

  predicate AllElements(segs: seq<string>) {
    forall i :: 0 <= i < |segs| ==> IsElement(segs[i])
  }

  /** Resolving elements onto elements leaves elements (`..` is one). */
  lemma {:induction false} ResolveElements(rooted: bool, st: seq<string>, segs: seq<string>)
    requires AllElements(st) && AllElements(segs)
    ensures AllElements(Resolve(rooted, st, segs))
    decreases |segs|
  {
    if segs != [] {
      var next := Step(rooted, st, segs[0]);
      assert AllElements(next);
      ResolveElements(rooted, next, segs[1..]);
    }
  }

  /** A path written from elements is never empty, and starts with `/` exactly when it is rooted. */
  lemma RenderShape(rooted: bool, segs: seq<string>)
    requires AllElements(segs)
    ensures |Render(rooted, segs)| > 0
    ensures IsRooted(Render(rooted, segs)) <==> rooted
  {
    if !rooted && segs != [] {
      if |segs| > 1 {
        assert JoinSegs(segs)[0] == segs[0][0];
      }
    }
  }

  /** The elements filepath.Clean keeps. */
  function CleanSegs(p: string): seq<string> {
    Resolve(IsRooted(p), [], Segments(p))
  }

  /** filepath.Clean: the shortest lexically equivalent path; "." for an empty result. */
  function Clean(p: string): (r: string)
    ensures |r| > 0
    ensures IsRooted(r) <==> IsRooted(p)
  {
    ResolveElements(IsRooted(p), [], Segments(p));
    RenderShape(IsRooted(p), CleanSegs(p));
    Render(IsRooted(p), CleanSegs(p))
  }

  /** filepath.Join of two elements: empty elements are ignored, the rest joined with `/` and cleaned. */
  function Join(a: string, b: string): (r: string)
    ensures r == "" <==> a == "" && b == ""
    ensures a != "" ==> (IsRooted(r) <==> IsRooted(a))
    ensures a == "" ==> (IsRooted(r) <==> IsRooted(b))
  {
    if a != "" then
      assert IsRooted(a + "/" + b) <==> IsRooted(a) by {
        assert (a + "/" + b)[0] == a[0];
      }
      Clean(a + "/" + b)
    else if b != "" then Clean(b)
    else ""
  }

  /** filepath.Abs, with the process's working directory given as `cwd`. */
  function Abs(cwd: string, p: string): (r: string)
    ensures IsRooted(p) || IsRooted(cwd) ==> IsRooted(r)
  {
    if IsRooted(p) then Clean(p) else Join(cwd, p)
  }

  /** strings.TrimPrefix: `s` without `prefix` when it starts with it, `s` itself otherwise. */
  function TrimPrefix(s: string, prefix: string): (r: string)
    ensures HasPrefix(s, prefix) ==> prefix + r == s
    ensures !HasPrefix(s, prefix) ==> r == s
  {
    if |prefix| <= |s| && s[..|prefix|] == prefix then
      assert s == s[..|prefix|] + s[|prefix|..];
      s[|prefix|..]
    else s
  }

  /** strings.HasPrefix: a comparison of characters, not of path elements. */
  predicate HasPrefix(s: string, prefix: string) {
    |prefix| <= |s| && s[..|prefix|] == prefix
  }

  /** The prefix test holds exactly when `s` has the characters of `prefix` at its first positions. */
  lemma HasPrefixAt(s: string, prefix: string)
    ensures HasPrefix(s, prefix) <==> |prefix| <= |s| && forall i :: 0 <= i < |prefix| ==> s[i] == prefix[i]
  {
    if |prefix| <= |s| && forall i :: 0 <= i < |prefix| ==> s[i] == prefix[i] {
      assert s[..|prefix|] == prefix;
    }
  }

  /** `p` lies in directory `dir` element by element (what a confinement check is meant to establish). */
  predicate SegmentsWithin(p: string, dir: string) {
    var d, s := Segments(dir), Segments(p);
    |d| <= |s| && s[..|d|] == d
  }

  /** filepath.Ext: the suffix from the last `.` of the last element, or "" when it has none. */
  function Ext(p: string): (e: string)
    ensures |e| <= |p| && e == p[|p| - |e|..]
    ensures e == [] || e[0] == '.'
    ensures forall i :: 0 <= i < |e| ==> e[i] != '/'
    ensures forall i :: 1 <= i < |e| ==> e[i] != '.'
    ensures e == [] ==> forall i :: 0 <= i < |p| && p[i] == '.' ==> exists j :: i < j < |p| && p[j] == '/'
  {
    if p == [] || p[|p| - 1] == '/' then ""
    else if p[|p| - 1] == '.' then "."
    else
      var e := Ext(p[..|p| - 1]);
      if e == [] then [] else e + [p[|p| - 1]]
  }

  // ---- Properties of the segment view ----

  /** Splitting `a/b` gives the elements of `a` followed by those of `b`. */
  lemma {:induction false} SegmentsConcat(a: string, b: string)
    ensures Segments(a + "/" + b) == Segments(a) + Segments(b)
    decreases |a|
  {
    var p := a + "/" + b;
    if a == [] {
      assert p[1..] == b;
    } else if a[0] == '/' {
      assert p[1..] == a[1..] + "/" + b;
      SegmentsConcat(a[1..], b);
    } else {
      var n := NameLen(a);
      assert p == a + ("/" + b);
      PrefixNameLen(a, "/" + b, n);
      ConcatSplit(a, b, n);
      SegmentsConcat(a[n..], b);
    }
  }

  /** Cutting `a/b` inside `a`. */
  lemma ConcatSplit(a: string, b: string, n: nat)
    requires n <= |a|
    ensures (a + "/" + b)[..n] == a[..n]
    ensures (a + "/" + b)[n..] == a[n..] + "/" + b
  {
  }

  lemma PrefixNameLen(a: string, t: string, n: nat)
    requires n == NameLen(a) && |t| > 0 && t[0] == '/'
    ensures NameLen(a + t) == n
  {
    NameLenExact(a + t, n);
  }

  lemma {:induction false} NameLenExact(p: string, n: nat)
    requires n <= |p| && (forall i :: 0 <= i < n ==> p[i] != '/') && (n == |p| || p[n] == '/')
    ensures NameLen(p) == n
    decreases n
  {
    if n > 0 {
      NameLenExact(p[1..], n - 1);
    }
  }

  /** A single element splits into itself. */
  lemma SegmentsOfElement(x: string)
    requires IsElement(x)
    ensures Segments(x) == [x]
  {
    NameLenExact(x, |x|);
    assert x[0] != '/';
    assert x[..|x|] == x && x[|x|..] == [];
  }

  /** Joining names and splitting again gives them back. */
  lemma {:induction false} SegmentsOfJoin(segs: seq<string>)
    requires forall i :: 0 <= i < |segs| ==> IsElement(segs[i])
    ensures Segments(JoinSegs(segs)) == segs
    decreases |segs|
  {
    if |segs| == 1 {
      SegmentsOfElement(segs[0]);
    } else if |segs| > 1 {
      SegmentsConcat(segs[0], JoinSegs(segs[1..]));
      SegmentsOfElement(segs[0]);
      SegmentsOfJoin(segs[1..]);
    }
  }

  lemma {:induction false} JoinConcat(x: seq<string>, y: seq<string>)
    requires x != [] && y != []
    ensures JoinSegs(x + y) == JoinSegs(x) + "/" + JoinSegs(y)
    decreases |x|
  {
    if |x| > 1 {
      assert (x + y)[1..] == x[1..] + y;
      JoinConcat(x[1..], y);
    }
  }

  // ---- Properties of resolution ----

  lemma {:induction false} ResolveConcat(rooted: bool, st: seq<string>, a: seq<string>, b: seq<string>)
    ensures Resolve(rooted, st, a + b) == Resolve(rooted, Resolve(rooted, st, a), b)
    decreases |a|
  {
    if a == [] {
      assert a + b == b;
    } else {
      assert (a + b)[0] == a[0] && (a + b)[1..] == a[1..] + b;
      ResolveConcat(rooted, Step(rooted, st, a[0]), a[1..], b);
    }
  }

  function DropDots(segs: seq<string>): (r: seq<string>)
    ensures forall i :: 0 <= i < |r| ==> r[i] in segs && r[i] != "."
  {
    if segs == [] then []
    else if segs[0] == "." then DropDots(segs[1..])
    else [segs[0]] + DropDots(segs[1..])
  }

  /** Without `..`, resolution only drops `.` and appends. */
  lemma {:induction false} ResolveNoParent(rooted: bool, st: seq<string>, b: seq<string>)
    requires NoParent(b)
    ensures Resolve(rooted, st, b) == st + DropDots(b)
    decreases |b|
  {
    if b != [] {
      ResolveNoParent(rooted, Step(rooted, st, b[0]), b[1..]);
      if b[0] != "." {
        assert st + [b[0]] + DropDots(b[1..]) == st + ([b[0]] + DropDots(b[1..]));
      }
    }
  }

  lemma DropDotsOfNames(segs: seq<string>)
    requires AllNames(segs)
    ensures DropDots(segs) == segs
  {
  }

  /** For a rooted path, what Clean keeps are names only. */
  lemma {:induction false} ResolveRootedNames(st: seq<string>, b: seq<string>)
    requires AllNames(st) && forall i :: 0 <= i < |b| ==> IsElement(b[i])
    ensures AllNames(Resolve(true, st, b))
    decreases |b|
  {
    if b != [] {
      ResolveRootedNames(Step(true, st, b[0]), b[1..]);
    }
  }

  /** Climbing `k` levels from a directory of `|st|` names, with `k >= |st|`, reaches `/`. */
  lemma {:induction false} ResolveClimb(st: seq<string>, k: nat)
    requires AllNames(st) && k >= |st|
    ensures Resolve(true, st, seq(k, _ => "..")) == []
    decreases k
  {
    if k > 0 {
      var ups := seq(k, _ => "..");
      assert ups[0] == ".." && ups[1..] == seq(k - 1, _ => "..");
      ResolveClimb(Step(true, st, ".."), k - 1);
    }
  }

  lemma CleanRootedShape(p: string)
    requires IsRooted(p)
    ensures AllNames(CleanSegs(p)) && Clean(p) == "/" + JoinSegs(CleanSegs(p))
  {
    ResolveRootedNames([], Segments(p));
  }

  /** Cleaning a cleaned absolute path changes nothing. */
  lemma CleanIdempotent(p: string)
    requires IsRooted(p)
    ensures IsRooted(Clean(p)) && CleanSegs(Clean(p)) == CleanSegs(p) && Clean(Clean(p)) == Clean(p)
  {
    var x := CleanSegs(p);
    CleanRootedShape(p);
    var c := Clean(p);
    assert c == "/" + JoinSegs(x);
    assert c == [] + "/" + JoinSegs(x);
    SegmentsConcat([], JoinSegs(x));
    SegmentsOfJoin(x);
    assert Segments(c) == x;
    ResolveNoParent(true, [], x);
    DropDotsOfNames(x);
  }

  /** Abs of the cleaned join of an absolute root and `rel`: the root's names, then those of `rel`. */
  lemma AbsJoin(cwd: string, root: string, rel: string)
    requires IsRooted(root)
    ensures IsRooted(Abs(cwd, Join(root, rel)))
    ensures CleanSegs(Abs(cwd, Join(root, rel))) == Resolve(true, CleanSegs(root), Segments(rel))
    ensures Abs(cwd, Join(root, rel)) == Render(true, Resolve(true, CleanSegs(root), Segments(rel)))
  {
    var p := root + "/" + rel;
    assert IsRooted(p);
    SegmentsConcat(root, rel);
    ResolveConcat(true, [], Segments(root), Segments(rel));
    CleanIdempotent(p);
  }

  /** The elements of an absolute path written from elements. */
  lemma SegmentsOfRender(x: seq<string>)
    requires forall i :: 0 <= i < |x| ==> IsElement(x[i])
    ensures Segments(Render(true, x)) == x
  {
    assert Render(true, x) == [] + "/" + JoinSegs(x);
    SegmentsConcat([], JoinSegs(x));
    SegmentsOfJoin(x);
  }

  /** Writing out more elements extends the written path. */
  lemma PrefixOfRender(x: seq<string>, y: seq<string>)
    ensures HasPrefix(Render(true, x + y), Render(true, x))
  {
    if x != [] && y != [] {
      JoinConcat(x, y);
    } else if y == [] {
      assert x + y == x;
    }
  }

  /**
   * A request path without `..` elements stays inside the root: the absolute
   * joined path is the root's names followed by the request's, so the raw prefix
   * check passes.
   */
  lemma InsideIsConfined(cwd: string, root: string, rel: string)
    requires IsRooted(root) && NoParent(Segments(rel))
    ensures Abs(cwd, Join(root, rel)) == Render(true, CleanSegs(root) + DropDots(Segments(rel)))
    ensures HasPrefix(Abs(cwd, Join(root, rel)), Abs(cwd, root))
    ensures SegmentsWithin(Abs(cwd, Join(root, rel)), Abs(cwd, root))
  {
    var x, y := CleanSegs(root), DropDots(Segments(rel));
    AbsJoin(cwd, root, rel);
    ResolveNoParent(true, x, Segments(rel));
    CleanRootedShape(root);
    assert Abs(cwd, root) == Render(true, x);
    PrefixOfRender(x, y);
    SegmentsOfRender(x);
    SegmentsOfRender(x + y);
    assert (x + y)[..|x|] == x;
  }

  /**
   * Every request that resolves inside the root element by element, `..` elements
   * or not, passes the raw prefix check.
   */
  lemma InsidePasses(cwd: string, root: string, rel: string)
    requires IsRooted(root) && SegmentsWithin(Abs(cwd, Join(root, rel)), Abs(cwd, root))
    ensures HasPrefix(Abs(cwd, Join(root, rel)), Abs(cwd, root))
  {
    var x := CleanSegs(root);
    var r := Resolve(true, x, Segments(rel));
    AbsJoin(cwd, root, rel);
    CleanRootedShape(root);
    ResolveElements(true, x, Segments(rel));
    SegmentsOfRender(x);
    SegmentsOfRender(r);
    assert r == x + r[|x|..];
    PrefixOfRender(x, r[|x|..]);
  }

  /** `k` parent elements, `../../..` */
  function Ups(k: nat): string {
    JoinSegs(seq(k, _ => ".."))
  }

  /**
   * Enough leading `..` elements climb out of the root to `/`: what is left of
   * the request path is then resolved from the filesystem root.
   */
  lemma EscapeToSystemRoot(cwd: string, root: string, k: nat, rest: string)
    requires IsRooted(root) && k >= |CleanSegs(root)| && NoParent(Segments(rest))
    ensures Abs(cwd, Join(root, Ups(k) + "/" + rest)) == Render(true, DropDots(Segments(rest)))
  {
    var ups := seq(k, _ => "..");
    var x, r := CleanSegs(root), Segments(rest);
    AbsJoin(cwd, root, Ups(k) + "/" + rest);
    assert Segments(Ups(k) + "/" + rest) == ups + r by {
      SegmentsConcat(Ups(k), rest);
      SegmentsOfJoin(ups);
    }
    assert Resolve(true, x, ups + r) == DropDots(r) by {
      ResolveConcat(true, x, ups, r);
      CleanRootedShape(root);
      ResolveClimb(x, k);
      ResolveNoParent(true, [], r);
    }
  }

  /** `../sib` from a root with at least one name replaces its last name by `sib`. */
  lemma SiblingResolves(cwd: string, root: string, sib: string)
    requires IsRooted(root) && |CleanSegs(root)| > 0 && IsName(sib)
    ensures var x := CleanSegs(root);
      Abs(cwd, Join(root, "../" + sib)) == Render(true, x[..|x| - 1] + [sib])
    ensures var x := CleanSegs(root);
      Abs(cwd, root) == Render(true, x[..|x| - 1] + [x[|x| - 1]])
  {
    var x := CleanSegs(root);
    var parent := x[..|x| - 1];
    assert Segments("../" + sib) == ["..", sib] by {
      assert "../" + sib == ".." + "/" + sib;
      SegmentsConcat("..", sib);
      SegmentsOfElement("..");
      SegmentsOfElement(sib);
    }
    AbsJoin(cwd, root, "../" + sib);
    CleanRootedShape(root);
    assert Step(true, x, "..") == parent;
    assert ["..", sib][1..] == [sib] && [sib][1..] == [];
    assert Resolve(true, x, ["..", sib]) == Resolve(true, parent, [sib]);
    assert Resolve(true, parent, [sib]) == parent + [sib];
    assert x == parent + [x[|x| - 1]];
  }

  /** Swapping the last name for a longer one that begins with it keeps the old text as a prefix. */
  lemma SiblingTextPrefix(parent: seq<string>, last: string, sib: string)
    requires |last| < |sib| && sib[..|last|] == last
    ensures HasPrefix(Render(true, parent + [sib]), Render(true, parent + [last]))
  {
    if parent != [] {
      JoinConcat(parent, [last]);
      JoinConcat(parent, [sib]);
      var a := "/" + JoinSegs(parent) + "/";
      assert Render(true, parent + [last]) == a + last;
      assert Render(true, parent + [sib]) == a + sib;
      assert (a + sib)[..|a + last|] == a + last;
    } else {
      assert parent + [last] == [last] && parent + [sib] == [sib];
      assert ("/" + sib)[..1 + |last|] == "/" + last;
    }
  }

  /** ... but the new path is not inside the old one, element by element. */
  lemma SiblingOutside(parent: seq<string>, last: string, sib: string)
    requires AllNames(parent) && IsName(last) && IsName(sib) && last != sib
    ensures !SegmentsWithin(Render(true, parent + [sib]), Render(true, parent + [last]))
  {
    SegmentsOfRender(parent + [sib]);
    SegmentsOfRender(parent + [last]);
    assert (parent + [sib])[|parent|] != (parent + [last])[|parent|];
  }

  /**
   * The raw prefix check admits a sibling of the root whose name begins with the
   * root's last name: `../videos-private` from `/srv/videos` resolves to
   * `/srv/videos-private`, which has `/srv/videos` as a string prefix but is not
   * inside it.
   */
  lemma SiblingPassesPrefix(cwd: string, root: string, sib: string)
    requires IsRooted(root) && |CleanSegs(root)| > 0 && IsName(sib)
    requires var last := CleanSegs(root)[|CleanSegs(root)| - 1]; |last| < |sib| && sib[..|last|] == last
    ensures var x := CleanSegs(root);
      Abs(cwd, Join(root, "../" + sib)) == Render(true, x[..|x| - 1] + [sib])
    ensures HasPrefix(Abs(cwd, Join(root, "../" + sib)), Abs(cwd, root))
    ensures !SegmentsWithin(Abs(cwd, Join(root, "../" + sib)), Abs(cwd, root))
  {
    var x := CleanSegs(root);
    var parent, last := x[..|x| - 1], x[|x| - 1];
    SiblingResolves(cwd, root, sib);
    SiblingTextPrefix(parent, last, sib);
    CleanRootedShape(root);
    assert AllNames(parent) && IsName(last);
    SiblingOutside(parent, last, sib);
  }
}
