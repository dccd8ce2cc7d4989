/**
 * The request handlers of the video server (vs.go:39-166): confinement of the
 * request path to the served directory, the 403/404 dispatch, the full-file
 * response and the byte-range response.
 */
module VideoServer {
  import opened Wrappers
  import opened Decimal
  import opened Http
  import opened RangeHeader
  import opened Streaming
  import opened Paths

  /** The configuration of vs.go:17-27; NewVideoServer is this constructor. */
  datatype Server = Server(port: string, videoDir: string)

  /** A GET request: the URL path and the value of its `Range` header ("" when there is none). */
  datatype Request = Request(path: string, range: string)

  /** A file size as os.FileInfo.Size reports it, an int64. */
  type FileSize = n: nat | n <= MaxInt64

  /**
   * What the filesystem holds at a path. For a regular file, `size` is what
   * os.Stat reports and `content` what reading it after os.Open delivers (None
   * when os.Open fails); the two disagree only if the file changes in between.
   */
  datatype FileEntry =
    | Absent                   // os.Stat: not exist
    | StatFailed               // os.Stat fails otherwise (permission denied, a file used as a directory)
    | Directory
    | Regular(size: FileSize, content: Option<seq<byte>>)

  type FileSystem = map<string, FileEntry>

  function Stat(fs: FileSystem, p: string): FileEntry {
    if p in fs then fs[p] else Absent
  }

  /** The outcome of handleRequest. */
  datatype Reply =
    | Respond(response: Response)
    | ListDirectory            // handed to listFiles, which is not part of this model
    | Panic                    // a nil FileInfo was dereferenced; net/http drops the connection

  const DefaultMimeType: string := "application/octet-stream"

  /**
   * Content-Type of a served file (vs.go:65-68): mime.TypeByExtension, given as the
   * table `types` from extension to type, with the octet-stream fallback.
   */
  function ContentType(types: map<string, string>, path: string): (t: string)
    ensures t != ""
    ensures t == DefaultMimeType || (Ext(path) in types && t == types[Ext(path)])
    ensures Ext(path) in types && types[Ext(path)] != "" ==> t == types[Ext(path)]
  {
    var ext := Ext(path);
    if ext in types && types[ext] != "" then types[ext] else DefaultMimeType
  }

  /** The path handleRequest opens (vs.go:41-42). */
  function FullPath(vs: Server, urlPath: string): (r: string)
    ensures IsRooted(vs.videoDir) ==> IsRooted(r)
    ensures r == "" <==> vs.videoDir == "" && TrimPrefix(urlPath, "/") == ""
  {
    Join(vs.videoDir, TrimPrefix(urlPath, "/"))
  }

  /** The traversal check of vs.go:45-47: the absolute root is a string prefix of the absolute path. */
  predicate Confined(vs: Server, cwd: string, urlPath: string) {
    HasPrefix(Abs(cwd, FullPath(vs, urlPath)), Abs(cwd, vs.videoDir))
  }

  /**
   * For an absolute root, the path opened is the root's cleaned elements with the
   * request's elements resolved onto them, whatever the working directory, and the
   * check compares its text with the cleaned root's.
   */
  lemma FullPathResolved(vs: Server, cwd: string, urlPath: string)
    requires IsRooted(vs.videoDir)
    ensures FullPath(vs, urlPath) == Render(true, Resolve(true, CleanSegs(vs.videoDir), Segments(urlPath)))
    ensures Abs(cwd, FullPath(vs, urlPath)) == FullPath(vs, urlPath)
    ensures Confined(vs, cwd, urlPath) <==> HasPrefix(FullPath(vs, urlPath), Clean(vs.videoDir))
  {
    var rel := TrimPrefix(urlPath, "/");
    assert Segments(rel) == Segments(urlPath);
    AbsJoin(cwd, vs.videoDir, rel);
    CleanIdempotent(vs.videoDir + "/" + rel);
  }

  /** The headers handleRequest sets before it looks at the `Range` header (vs.go:71-72). */
  function BaseHeader(mimeType: string): Header {
    map[]["Content-Type" := mimeType]["Accept-Ranges" := "bytes"]
  }

  /**
   * What handleRangeRequest sends, given the headers already set: 400 for a
   * header the expression does not match or whose numbers overflow, 416 with
   * UnsatisfiedRange as Content-Range for a window outside the file, otherwise 206 with the window's
   * Content-Range and Content-Length and the window's bytes as body.
   */
  ghost predicate IsRangeResponse(h: Header, size: FileSize, content: Option<seq<byte>>, rangeHeader: string, r: Response) {
    match PlanRange(rangeHeader, size)
    case Malformed(e) => r == Error(h, Message(e), StatusBadRequest)
    case Unsatisfiable =>
      r == Error(h["Content-Range" := UnsatisfiedRange(size)], "Range not satisfiable", StatusRequestedRangeNotSatisfiable)
    case Partial(s, e) =>
      var len := ContentLength(s, e, size);
      && r.status == StatusPartialContent
      && r.header == h["Content-Range" := ContentRange(s, e, size)]["Content-Length" := Format(len)]
      && (content.Some? ==> r.body == Window(content.value, s, len))
      && (content.None? ==> r.body == ErrorBody("Error opening file"))
  }

  /** 400 exactly for a header that does not parse; no Content-Range is added. */
  lemma RefusedResponse(h: Header, size: FileSize, content: Option<seq<byte>>, rangeHeader: string, r: Response)
    requires IsRangeResponse(h, size, content, rangeHeader, r)
    ensures r.status == StatusBadRequest <==> ParseRange(rangeHeader).Err?
    ensures r.status == StatusBadRequest ==> "Content-Range" !in h ==> "Content-Range" !in r.header
  {
    match PlanRange(rangeHeader, size)
    case Malformed(e) =>
      assert r == Error(h, Message(e), StatusBadRequest);
    case Unsatisfiable =>
      assert r.status == StatusRequestedRangeNotSatisfiable;
    case Partial(_, _) =>
      assert r.status == StatusPartialContent;
  }

  /** 416 exactly for a parsed window outside the file, with UnsatisfiedRange as Content-Range. */
  lemma UnsatisfiedResponse(h: Header, size: FileSize, content: Option<seq<byte>>, rangeHeader: string, r: Response)
    requires IsRangeResponse(h, size, content, rangeHeader, r)
    ensures r.status == StatusRequestedRangeNotSatisfiable <==>
      ParseRange(rangeHeader).Ok? && !Satisfiable(ParseRange(rangeHeader).value.start, EffectiveEnd(ParseRange(rangeHeader).value, size), size)
    ensures r.status == StatusRequestedRangeNotSatisfiable ==>
      "Content-Range" in r.header && r.header["Content-Range"] == UnsatisfiedRange(size)
  {
    match PlanRange(rangeHeader, size)
    case Malformed(e) =>
      assert r.status == StatusBadRequest;
    case Unsatisfiable =>
      assert r == Error(h["Content-Range" := UnsatisfiedRange(size)], "Range not satisfiable", StatusRequestedRangeNotSatisfiable);
    case Partial(_, _) =>
      assert r.status == StatusPartialContent;
  }

  /**
   * 206 exactly for a window inside the file, with its Content-Range and
   * Content-Length, and its bytes when the file is as large as os.Stat said.
   */
  lemma PartialResponse(h: Header, size: FileSize, content: Option<seq<byte>>, rangeHeader: string, r: Response)
    requires IsRangeResponse(h, size, content, rangeHeader, r)
    ensures r.status == StatusPartialContent <==> PlanRange(rangeHeader, size).Partial?
    ensures r.status == StatusPartialContent ==>
      var p := PlanRange(rangeHeader, size);
      && "Content-Range" in r.header && r.header["Content-Range"] == ContentRange(p.start, p.end, size)
      && "Content-Length" in r.header && r.header["Content-Length"] == Format(ContentLength(p.start, p.end, size))
      && (content.Some? && |content.value| >= size ==> r.body == content.value[p.start..p.end + 1])
  {
    match PlanRange(rangeHeader, size)
    case Malformed(e) =>
      assert r.status == StatusBadRequest;
    case Unsatisfiable =>
      assert r.status == StatusRequestedRangeNotSatisfiable;
    case Partial(s, e) =>
      PartialFraming(h, size, content, s, e, r);
  }

  /** The headers and body of a 206 for the window from `s` to `e`. */
  lemma PartialFraming(h: Header, size: FileSize, content: Option<seq<byte>>, s: nat, e: nat, r: Response)
    requires s <= e < size
    requires r.header == h["Content-Range" := ContentRange(s, e, size)]["Content-Length" := Format(ContentLength(s, e, size))]
    requires content.Some? ==> r.body == Window(content.value, s, ContentLength(s, e, size))
    ensures "Content-Range" in r.header && r.header["Content-Range"] == ContentRange(s, e, size)
    ensures "Content-Length" in r.header && r.header["Content-Length"] == Format(ContentLength(s, e, size))
    ensures content.Some? && |content.value| >= size ==> r.body == content.value[s..e + 1]
  {
  }

  /**
   * handleRangeRequest (vs.go:93-166) on the headers `h` set so far, the size
   * os.Stat reported and the file as os.Open and its reads see it.
   */
  method HandleRangeRequest(h: Header, size: FileSize, content: Option<seq<byte>>, rangeHeader: string)
    returns (r: Response)
    ensures IsRangeResponse(h, size, content, rangeHeader, r)
  {
    var plan := PlanRange(rangeHeader, size);
    match plan {
      case Malformed(e) =>
        r := Error(h, Message(e), StatusBadRequest);
      case Unsatisfiable =>
        var h' := h["Content-Range" := UnsatisfiedRange(size)];
        r := Error(h', "Range not satisfiable", StatusRequestedRangeNotSatisfiable);
      case Partial(s, e) =>
        var len := ContentLength(s, e, size);
        var h' := h["Content-Range" := ContentRange(s, e, size)];
        h' := h'["Content-Length" := Format(len)];
        // w.WriteHeader(206): from here on status and headers are fixed.
        match content {
          case None =>
            // http.Error after WriteHeader can only append its message to the body.
            r := Response(StatusPartialContent, h', ErrorBody("Error opening file"));
          case Some(data) =>
            var body, _, _, _ := StreamRange(data, s, len);
            r := Response(StatusPartialContent, h', body);
        }
    }
  }

  /**
   * handleRequest (vs.go:39-91) for server `vs` in working directory `cwd`, with
   * the filesystem `fs` and the extension table `types`.
   */
  method HandleRequest(vs: Server, cwd: string, fs: FileSystem, types: map<string, string>, req: Request)
    returns (reply: Reply)
    ensures !Confined(vs, cwd, req.path) ==> reply == Respond(Error(map[], "Access denied", StatusForbidden))
    ensures Confined(vs, cwd, req.path) && Stat(fs, FullPath(vs, req.path)) in {Absent, Directory} ==>
      reply == if req.path == "/" then ListDirectory else Respond(Error(map[], "File not found", StatusNotFound))
    ensures Confined(vs, cwd, req.path) && Stat(fs, FullPath(vs, req.path)) == StatFailed ==> reply == Panic
    ensures Confined(vs, cwd, req.path) && Stat(fs, FullPath(vs, req.path)).Regular? ==>
      var entry := Stat(fs, FullPath(vs, req.path));
      var h := BaseHeader(ContentType(types, FullPath(vs, req.path)));
      && reply.Respond?
      && (req.range == "" && entry.content.Some? ==>
            reply.response == Response(StatusOK, h["Content-Length" := Format(entry.size)], entry.content.value))
      && (req.range == "" && entry.content.None? ==>
            reply.response == Error(h["Content-Length" := Format(entry.size)], "Error opening file", StatusInternalServerError))
      && (req.range != "" ==> IsRangeResponse(h, entry.size, entry.content, req.range, reply.response))
  {
    var fullPath := FullPath(vs, req.path);
    var header: Header := map[];
    if !HasPrefix(Abs(cwd, fullPath), Abs(cwd, vs.videoDir)) {
      return Respond(Error(header, "Access denied", StatusForbidden));
    }
    var entry := Stat(fs, fullPath);
    match entry {
      case StatFailed =>
        reply := Panic;
      case Absent =>
        reply := if req.path == "/" then ListDirectory else Respond(Error(header, "File not found", StatusNotFound));
      case Directory =>
        reply := if req.path == "/" then ListDirectory else Respond(Error(header, "File not found", StatusNotFound));
      case Regular(size, content) =>
        var mimeType := ContentType(types, fullPath);
        header := header["Content-Type" := mimeType];
        header := header["Accept-Ranges" := "bytes"];
        assert header == BaseHeader(mimeType);
        if req.range != "" {
          var r := HandleRangeRequest(header, size, content, req.range);
          reply := Respond(r);
        } else {
          header := header["Content-Length" := Format(size)];
          assert header == BaseHeader(mimeType)["Content-Length" := Format(size)];
          match content {
            case None =>
              reply := Respond(Error(header, "Error opening file", StatusInternalServerError));
            case Some(data) =>
              // io.Copy(w, file): the first write sends status 200 with the headers.
              reply := Respond(Response(StatusOK, header, data));
          }
        }
    }
  }

  /** A request path without `..` elements is never refused as a traversal, and names the expected file. */
  lemma ConfinedWithoutParent(vs: Server, cwd: string, urlPath: string)
    requires IsRooted(vs.videoDir) && NoParent(Segments(urlPath))
    ensures Confined(vs, cwd, urlPath)
    ensures Abs(cwd, FullPath(vs, urlPath)) == Render(true, CleanSegs(vs.videoDir) + DropDots(Segments(urlPath)))
  {
    assert Segments(TrimPrefix(urlPath, "/")) == Segments(urlPath);
    InsideIsConfined(cwd, vs.videoDir, TrimPrefix(urlPath, "/"));
  }

  /**
   * For an absolute root, every request whose opened path lies inside the root
   * element by element passes the check, whatever `..` elements it contains.
   */
  lemma InsideRootConfined(vs: Server, cwd: string, urlPath: string)
    requires IsRooted(vs.videoDir)
    requires SegmentsWithin(Abs(cwd, FullPath(vs, urlPath)), Abs(cwd, vs.videoDir))
    ensures Confined(vs, cwd, urlPath)
  {
    InsidePasses(cwd, vs.videoDir, TrimPrefix(urlPath, "/"));
  }

  // The cases of the repository's tests. The tests serve a fresh temporary
  // directory, so the path cases are stated for any absolute root.

  /** The elements of `/a/b` for two names. */
  lemma TwoElements(a: string, b: string)
    requires IsElement(a) && IsElement(b)
    ensures Segments(a + "/" + b) == [a, b]
    ensures Segments("/" + a + "/" + b) == [a, b]
  {
    SegmentsConcat(a, b);
    SegmentsOfElement(a);
    SegmentsOfElement(b);
    assert "/" + a + "/" + b == "" + "/" + (a + "/" + b);
    SegmentsConcat("", a + "/" + b);
  }

  /**
   * A request made of `k` parent elements and then `a/b`, from a root at most
   * `k` levels deep, resolves to `/a/b` and so is refused with 403 unless the
   * root's own text is a prefix of `/a/b`.
   */
  lemma ClimbOut(port: string, cwd: string, root: string, k: nat, a: string, b: string)
    requires IsRooted(root) && |CleanSegs(root)| <= k && IsName(a) && IsName(b)
    ensures Abs(cwd, FullPath(Server(port, root), "/" + Ups(k) + "/" + a + "/" + b)) == "/" + a + "/" + b
    ensures Confined(Server(port, root), cwd, "/" + Ups(k) + "/" + a + "/" + b) <==> HasPrefix("/" + a + "/" + b, Clean(root))
  {
    var rest := a + "/" + b;
    var x := Ups(k) + "/" + rest;
    assert "/" + Ups(k) + "/" + a + "/" + b == "/" + x;
    TrimSlash(x);
    NamesPath(a, b);
    EscapeToSystemRoot(cwd, root, k, rest);
  }

  lemma TrimSlash(x: string)
    ensures TrimPrefix("/" + x, "/") == x
  {
    assert ("/" + x)[..1] == "/";
  }

  /** `a/b` for two names has no `..` and resolves from `/` to `/a/b`. */
  lemma NamesPath(a: string, b: string)
    requires IsName(a) && IsName(b)
    ensures NoParent(Segments(a + "/" + b))
    ensures Render(true, DropDots(Segments(a + "/" + b))) == "/" + a + "/" + b
  {
    assert Segments(a + "/" + b) == [a, b] by {
      TwoElements(a, b);
    }
    assert DropDots([a, b]) == [a, b] by {
      DropDotsOfNames([a, b]);
    }
    assert Render(true, [a, b]) == "/" + a + "/" + b by {
      RenderTwo(a, b);
    }
    assert NoParent([a, b]);
  }

  lemma RenderTwo(a: string, b: string)
    ensures Render(true, [a, b]) == "/" + a + "/" + b
  {
    assert [a, b][1..] == [b];
    assert JoinSegs([a, b]) == a + "/" + b;
    assert "/" + (a + "/" + b) == "/" + a + "/" + b;
  }

  lemma ThreeUps()
    ensures Ups(3) == "../../.."
  {
    assert seq(3, _ => "..") == ["..", "..", ".."];
    assert JoinSegs([".."]) == "..";
    assert JoinSegs(["..", ".."]) == "../..";
  }

  /**
   * `/../../../etc/passwd` from a root at most three levels deep (a temporary
   * directory such as /tmp/TestX/001) resolves to /etc/passwd and so is refused
   * with 403 unless the root's own text is a prefix of "/etc/passwd".
   */
  lemma TraversalFromShallowRoot(port: string, cwd: string, root: string)
    requires IsRooted(root) && |CleanSegs(root)| <= 3
    ensures Abs(cwd, FullPath(Server(port, root), "/../../../etc/passwd")) == "/etc/passwd"
    ensures Confined(Server(port, root), cwd, "/../../../etc/passwd") <==> HasPrefix("/etc/passwd", Clean(root))
  {
    ThreeUps();
    assert "/../../../etc/passwd" == "/" + Ups(3) + "/" + "etc" + "/" + "passwd";
    assert "/etc/passwd" == "/" + "etc" + "/" + "passwd";
    ClimbOut(port, cwd, root, 3, "etc", "passwd");
  }

  /** A request `/a/b` for two names is inside any absolute root and names `a/b` below it. */
  lemma TwoNamesConfined(port: string, cwd: string, root: string, a: string, b: string)
    requires IsRooted(root) && IsName(a) && IsName(b)
    ensures Confined(Server(port, root), cwd, "/" + a + "/" + b)
    ensures Abs(cwd, FullPath(Server(port, root), "/" + a + "/" + b)) == Render(true, CleanSegs(root) + [a, b])
  {
    TwoElements(a, b);
    assert NoParent([a, b]);
    DropDotsOfNames([a, b]);
    ConfinedWithoutParent(Server(port, root), cwd, "/" + a + "/" + b);
  }

  /** `/subdir/sub.mkv` is inside any absolute root and names `subdir/sub.mkv` below it. */
  lemma SubdirectoryConfined(port: string, cwd: string, root: string)
    requires IsRooted(root)
    ensures Confined(Server(port, root), cwd, "/subdir/sub.mkv")
    ensures Abs(cwd, FullPath(Server(port, root), "/subdir/sub.mkv")) == Render(true, CleanSegs(root) + ["subdir", "sub.mkv"])
  {
    assert "/subdir/sub.mkv" == "/" + "subdir" + "/" + "sub.mkv";
    TwoNamesConfined(port, cwd, root, "subdir", "sub.mkv");
  }

  /** A request of one name is inside any absolute root and names it below the root. */
  lemma OneNameConfined(port: string, cwd: string, root: string, a: string)
    requires IsRooted(root) && IsName(a)
    ensures Confined(Server(port, root), cwd, "/" + a)
    ensures Abs(cwd, FullPath(Server(port, root), "/" + a)) == Render(true, CleanSegs(root) + [a])
  {
    assert Segments("/" + a) == [a] by {
      assert "/" + a == "" + "/" + a;
      SegmentsConcat("", a);
      SegmentsOfElement(a);
    }
    assert NoParent([a]) && DropDots([a]) == [a];
    ConfinedWithoutParent(Server(port, root), cwd, "/" + a);
  }

  /** `/a//b//c/d` for four names, doubled separators and all, is inside any absolute root. */
  lemma FourNamesConfined(port: string, cwd: string, root: string, a: string, b: string, c: string, d: string)
    requires IsRooted(root) && IsName(a) && IsName(b) && IsName(c) && IsName(d)
    ensures var p := "/" + (a + "/" + ("/" + (b + "/" + ("/" + (c + "/" + d)))));
      && Confined(Server(port, root), cwd, p)
      && Abs(cwd, FullPath(Server(port, root), p)) == Render(true, CleanSegs(root) + [a, b, c, d])
  {
    var p := "/" + (a + "/" + ("/" + (b + "/" + ("/" + (c + "/" + d)))));
    var segs := [a, b, c, d];
    assert Segments(p) == segs by {
      FourSegments(a, b, c, d);
    }
    assert NoParent(segs) && DropDots(segs) == segs by {
      assert AllNames(segs);
      DropDotsOfNames(segs);
    }
    ConfinedWithoutParent(Server(port, root), cwd, p);
  }

  lemma FourSegments(a: string, b: string, c: string, d: string)
    requires IsName(a) && IsName(b) && IsName(c) && IsName(d)
    ensures Segments("/" + (a + "/" + ("/" + (b + "/" + ("/" + (c + "/" + d)))))) == [a, b, c, d]
  {
    var cd := "/" + (c + "/" + d);
    assert Segments(cd) == [c, d] by {
      LeadingSlash(c + "/" + d);
      NameThen(c, d);
      SegmentsOfElement(d);
    }
    var bcd := "/" + (b + "/" + cd);
    assert Segments(bcd) == [b, c, d] by {
      LeadingSlash(b + "/" + cd);
      NameThen(b, cd);
    }
    LeadingSlash(a + "/" + bcd);
    NameThen(a, bcd);
  }

  lemma LeadingSlash(x: string)
    ensures Segments("/" + x) == Segments(x)
  {
    assert ("/" + x)[1..] == x;
  }

  lemma NameThen(a: string, x: string)
    requires IsName(a)
    ensures Segments(a + "/" + x) == [a] + Segments(x)
  {
    SegmentsConcat(a, x);
    SegmentsOfElement(a);
  }

  /** `/....//....//etc/passwd` has no `..` element, so it stays inside any absolute root. */
  lemma DottedNamesConfined(port: string, cwd: string, root: string)
    requires IsRooted(root)
    ensures Confined(Server(port, root), cwd, "/....//....//etc/passwd")
    ensures Abs(cwd, FullPath(Server(port, root), "/....//....//etc/passwd")) ==
      Render(true, CleanSegs(root) + ["....", "....", "etc", "passwd"])
  {
    assert "/....//....//etc/passwd" == "/" + ("...." + "/" + ("/" + ("...." + "/" + ("/" + ("etc" + "/" + "passwd")))));
    DottedNames();
    FourNamesConfined(port, cwd, root, "....", "....", "etc", "passwd");
  }

  lemma DottedNames()
    ensures IsName("....") && IsName("etc") && IsName("passwd")
  {
  }

  /** On Unix a backslash is an ordinary character: `/..\\..\\windows\\system32\\config\\sam` is one name inside the root. */
  lemma BackslashNameConfined(port: string, cwd: string, root: string)
    requires IsRooted(root)
    ensures Confined(Server(port, root), cwd, "/..\\..\\windows\\system32\\config\\sam")
    ensures Abs(cwd, FullPath(Server(port, root), "/..\\..\\windows\\system32\\config\\sam")) ==
      Render(true, CleanSegs(root) + ["..\\..\\windows\\system32\\config\\sam"])
  {
    var name := "..\\..\\windows\\system32\\config\\sam";
    assert "/..\\..\\windows\\system32\\config\\sam" == "/" + name;
    BackslashName();
    OneNameConfined(port, cwd, root, name);
  }

  lemma BackslashName()
    ensures IsName("..\\..\\windows\\system32\\config\\sam")
  {
  }

  /**
   * The check compares strings, not path elements: from a root whose last
   * element is `videos`, `/../videos-private` reaches the sibling directory and
   * still passes.
   */
  lemma SiblingAdmitted(port: string, cwd: string, root: string)
    requires IsRooted(root) && |CleanSegs(root)| > 0 && CleanSegs(root)[|CleanSegs(root)| - 1] == "videos"
    ensures Confined(Server(port, root), cwd, "/../videos-private")
    ensures !SegmentsWithin(Abs(cwd, FullPath(Server(port, root), "/../videos-private")), Abs(cwd, root))
  {
    assert TrimPrefix("/../videos-private", "/") == "../" + "videos-private";
    assert "videos-private"[..|"videos"|] == "videos";
    SiblingPassesPrefix(cwd, root, "videos-private");
  }

  /** With the whole file readable, a satisfiable `bytes=S-E` is answered 206 with exactly bytes S..E. */
  lemma PartialContentServed(h: Header, size: FileSize, data: seq<byte>, start: nat, end: nat, r: Response)
    requires start <= end < size && |data| == size
    requires IsRangeResponse(h, size, Some(data), RangeRequestHeader(start, Some(end)), r)
    ensures r.status == StatusPartialContent
    ensures r.header == h["Content-Range" := ContentRange(start, end, size)]["Content-Length" := Format(end - start + 1)]
    ensures r.body == data[start..end + 1] && |r.body| == end - start + 1
  {
    PlanRoundTrip(start, end, size);
  }

  /** `bytes=S-` is answered 206 with every byte from S to the end of the file. */
  lemma OpenEndedServed(h: Header, size: FileSize, data: seq<byte>, start: nat, r: Response)
    requires start < size && |data| == size
    requires IsRangeResponse(h, size, Some(data), RangeRequestHeader(start, None), r)
    ensures r.status == StatusPartialContent
    ensures r.header == h["Content-Range" := ContentRange(start, size - 1, size)]["Content-Length" := Format(size - start)]
    ensures r.body == data[start..]
  {
    PlanOpenEnded(start, size);
  }

  /** A well-formed window outside the file is answered 416 with `Content-Range: bytes *` and the size. */
  lemma UnsatisfiableServed(h: Header, size: FileSize, content: Option<seq<byte>>, start: nat, end: nat, r: Response)
    requires start <= MaxInt64 && end <= MaxInt64 && !Satisfiable(start, end, size)
    requires IsRangeResponse(h, size, content, RangeRequestHeader(start, Some(end)), r)
    ensures r == Error(h["Content-Range" := UnsatisfiedRange(size)], "Range not satisfiable", StatusRequestedRangeNotSatisfiable)
  {
    PlanRefused(start, end, size);
  }

  /** A header with no `-` at all (`bytes=invalid`) is answered 400 without Content-Range or file bytes. */
  lemma MalformedServed(h: Header, size: FileSize, content: Option<seq<byte>>, rangeHeader: string, r: Response)
    requires forall i :: 0 <= i < |rangeHeader| ==> rangeHeader[i] != '-'
    requires IsRangeResponse(h, size, content, rangeHeader, r)
    ensures r == Error(h, "Invalid range header", StatusBadRequest)
    ensures "Content-Range" !in h ==> "Content-Range" !in r.header
  {
    NoDashNoMatch(rangeHeader, size);
  }

  /** The 43-byte file of the tests. */
  function TestFile(): seq<byte> {
    Bytes("fake " + "mkv conten" + "t for testing range requests")
  }

  /** The bytes of the middle piece of a text are the middle piece of its bytes. */
  lemma BytesOfParts(a: string, b: string, c: string)
    ensures Bytes(a + b + c)[|a|..|a| + |b|] == Bytes(b)
    ensures Bytes(a + b + c)[|a|..] == Bytes(b + c)
  {
    assert (a + b + c)[|a|..|a| + |b|] == b;
    assert (a + b + c)[|a|..] == b + c;
    BytesSlice(a + b + c, |a|, |a| + |b|);
    BytesSlice(a + b + c, |a|, |a + b + c|);
  }

  /** `bytes=5-14` on any 43-byte file gives 206, `bytes 5-14/43`, Content-Length 10 and bytes 5 to 14. */
  lemma ExampleValidRange(h: Header, data: seq<byte>, r: Response)
    requires |data| == 43
    requires IsRangeResponse(h, 43, Some(data), "bytes=5-14", r)
    ensures r.status == StatusPartialContent
    ensures r.header == h["Content-Range" := "bytes 5-14/43"]["Content-Length" := "10"]
    ensures r.body == data[5..15]
  {
    ExampleWindowHeader();
    ExampleWindow();
    ExampleWindowFraming();
    PartialContentServed(h, 43, data, 5, 14, r);
  }

  /** On the test file those ten bytes are "mkv conten". */
  lemma ExampleValidRangeBody()
    ensures TestFile()[5..15] == Bytes("mkv conten")
  {
    BytesOfParts("fake ", "mkv conten", "t for testing range requests");
  }

  /** `bytes=5-` on any 43-byte file gives every byte from the sixth on. */
  lemma ExampleOpenEndedRange(h: Header, data: seq<byte>, r: Response)
    requires |data| == 43
    requires IsRangeResponse(h, 43, Some(data), "bytes=5-", r)
    ensures r.status == StatusPartialContent
    ensures r.header == h["Content-Range" := "bytes 5-42/43"]["Content-Length" := "38"]
    ensures r.body == data[5..]
  {
    ExampleOpenEnded();
    ExampleOpenEndedFraming();
    OpenEndedServed(h, 43, data, 5, r);
  }

  /** On the test file that is everything after "fake ". */
  lemma ExampleOpenEndedRangeBody()
    ensures TestFile()[5..] == Bytes("mkv conten" + "t for testing range requests")
  {
    BytesOfParts("fake ", "mkv conten", "t for testing range requests");
  }
}
