# Video streaming server: byte ranges and path confinement

A Dafny model of the request handling of a small Go video server (`vs.go`).
The server serves files below one root directory over HTTP. It supports the
`Range` header, so a video player can seek.

The model covers four parts:

- **Range header parsing.** The unanchored regular expression `bytes=(\d+)-(\d*)` is modelled with Go's leftmost-first semantics: the leftmost position where it matches, the greedy digit groups, and strconv.ParseInt of both groups as int64 with overflow as an error. An empty second group means the last byte of the file.
- **Validation and framing.** The satisfiability test and the 416 answer with `Content-Range: bytes */N`. For an accepted window, the 206 answer carries `Content-Range: bytes S-E/N` and `Content-Length: E-S+1`.
- **The streaming loop.** After the seek, the window is copied in pieces of at most 1 MiB with io.CopyN until nothing remains or a copy delivers nothing.
- **Dispatch in handleRequest.**
  - The confinement check compares the absolute joined path with the absolute root as a raw string prefix (403).
  - A missing entry or a directory gives 404, except for `/`, which goes to the listing.
  - An os.Stat error other than not-exist gives a nil-pointer panic.
  - The MIME type falls back to `application/octet-stream`.
  - A request without a Range header gets the whole file, with Content-Length set to the size.

The modules follow the structure of the program:

- `wrappers.dfy`: Option and Result.
- `decimal.dfy`: the `\d` class, the decimal value of a digit string, strconv.FormatInt / `%d`, and strconv.ParseInt with int64 overflow.
- `http.dfy`: a response as a value with status, sent header map and body bytes. Also http.Error as net/http has it since Go 1.23, which drops Content-Length, sets a plain-text Content-Type and nosniff, and writes the message and a newline. Earlier releases keep Content-Length.
- `range_header.dfy`: the regular expression, ParseRange, PlanRange (the decision 400 / 416 / 206) and the header strings.
- `streaming.dfy`: the copy loop, as a method with loop invariants. It is proved against `Window`, the bytes of the file from the start offset.
- `paths.dfy`: Go's lexical filepath.Clean / Join / Abs on Unix paths, strings.TrimPrefix, strings.HasPrefix and filepath.Ext.
- `server.dfy`: handleRangeRequest and handleRequest as methods, their specification `IsRangeResponse`, and the lemmas about both. This includes the cases the repository's tests check.

### Decisions and assumptions

- **The filesystem is a parameter.** It is a map from path to entry:
  - absent;
  - stat failed;
  - directory;
  - regular file, holding the size os.Stat reports and the bytes reads deliver after os.Open (none when os.Open fails).
- **Other inputs are parameters too.** The working directory (for filepath.Abs) and the MIME table (for mime.TypeByExtension) are given to handleRequest.
- **A failed open after the 206 has been committed.** If os.Open fails in handleRangeRequest, WriteHeader(206) has already fixed the status and the header map. The http.Error call then only appends `Error opening file` and a newline to the body, and the model says exactly that.
- **A file that changes between Stat and the reads.** If the file shrank so that it ends before the window does, the body is shorter than Content-Length, because io.CopyN stops at the end of the file. Otherwise the body is exactly Content-Length bytes. `Window` captures both cases.
- **Text in bytes.** Every text the handlers write is ASCII. `Bytes` turns it into one byte per character.
- **The test file is 43 bytes.** The tests' `test.mkv` holds "fake mkv content for testing range requests", which is 43 bytes. So the examples use 43, and `bytes=5-` there gives bytes 5 through 42.
- **The confinement check follows the code.** Confinement would mean that the root's elements are the first elements of the resolved path (`SegmentsWithin`). The code instead compares raw strings with strings.HasPrefix, and the model follows the code.
  - `Confined` is that raw comparison.
  - `SiblingPassesPrefix` and `SiblingAdmitted` show what the difference means. `/../videos-private`, from a root ending in `videos`, resolves to the neighbouring directory `videos-private`. That path passes the check but is not inside the root.
  - `InsidePasses` and `InsideRootConfined` prove the direction that holds: every request that resolves inside the root element by element passes the check, `..` elements or not (`/subdir/../test.mkv`, say).
  - `InsideIsConfined` adds that a request without `..` elements always resolves inside the root.

## Model

| member | source | states |
|---|---|---|
| Decimal.Format | vs.go:130-131 | the decimal text of a number is a non-empty digit string without a leading zero (except "0") |
| Decimal.ValueOfFormat | vs.go:103 | reading back the formatted text of `n` gives `n` |
| Decimal.FormatOfValue | vs.go:130 | a digit string without leading zeros is the formatted text of its value |
| Decimal.ParseInt64 | vs.go:103-107 | strconv.ParseInt on a digit string succeeds exactly when the value fits in an int64, and then returns that value |
| Decimal.Accumulate | vs.go:103-107 | the digit-by-digit accumulation with the int64 cutoff, continued from the value of a prefix, fails exactly when the whole string's value exceeds an int64 and otherwise ends with that value |
| Decimal.ParseFormatRoundTrip | vs.go:103-107 | parsing a formatted number gives it back when it fits in an int64 and fails otherwise |
| Http.ErrorBodyText | vs.go:48 | the body http.Error writes is the message's bytes followed by the single newline byte, one byte longer than the message |
| Http.ErrorHeaders | vs.go:122-123 | http.Error (Go 1.23 and later) removes Content-Length, sets the plain-text Content-Type and nosniff, keeps every other header already set (such as Content-Range), and adds none |
| Streaming.CopyCount | vs.go:155 | io.CopyN copies at most the requested count; it copies fewer only at the end of the file, and nothing after it |
| Streaming.Window | vs.go:143-165 | the bytes from the start offset on, at most the window's length; exactly the slice when the file is long enough |
| Streaming.ReadStep | vs.go:155-161 | a copy at the current offset extends the bytes written by exactly the bytes of the file there; a copy that delivers nothing means the window cannot grow any more |
| Streaming.TraceAppend | vs.go:149-155 | one more io.CopyN call that asks for at most 1 MiB and for what remains keeps the whole call trace within those bounds |
| Streaming.StepKeepsProgress | vs.go:150-164 | one turn of the loop keeps the invariant: `remaining` does not go below zero, the body is the window up to the bytes counted, and the call asked for min(1 MiB, remaining) |
| Streaming.StreamRange | vs.go:143-165 | the loop's body is the window of the file from the start, so exactly `data[start..start+len]` when the file is long enough; the bytes written add up to `len - remaining`; every call asked for at least 1 byte and at most min(1 MiB, remaining) and got no more; only the last call can return 0; the loop stops with `remaining` 0 or after a call that returned 0 |
| RangeHeader.DigitRun | vs.go:95 | the greedy `\d*`: the longest run of digits at a position |
| RangeHeader.MatchAt | vs.go:95-96 | any match found at a position is `bytes=`, a non-empty digit group, `-` and a digit group, with no digit after it |
| RangeHeader.MatchAtComplete | vs.go:95-96 | the leftmost-first (greedy) match of the expression at a position is the one MatchAt returns: any captures that satisfy the piecewise match there are MatchAt's |
| RangeHeader.MatchesAtText | vs.go:95 | a match at a position is exactly the text `bytes=S-E` there, with digit groups, S non-empty and no digit after it |
| RangeHeader.LeftmostMatch | vs.go:96 | the position found matches and no earlier position does; when none is found, no position at all matches |
| RangeHeader.FindSubmatch | vs.go:96-101 | the groups returned are those of a match at some position with no match at any earlier position (the leftmost match); none are returned only when no position matches |
| RangeHeader.NoMatchBefore | vs.go:96 | when the scan finds nothing before a position, no captures at all match there |
| RangeHeader.FindWellFormed | vs.go:95-101 | for `bytes=S-E` or `bytes=S-` written in canonical decimal and followed by anything but a digit, FindStringSubmatch returns exactly the texts of S and of E (empty for the open form) |
| RangeHeader.FindSubmatchNone | vs.go:96-101 | FindStringSubmatch gives no groups exactly when the expression matches at no position |
| RangeHeader.ParseRange | vs.go:95-118 | 400 "Invalid range header" exactly when nothing matches; "Invalid range start" exactly when the first group overflows an int64; "Invalid range end" exactly when the first fits and a non-empty second overflows; otherwise start and end are the groups' values, with no end when the second group is empty |
| RangeHeader.PlanRange | vs.go:95-125 | a malformed header exactly when parsing fails, with its reason; 206 exactly when the parsed start and end (defaulted to size-1 by EffectiveEnd) pass Satisfiable, the check `start < size, end < size, start <= end`; 416 otherwise; an accepted window lies inside the file, so an empty file accepts none |
| RangeHeader.ContentLength | vs.go:127 | the length of an accepted window is end-start+1, between 1 and the file size |
| RangeHeader.ParseWellFormed | vs.go:95-118 | `bytes=S-E` or `bytes=S-` with int64-sized S and E, followed by anything that is not a digit, parses to S and E (no E for the open form) |
| RangeHeader.PlanRoundTrip | vs.go:95-125 | a window inside the file, written as a header and planned, gives back the same window |
| RangeHeader.PlanOpenEnded | vs.go:109-111 | `bytes=S-` with S inside the file covers S through the last byte (the end defaulted by EffectiveEnd) |
| RangeHeader.PlanMultiRange | vs.go:95-96 | of `bytes=S-E,…` only the first range is honoured |
| RangeHeader.PlanStartOverflow | vs.go:103-107 | a start beyond int64, with any end or none, is a 400 for the start, not a 416 |
| RangeHeader.NoDashNoMatch | vs.go:98-101 | a header without `-` is refused as "Invalid range header" |
| RangeHeader.PlanRefused | vs.go:120-125 | a well-formed header whose window fails Satisfiable (start or end at or past the size, or start after end) is a 416 |
| RangeHeader.ContentRangeRoundTrip | vs.go:130 | a client that reads `bytes S-E/N` back as three digit runs gets exactly the window and the size the server wrote |
| RangeHeader.ContentRangeInjective | vs.go:130 | different windows or sizes never give the same Content-Range value |
| RangeHeader.ReadFramed | vs.go:130 | `S-E/N` with digit groups, found piece by piece, is read as their three values |
| RangeHeader.UnsatisfiedRangeRoundTrip | vs.go:122 | a client reads the size back from `bytes */N`, and cannot read that value as the window of a 206 |
| RangeHeader.ExampleWindow | vs_test.go:140-166 | `bytes=5-14` on 43 bytes is accepted, with length 10 and Content-Range `bytes 5-14/43` |
| RangeHeader.ExampleOpenEnded | vs_test.go:168-186 | `bytes=5-` on 43 bytes covers bytes 5 through 42 |
| RangeHeader.ExampleOpenEndedFraming | vs.go:130-131 | the open-ended window on 43 bytes is sent as `bytes 5-42/43` with length 38 |
| RangeHeader.ExampleNoMatch | vs_test.go:198 | `bytes=invalid` is a malformed header |
| RangeHeader.ExampleBeyondFile | vs_test.go:199 | `bytes=1000-2000` on 43 bytes is unsatisfiable |
| RangeHeader.ExampleReversed | vs_test.go:200 | `bytes=10-5` is unsatisfiable |
| RangeHeader.ExampleUnsatisfiedRange | vs.go:122 | the 416 Content-Range for 43 bytes is `bytes */43` |
| Paths.Segments | vs.go:42 | the elements of a path, none empty and none containing `/` |
| Paths.Clean | vs.go:45-46 | filepath.Clean never returns the empty path, and its result is absolute exactly when its input is |
| Paths.Join | vs.go:42 | filepath.Join gives "" only for two empty elements; otherwise the result is absolute exactly when its first non-empty element is |
| Paths.Abs | vs.go:45-46 | filepath.Abs of an absolute path, or from an absolute working directory, is absolute |
| Paths.TrimPrefix | vs.go:41 | when `s` starts with the prefix, the prefix followed by the result is `s`; otherwise the result is `s` unchanged |
| Paths.HasPrefixAt | vs.go:47 | strings.HasPrefix holds exactly when the prefix is no longer than `s` and every character of the prefix is the character of `s` at the same position |
| Paths.ResolveElements | vs.go:42 | cleaning only ever keeps path elements (`..` among them) |
| Paths.RenderShape | vs.go:42 | a path written from elements is never empty and starts with `/` exactly when it is written rooted |
| Paths.CleanRootedShape | vs.go:45-46 | the clean form of an absolute path is `/` followed by names only, none `.` or `..` |
| Paths.Ext | vs.go:65 | filepath.Ext: a suffix of the path that starts with `.`, has no other `.` and no `/`; empty only when no `.` occurs in the last element |
| Paths.SegmentsConcat | vs.go:42 | the elements of `a/b` are those of `a` followed by those of `b` |
| Paths.SegmentsOfJoin | vs.go:42 | elements joined with `/` split back into the same elements |
| Paths.ResolveConcat | vs.go:42 | cleaning the elements of two parts is cleaning the second from where the first ended |
| Paths.ResolveNoParent | vs.go:42 | without `..`, cleaning only drops `.` elements |
| Paths.ResolveClimb | vs.go:42 | enough `..` elements climb from a directory up to `/` and no further |
| Paths.CleanIdempotent | vs.go:45-46 | cleaning an absolute path twice is cleaning it once |
| Paths.AbsJoin | vs.go:42-46 | the absolute form of root joined with a request path is the root's cleaned elements with the request's elements resolved onto them |
| Paths.InsideIsConfined | vs.go:41-47 | a request path without `..` elements resolves below the root, passes the raw prefix check, and is inside the root element by element |
| Paths.InsidePasses | vs.go:41-47 | every request whose absolute joined path has the root's elements as its first elements, `..` elements or not, passes the raw prefix check |
| Paths.EscapeToSystemRoot | vs.go:41-47 | enough leading `..` elements leave the root, and the rest of the path resolves from `/` |
| Paths.SiblingResolves | vs.go:41-46 | `../sib` replaces the root's last element by `sib` |
| Paths.SiblingPassesPrefix | vs.go:45-47 | a sibling whose name starts with the root's last element passes the raw prefix check but is not inside the root |
| VideoServer.ContentType | vs.go:65-68 | the table's type for the file's extension when it has a non-empty one, otherwise `application/octet-stream`; never empty |
| VideoServer.RefusedResponse | vs.go:98-117 | 400 exactly when the header does not parse, and no Content-Range is added |
| VideoServer.UnsatisfiedResponse | vs.go:120-125 | 416 exactly when the header parses but the window fails the check, with Content-Range `bytes */size` |
| VideoServer.PartialResponse | vs.go:127-165 | 206 exactly when the window is accepted, with its Content-Range and Content-Length; the body is the window's bytes when the file is as large as os.Stat said |
| VideoServer.PartialFraming | vs.go:127-131 | the headers of a 206 for a window are its Content-Range and its length |
| VideoServer.HandleRangeRequest | vs.go:93-166 | the response is the one IsRangeResponse describes: 400 with the reason's message, 416 with `bytes */size`, or 206 with its two headers and the bytes the copy loop writes, or the open-error text after the committed 206 |
| VideoServer.HandleRequest | vs.go:39-91 | 403 "Access denied" when the raw prefix check fails; for a missing entry or a directory, the listing for `/` and 404 "File not found" otherwise; a panic when os.Stat fails otherwise; for a regular file the Content-Type and Accept-Ranges headers, then either the range response or status 200 with Content-Length set to the size and the whole file (500 when it cannot be opened) |
| VideoServer.FullPath | vs.go:41-42 | the path opened is absolute when the root is, and empty only when both the root and the trimmed request path are |
| VideoServer.FullPathResolved | vs.go:41-47 | from an absolute root, the path opened is the root's clean elements with the request's elements resolved onto them, whatever the working directory; so the check is whether the clean root's text is a prefix of that path's text |
| VideoServer.InsideRootConfined | vs.go:41-47 | from an absolute root, every request whose opened path lies inside the root element by element passes the check and is not refused with 403 |
| VideoServer.ConfinedWithoutParent | vs.go:41-47 | a request path without `..` elements passes the check and names the file below the root |
| VideoServer.ClimbOut | vs.go:41-49 | `k` leading `..` elements from a root at most `k` levels deep reach `/a/b`; the request passes only if the root's text is a prefix of `/a/b` |
| VideoServer.TraversalFromShallowRoot | vs_test.go:79-108 | `/../../../etc/passwd` from a root at most three levels deep resolves to `/etc/passwd` and is refused unless the root's text is a prefix of that |
| VideoServer.BackslashNameConfined | vs_test.go:86 | a request path with backslashes is one name on Unix, stays inside the root and so cannot pass 403 to reach another file |
| VideoServer.DottedNamesConfined | vs_test.go:87 | `/....//....//etc/passwd` has no `..` element and names `..../..../etc/passwd` inside the root |
| VideoServer.OneNameConfined | vs.go:41-47 | a request of a single name is inside the root |
| VideoServer.TwoNamesConfined | vs.go:41-47 | a request `/a/b` of two names is inside the root and names `a/b` below it |
| VideoServer.FourNamesConfined | vs.go:41-47 | a request of four names with doubled separators is inside the root |
| VideoServer.SubdirectoryConfined | vs_test.go:329-346 | `/subdir/sub.mkv` is inside the root and names `subdir/sub.mkv` below it |
| VideoServer.SiblingAdmitted | vs.go:45-47 | from a root ending in `videos`, `/../videos-private` passes the check although it is not inside the root |
| VideoServer.PartialContentServed | vs.go:127-165 | with the whole file readable, `bytes=S-E` inside the file gets 206, `bytes S-E/N`, Content-Length E-S+1 and exactly bytes S..E |
| VideoServer.OpenEndedServed | vs.go:109-165 | `bytes=S-` gets 206, `bytes S-(N-1)/N`, Content-Length N-S and every byte from S on |
| VideoServer.UnsatisfiableServed | vs.go:120-125 | a window outside the file gets http.Error 416 with `bytes */N` kept in the headers |
| VideoServer.MalformedServed | vs.go:98-101 | a header without `-` gets 400 "Invalid range header", with no Content-Range and no file bytes |
| VideoServer.ExampleValidRange | vs_test.go:140-166 | `bytes=5-14` on a 43-byte file: 206, `bytes 5-14/43`, Content-Length 10, bytes 5 to 14 |
| VideoServer.ExampleValidRangeBody | vs_test.go:155 | on the test file those bytes are "mkv conten" |
| VideoServer.ExampleOpenEndedRange | vs_test.go:168-186 | `bytes=5-` on a 43-byte file: 206, `bytes 5-42/43`, Content-Length 38, every byte from the sixth on |
| VideoServer.ExampleOpenEndedRangeBody | vs_test.go:183 | on the test file that is "mkv content for testing range requests" |

## Left out

- listFiles (vs.go:168-237), the HTML listing. handleRequest hands `/` to it, and the model stops at that hand-off (`ListDirectory`).
- Start and main (vs.go:29-37 and the command-line entry point): registering the handler, listening on a socket and reading arguments are I/O.
- net/http's own handling before handleRequest is not modelled: URL decoding, for instance of the percent-encoded traversal attempt in the tests, and ServeMux path cleaning. The model starts from the decoded URL path.
- The os.Stat, os.Open, Seek and read calls are not made; the model takes their results as the `FileSystem` map. filepath.Abs's working directory is the parameter `cwd`, and its Getwd error (ignored by the code) is not modelled.
- No symbolic links are resolved, because filepath.Abs and filepath.Clean resolve none. Only `/` is treated as a separator (the Unix path rules).
- mime.TypeByExtension is a table given as a parameter. The system's MIME database, and its case-insensitive lookup, are not part of this model.
- Streaming.StreamRange: a write error from io.CopyN, for example after the client has gone (vs.go:156-158), is not modelled. The source is an in-memory sequence, so copies can only fall short at the end of the file. The log message written in that case is also left out.
- The full-file response (vs.go:89): io.Copy is modelled as delivering the whole file in one step. The source has no loop to model here.
- Http.Bytes: it keeps only the low 8 bits of each character's code, so it is exact only for ASCII. Every text the handlers write is ASCII.
- Concurrent requests: the handlers share no mutable state, so each request is modelled on its own.
- The behaviour of http.ResponseWriter beyond the status, the header map sent and the body bytes (for example chunked transfer encoding, or net/http's own Content-Length checks) is not modelled.
