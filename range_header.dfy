/**
 * The `Range` header logic of handleRangeRequest: the unanchored regular
 * expression `bytes=(\d+)-(\d*)` with Go's leftmost-first matching, the int64
 * parse of both groups, the open-ended end, the satisfiability test and the
 * `Content-Range` header strings.
 */
module RangeHeader {
  import opened Wrappers
  import opened Decimal

  const Unit: string := "bytes="

  /** Length of the longest run of digits in `s` starting at `i`. */
  function DigitRun(s: string, i: nat): (n: nat)
    requires i <= |s|
    ensures i + n <= |s|
    ensures forall k :: i <= k < i + n ==> IsDigit(s[k])
    ensures i + n == |s| || !IsDigit(s[i + n])
    decreases |s| - i
  {
    if i < |s| && IsDigit(s[i]) then 1 + DigitRun(s, i + 1) else 0
  }

  /** The two capture groups of one match. */
  datatype Captures = Captures(first: string, second: string)

  /** The text the regular expression consumes for the given groups. */
  function Matched(c: Captures): string {
    Unit + c.first + "-" + c.second
  }

  /**
   * The expression matches at `p` with groups `c`: `bytes=`, the first group,
   * `-` and the second group follow each other there, both groups are digits,
   * the first is not empty, and no digit comes next (so neither could be longer).
   */
  predicate MatchesAt(s: string, p: nat, c: Captures) {
    var d := p + |Unit|;
    var e := d + |c.first| + 1;
    && e + |c.second| <= |s|
    && s[p..d] == Unit
    && s[d..d + |c.first|] == c.first
    && s[d + |c.first|] == '-'
    && s[e..e + |c.second|] == c.second
    && |c.first| > 0 && AllDigits(c.first) && AllDigits(c.second)
    && (e + |c.second| == |s| || !IsDigit(s[e + |c.second|]))
  }

  /**
   * The match of `bytes=(\d+)-(\d*)` that starts at `p`, if any. `\d+` and `\d*`
   * are greedy; a shorter first group would be followed by a digit, not by `-`,
   * so the only candidate is the longest digit run.
   */
  function MatchAt(s: string, p: nat): (m: Option<Captures>)
    requires p <= |s|
    ensures m.Some? ==> MatchesAt(s, p, m.value)
  {
    var d := p + |Unit|;
    if d <= |s| && s[p..d] == Unit then
      var n := DigitRun(s, d);
      if n > 0 && d + n < |s| && s[d + n] == '-' then
        var m := DigitRun(s, d + n + 1);
        DigitRunDigits(s, d);
        DigitRunDigits(s, d + n + 1);
        Some(Captures(s[d..d + n], s[d + n + 1..d + n + 1 + m]))
      else None
    else None
  }

  /** The longest digit run is made of digits. */
  lemma DigitRunDigits(s: string, i: nat)
    requires i <= |s|
    ensures AllDigits(s[i..i + DigitRun(s, i)])
  {
    var t := s[i..i + DigitRun(s, i)];
    forall k | 0 <= k < |t| ensures IsDigit(t[k]) {
      assert t[k] == s[i + k];
    }
  }

  /** The scan at `p` returns the captures `c` once each piece of them is found in place. */
  lemma MatchAtFound(s: string, p: nat, d: nat, e: nat, c: Captures)
    requires d == p + |Unit| && e == d + |c.first| + 1 && e <= |s|
    requires s[p..d] == Unit && |c.first| > 0 && s[d + |c.first|] == '-'
    requires DigitRun(s, d) == |c.first| && DigitRun(s, e) == |c.second|
    requires s[d..d + |c.first|] == c.first && s[e..e + |c.second|] == c.second
    ensures MatchAt(s, p) == Some(c)
  {
  }

  /** Digits `t` found at `i` and not followed by a digit are the longest run there. */
  lemma DigitsAt(s: string, i: nat, t: string)
    requires i + |t| <= |s| && s[i..i + |t|] == t && AllDigits(t)
    requires i + |t| == |s| || !IsDigit(s[i + |t|])
    ensures DigitRun(s, i) == |t|
  {
    forall k | i <= k < i + |t| ensures IsDigit(s[k]) {
      assert s[k] == t[k - i];
    }
    DigitRunExact(s, i, |t|);
  }

  /** The regular-expression semantics from the other side: any match at `p` is the one MatchAt finds. */
  lemma MatchAtComplete(s: string, p: nat, c: Captures)
    requires p <= |s| && MatchesAt(s, p, c)
    ensures MatchAt(s, p) == Some(c)
  {
    var d := p + |Unit|;
    var e := d + |c.first| + 1;
    DigitsAt(s, d, c.first);
    DigitsAt(s, e, c.second);
    MatchAtFound(s, p, d, e, c);
  }

  /** A run of `n` digits that is not followed by a digit is the longest one. */
  lemma {:induction false} DigitRunExact(s: string, i: nat, n: nat)
    requires i + n <= |s|
    requires forall k :: i <= k < i + n ==> IsDigit(s[k])
    requires i + n == |s| || !IsDigit(s[i + n])
    ensures DigitRun(s, i) == n
    decreases n
  {
    if n > 0 {
      DigitRunExact(s, i + 1, n - 1);
    }
  }

  /**
   * The text at `p` is `a`, `b`, the character `m` and `c` in a row exactly when
   * each of them is found at its own offset.
   */
  lemma PiecesAt(s: string, p: nat, a: string, b: string, m: char, c: string)
    requires p + |a| + |b| + 1 + |c| <= |s|
    ensures s[p..p + |a| + |b| + 1 + |c|] == a + b + [m] + c <==>
      && s[p..p + |a|] == a
      && s[p + |a|..p + |a| + |b|] == b
      && s[p + |a| + |b|] == m
      && s[p + |a| + |b| + 1..p + |a| + |b| + 1 + |c|] == c
  {
    var i, j, k := p + |a|, p + |a| + |b|, p + |a| + |b| + 1;
    var w, t := s[p..k + |c|], a + b + [m] + c;
    if w == t {
      assert s[p..i] == a by {
        forall x | 0 <= x < |a| ensures s[p..i][x] == a[x] { assert s[p + x] == w[x] == t[x]; }
      }
      assert s[i..j] == b by {
        forall x | 0 <= x < |b| ensures s[i..j][x] == b[x] { assert s[i + x] == w[|a| + x] == t[|a| + x]; }
      }
      assert s[j] == w[|a| + |b|] == t[|a| + |b|];
      assert s[k..k + |c|] == c by {
        forall x | 0 <= x < |c| ensures s[k..k + |c|][x] == c[x] { assert s[k + x] == w[|a| + |b| + 1 + x] == t[|a| + |b| + 1 + x]; }
      }
    }
    if s[p..i] == a && s[i..j] == b && s[j] == m && s[k..k + |c|] == c {
      forall x | 0 <= x < |t| ensures w[x] == t[x] {
        if x < |a| {
          assert w[x] == s[p..i][x];
        } else if x < |a| + |b| {
          assert w[x] == s[i..j][x - |a|];
        } else if x > |a| + |b| {
          assert w[x] == s[k..k + |c|][x - |a| - |b| - 1];
        }
      }
    }
  }

  /**
   * MatchesAt read as text: the header continues at `p` with exactly the match
   * text, the groups are digits with the first non-empty, and no digit follows.
   */
  lemma MatchesAtText(s: string, p: nat, c: Captures)
    ensures MatchesAt(s, p, c) <==>
      && p + |Matched(c)| <= |s|
      && s[p..p + |Matched(c)|] == Matched(c)
      && |c.first| > 0 && AllDigits(c.first) && AllDigits(c.second)
      && (p + |Matched(c)| == |s| || !IsDigit(s[p + |Matched(c)|]))
  {
    assert Matched(c) == Unit + c.first + ['-'] + c.second;
    if p + |Matched(c)| <= |s| {
      PiecesAt(s, p, Unit, c.first, '-', c.second);
    }
  }

  /** The leftmost position at or after `from` where the expression matches (FindStringSubmatch). */
  function LeftmostMatch(s: string, from: nat): (r: Option<nat>)
    requires from <= |s|
    ensures r.Some? ==> from <= r.value <= |s| && MatchAt(s, r.value).Some?
    ensures r.Some? ==> forall q :: from <= q < r.value ==> MatchAt(s, q).None?
    ensures r.None? ==> forall q :: from <= q <= |s| ==> MatchAt(s, q).None?
    decreases |s| - from
  {
    if MatchAt(s, from).Some? then Some(from)
    else if from == |s| then None
    else LeftmostMatch(s, from + 1)
  }

  /**
   * The groups of the leftmost match in the whole header (FindStringSubmatch):
   * a match at some position with no match of any groups before it; none when
   * the expression matches nowhere.
   */
  function FindSubmatch(s: string): (m: Option<Captures>)
    ensures m.Some? ==> exists q ::
      && 0 <= q <= |s| && MatchesAt(s, q, m.value)
      && forall q', c :: 0 <= q' < q ==> !MatchesAt(s, q', c)
    ensures m.None? ==> forall q, c :: 0 <= q <= |s| ==> !MatchesAt(s, q, c)
  {
    match LeftmostMatch(s, 0)
    case None =>
      NoMatchBefore(s, |s| + 1);
      None
    case Some(q) =>
      NoMatchBefore(s, q);
      MatchAt(s, q)
  }

  /** Where MatchAt finds nothing, no groups match at all. */
  lemma NoMatchBefore(s: string, q: nat)
    requires q <= |s| + 1
    requires forall q' :: 0 <= q' < q ==> MatchAt(s, q').None?
    ensures forall q', c :: 0 <= q' < q ==> !MatchesAt(s, q', c)
  {
    forall q', c | 0 <= q' < q
      ensures !MatchesAt(s, q', c)
    {
      if MatchesAt(s, q', c) {
        MatchAtComplete(s, q', c);
      }
    }
  }

  /** FindSubmatch fails exactly when the expression matches nowhere in the header. */
  lemma FindSubmatchNone(s: string)
    ensures FindSubmatch(s).None? <==> forall q :: 0 <= q <= |s| ==> MatchAt(s, q).None?
  {
  }

  /** Why a header was refused with 400; each reason has its own message. */
  datatype RangeError = NoMatch | BadStart | BadEnd

  function Message(e: RangeError): string {
    match e
    case NoMatch => "Invalid range header"
    case BadStart => "Invalid range start"
    case BadEnd => "Invalid range end"
  }

  /** A parsed header: the start and, unless the second group was empty, the end. */
  datatype RangeSpec = RangeSpec(start: int, end: Option<int>)

  /** Lines 95-118 up to the end default: regex match, then ParseInt of each group. */
  function ParseRange(h: string): (r: Result<RangeSpec, RangeError>)
    ensures r == Err(NoMatch) <==> FindSubmatch(h).None?
    ensures r == Err(BadStart) <==> FindSubmatch(h).Some? && Value(FindSubmatch(h).value.first) > MaxInt64
    ensures r == Err(BadEnd) <==>
      && FindSubmatch(h).Some? && Value(FindSubmatch(h).value.first) <= MaxInt64
      && FindSubmatch(h).value.second != [] && Value(FindSubmatch(h).value.second) > MaxInt64
    ensures r.Ok? ==> var c := FindSubmatch(h).value;
      && r.value.start == Value(c.first) <= MaxInt64
      && (c.second == [] <==> r.value.end.None?)
      && (r.value.end.Some? ==> r.value.end.value == Value(c.second) <= MaxInt64)
  {
    match FindSubmatch(h)
    case None => Err(NoMatch)
    case Some(c) =>
      match ParseInt64(c.first)
      case None => Err(BadStart)
      case Some(start) =>
        if c.second == [] then Ok(RangeSpec(start, None))
        else
          match ParseInt64(c.second)
          case None => Err(BadEnd)
          case Some(end) => Ok(RangeSpec(start, Some(end)))
  }

  /** What handleRangeRequest does with a header, before any byte is read. */
  datatype RangePlan =
    | Malformed(reason: RangeError)       // 400
    | Unsatisfiable                       // 416 with `bytes */size`
    | Partial(start: nat, end: nat)       // 206, bytes start..end inclusive

  /** The test of line 121: inside the file and not reversed. */
  predicate Satisfiable(start: int, end: int, size: int) {
    !(start >= size || end >= size || start > end)
  }

  /** The end the response uses: the given one, or the last byte of the file when the group was empty. */
  function EffectiveEnd(spec: RangeSpec, size: int): int {
    match spec.end
    case None => size - 1
    case Some(e) => e
  }

  /** Lines 95-125: parse, default the end, validate. */
  function PlanRange(h: string, size: nat): (p: RangePlan)
    requires size <= MaxInt64
    ensures p.Malformed? <==> ParseRange(h).Err?
    ensures p.Malformed? ==> p.reason == ParseRange(h).error
    ensures p.Partial? <==>
      ParseRange(h).Ok? && Satisfiable(ParseRange(h).value.start, EffectiveEnd(ParseRange(h).value, size), size)
    ensures p.Partial? ==> p.start == ParseRange(h).value.start && p.end == EffectiveEnd(ParseRange(h).value, size)
    ensures p.Partial? ==> p.start <= p.end < size
    ensures size == 0 ==> !p.Partial?
  {
    match ParseRange(h)
    case Err(e) => Malformed(e)
    case Ok(spec) =>
      var end := EffectiveEnd(spec, size);
      if spec.start >= size || end >= size || spec.start > end then Unsatisfiable
      else Partial(spec.start, end)
  }

  /** Content-Length of an accepted window (line 127): never zero, never more than the file, so it fits in an int64. */
  function ContentLength(start: nat, end: nat, size: nat): (n: nat)
    requires start <= end < size
    ensures 1 <= n <= size
    ensures start + n == end + 1
  {
    end - start + 1
  }

  /** `Content-Range` of a 206 response (line 130). */
  function ContentRange(start: nat, end: nat, size: nat): string {
    "bytes " + Format(start) + "-" + Format(end) + "/" + Format(size)
  }

  /** `Content-Range` of a 416 response (line 122). */
  function UnsatisfiedRange(size: nat): string {
    "bytes */" + Format(size)
  }

  /** One digit run at offset `i`: its value and the offset after it; none when no digit is there. */
  function ReadNumber(t: string, i: nat): (r: Option<(nat, nat)>)
    requires i <= |t|
    ensures r.Some? ==> i < r.value.1 <= |t|
  {
    var k := DigitRun(t, i);
    if k == 0 then None
    else
      DigitRunDigits(t, i);
      Some((Value(t[i..i + k]), i + k))
  }

  /** The separator `sep` at offset `i`, then a digit run. */
  function ReadAfter(t: string, i: nat, sep: char): (r: Option<(nat, nat)>)
    requires i <= |t|
    ensures r.Some? ==> i < r.value.1 <= |t|
  {
    if i == |t| || t[i] != sep then None else ReadNumber(t, i + 1)
  }

  /** `S-E/N` from offset `i` to the end of `t`. */
  function ReadWindow(t: string, i: nat): Option<(nat, nat, nat)>
    requires i <= |t|
  {
    match ReadNumber(t, i)
    case None => None
    case Some(start) =>
      match ReadAfter(t, start.1, '-')
      case None => None
      case Some(end) =>
        match ReadAfter(t, end.1, '/')
        case None => None
        case Some(size) => if size.1 == |t| then Some((start.0, end.0, size.0)) else None
  }

  /**
   * How a client reads a `Content-Range` value `bytes S-E/N`: three digit runs
   * after `bytes `, separated by `-` and `/`, the last one running to the end.
   */
  function ReadContentRange(t: string): Option<(nat, nat, nat)> {
    if |t| < 6 || t[..6] != "bytes " then None else ReadWindow(t, 6)
  }

  /** The pieces of `w` + `a` + `-` + `b` + `/` + `c`, each at its offset. */
  lemma FramedPieces(w: string, a: string, b: string, c: string, t: string)
    requires t == w + a + "-" + b + "/" + c
    ensures |t| == |w| + |a| + 1 + |b| + 1 + |c|
    ensures t[..|w|] == w && t[|w|..|w| + |a|] == a && t[|w| + |a|] == '-'
    ensures t[|w| + |a| + 1..|w| + |a| + 1 + |b|] == b && t[|w| + |a| + 1 + |b|] == '/'
    ensures t[|w| + |a| + 1 + |b| + 1..] == c
  {
    var i, j := |w| + |a|, |w| + |a| + 1 + |b|;
    assert t[..|w|] == w by {
      forall x | 0 <= x < |w| ensures t[x] == w[x] { }
    }
    assert t[|w|..i] == a by {
      forall x | 0 <= x < |a| ensures t[|w| + x] == a[x] { }
    }
    assert t[i + 1..j] == b by {
      forall x | 0 <= x < |b| ensures t[i + 1 + x] == b[x] { }
    }
    assert t[j + 1..] == c by {
      forall x | 0 <= x < |c| ensures t[j + 1 + x] == c[x] { }
    }
  }

  /** Digits `d` from `i` to `e` that no digit follows are read as their value. */
  lemma ReadNumberAt(t: string, i: nat, e: nat, d: string)
    requires e == i + |d| <= |t| && t[i..e] == d && |d| > 0 && AllDigits(d)
    requires e == |t| || !IsDigit(t[e])
    ensures ReadNumber(t, i) == Some((Value(d), e))
  {
    DigitsAt(t, i, d);
  }

  /** The separator `sep` at `i`, then digits `d` up to `e` that no digit follows, is read as `d`'s value. */
  lemma ReadAfterAt(t: string, i: nat, e: nat, sep: char, d: string)
    requires e == i + 1 + |d| <= |t| && t[i] == sep && t[i + 1..e] == d
    requires |d| > 0 && AllDigits(d)
    requires e == |t| || !IsDigit(t[e])
    ensures ReadAfter(t, i, sep) == Some((Value(d), e))
  {
    ReadNumberAt(t, i + 1, e, d);
  }

  /** The window is read when its three steps are. */
  lemma ReadWindowSteps(t: string, i: nat, j: nat, k: nat, x: nat, y: nat, z: nat)
    requires i <= j <= k <= |t|
    requires ReadNumber(t, i) == Some((x, j))
    requires ReadAfter(t, j, '-') == Some((y, k)) && ReadAfter(t, k, '/') == Some((z, |t|))
    ensures ReadWindow(t, i) == Some((x, y, z))
  {
  }

  /** `a-b/c` from offset `i` to the end, with digit strings a, b, c, is read as their values. */
  lemma ReadFramed(t: string, i: nat, j: nat, k: nat, a: string, b: string, c: string)
    requires |a| > 0 && |b| > 0 && |c| > 0 && AllDigits(a) && AllDigits(b) && AllDigits(c)
    requires j == i + |a| && k == j + 1 + |b| && |t| == k + 1 + |c|
    requires t[i..j] == a && t[j] == '-' && t[j + 1..k] == b && t[k] == '/' && t[k + 1..] == c
    ensures ReadWindow(t, i) == Some((Value(a), Value(b), Value(c)))
  {
    ReadNumberAt(t, i, j, a);
    ReadAfterAt(t, j, k, '-', b);
    assert t[k + 1..|t|] == c;
    ReadAfterAt(t, k, |t|, '/', c);
    ReadWindowSteps(t, i, j, k, Value(a), Value(b), Value(c));
  }

  /** A client reads back from `Content-Range` exactly the window and the size the server wrote. */
  lemma ContentRangeRoundTrip(start: nat, end: nat, size: nat)
    ensures ReadContentRange(ContentRange(start, end, size)) == Some((start, end, size))
  {
    var t := ContentRange(start, end, size);
    var a, b, c := Format(start), Format(end), Format(size);
    FramedPieces("bytes ", a, b, c, t);
    ReadFramed(t, 6, 6 + |a|, 6 + |a| + 1 + |b|, a, b, c);
    ValueOfFormat(start);
    ValueOfFormat(end);
    ValueOfFormat(size);
  }

  /** So different windows or sizes never share a `Content-Range` value. */
  lemma ContentRangeInjective(s1: nat, e1: nat, n1: nat, s2: nat, e2: nat, n2: nat)
    requires ContentRange(s1, e1, n1) == ContentRange(s2, e2, n2)
    ensures s1 == s2 && e1 == e2 && n1 == n2
  {
    ContentRangeRoundTrip(s1, e1, n1);
    ContentRangeRoundTrip(s2, e2, n2);
  }

  // How a client reads the size out of the `bytes */N` value of a 416.
  function ReadUnsatisfiedRange(t: string): Option<nat> {
    if |t| <= 8 || t[..8] != "bytes */" || 8 + DigitRun(t, 8) != |t| then None
    else
      DigitRunDigits(t, 8);
      Some(Value(t[8..8 + DigitRun(t, 8)]))
  }

  /**
   * A client reads back the size from the 416 value, and cannot take that value
   * for the window of a 206.
   */
  lemma UnsatisfiedRangeRoundTrip(size: nat)
    ensures ReadUnsatisfiedRange(UnsatisfiedRange(size)) == Some(size)
    ensures ReadContentRange(UnsatisfiedRange(size)) == None
  {
    var t := UnsatisfiedRange(size);
    var c := Format(size);
    assert t[..8] == "bytes */" && t[8..] == c && t[6] == '*';
    assert t[8..8 + |c|] == c;
    DigitsAt(t, 8, c);
    ValueOfFormat(size);
  }

  /** A header `bytes=S-E` written as a client would write it. */
  function RangeRequestHeader(start: nat, end: Option<nat>): string {
    Unit + Format(start) + "-" + EndText(end)
  }

  /** The end as a client writes it: nothing for an open-ended range. */
  function EndText(end: Option<nat>): string {
    match end
    case None => ""
    case Some(e) => Format(e)
  }

  /**
   * In a header that is `bytes=S-E` (or `bytes=S-`) followed by anything that does
   * not continue the last digit run (`,20-30` of a multi-range header, say),
   * the leftmost match has the digits of S and E as its groups, whatever their size.
   */
  lemma FindWellFormed(start: nat, end: Option<nat>, rest: string)
    requires rest == [] || !IsDigit(rest[0])
    ensures FindSubmatch(RangeRequestHeader(start, end) + rest) == Some(Captures(Format(start), EndText(end)))
  {
    var h := RangeRequestHeader(start, end) + rest;
    var c := Captures(Format(start), EndText(end));
    assert MatchesAt(h, 0, c) by {
      assert Matched(c) == RangeRequestHeader(start, end);
      assert h[0..|Matched(c)|] == Matched(c);
      assert |Matched(c)| == |h| || h[|Matched(c)|] == rest[0];
      MatchesAtText(h, 0, c);
    }
    MatchAtComplete(h, 0, c);
    assert LeftmostMatch(h, 0) == Some(0);
  }

  /**
   * Such a header with int64-sized S and E is parsed as S and E, and the end
   * is absent for the open form.
   */
  lemma ParseWellFormed(start: nat, end: Option<nat>, rest: string)
    requires start <= MaxInt64 && (end.Some? ==> end.value <= MaxInt64)
    requires rest == [] || !IsDigit(rest[0])
    ensures ParseRange(RangeRequestHeader(start, end) + rest) == Ok(RangeSpec(start, end))
  {
    FindWellFormed(start, end, rest);
    ValueOfFormat(start);
    if end.Some? {
      ValueOfFormat(end.value);
    }
  }

  /** Formatting a satisfiable window as a header and planning it gives back that window. */
  lemma PlanRoundTrip(start: nat, end: nat, size: nat)
    requires start <= end < size <= MaxInt64
    ensures PlanRange(RangeRequestHeader(start, Some(end)), size) == Partial(start, end)
  {
    ParseWellFormed(start, Some(end), "");
    assert RangeRequestHeader(start, Some(end)) + "" == RangeRequestHeader(start, Some(end));
  }

  /** The open-ended form `bytes=S-` covers S through the last byte. */
  lemma PlanOpenEnded(start: nat, size: nat)
    requires start < size <= MaxInt64
    ensures PlanRange(RangeRequestHeader(start, None), size) == Partial(start, size - 1)
  {
    ParseWellFormed(start, None, "");
    assert RangeRequestHeader(start, None) + "" == RangeRequestHeader(start, None);
  }

  /** Only the first range of a multi-range header is honoured; the rest is ignored. */
  lemma PlanMultiRange(s1: nat, e1: nat, rest: string, size: nat)
    requires s1 <= e1 < size <= MaxInt64
    ensures PlanRange(RangeRequestHeader(s1, Some(e1)) + "," + rest, size) == Partial(s1, e1)
  {
    ParseWellFormed(s1, Some(e1), "," + rest);
    assert RangeRequestHeader(s1, Some(e1)) + "," + rest == RangeRequestHeader(s1, Some(e1)) + ("," + rest);
  }

  /**
   * A start too large for an int64 is a malformed header (400), not an
   * unsatisfiable one, whatever end follows it: the start is parsed first.
   */
  lemma PlanStartOverflow(start: nat, end: Option<nat>, size: nat)
    requires start > MaxInt64 && size <= MaxInt64
    ensures PlanRange(RangeRequestHeader(start, end), size) == Malformed(BadStart)
  {
    var h := RangeRequestHeader(start, end);
    assert h + "" == h;
    FindWellFormed(start, end, "");
    ValueOfFormat(start);
  }

  /** A header without any `-` never matches, so it is refused as malformed. */
  lemma NoDashNoMatch(h: string, size: nat)
    requires size <= MaxInt64
    requires forall i :: 0 <= i < |h| ==> h[i] != '-'
    ensures PlanRange(h, size) == Malformed(NoMatch)
  {
  }

  /** A well-formed window that is reversed or reaches past the file is refused with 416. */
  lemma PlanRefused(start: nat, end: nat, size: nat)
    requires start <= MaxInt64 && end <= MaxInt64 && size <= MaxInt64
    requires !Satisfiable(start, end, size)
    ensures PlanRange(RangeRequestHeader(start, Some(end)), size) == Unsatisfiable
  {
    ParseWellFormed(start, Some(end), "");
    assert RangeRequestHeader(start, Some(end)) + "" == RangeRequestHeader(start, Some(end));
  }

  // The cases of the repository's tests against a 43-byte file.

  lemma ExampleWindow()
    ensures PlanRange("bytes=5-14", 43) == Partial(5, 14)
    ensures ContentLength(5, 14, 43) == 10
    ensures ContentRange(5, 14, 43) == "bytes 5-14/43"
  {
    ExampleWindowHeader();
    PlanRoundTrip(5, 14, 43);
    ExampleWindowFraming();
  }

  lemma ExampleWindowHeader()
    ensures RangeRequestHeader(5, Some(14)) == "bytes=5-14"
  {
  }

  lemma ExampleWindowFraming()
    ensures ContentRange(5, 14, 43) == "bytes 5-14/43"
    ensures Format(10) == "10"
  {
  }

  lemma ExampleOpenEnded()
    ensures RangeRequestHeader(5, None) == "bytes=5-"
    ensures PlanRange("bytes=5-", 43) == Partial(5, 42)
  {
    PlanOpenEnded(5, 43);
  }

  lemma ExampleOpenEndedFraming()
    ensures ContentRange(5, 42, 43) == "bytes 5-42/43"
    ensures Format(38) == "38"
  {
  }

  lemma ExampleNoMatch()
    ensures PlanRange("bytes=invalid", 43) == Malformed(NoMatch)
  {
    NoDashNoMatch("bytes=invalid", 43);
  }

  lemma ExampleBeyondFileHeader()
    ensures RangeRequestHeader(1000, Some(2000)) == "bytes=1000-2000"
  {
    assert Format(10) == "10" && Format(20) == "20";
    assert Format(100) == "100" && Format(200) == "200";
  }

  lemma ExampleBeyondFile()
    ensures PlanRange("bytes=1000-2000", 43) == Unsatisfiable
  {
    ExampleBeyondFileHeader();
    PlanRefused(1000, 2000, 43);
  }

  lemma ExampleUnsatisfiedRange()
    ensures UnsatisfiedRange(43) == "bytes */43"
  {
  }

  lemma ExampleReversed()
    ensures PlanRange("bytes=10-5", 43) == Unsatisfiable
  {
    assert RangeRequestHeader(10, Some(5)) == "bytes=10-5";
    PlanRefused(10, 5, 43);
  }
}
