/**
 * The copy loop of handleRangeRequest (vs.go:142-165): after seeking to the
 * start, copy the window in pieces of at most 1 MiB with io.CopyN until
 * `remaining` is 0 or a copy delivers nothing.
 */
module Streaming {
  import opened Http

  /** The chunk size of line 146. */
  const ChunkSize: nat := 1_048_576

  function Min(a: int, b: int): int {
    if a <= b then a else b
  }

  /**
   * How many bytes io.CopyN(w, file, n) copies when the file, as read now, is
   * `data` and the offset is `pos`: `n`, or fewer when the end of the file comes first
   * (a seek past the end reads nothing).
   */
  function CopyCount(data: seq<byte>, pos: nat, n: nat): (k: nat)
    ensures k <= n
    ensures pos + k <= |data| || k == 0
    ensures k < n ==> pos + k >= |data|
  {
    if pos >= |data| then 0 else Min(n, |data| - pos)
  }

  /** The bytes of `data` from offset `start` on, at most `len` of them. */
  function Window(data: seq<byte>, start: nat, len: nat): (w: seq<byte>)
    ensures |w| <= len
    ensures start + len <= |data| ==> w == data[start..start + len]
  {
    if start >= |data| then [] else data[start..Min(start + len, |data|)]
  }

  /**
   * A read of `n` bytes at the offset where the window of `done` bytes ends
   * extends it by exactly those bytes; a read that delivers nothing means the
   * window cannot grow any more, up to any length `len`.
   */
  lemma ReadStep(data: seq<byte>, start: nat, done: nat, toRead: nat, n: nat, len: nat)
    requires |Window(data, start, done)| == done
    requires toRead > 0 && n == CopyCount(data, start + done, toRead)
    ensures Window(data, start, done + n) == Window(data, start, done) + Window(data, start + done, n)
    ensures |Window(data, start, done + n)| == done + n
    ensures n == 0 && done <= len ==> Window(data, start, len) == Window(data, start, done)
  {
    if n > 0 {
      assert data[start..start + done + n] == data[start..start + done] + data[start + done..start + done + n];
    }
  }

  function Sum(s: seq<nat>): nat {
    if s == [] then 0 else Sum(s[..|s| - 1]) + s[|s| - 1]
  }

  lemma SumAppend(s: seq<nat>, x: nat)
    ensures Sum(s + [x]) == Sum(s) + x
  {
    assert (s + [x])[..|s|] == s;
  }

  /**
   * One io.CopyN call, made after `before` bytes had been written in earlier
   * calls: it asked for at least one byte, for at most a chunk, and for exactly
   * the chunk size or what was still remaining when that was less; it got no
   * more than it asked for.
   */
  predicate CallBounded(toRead: nat, before: seq<nat>, n: nat, contentLength: nat) {
    && 0 < toRead <= ChunkSize
    && toRead == Min(ChunkSize, contentLength - Sum(before))
    && n <= toRead
  }

  /** Every call of the trace obeys CallBounded. */
  predicate TraceBounded(requested: seq<nat>, written: seq<nat>, contentLength: nat)
    requires |requested| == |written|
  {
    forall i :: 0 <= i < |requested| ==> CallBounded(requested[i], written[..i], written[i], contentLength)
  }

  /** One more call that obeys the bound keeps the whole trace bounded. */
  lemma TraceAppend(requested: seq<nat>, written: seq<nat>, toRead: nat, n: nat, contentLength: nat)
    requires |requested| == |written| && TraceBounded(requested, written, contentLength)
    requires CallBounded(toRead, written, n, contentLength)
    ensures TraceBounded(requested + [toRead], written + [n], contentLength)
  {
    var r', w' := requested + [toRead], written + [n];
    forall i | 0 <= i < |r'|
      ensures CallBounded(r'[i], w'[..i], w'[i], contentLength)
    {
      if i < |written| {
        assert w'[..i] == written[..i];
        assert r'[i] == requested[i] && w'[i] == written[i];
        assert CallBounded(requested[i], written[..i], written[i], contentLength);
      } else {
        assert w'[..i] == written;
      }
    }
  }

  /** What holds between iterations: the bytes written so far are the window up to `remaining`. */
  predicate Progress(data: seq<byte>, start: nat, contentLength: nat, body: seq<byte>,
                     written: seq<nat>, remaining: nat)
  {
    && remaining <= contentLength
    && |body| == Sum(written) == contentLength - remaining
    && body == Window(data, start, contentLength - remaining)
  }

  /**
   * One turn of the loop: at file offset `pos`, ask CopyN for `toRead`, get `n`,
   * append, count down.
   */
  lemma StepKeepsProgress(data: seq<byte>, start: nat, contentLength: nat, body: seq<byte>,
                          written: seq<nat>, remaining: nat, pos: nat, toRead: nat, n: nat)
    requires Progress(data, start, contentLength, body, written, remaining)
    requires pos == start + (contentLength - remaining)
    requires remaining > 0 && toRead == Min(ChunkSize, remaining)
    requires n == CopyCount(data, pos, toRead)
    ensures n <= remaining
    ensures Progress(data, start, contentLength, body + Window(data, pos, n), written + [n], remaining - n)
    ensures CallBounded(toRead, written, n, contentLength)
    ensures n == 0 ==> Window(data, start, contentLength) == body
  {
    var done := contentLength - remaining;
    var body' := body + Window(data, pos, n);
    assert n <= toRead <= remaining;
    assert body' == Window(data, start, done + n) && |body'| == done + n
        && (n == 0 ==> Window(data, start, contentLength) == body) by {
      ReadStep(data, start, done, toRead, n, contentLength);
    }
    assert Sum(written + [n]) == done + n by {
      SumAppend(written, n);
    }
    assert contentLength - (remaining - n) == done + n;
  }

  /**
   * The loop of lines 146-165 reading from `data` at offset `start`. Besides the
   * bytes written it returns the trace of each io.CopyN call: the `toRead` it asked
   * for and the count it got.
   */
  method StreamRange(data: seq<byte>, start: nat, contentLength: nat)
    returns (body: seq<byte>, requested: seq<nat>, written: seq<nat>, remaining: nat)
    ensures body == Window(data, start, contentLength)
    ensures start + contentLength <= |data| ==> body == data[start..start + contentLength]
    ensures |body| == Sum(written) == contentLength - remaining
    ensures |requested| == |written| && TraceBounded(requested, written, contentLength)
    ensures forall i :: 0 <= i < |written| - 1 ==> written[i] > 0
    ensures remaining == 0 || (|written| > 0 && written[|written| - 1] == 0)
  {
    body, requested, written, remaining := [], [], [], contentLength;
    var pos := start;  // the file offset after the seek of line 142
    while remaining > 0
      invariant Progress(data, start, contentLength, body, written, remaining)
      invariant pos == start + (contentLength - remaining)
      invariant |requested| == |written| && TraceBounded(requested, written, contentLength)
      invariant forall i :: 0 <= i < |written| ==> written[i] > 0
      decreases remaining
    {
      var toRead := ChunkSize;
      if remaining < ChunkSize {
        toRead := remaining;
      }
      var n := CopyCount(data, pos, toRead);
      StepKeepsProgress(data, start, contentLength, body, written, remaining, pos, toRead, n);
      TraceAppend(requested, written, toRead, n, contentLength);
      body := body + Window(data, pos, n);
      requested, written := requested + [toRead], written + [n];
      remaining, pos := remaining - n, pos + n;
      if n == 0 {
        break;
      }
    }
    assert body == Window(data, start, contentLength);
  }
}
