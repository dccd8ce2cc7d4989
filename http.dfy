/**
 * The parts of Go's net/http that the handlers rely on, as values: a response
 * is the status, the header map sent with it and the body bytes.
 */
module Http {

  newtype byte = x: int | 0 <= x < 256

  const StatusOK := 200
  const StatusPartialContent := 206
  const StatusBadRequest := 400
  const StatusForbidden := 403
  const StatusNotFound := 404
  const StatusRequestedRangeNotSatisfiable := 416
  const StatusInternalServerError := 500

  type Header = map<string, string>

  datatype Response = Response(status: int, header: Header, body: seq<byte>)

  /**
   * The bytes of a text, one per character: its code reduced to 8 bits. Every text
   * written here is ASCII, so this is its UTF-8 encoding.
   */
  function Bytes(s: string): (b: seq<byte>)
    ensures |b| == |s| && forall i :: 0 <= i < |s| ==> b[i] as int == s[i] as int % 256
  {
    seq(|s|, i requires 0 <= i < |s| => (s[i] as int % 256) as byte)
  }

  lemma BytesSlice(s: string, i: nat, j: nat)
    requires i <= j <= |s|
    ensures Bytes(s)[i..j] == Bytes(s[i..j])
  {
  }

  /** The bytes of two texts written one after the other are the bytes of each, in order. */
  lemma BytesConcat(a: string, b: string)
    ensures Bytes(a + b) == Bytes(a) + Bytes(b)
  {
    BytesSlice(a + b, 0, |a|);
    BytesSlice(a + b, |a|, |a + b|);
    assert (a + b)[0..|a|] == a && (a + b)[|a|..|a + b|] == b;
    assert Bytes(a + b) == Bytes(a + b)[0..|a|] + Bytes(a + b)[|a|..|a + b|];
  }

  /** The body http.Error writes: the message and a newline. */
  function ErrorBody(msg: string): seq<byte>
  {
    Bytes(msg + "\n")
  }

  /** fmt.Fprintln of the message: its bytes, then the single byte 10 of the newline. */
  lemma ErrorBodyText(msg: string)
    ensures ErrorBody(msg) == Bytes(msg) + [10]
    ensures |ErrorBody(msg)| == |msg| + 1
  {
    BytesConcat(msg, "\n");
  }

  /**
   * http.Error on a response whose header has not been written yet, as net/http
   * has it since Go 1.23: it drops Content-Length, replaces Content-Type by plain
   * text, adds nosniff, writes the status and then the message.
   */
  function Error(h: Header, msg: string, code: int): (r: Response)
    ensures r.status == code && r.body == ErrorBody(msg)
  {
    var h' := (h - {"Content-Length"})["Content-Type" := "text/plain; charset=utf-8"]["X-Content-Type-Options" := "nosniff"];
    Response(code, h', ErrorBody(msg))
  }

  /** The headers of an error response: those three changed, every other header already set kept, none added. */
  lemma ErrorHeaders(h: Header, msg: string, code: int)
    ensures var r := Error(h, msg, code);
      && "Content-Length" !in r.header
      && "Content-Type" in r.header && r.header["Content-Type"] == "text/plain; charset=utf-8"
      && "X-Content-Type-Options" in r.header && r.header["X-Content-Type-Options"] == "nosniff"
      && (forall k :: k in h && k !in {"Content-Length", "Content-Type", "X-Content-Type-Options"} ==>
            k in r.header && r.header[k] == h[k])
      && r.header.Keys <= h.Keys + {"Content-Type", "X-Content-Type-Options"}
  {
  }
}
