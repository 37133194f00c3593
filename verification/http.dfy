/**
 The slice of net/http and gin the webhook touches: request headers read with
 `Header.Get`, a request body that is a single-consumption stream, and the
 responses written with `context.String`.
 */
module Http {
  import opened Wrappers
  import opened Bytes

  /** Header values by canonical header name; a name may carry several values. */
  type Header = map<string, seq<seq<byte>>>

  /** `Header.Get`: the first value of the header, or the empty string when there is none. */
  function Get(h: Header, name: string): (v: seq<byte>)
    ensures name !in h || |h[name]| == 0 ==> v == []
    ensures name in h && |h[name]| > 0 ==> v == h[name][0]
  {
    if name in h && |h[name]| > 0 then h[name][0] else []
  }

  /**
   A readable body: the bytes still to come and, when reading goes wrong,
   the error that ends the stream after them (None: the stream ends cleanly).
   */
  datatype Stream = Stream(pending: seq<byte>, failure: Option<string>)

  /** Result of `ioutil.ReadAll`: the bytes read, the error if any, and the drained stream. */
  datatype ReadResult = ReadResult(data: seq<byte>, err: Option<string>, rest: Stream)

  function ReadAll(s: Stream): (r: ReadResult)
    ensures r.rest.pending == [] && r.rest.failure == s.failure
  {
    ReadResult(s.pending, s.failure, Stream([], s.failure))
  }

  /** One `context.String(status, text)` call. */
  datatype Write = Write(status: int, text: string)

  const StatusOK := 200
  const StatusBadRequest := 400
  const StatusForbidden := 403
  const StatusInternalServerError := 500

  datatype Request = Request(header: Header, body: Stream)

  /** The part of a gin context the handlers use: the request and the responses written so far. */
  datatype Context = Context(request: Request, writes: seq<Write>)
  {
    function Respond(status: int, text: string): (c: Context)
      ensures c.request == request
      ensures |c.writes| == |writes| + 1 && c.writes[..|writes|] == writes
      ensures c.writes[|writes|] == Write(status, text)
    {
      this.(writes := writes + [Write(status, text)])
    }
  }
}
