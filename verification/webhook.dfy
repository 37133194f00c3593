/**
 The `/handle` route of cmd/zenit/main.go: capture the body, authenticate the
 delivery with its X-Hub-Signature header, and dispatch on X-Github-Event.
 The shared secret (the SECRET environment variable) and HMAC-SHA1 are
 parameters; the octokit status call of the push handler is not modelled, so
 the push action ends once the payload has been bound.
 */
module Webhook {
  import opened Wrappers
  import opened Bytes
  import opened Http
  import Signature

  const SignatureHeader := "X-Hub-Signature"
  const EventHeader := "X-Github-Event"

  const UnacceptableSignature := "Unacceptable X-Hub-Signature HTTP header"
  const UnsupportedEvent := "Unsupported event in the X-Github-Event HTTP header"
  const PullRequestHandled := "Handling a pull_request event"

  /** What `GetRequestBody` returns, with the context it leaves behind. */
  datatype Captured = Captured(body: seq<byte>, ctx: Context)

  /**
   Reads the whole body and puts a fresh reader over the same bytes in its
   place. On a read error it answers 500 with the error text and returns the
   empty (nil) body.
   */
  function GetRequestBody(ctx: Context): (c: Captured)
    ensures c.ctx.request.header == ctx.request.header
    ensures ctx.request.body.failure.None? ==>
              && c.body == ctx.request.body.pending
              && c.ctx.writes == ctx.writes
              && ReadAll(c.ctx.request.body) == ReadResult(c.body, None, Stream([], None))
    ensures ctx.request.body.failure.Some? ==>
              && c.body == []
              && c.ctx.writes == ctx.writes + [Write(StatusInternalServerError, ctx.request.body.failure.value)]
              && c.ctx.request.body == Stream([], ctx.request.body.failure)
  {
    var read := ReadAll(ctx.request.body);
    if read.err.Some? then
      Captured([], ctx.(request := ctx.request.(body := read.rest)).Respond(StatusInternalServerError, read.err.value))
    else
      Captured(read.data, ctx.(request := ctx.request.(body := Stream(read.data, None))))
  }

  /** What `CheckSecret` returns, the body it hashed, and the context it leaves behind. */
  datatype Checked = Checked(ok: bool, hashed: seq<byte>, ctx: Context)

  /**
   Authenticates the delivery: the signature header must equal "sha1=" and
   the hex HMAC of the captured body. A mismatch answers 403.
   */
  function CheckSecret(mac: Signature.Mac, secret: seq<byte>, ctx: Context): (r: Checked)
    ensures r.hashed == (if ctx.request.body.failure.None? then ctx.request.body.pending else [])
    ensures r.ok <==> Signature.Matches(mac, secret, r.hashed, Get(ctx.request.header, SignatureHeader))
    ensures Get(ctx.request.header, SignatureHeader) == [] ==> !r.ok
    ensures r.ctx.request == GetRequestBody(ctx).ctx.request
    ensures r.ok ==> r.ctx.writes == GetRequestBody(ctx).ctx.writes
    ensures !r.ok ==> r.ctx.writes == GetRequestBody(ctx).ctx.writes + [Write(StatusForbidden, UnacceptableSignature)]
  {
    var captured := GetRequestBody(ctx);
    var header := Get(captured.ctx.request.header, SignatureHeader);
    if !Signature.Matches(mac, secret, captured.body, header) then
      Checked(false, captured.body, captured.ctx.Respond(StatusForbidden, UnacceptableSignature))
    else
      Checked(true, captured.body, captured.ctx)
  }

  /**
   The result of handling one delivery: the final context, the body the
   signature was checked against (None when `CheckSecret` never ran), whether
   the event's domain action ran, and the bytes the push handler bound.
   */
  datatype Outcome = Outcome(ctx: Context, hashed: Option<seq<byte>>, actionRan: bool, bound: Option<seq<byte>>)

  /** The push handler after `CheckSecret`: bind the payload from the replaced body. */
  function PushGate(c: Checked): (o: Outcome)
    ensures o.hashed == Some(c.hashed)
    ensures o.actionRan <==> c.ok
    ensures o.actionRan <==> o.bound.Some?
    ensures c.ok ==> o.bound == Some(c.ctx.request.body.pending) && o.ctx.writes == c.ctx.writes
    ensures !c.ok ==> o.ctx == c.ctx
  {
    if c.ok then
      var read := ReadAll(c.ctx.request.body);
      Outcome(c.ctx.(request := c.ctx.request.(body := read.rest)), Some(c.hashed), true, Some(read.data))
    else
      Outcome(c.ctx, Some(c.hashed), false, None)
  }

  /** The pull_request handler after `CheckSecret`: acknowledge, whatever the payload. */
  function PullRequestGate(c: Checked): (o: Outcome)
    ensures o.hashed == Some(c.hashed) && o.bound == None
    ensures o.actionRan <==> c.ok
    ensures c.ok ==> o.ctx == c.ctx.Respond(StatusOK, PullRequestHandled)
    ensures !c.ok ==> o.ctx == c.ctx
  {
    if c.ok then Outcome(c.ctx.Respond(StatusOK, PullRequestHandled), Some(c.hashed), true, None)
    else Outcome(c.ctx, Some(c.hashed), false, None)
  }

  function HandlePush(mac: Signature.Mac, secret: seq<byte>, ctx: Context): (o: Outcome)
    ensures o.hashed == Some(if ctx.request.body.failure.None? then ctx.request.body.pending else [])
    ensures o.actionRan <==> Signature.Matches(mac, secret, o.hashed.value, Get(ctx.request.header, SignatureHeader))
    ensures o.actionRan <==> o.bound.Some?
    ensures o.actionRan ==> o.bound == o.hashed
    ensures o.actionRan ==> o.ctx.writes == GetRequestBody(ctx).ctx.writes
    ensures !o.actionRan ==>
              o.ctx.writes == GetRequestBody(ctx).ctx.writes + [Write(StatusForbidden, UnacceptableSignature)]
  {
    PushGate(CheckSecret(mac, secret, ctx))
  }

  function HandlePullRequest(mac: Signature.Mac, secret: seq<byte>, ctx: Context): (o: Outcome)
    ensures o.hashed == Some(if ctx.request.body.failure.None? then ctx.request.body.pending else [])
    ensures o.actionRan <==> Signature.Matches(mac, secret, o.hashed.value, Get(ctx.request.header, SignatureHeader))
    ensures o.bound == None
    ensures o.actionRan ==>
              o.ctx.writes == GetRequestBody(ctx).ctx.writes + [Write(StatusOK, PullRequestHandled)]
    ensures !o.actionRan ==>
              o.ctx.writes == GetRequestBody(ctx).ctx.writes + [Write(StatusForbidden, UnacceptableSignature)]
  {
    PullRequestGate(CheckSecret(mac, secret, ctx))
  }

  /** The events the route recognises; matching is exact and case-sensitive. */
  datatype Event = Push | PullRequest | Unsupported

  function EventOf(ctx: Context): (e: Event)
    ensures e == Push <==> Get(ctx.request.header, EventHeader) == Ascii("push")
    ensures e == PullRequest <==> Get(ctx.request.header, EventHeader) == Ascii("pull_request")
  {
    var event := Get(ctx.request.header, EventHeader);
    if event == Ascii("push") then Push
    else if event == Ascii("pull_request") then PullRequest
    else Unsupported
  }

  /** The POST /handle route. */
  function Handle(mac: Signature.Mac, secret: seq<byte>, ctx: Context): (o: Outcome)
    ensures o.hashed.Some? <==> Get(ctx.request.header, EventHeader) in {Ascii("push"), Ascii("pull_request")}
    ensures o.hashed.None? ==>
              o.ctx == ctx.Respond(StatusBadRequest, UnsupportedEvent) && !o.actionRan && o.bound == None
    ensures o.hashed.Some? ==>
              o.hashed.value == (if ctx.request.body.failure.None? then ctx.request.body.pending else [])
    ensures o.actionRan <==>
              o.hashed.Some? && Signature.Matches(mac, secret, o.hashed.value, Get(ctx.request.header, SignatureHeader))
    ensures o.hashed.Some? && !o.actionRan ==>
              o.ctx.writes == GetRequestBody(ctx).ctx.writes + [Write(StatusForbidden, UnacceptableSignature)]
    ensures o.actionRan && Get(ctx.request.header, EventHeader) == Ascii("push") ==>
              o.ctx.writes == GetRequestBody(ctx).ctx.writes && o.bound == o.hashed
    ensures o.actionRan && Get(ctx.request.header, EventHeader) == Ascii("pull_request") ==>
              o.ctx.writes == GetRequestBody(ctx).ctx.writes + [Write(StatusOK, PullRequestHandled)]
    ensures o.bound.Some? ==> Get(ctx.request.header, EventHeader) == Ascii("push") && o.actionRan
  {
    match EventOf(ctx)
    case Push => HandlePush(mac, secret, ctx)
    case PullRequest => HandlePullRequest(mac, secret, ctx)
    case Unsupported => Outcome(ctx.Respond(StatusBadRequest, UnsupportedEvent), None, false, None)
  }

  /**
   `CheckSecret` as it evidently should behave: a body that cannot be read is
   not authenticated at all, instead of being authenticated as the empty body.
   */
  function CheckSecretFailClosed(mac: Signature.Mac, secret: seq<byte>, ctx: Context): (r: Checked)
    ensures ctx.request.body.failure.Some? ==>
              !r.ok && r.ctx.writes == ctx.writes + [Write(StatusInternalServerError, ctx.request.body.failure.value)]
    ensures ctx.request.body.failure.None? ==> r == CheckSecret(mac, secret, ctx)
    ensures r.ok ==> r.hashed == ctx.request.body.pending
  {
    var captured := GetRequestBody(ctx);
    if ctx.request.body.failure.Some? then Checked(false, captured.body, captured.ctx)
    else CheckSecret(mac, secret, ctx)
  }

  /** The /handle route built on `CheckSecretFailClosed`. */
  function HandleFailClosed(mac: Signature.Mac, secret: seq<byte>, ctx: Context): (o: Outcome)
    ensures o.actionRan ==>
              && ctx.request.body.failure.None?
              && o.hashed == Some(ctx.request.body.pending)
              && Signature.Matches(mac, secret, ctx.request.body.pending, Get(ctx.request.header, SignatureHeader))
    ensures ctx.request.body.failure.None? ==> o == Handle(mac, secret, ctx)
  {
    match EventOf(ctx)
    case Push => PushGate(CheckSecretFailClosed(mac, secret, ctx))
    case PullRequest => PullRequestGate(CheckSecretFailClosed(mac, secret, ctx))
    case Unsupported => Outcome(ctx.Respond(StatusBadRequest, UnsupportedEvent), None, false, None)
  }
}
