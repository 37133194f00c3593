/**
 Properties of the /handle route that relate the signature a sender computes
 to what the route does with the delivery.
 */
module WebhookProperties {
  import opened Wrappers
  import opened Bytes
  import opened Http
  import Signature
  import Hex
  import opened Webhook

  /** Round trip: a pull_request signed with the shared secret over its own body is acknowledged. */
  lemma SignedPullRequestAcknowledged(mac: Signature.Mac, secret: seq<byte>, ctx: Context)
    requires EventOf(ctx) == PullRequest
    requires ctx.request.body.failure.None?
    requires Get(ctx.request.header, SignatureHeader) == Signature.Expected(mac, secret, ctx.request.body.pending)
    ensures Handle(mac, secret, ctx).actionRan
    ensures Handle(mac, secret, ctx).ctx.writes == ctx.writes + [Write(StatusOK, PullRequestHandled)]
  {
  }

  /**
   Round trip for push: a correctly signed push runs its action, and the bytes
   bound as the payload are exactly the bytes that were authenticated.
   */
  lemma SignedPushBindsAuthenticatedBytes(mac: Signature.Mac, secret: seq<byte>, ctx: Context)
    requires EventOf(ctx) == Push
    requires ctx.request.body.failure.None?
    requires Get(ctx.request.header, SignatureHeader) == Signature.Expected(mac, secret, ctx.request.body.pending)
    ensures Handle(mac, secret, ctx).actionRan
    ensures Handle(mac, secret, ctx).hashed == Some(ctx.request.body.pending)
    ensures Handle(mac, secret, ctx).bound == Some(ctx.request.body.pending)
    ensures Handle(mac, secret, ctx).ctx.writes == ctx.writes
  {
  }

  /**
   Fail closed: a recognised event whose signature header is absent, not 45
   bytes long or not prefixed by "sha1=" is answered 403 after the body has
   been captured, and its action does not run, whether or not the body read.
   */
  lemma MalformedSignatureRejected(mac: Signature.Mac, secret: seq<byte>, ctx: Context)
    requires EventOf(ctx) != Unsupported
    requires var h := Get(ctx.request.header, SignatureHeader);
             |h| != Signature.SignatureLength || h[..|Signature.Prefix|] != Signature.Prefix
    ensures !Handle(mac, secret, ctx).actionRan
    ensures Handle(mac, secret, ctx).ctx.writes ==
              GetRequestBody(ctx).ctx.writes + [Write(StatusForbidden, UnacceptableSignature)]
  {
  }

  /**
   A well-formed but forged header, "sha1=" and forty zeros, is answered 403
   for any body whose MAC is not the all-zero digest.
   */
  lemma ZeroSignatureRejected(mac: Signature.Mac, secret: seq<byte>, ctx: Context)
    requires EventOf(ctx) != Unsupported
    requires ctx.request.body.failure.None?
    requires mac(secret, ctx.request.body.pending) != seq(Signature.DigestLength, _ => 0)
    requires Get(ctx.request.header, SignatureHeader) ==
               Signature.Prefix + seq(2 * Signature.DigestLength, _ => 0x30)
    ensures !Handle(mac, secret, ctx).actionRan
    ensures Handle(mac, secret, ctx).ctx.writes == ctx.writes + [Write(StatusForbidden, UnacceptableSignature)]
  {
  }

  /**
   A signature computed over a different body (one whose MAC differs) is
   answered 403, whichever recognised event carries it.
   */
  lemma TamperedBodyRejected(mac: Signature.Mac, secret: seq<byte>, ctx: Context, signed: seq<byte>)
    requires EventOf(ctx) != Unsupported
    requires ctx.request.body.failure.None?
    requires mac(secret, signed) != mac(secret, ctx.request.body.pending)
    requires Get(ctx.request.header, SignatureHeader) == Signature.Expected(mac, secret, signed)
    ensures !Handle(mac, secret, ctx).actionRan
    ensures Handle(mac, secret, ctx).ctx.writes == ctx.writes + [Write(StatusForbidden, UnacceptableSignature)]
  {
  }

  /** The pull_request acknowledgement does not depend on the payload. */
  lemma PullRequestIgnoresPayload(mac: Signature.Mac, secret: seq<byte>, ctx1: Context, ctx2: Context)
    requires EventOf(ctx1) == PullRequest && EventOf(ctx2) == PullRequest
    requires ctx1.writes == ctx2.writes
    requires ctx1.request.body.failure.None? && ctx2.request.body.failure.None?
    requires Get(ctx1.request.header, SignatureHeader) == Signature.Expected(mac, secret, ctx1.request.body.pending)
    requires Get(ctx2.request.header, SignatureHeader) == Signature.Expected(mac, secret, ctx2.request.body.pending)
    ensures Handle(mac, secret, ctx1).ctx.writes == Handle(mac, secret, ctx2).ctx.writes
  {
  }

  /**
   As written, a body that fails to read is authenticated as the empty body:
   a pull_request whose header carries the signature of the empty body is
   acknowledged after the 500 has already been written.
   */
  lemma ReadFailureAuthenticatesEmptyBody(mac: Signature.Mac, secret: seq<byte>, ctx: Context)
    requires EventOf(ctx) == PullRequest
    requires ctx.request.body.failure.Some?
    requires Get(ctx.request.header, SignatureHeader) == Signature.Expected(mac, secret, [])
    ensures Handle(mac, secret, ctx).actionRan
    ensures Handle(mac, secret, ctx).ctx.writes ==
              ctx.writes + [Write(StatusInternalServerError, ctx.request.body.failure.value),
                            Write(StatusOK, PullRequestHandled)]
  {
  }

  /** With the fail-closed check, no action runs on a body that failed to read. */
  lemma FailClosedRejectsReadFailure(mac: Signature.Mac, secret: seq<byte>, ctx: Context)
    requires ctx.request.body.failure.Some?
    ensures !HandleFailClosed(mac, secret, ctx).actionRan
    ensures EventOf(ctx) != Unsupported ==>
              HandleFailClosed(mac, secret, ctx).ctx.writes ==
                ctx.writes + [Write(StatusInternalServerError, ctx.request.body.failure.value)]
  {
  }
}
