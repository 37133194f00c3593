# zenit webhook receiver: authentication and dispatch

zenit receives webhook deliveries from GitHub on `POST /handle`. For each
delivery it reads the request body once into a buffer and puts a fresh reader
over the same bytes back on the request (`GetRequestBody`). It authenticates
the delivery by comparing the `X-Hub-Signature` header with `"sha1="` followed
by the lower-case hex of HMAC-SHA1(secret, body) (`CheckSecret`). It then
dispatches on the `X-Github-Event` header: `push` and `pull_request` go to
handlers that run `CheckSecret` first, and any other event is answered 400
without checking the signature.

This project models that core as pure Dafny functions:

- `bytes.dfy`: Go byte strings as `seq<byte>` (`byte` is an integer from 0 to 255), plus `Ascii`
  for the program's literals. It also holds a small `Option` type.
- `hex.dfy`: `Hex.Encode` (what `hex.EncodeToString` produces) and its
  inverse `Hex.Decode`, proved to be inverses in both directions.
- `signature.dfy`: the signature scheme. HMAC-SHA1 (RFC 2104 over the SHA-1
  of FIPS 180-4) is a parameter `mac` of type `Mac`. Its results have the
  subset type `Digest` of 20-byte sequences, which is the only thing the model
  assumes about it.
- `http.dfy`: the net/http and gin pieces the handlers use. `Header.Get`
  returns `""` for an absent header. The body is a single-use stream that
  may end in a read error. Each `context.String(status, text)` call is
  recorded as a `Write` on the context.
- `webhook.dfy`: `GetRequestBody`, `CheckSecret`, the two handlers and the
  route. The result records the responses written, which body was hashed,
  whether the event's action ran, and which bytes the push handler bound.
- `properties.dfy`: lemmas that relate a correctly signed delivery to what
  the route does with it.

The secret (the `SECRET` environment variable, read on each check) and the
HMAC are parameters. The model keeps the list of `context.String` calls in
the order they happen. It does not model which status gin finally sends when
a handler writes twice.

## Model

| member | source | states |
|---|---|---|
| Hex.Encode | cmd/zenit/main.go:83 | the hex text has two characters per byte, all in `[0-9a-f]`, high nibble first then low nibble |
| Hex.DecodeEncode | cmd/zenit/main.go:83 | decoding the hex text of any byte sequence gives that sequence back |
| Hex.EncodeDecode | cmd/zenit/main.go:83 | any text that decodes is exactly the hex encoding of what it decodes to |
| Hex.DecodeIffEncode | cmd/zenit/main.go:83 | a text decodes to some bytes exactly when it is their hex encoding, in both directions |
| Hex.EncodeInjective | cmd/zenit/main.go:83 | two byte sequences with the same hex text are equal |
| Signature.Parse | cmd/zenit/main.go:83 | a header that parses to a digest is exactly `"sha1="` followed by that digest's lower-case hex encoding, so every byte after the prefix is in `[0-9a-f]` |
| Signature.Expected | cmd/zenit/main.go:80-83 | the expected signature is 45 bytes long, starts with `"sha1="`, has only lower-case hex digits after the prefix, and parses back to the HMAC of the secret and body |
| Signature.ParseIffExpected | cmd/zenit/main.go:80-85 | a header names the HMAC of the secret and body exactly when it equals the expected signature |
| Signature.Matches | cmd/zenit/main.go:85 | the comparison accepts exactly the headers that name the body's HMAC, and any accepted header is 45 bytes of `"sha1="` plus lower-case hex |
| Signature.RejectsTamperedBody | cmd/zenit/main.go:80-85 | a signature made for another body whose MAC differs is rejected |
| Signature.RejectsOtherSecret | cmd/zenit/main.go:80-85 | a signature made with another secret whose MAC differs is rejected |
| Webhook.GetRequestBody | cmd/zenit/main.go:55-66 | on a clean read, the returned bytes are the whole body, nothing is written, and the replacement reader yields exactly those bytes; on a read error, 500 is written with the error text, the returned body is empty, and the drained original body is left in place |
| Webhook.CheckSecret | cmd/zenit/main.go:74-90 | the hashed body is the captured body, or empty after a read error; the check passes exactly when the signature header names the HMAC of that body; a missing header never passes; a failure appends 403 "Unacceptable X-Hub-Signature HTTP header" and a pass writes nothing more |
| Webhook.HandlePush | cmd/zenit/main.go:105-109 | the push action runs exactly when the header names the HMAC of the hashed body; it then binds exactly the hashed bytes and writes nothing after the capture; otherwise the only write after the capture is 403 "Unacceptable X-Hub-Signature HTTP header" and nothing is bound |
| Webhook.HandlePullRequest | cmd/zenit/main.go:129-136 | when the header names the HMAC of the hashed body, the only write after the capture is 200 "Handling a pull_request event"; otherwise it is 403 "Unacceptable X-Hub-Signature HTTP header"; nothing is bound |
| Webhook.Handle | cmd/zenit/main.go:154-164 | the signature is checked exactly when the event header is byte-for-byte `push` or `pull_request` (case-sensitive); any other event gets only 400 "Unsupported event in the X-Github-Event HTTP header" and no action; an action runs exactly when the event is recognised and the signature matches the captured body; a recognised event with a mismatch gets 403 after the capture; a matching pull_request gets 200 "Handling a pull_request event"; a matching push writes nothing more and binds exactly the hashed bytes |
| Webhook.CheckSecretFailClosed | cmd/zenit/main.go:56-60 | corrected check: a body read error makes the check fail after the 500, and a clean read behaves exactly like `CheckSecret` |
| Webhook.HandleFailClosed | cmd/zenit/main.go:154-164 | corrected route: an action runs only on a cleanly read body whose signature matches; on clean reads it agrees with `Handle` |
| WebhookProperties.SignedPullRequestAcknowledged | cmd/zenit/main.go:129-135 | a pull_request signed over its own body with the shared secret gets exactly one more write: 200 "Handling a pull_request event" |
| WebhookProperties.SignedPushBindsAuthenticatedBytes | cmd/zenit/main.go:106-108 | a correctly signed push runs its action and writes nothing up to the bind at line 108, and the bytes hashed and the bytes bound are both the original body |
| WebhookProperties.MalformedSignatureRejected | cmd/zenit/main.go:79-87 | for a recognised event, a signature header that is absent, not 45 bytes long or lacks `sha1=` gets 403 after the capture and no action, whether or not the body read |
| WebhookProperties.ZeroSignatureRejected | cmd/zenit/main.go:79-87 | the well-formed forgery `sha1=` plus forty zeros gets 403 and no action for any body whose MAC is not all zeros |
| WebhookProperties.TamperedBodyRejected | cmd/zenit/main.go:79-87 | a signature made over a different body whose MAC differs gets 403 and no action |
| WebhookProperties.PullRequestIgnoresPayload | cmd/zenit/main.go:129-135 | two correctly signed pull_request deliveries get the same response, whatever their payloads |
| WebhookProperties.ReadFailureAuthenticatesEmptyBody | cmd/zenit/main.go:56-60 | as written, a pull_request whose body fails to read but whose header signs the empty body is acknowledged, after 500 |
| WebhookProperties.FailClosedRejectsReadFailure | cmd/zenit/main.go:56-60 | with the corrected check, no action runs on a body that failed to read, and only the 500 is written |

## Left out

- The gin server, router setup, HTML templates, the `GET /` page and the
  environment and port handling in `main`: these are I/O plumbing. The secret
  is a parameter.
- HMAC-SHA1 internals: `mac` is any function with 20-byte results. So tamper
  detection and key sensitivity are proved only for inputs whose MACs
  differ. Without collision resistance, nothing stronger can be stated.
- The constant-time behaviour of `hmac.Equal`: timing cannot be expressed.
  The comparison is plain equality of byte sequences.
- Header name canonicalisation by `Header.Get`: the model's header map is
  keyed by canonical names.
- Close of the replacement reader (main.go:23-25): it returns nil and does
  nothing. No modelled operation closes the body, so it has no member.
- JSON binding and `binding:"required"` validation by gin's `context.Bind`
  (main.go:27-49, 108): this is library behaviour. The push action records
  the raw bytes it reads, not a decoded event. gin's `Bind` answers 400 when
  decoding or a required field fails, and the handler carries on. `Bind` is
  not modelled, so no such 400 appears in the model.
- The octokit status call in `HandlePush` (main.go:110-123): this is a network
  client. The push action is modelled up to binding the payload. On the
  failure path at line 118, `err.Error()` is called on the `err` from line
  110, which is nil there, so the handler panics. `gin.New()` installs no
  recovery middleware, so the connection is dropped without a 500. This is
  not modelled.
- `GetStatus` (main.go:92-102): it depends on `math/rand` and is placeholder
  scaffolding.
- Which status gin finally sends when a handler writes twice (500 then 403
  or 200): the model keeps every write in order and does not pick one.

## Findings

| source | as written | input that shows it | evidently intended | confidence | as-written member | corrected member |
|---|---|---|---|---|---|---|
| cmd/zenit/main.go:56-60 | `CheckSecret` ignores `GetRequestBody`'s read failure and hashes the nil body | a pull_request whose body read fails, with `X-Hub-Signature` = `"sha1="` + hex(HMAC(secret, "")) | a body that cannot be read is not authenticated, and no action runs | medium, not executed | WebhookProperties.ReadFailureAuthenticatesEmptyBody | Webhook.CheckSecretFailClosed |

`Webhook.Handle` follows the code as written. `Webhook.HandleFailClosed` is
the same route built on the corrected check. For a cleanly read body, the
two are proved equal.
