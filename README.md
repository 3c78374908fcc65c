# Basic-auth mapping mediator: the relay handler, in Dafny

This project models the request handler of an OpenHIM mediator that relays every
inbound HTTP request to one configured upstream service. For each request the
handler:

1. reads the `x-openhim-clientid` header and scans the configured `mapping` table
   (`clientID`, `username`, `password` entries) without early exit, so the last
   matching entry is selected;
2. builds the forwarded request: the inbound method and body unchanged, the
   upstream URL with only its pathname replaced by the inbound path, and the
   inbound header dictionary itself (shared, not copied);
3. when a mapping was found, writes `Authorization: Basic <base64 of
   username:password>` (section 2 of RFC 7617, base64 of section 4 of RFC 4648,
   over the UTF-8 bytes of the text) into that dictionary in place;
4. sends the request once and answers OpenHIM with content type
   `application/json+openhim`: a `Failed`/500 envelope with the error message on
   a transport error, or a `Successful`/200 envelope with the upstream headers and
   body and exactly one orchestration record on any completed exchange, whatever
   the upstream status code.

Modules, one per component:

- `Wrappers`, `Bytes`: the optional value and the octet type.
- `Utf8`: how `new Buffer(text)` encodes a string and how `buffer.toString()`
  decodes bytes (U+FFFD for each maximal ill-formed subpart), with the round trip.
- `Base64`: the encoder of section 4 of RFC 4648, a strict canonical decoder, and
  round trips in both directions.
- `CredentialMapper`: the mapping entry, the last-match specification and the
  scanning loop.
- `Relay`: URL, headers, body, upstream outcome and envelope records; the
  `Authorization` override; the forwarded request; the response envelope; and
  `Handle`, the handler itself, which mutates the inbound header dictionary in
  place through the alias held by `options`.

Behaviour worth knowing, all modelled as the code does it:

- Node.js lower-cases inbound header names, but the handler writes the key
  `Authorization` with a capital A. An inbound `authorization` entry therefore
  stays in the dictionary beside the new one, and the orchestration record shows
  both. The model keeps the two keys distinct.
- Express's `req.path` has no query string, so the inbound query is never
  forwarded; the upstream URL's own query and fragment are kept.
- When the body parser read nothing, `req.body` is its placeholder `{}` and the
  orchestration record's request body is `"[object Object]"` (`Body.Unparsed`).
- An absent client-ID header matches no entry, since every entry's `clientID` is
  a string.

When several entries share a client ID, the last one wins; the model keeps that.

## Model

| member | source | states |
|---|---|---|
| CredentialMapper.LastMatch | lib/index.js:31-39 | the selected index is a matching entry with no matching entry after it; none means no entry matches |
| CredentialMapper.FindMapping | lib/index.js:32-39 | the full scan returns the last matching entry; it returns a mapping exactly when the table exists and some entry matches, and that mapping is a matching entry of the table |
| CredentialMapper.LastMatchWins | lib/index.js:34-38 | a matching entry with no matching entry after it is selected, whatever matching entries come before it |
| Relay.Authorize | lib/index.js:46-51 | without a mapping the headers are the inbound ones exactly; with one, `Authorization` is set to the mapping's credential, replacing any value, and every other entry is unchanged |
| Relay.ForwardedUrl | lib/index.js:41-44 | the forwarded URL has the inbound path as pathname and agrees with the upstream URL in every other component |
| Relay.Forward | lib/index.js:41-51 | method and body are the inbound ones; the URL differs from the upstream only in pathname; without a mapping the headers are unchanged; with one, `Authorization` carries the credential whose base64 part decodes to exactly `username:password`, and all other headers are unchanged |
| Relay.CredentialDecodes | lib/index.js:50 | the credential starts with "Basic ", and the rest is canonical base64 of the UTF-8 bytes of `username:password`, which decode back to that text |
| Relay.CredentialParses | lib/index.js:50 | a server reading the credential per RFC 7617 recovers the configured username and password, whenever the username has no colon |
| Relay.SplitAtColon | lib/index.js:50 | splitting `username:password` at its first colon gives back the two parts joined by the colon, the first with no colon |
| Relay.SplitAtFirstColon | lib/index.js:50 | a username without a colon is split off exactly from `username:password` |
| Relay.MappedClientExample | lib/index.js:41-51 | GET /patients/123 from clinicA mapped to u/p goes to the upstream host at /patients/123 with `Authorization: Basic dTpw` and no other change |
| Relay.Respond | lib/index.js:54-73 | the reply has the OpenHIM content type; a transport error gives `Failed`, 500, no headers, the error message and no orchestrations; a completed exchange gives `Successful`, 200, the upstream headers and body, and one record of the forwarded method, URL, headers, body text and the upstream status code, headers and body |
| Relay.RespondRecovers | lib/index.js:56-73 | the upstream outcome (error message, or status code, headers and body) is read back unchanged from the reply |
| Relay.HeaderMap.Put | lib/index.js:50 | the dictionary afterwards is the old one with that one key set |
| Relay.Handle | lib/index.js:28-75 | `options.headers` is the inbound request's own dictionary; after the call it holds the forwarded headers of `Forward`; URL, method and body are `Forward`'s; the reply is `Respond` of the forwarded request and the upstream outcome |
| Base64.Encode | lib/index.js:50 | the text has four characters per started group of three octets |
| Base64.ValueOf | lib/index.js:50 | a character the decoder accepts is the one the alphabet assigns to its value |
| Base64.DecodeEncode | lib/index.js:50 | decoding the encoding of any byte sequence gives that sequence back |
| Base64.EncodeDecode | lib/index.js:50 | any text the decoder accepts is exactly the encoding of what it decodes to |
| Utf8.Encode | lib/index.js:50 | each character takes one to four bytes |
| Utf8.Decode | lib/index.js:65 | decoding never fails and yields at most one character per byte |
| Utf8.DecodeEncode | lib/index.js:50 | decoding the UTF-8 encoding of any string gives that string back |

## Left out

- The upstream call itself (`request(options, …)`, lib/index.js:54) is network I/O: its outcome is an input of `Handle` and `Respond`, either a transport error with its message or a completed exchange with status code, headers and body.
- The timestamp `new Date().getTime()` (lib/index.js:65) is the `now` parameter; the mediator URN (`mediatorConfig.urn`) is the `urn` parameter.
- `console.log` output, the `NODE_TLS_REJECT_UNAUTHORIZED` switch, Express and body-parser wiring, `app.listen`, registration, configuration fetching, the heartbeat and configuration updates (lib/index.js:85-132) are bootstrap and I/O; `Handle` reads one configuration snapshot.
- `url.parse` and `url.format` are library code: the upstream URL is a record of the components `url.format` writes, and the forwarded URL is that record, not its text.
- `utils.buildReturnObject` and `utils.buildOrchestration` are not part of this model: they are records whose fields are exactly the arguments passed to them, and the JSON serialisation done by `res.send` is not modelled.
- Relay.ClientId: assumes inbound header names are already lower-case, as Node.js delivers them, and does not model the joining of repeated headers.
- Node.js response headers whose values are arrays (such as `set-cookie`) are modelled as single strings.
- Utf8.Encode: JavaScript strings may hold lone UTF-16 surrogates, which `Buffer` encodes as U+FFFD; the model's strings hold Unicode scalar values only.
- Configuration entries are assumed to have string `clientID`, `username` and `password` fields; an entry lacking one (which JavaScript would compare as `undefined` or render as the text "undefined") is not modelled.
- The configuration is assumed well-formed: `upstreamURL` a URL string and `mapping` absent or an array. Otherwise the handler throws before sending anything (`url.parse` on a missing or non-string URL at lib/index.js:41, `.forEach` on a non-array mapping at lib/index.js:34), and Express answers with its own 500 error page instead of an OpenHIM envelope; `Config` cannot represent such a configuration, so that path is not modelled.
- Concurrency between in-flight requests and configuration replacement during a request are not modelled.
