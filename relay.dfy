/** The catch-all request handler of the mediator: it looks up the caller's
    credentials, forwards the request upstream with the `Authorization` header
    overridden when a mapping was found, and wraps the upstream outcome in the
    OpenHIM response envelope. */
module Relay {
  import opened Wrappers
  import opened Bytes
  import Utf8
  import Base64
  import opened CredentialMapper

  /** Node.js lower-cases inbound header names, so this is the key `req.get` reads. */
  const ClientIdHeader: string := "x-openhim-clientid"
  /** The key the handler writes; note the capital A. */
  const AuthorizationHeader: string := "Authorization"
  const BasicPrefix: string := "Basic "
  const ContentType: string := "application/json+openhim"
  const OrchestrationName: string := "Upstream request"

  /** The components of a parsed URL that `url.format` writes back. */
  datatype Url = Url(protocol: string, auth: string, host: string, pathname: string, search: string, hash: string)

  /** The configuration snapshot one request reads: `upstreamURL` (already parsed)
      and the optional `mapping` table. */
  datatype Config = Config(upstreamURL: Url, mapping: Option<seq<Mapping>>)

  /** `req.body` after the raw body parser: the bytes it read, or the empty
      placeholder object it leaves when it parsed nothing. */
  datatype Body = Raw(bytes: seq<byte>) | Unparsed

  /** The header dictionary of a request, updated in place. */
  class HeaderMap {
    var fields: map<string, string>

    constructor (fields: map<string, string>)
      ensures this.fields == fields
    {
      this.fields := fields;
    }

    /** `headers[name] = value`. */
    method Put(name: string, value: string)
      modifies this
      ensures fields == old(fields)[name := value]
    {
      fields := fields[name := value];
    }
  }

  /** The inbound request: method, path (without query string), headers, body. */
  datatype Request = Request(httpMethod: string, path: string, headers: HeaderMap, body: Body)

  /** The `options` object handed to `request`; its `headers` is the inbound
      request's own dictionary, not a copy. */
  datatype Options = Options(url: Url, httpMethod: string, headers: HeaderMap, body: Body)

  /** The value of a forwarded request, as it is sent and recorded. */
  datatype Forwarded = Forwarded(url: Url, httpMethod: string, headers: map<string, string>, body: Body)

  /** What the single upstream call produced. */
  datatype UpstreamResult =
    | TransportError(message: string)
    | Completed(statusCode: int, headers: map<string, string>, body: string)

  datatype Status = Successful | Failed

  datatype OrchestrationResponse = OrchestrationResponse(statusCode: int, headers: map<string, string>)

  /** The record `buildOrchestration` makes from its arguments, in order. */
  datatype Orchestration = Orchestration(
    name: string, startTime: int, httpMethod: string, url: Url, headers: map<string, string>,
    body: string, response: OrchestrationResponse, responseBody: string)

  /** The record `buildReturnObject` makes from its arguments, in order; the
      orchestrations argument is omitted on the failure path. */
  datatype ReturnObject = ReturnObject(
    urn: string, status: Status, statusCode: int, headers: map<string, string>,
    body: string, orchestrations: Option<seq<Orchestration>>)

  /** What is sent back to OpenHIM: the content type set on the response and the payload. */
  datatype Reply = Reply(contentType: string, payload: ReturnObject)

  /** `req.get('x-openhim-clientid')`: the header's value, or absent. */
  function ClientId(headers: map<string, string>): Option<string>
  {
    if ClientIdHeader in headers then Some(headers[ClientIdHeader]) else None
  }

  /** The HTTP Basic credential of section 2 of RFC 7617 for a mapping: "Basic "
      and the base64 of the UTF-8 bytes of `username:password`. */
  function Credential(m: Mapping): string
  {
    BasicPrefix + Base64.Encode(Utf8.Encode(m.username + ":" + m.password))
  }

  /** Splits a user-pass at its first colon, as section 2 of RFC 7617 reads it. */
  function SplitAtColon(s: string): (r: Option<(string, string)>)
    ensures r.Some? ==> r.value.0 + ":" + r.value.1 == s && ':' !in r.value.0
    ensures r.None? ==> ':' !in s
  {
    if s == [] then None
    else if s[0] == ':' then Some(([], s[1..]))
    else
      match SplitAtColon(s[1..])
      case None => None
      case Some((user, pass)) => Some(([s[0]] + user, pass))
  }

  /** How the upstream server reads an `Authorization` value back into a user-id
      and a password: the "Basic " scheme, base64, UTF-8, the first colon. */
  function ParseCredential(value: string): Option<(string, string)>
  {
    if |value| < |BasicPrefix| || value[..|BasicPrefix|] != BasicPrefix then None
    else
      match Base64.Decode(value[|BasicPrefix|..])
      case None => None
      case Some(bytes) => SplitAtColon(Utf8.Decode(bytes))
  }

  lemma {:induction false} SplitAtFirstColon(user: string, pass: string)
    requires ':' !in user
    ensures SplitAtColon(user + ":" + pass) == Some((user, pass))
  {
    if user != [] {
      var s := user + ":" + pass;
      assert s[0] == user[0] != ':';
      assert s[1..] == user[1..] + ":" + pass;
      SplitAtFirstColon(user[1..], pass);
      assert [user[0]] + user[1..] == user;
    }
  }

  /** The text after "Basic " is canonical base64 whose bytes decode to exactly
      `username:password`. */
  lemma CredentialDecodes(m: Mapping)
    ensures var c := Credential(m);
      && |c| >= |BasicPrefix| && c[..|BasicPrefix|] == BasicPrefix
      && Base64.Decode(c[|BasicPrefix|..]) == Some(Utf8.Encode(m.username + ":" + m.password))
      && Utf8.Decode(Base64.Decode(c[|BasicPrefix|..]).value) == m.username + ":" + m.password
  {
    var text := m.username + ":" + m.password;
    var c := Credential(m);
    assert c[|BasicPrefix|..] == Base64.Encode(Utf8.Encode(text));
    Base64.DecodeEncode(Utf8.Encode(text));
    Utf8.DecodeEncode(text);
  }

  /** A server recovers the configured user-id and password from the credential,
      whenever the user-id has no colon (as RFC 7617 requires of it). */
  lemma CredentialParses(m: Mapping)
    requires ':' !in m.username
    ensures ParseCredential(Credential(m)) == Some((m.username, m.password))
  {
    CredentialDecodes(m);
    SplitAtFirstColon(m.username, m.password);
  }

  /** The forwarded headers: the inbound ones, with `Authorization` overwritten
      when a mapping was found; every other entry, including a lower-case
      `authorization`, passes through unchanged. */
  function Authorize(headers: map<string, string>, found: Option<Mapping>): (r: map<string, string>)
    ensures found.None? ==> r == headers
    ensures found.Some? ==> r.Keys == headers.Keys + {AuthorizationHeader}
    ensures found.Some? ==> r[AuthorizationHeader] == Credential(found.value)
    ensures forall k :: k in headers && k != AuthorizationHeader ==> r[k] == headers[k]
  {
    if found.Some? then headers[AuthorizationHeader := Credential(found.value)] else headers
  }

  /** The upstream URL with its pathname replaced by the inbound path; protocol,
      credentials, host, query and fragment stay the upstream's. */
  function ForwardedUrl(upstream: Url, path: string): (u: Url)
    ensures u.pathname == path
    ensures u.(pathname := upstream.pathname) == upstream
  {
    upstream.(pathname := path)
  }

  /** The request the handler sends upstream for an inbound request, given the
      inbound header map before the override. */
  function Forward(config: Config, httpMethod: string, path: string, headers: map<string, string>, body: Body): (f: Forwarded)
    ensures f.httpMethod == httpMethod && f.body == body
    ensures f.url.pathname == path && f.url.(pathname := config.upstreamURL.pathname) == config.upstreamURL
    ensures Select(ClientId(headers), config.mapping).None? ==> f.headers == headers
    ensures Select(ClientId(headers), config.mapping).Some? ==>
      var m := Select(ClientId(headers), config.mapping).value;
      && f.headers.Keys == headers.Keys + {AuthorizationHeader}
      && f.headers[AuthorizationHeader] == Credential(m)
      && |f.headers[AuthorizationHeader]| >= |BasicPrefix|
      && Base64.Decode(f.headers[AuthorizationHeader][|BasicPrefix|..]).Some?
      && Utf8.Decode(Base64.Decode(f.headers[AuthorizationHeader][|BasicPrefix|..]).value) == m.username + ":" + m.password
    ensures forall k :: k in headers && k != AuthorizationHeader ==> f.headers[k] == headers[k]
  {
    var found := Select(ClientId(headers), config.mapping);
    var f := Forwarded(ForwardedUrl(config.upstreamURL, path), httpMethod, Authorize(headers, found), body);
    if found.Some? then CredentialDecodes(found.value); f else f
  }

  /** A worked case: a GET for /patients/123 from clinicA, mapped to user "u" and
      password "p", goes to the upstream host with `Authorization: Basic dTpw`. */
  lemma MappedClientExample()
    ensures var upstream := Url("http:", "", "ups:8080", "/", "", "");
      var config := Config(upstream, Some([Mapping("clinicA", "u", "p")]));
      var f := Forward(config, "GET", "/patients/123", map[ClientIdHeader := "clinicA"], Unparsed);
      && f.url == Url("http:", "", "ups:8080", "/patients/123", "", "")
      && f.headers == map[ClientIdHeader := "clinicA", AuthorizationHeader := "Basic dTpw"]
  {
    var m := Mapping("clinicA", "u", "p");
    var headers := map[ClientIdHeader := "clinicA"];
    assert ClientId(headers) == Some("clinicA");
    assert LastMatch(Some("clinicA"), [m]) == Some(0);
    assert "u" + ":" + "p" == "u:p";
    assert Utf8.Encode("u:p") == [117, 58, 112];
    assert Base64.Encode([117, 58, 112]) == "dTpw";
    assert Credential(m) == "Basic dTpw";
  }

  /** `options.body.toString()`: the bytes read as UTF-8, or the placeholder
      object's default string. */
  function BodyText(body: Body): string
  {
    match body
    case Raw(bytes) => Utf8.Decode(bytes)
    case Unparsed => "[object Object]"
  }

  /** The shape every reply has: the OpenHIM content type, and a tag that fixes
      the status code and the number of orchestration records. */
  predicate WellFormed(r: Reply)
  {
    && r.contentType == ContentType
    && match r.payload.status
       case Failed =>
         r.payload.statusCode == 500 && r.payload.headers == map[] && r.payload.orchestrations == None
       case Successful =>
         && r.payload.statusCode == 200
         && r.payload.orchestrations.Some? && |r.payload.orchestrations.value| == 1
         && r.payload.orchestrations.value[0].response.headers == r.payload.headers
         && r.payload.orchestrations.value[0].responseBody == r.payload.body
  }

  /** The response callback: a transport error becomes a `Failed` envelope; any
      completed exchange, whatever its status code, a `Successful` one carrying
      the upstream headers and body and one record of the forwarded request. */
  function Respond(urn: string, now: int, f: Forwarded, outcome: UpstreamResult): (r: Reply)
    ensures WellFormed(r) && r.payload.urn == urn
    ensures r.payload.status == Failed <==> outcome.TransportError?
    ensures outcome.TransportError? ==> r.payload.body == outcome.message
    ensures outcome.Completed? ==>
      && r.payload.headers == outcome.headers && r.payload.body == outcome.body
      && r.payload.orchestrations.value[0]
         == Orchestration(OrchestrationName, now, f.httpMethod, f.url, f.headers, BodyText(f.body),
                          OrchestrationResponse(outcome.statusCode, outcome.headers), outcome.body)
  {
    match outcome
    case TransportError(message) =>
      Reply(ContentType, ReturnObject(urn, Failed, 500, map[], message, None))
    case Completed(statusCode, headers, body) =>
      var record := Orchestration(OrchestrationName, now, f.httpMethod, f.url, f.headers, BodyText(f.body),
                                  OrchestrationResponse(statusCode, headers), body);
      Reply(ContentType, ReturnObject(urn, Successful, 200, headers, body, Some([record])))
  }

  /** What OpenHIM can read back from a well-formed reply about the upstream call. */
  function Recover(r: Reply): UpstreamResult
    requires WellFormed(r)
  {
    match r.payload.status
    case Failed => TransportError(r.payload.body)
    case Successful =>
      Completed(r.payload.orchestrations.value[0].response.statusCode, r.payload.headers, r.payload.body)
  }

  /** The envelope loses nothing about the upstream outcome: the error message, or
      the upstream status code, headers and body, are all read back from it. */
  lemma RespondRecovers(urn: string, now: int, f: Forwarded, outcome: UpstreamResult)
    ensures Recover(Respond(urn, now, f, outcome)) == outcome
  {
  }

  /** The handler for one inbound request. The lookup scans the mapping table;
      the override writes into the inbound request's own header dictionary,
      which `options` shares; the upstream outcome is given. */
  method Handle(config: Config, req: Request, urn: string, now: int, outcome: UpstreamResult)
    returns (options: Options, reply: Reply)
    modifies req.headers
    ensures options.headers == req.headers
    ensures var f := Forward(config, req.httpMethod, req.path, old(req.headers.fields), req.body);
      && options.url == f.url && options.httpMethod == f.httpMethod && options.body == f.body
      && req.headers.fields == f.headers
      && reply == Respond(urn, now, f, outcome)
  {
    var clientId := ClientId(req.headers.fields);
    var mapping := FindMapping(clientId, config.mapping);
    options := Options(ForwardedUrl(config.upstreamURL, req.path), req.httpMethod, req.headers, req.body);
    if mapping.Some? {
      options.headers.Put(AuthorizationHeader, Credential(mapping.value));
    }
    reply := Respond(urn, now, Forwarded(options.url, options.httpMethod, options.headers.fields, options.body), outcome);
  }
}
