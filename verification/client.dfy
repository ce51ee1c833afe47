/** The REST client (dkdc-md-cli/src/client.rs): each logical operation is one
    request against a fixed base URL, and every response is normalised into
    either a JSON value or a classified error. The HTTP exchange itself is an
    input (`Exchange`): what came back, if anything. */
module Client {
  import opened Wrappers
  import opened Text
  import opened Json
  import opened Errors
  import opened PercentEncoding

  const BaseUrl: string := "https://api.motherduck.com"

  datatype Method = Get | Post | Put | Delete {
    function Name(): string {
      match this
      case Get => "GET"
      case Post => "POST"
      case Put => "PUT"
      case Delete => "DELETE"
    }
  }

  /** One HTTP request: GET and DELETE carry no body, POST and PUT a JSON one. */
  datatype Request = Request(verb: Method, path: string, body: Option<Value>)
  {
    /** The URL the request goes to. */
    function Url(): string {
      BaseUrl + path
    }
  }

  /** A constructed client; of its state only the credential is modelled. */
  datatype Client = Client(bearer: string)

  /** `MotherduckClient::new`: an empty token is refused; otherwise the client
      authenticates every request with `Bearer <token>`. */
  function NewClient(token: string): (r: Result<Client, Error>)
    ensures r.Success? <==> token != ""
    ensures r.Success? ==> |r.value.bearer| == 7 + |token|
                           && r.value.bearer[..7] == "Bearer " && r.value.bearer[7..] == token
    ensures r.Failure? ==> r.error == ClientTokenEmpty
  {
    if token == "" then Failure(ClientTokenEmpty) else Success(Client("Bearer " + token))
  }

  // ---------------------------------------------------------------- request bodies

  /** `CreateTokenRequest`, whose optional fields are left out of the JSON
      when they are `None`. */
  datatype CreateTokenRequest = CreateTokenRequest(name: string, ttl: Option<U64>, tokenType: Option<string>)

  /** The JSON serde writes for a `CreateTokenRequest`. */
  function CreateTokenJson(req: CreateTokenRequest): (v: Value)
    ensures v.Object?
    ensures v.fields.Keys == {"name"} + (if req.ttl.Some? then {"ttl"} else {})
                             + (if req.tokenType.Some? then {"token_type"} else {})
    ensures Index(v, "name") == Str(req.name)
    ensures req.ttl.Some? ==> Index(v, "ttl") == Int(req.ttl.value)
    ensures req.tokenType.Some? ==> Index(v, "token_type") == Str(req.tokenType.value)
  {
    var withName := map["name" := Str(req.name)];
    var withTtl := if req.ttl.Some? then withName["ttl" := Int(req.ttl.value)] else withName;
    var all := if req.tokenType.Some? then withTtl["token_type" := Str(req.tokenType.value)] else withTtl;
    Object(all)
  }

  /** Reading a `CreateTokenRequest` back from JSON, the way serde's derived
      `Deserialize` would: `name` is required, the others may be absent. */
  function ReadCreateTokenRequest(v: Value): Option<CreateTokenRequest> {
    match (AsStr(Index(v, "name")), Lookup(v, "ttl"), Lookup(v, "token_type"))
    case (Some(name), None, None) => Some(CreateTokenRequest(name, None, None))
    case (Some(name), Some(t), None) =>
      if AsU64(t).Some? then Some(CreateTokenRequest(name, AsU64(t), None)) else None
    case (Some(name), None, Some(k)) =>
      if k.Str? then Some(CreateTokenRequest(name, None, Some(k.s))) else None
    case (Some(name), Some(t), Some(k)) =>
      if AsU64(t).Some? && k.Str? then Some(CreateTokenRequest(name, AsU64(t), Some(k.s))) else None
    case _ => None
  }

  /** The serialised request carries every field it was built from. */
  lemma CreateTokenJsonRoundTrip(req: CreateTokenRequest)
    ensures ReadCreateTokenRequest(CreateTokenJson(req)) == Some(req)
  {
  }

  /** With no TTL and no token type the body is `{"name": ...}` alone. */
  lemma CreateTokenJsonNameOnly(name: string)
    ensures CreateTokenJson(CreateTokenRequest(name, None, None)) == Object(map["name" := Str(name)])
  {
  }

  /** The body of `set_duckling_config`: the three settings nested under
      `config`, `read_write` and `read_scaling`. */
  function DucklingConfigJson(rw: string, rs: string, flock: U32): (v: Value)
    ensures v.Object? && v.fields.Keys == {"config"}
    ensures Index(v, "config").Object?
            && Index(v, "config").fields.Keys == {"read_write", "read_scaling"}
    ensures Index(Index(v, "config"), "read_write") == Object(map["instance_size" := Str(rw)])
    ensures Index(Index(v, "config"), "read_scaling").Object?
            && Index(Index(v, "config"), "read_scaling").fields.Keys == {"instance_size", "flock_size"}
    ensures Index(Index(Index(v, "config"), "read_scaling"), "instance_size") == Str(rs)
    ensures Index(Index(Index(v, "config"), "read_scaling"), "flock_size") == Int(flock)
  {
    Object(map["config" := Object(map[
      "read_write" := Object(map["instance_size" := Str(rw)]),
      "read_scaling" := Object(map["instance_size" := Str(rs), "flock_size" := Int(flock)])
    ])])
  }

  // ---------------------------------------------------------------- operations

  /** The path of a user's resource: `/v1/users/{username}`. */
  function UserPath(username: string): string {
    "/v1/users/" + EncodePath(username)
  }

  /** A fixed segment under a user's path: `/v1/users/{username}/{leaf}`. */
  function UserSubpath(username: string, leaf: string): string {
    UserPath(username) + "/" + leaf
  }

  function CreateUser(username: string): (r: Request)
    ensures r.verb == Post && r.path == "/v1/users"
    ensures r.body.Some? && r.body.value.Object? && r.body.value.fields.Keys == {"username"}
    ensures Index(r.body.value, "username") == Str(username)
  {
    Request(Post, "/v1/users", Some(Object(map["username" := Str(username)])))
  }

  function DeleteUser(username: string): (r: Request)
    ensures r.verb == Delete && r.body.None?
    ensures Split(r.path, '/') == ["", "v1", "users", EncodePath(username)]
  {
    UserPathSegments(username);
    Request(Delete, UserPath(username), None)
  }

  function ListTokens(username: string): (r: Request)
    ensures r.verb == Get && r.body.None?
    ensures Split(r.path, '/') == ["", "v1", "users", EncodePath(username), "tokens"]
  {
    UserSubpathSegments(username, "tokens");
    Request(Get, UserSubpath(username, "tokens"), None)
  }

  function CreateToken(username: string, req: CreateTokenRequest): (r: Request)
    ensures r.verb == Post && r.body == Some(CreateTokenJson(req))
    ensures Split(r.path, '/') == ["", "v1", "users", EncodePath(username), "tokens"]
  {
    UserSubpathSegments(username, "tokens");
    Request(Post, UserSubpath(username, "tokens"), Some(CreateTokenJson(req)))
  }

  function DeleteToken(username: string, tokenId: string): (r: Request)
    ensures r.verb == Delete && r.body.None?
    ensures Split(r.path, '/') == ["", "v1", "users", EncodePath(username), "tokens", EncodePath(tokenId)]
  {
    var e := EncodePath(tokenId);
    UserSubpathSegments(username, "tokens");
    EncodedHasNoDelimiters(tokenId);
    SplitNoSeparator(e, '/');
    SplitAround(UserSubpath(username, "tokens"), e, '/');
    Request(Delete, UserSubpath(username, "tokens") + "/" + e, None)
  }

  function GetDucklingConfig(username: string): (r: Request)
    ensures r.verb == Get && r.body.None?
    ensures Split(r.path, '/') == ["", "v1", "users", EncodePath(username), "instances"]
  {
    UserSubpathSegments(username, "instances");
    Request(Get, UserSubpath(username, "instances"), None)
  }

  function SetDucklingConfig(username: string, rw: string, rs: string, flock: U32): (r: Request)
    ensures r.verb == Put && r.body == Some(DucklingConfigJson(rw, rs, flock))
    ensures Split(r.path, '/') == ["", "v1", "users", EncodePath(username), "instances"]
  {
    UserSubpathSegments(username, "instances");
    Request(Put, UserSubpath(username, "instances"), Some(DucklingConfigJson(rw, rs, flock)))
  }

  function ListActiveAccounts(): (r: Request)
    ensures r.verb == Get && r.body.None?
    ensures Split(r.path, '/') == ["", "v1", "active_accounts"]
  {
    ActiveAccountsSegments();
    Request(Get, "/v1/active_accounts", None)
  }

  // ---------------------------------------------------------------- responses

  predicate IsSuccessStatus(status: U16) {
    200 <= status < 300
  }

  /** `parse_response`: a 2xx answer is its decoded body, or the raw text as a
      JSON string when the body is not JSON; any other status is an API error
      carrying the status and the body's `message` string, or else the raw
      text. `decoded` is the outcome of decoding `text` as JSON. */
  function ParseResponse(status: U16, text: string, decoded: Option<Value>): (r: Result<Value, Error>)
    ensures r.Success? <==> IsSuccessStatus(status)
    ensures r.Success? && decoded.Some? ==> r.value == decoded.value
    ensures r.Success? && decoded.None? ==> r.value == Str(text)
    ensures r.Failure? ==> r.error.Api? && r.error.status == status
    ensures r.Failure? && decoded.Some? && Lookup(decoded.value, "message").Some?
            && Lookup(decoded.value, "message").value.Str?
            ==> r.error.message == Lookup(decoded.value, "message").value.s
    ensures r.Failure? && !(decoded.Some? && Lookup(decoded.value, "message").Some?
                            && Lookup(decoded.value, "message").value.Str?)
            ==> r.error.message == text
  {
    match decoded
    case Some(body) =>
      if IsSuccessStatus(status) then Success(body)
      else
        var message := (match Lookup(body, "message")
          case Some(m) => AsStr(m).GetOr(text)
          case None => text);
        Failure(Api(status, message))
    case None =>
      if IsSuccessStatus(status) then Success(Str(text)) else Failure(Api(status, text))
  }

  /** What the transport produced for one request. */
  datatype Exchange =
    | NoResponse                           // connection, DNS, TLS or timeout failure
    | UnreadableBody(status: U16)          // the body could not be read as text
    | Answered(status: U16, text: string, decoded: Option<Value>)

  /** `get`/`delete`/`post_json`/`put_json` followed by `handle_response`. A
      transport failure is reported as such; every later failure is wrapped
      with the method and path of the request. */
  function Call(req: Request, ex: Exchange): (r: Result<Value, Error>)
    ensures r.Success? <==> ex.Answered? && IsSuccessStatus(ex.status)
    ensures ex.NoResponse? ==> r == Failure(RequestFailed)
    ensures r.Failure? && !ex.NoResponse? ==>
              r.error.WithContext? && r.error.context == req.verb.Name() + " " + req.path
    ensures ex.UnreadableBody? ==> r.Failure? && r.error.WithContext? && r.error.cause == BodyUnreadable
    ensures ex.Answered? && r.Success? ==> r == ParseResponse(ex.status, ex.text, ex.decoded)
    ensures ex.Answered? && r.Failure? ==>
              r.error.WithContext? && r.error.cause == ParseResponse(ex.status, ex.text, ex.decoded).error
  {
    var where := req.verb.Name() + " " + req.path;
    match ex
    case NoResponse => Failure(RequestFailed)
    case UnreadableBody(_) => Failure(WithContext(where, BodyUnreadable))
    case Answered(status, text, decoded) =>
      (match ParseResponse(status, text, decoded)
       case Success(v) => Success(v)
       case Failure(e) => Failure(WithContext(where, e)))
  }

  // ---------------------------------------------------------------- paths

  /** The fixed part of every per-user path splits as `/v1/users`. */
  /** A rooted path of two separator-free segments splits into exactly those
      segments after the leading empty one. */
  lemma RootedPairSegments(a: string, b: string)
    requires '/' !in a && '/' !in b
    ensures Split("/" + a + "/" + b, '/') == ["", a, b]
  {
    assert "/" + a + "/" + b == "" + "/" + (a + "/" + b);
    SplitNoSeparator(a, '/');
    SplitNoSeparator(b, '/');
    SplitAround(a, b, '/');
    SplitAround("", a + "/" + b, '/');
  }

  lemma UsersPrefixSegments()
    ensures Split("/v1/users", '/') == ["", "v1", "users"]
  {
    assert "/v1/users" == "/" + "v1" + "/" + "users";
    RootedPairSegments("v1", "users");
  }

  lemma ActiveAccountsSegments()
    ensures Split("/v1/active_accounts", '/') == ["", "v1", "active_accounts"]
  {
    assert "/v1/active_accounts" == "/" + "v1" + "/" + "active_accounts";
    RootedPairSegments("v1", "active_accounts");
  }

  /** A user's path has four segments, the last the encoded username: no
      username can add, remove or alter a segment of the path. */
  lemma UserPathSegments(username: string)
    ensures Split(UserPath(username), '/') == ["", "v1", "users", EncodePath(username)]
  {
    var e := EncodePath(username);
    assert UserPath(username) == "/v1/users" + "/" + e;
    UsersPrefixSegments();
    EncodedHasNoDelimiters(username);
    SplitNoSeparator(e, '/');
    SplitAround("/v1/users", e, '/');
  }

  /** A user's path followed by one more fixed segment. */
  lemma UserSubpathSegments(username: string, leaf: string)
    requires '/' !in leaf
    ensures Split(UserSubpath(username, leaf), '/') == ["", "v1", "users", EncodePath(username), leaf]
  {
    UserPathSegments(username);
    SplitNoSeparator(leaf, '/');
    SplitAround(UserPath(username), leaf, '/');
  }

  // ---------------------------------------------------------------- examples

  lemma ParseResponseExamples()
    ensures ParseResponse(200, "{\"username\": \"svc_test\"}", Some(Object(map["username" := Str("svc_test")])))
            == Success(Object(map["username" := Str("svc_test")]))
    ensures ParseResponse(200, "plain text response", None) == Success(Str("plain text response"))
    ensures ParseResponse(404, "{\"message\": \"user not found\"}", Some(Object(map["message" := Str("user not found")])))
            == Failure(Api(404, "user not found"))
    ensures ParseResponse(500, "Internal Server Error", None) == Failure(Api(500, "Internal Server Error"))
    ensures ParseResponse(400, "{\"error\": \"something broke\"}", Some(Object(map["error" := Str("something broke")])))
            == Failure(Api(400, "{\"error\": \"something broke\"}"))
  {
  }
}
