/** The authentication middleware (middleware/auth.js). Token verification with the server
    secret is a parameter: `verify(token)` is the decoded payload, or `None` where
    `jwt.verify` throws (bad signature, expired, malformed). */
module Auth {

  import opened Tables
  import opened JsValues
  import opened Text

  const Scheme := "Bearer "
  const AuthRequired := "Authentication required"
  const AuthFailed := "Authentication failed"

  /** What a passed request carries as `req.user`. */
  datatype AuthUser = AuthUser(id: JsValue)

  datatype Reply = Reply(status: nat, message: string)

  /** The middleware's verdict: call the next handler with a user, or answer 401. */
  datatype Decision = PassThrough(user: AuthUser) | Unauthorized(message: string)

  /** `authHeader.replace('Bearer ', '')`: only the first occurrence is removed, wherever it is. */
  function BearerToken(header: string): (r: string)
    ensures Contains(header, Scheme) ==> |r| == |header| - |Scheme|
    ensures Contains(header, Scheme) ==>
      var i := FindFirst(header, Scheme).value; r == header[..i] + header[i + |Scheme|..]
    ensures !Contains(header, Scheme) ==> r == header
  {
    ReplaceFirst(header, Scheme, "")
  }

  /** A header of the documented form yields exactly the credential after the scheme. */
  lemma BearerStripped(t: string)
    ensures BearerToken(Scheme + t) == t
  {
    assert StartsWith(Scheme + t, Scheme);
    assert FindFirst(Scheme + t, Scheme) == Some(0);
  }

  /** The verdict for a request whose `Authorization` header is `header` (`None` when absent). */
  function Decide(header: Option<string>, verify: string -> Option<JsValue>): (r: Decision)
    ensures (header.None? || header.value == "") ==> r == Unauthorized(AuthRequired)
    ensures header.Some? && header.value != "" && BearerToken(header.value) == "" ==> r == Unauthorized(AuthRequired)
    ensures r == Unauthorized(AuthFailed) <==>
      header.Some? && BearerToken(header.value) != "" &&
      (verify(BearerToken(header.value)).None? || verify(BearerToken(header.value)).value.IsNullish())
    ensures r.PassThrough? <==>
      header.Some? && BearerToken(header.value) != "" &&
      verify(BearerToken(header.value)).Some? && !verify(BearerToken(header.value)).value.IsNullish()
    ensures r.PassThrough? ==> r.user == AuthUser(Prop(verify(BearerToken(header.value)).value, "id"))
  {
    if header.None? || header.value == "" then Unauthorized(AuthRequired)
    else
      var token := BearerToken(header.value);
      if token == "" then Unauthorized(AuthRequired)
      else match verify(token)
        case None => Unauthorized(AuthFailed)
        case Some(decoded) =>
          match Get(decoded, "id")
          case Throw(_) => Unauthorized(AuthFailed)
          case Ok(id) => PassThrough(AuthUser(id))
  }

  /** A header holding only the scheme carries no credential, whatever `verify` says. */
  lemma BareSchemeRequiresAuth(verify: string -> Option<JsValue>)
    ensures Decide(Some(Scheme), verify) == Unauthorized(AuthRequired)
  {
    BearerStripped("");
    assert Scheme + "" == Scheme;
  }

  /** A well-formed bearer header is let through exactly when its credential verifies. */
  lemma BearerHeaderPasses(t: string, verify: string -> Option<JsValue>)
    requires t != ""
    ensures Decide(Some(Scheme + t), verify).PassThrough? <==> verify(t).Some? && !verify(t).value.IsNullish()
  {
    BearerStripped(t);
  }

  /** The request and response of one call through the middleware. */
  class Exchange {
    var user: Option<AuthUser>
    var nextCalls: nat
    var response: Option<Reply>

    constructor ()
      ensures user.None? && nextCalls == 0 && response.None?
    {
      user := None;
      nextCalls := 0;
      response := None;
    }
  }

  /** `auth(req, res, next)`: either sets `req.user` and calls `next` once, or leaves both alone
      and sends 401 with the reason, following `Decide`. */
  method Authenticate(x: Exchange, header: Option<string>, verify: string -> Option<JsValue>)
    modifies x
    ensures match Decide(header, verify)
      case PassThrough(u) =>
        x.user == Some(u) && x.nextCalls == old(x.nextCalls) + 1 && x.response == old(x.response)
      case Unauthorized(m) =>
        x.response == Some(Reply(401, m)) && x.nextCalls == old(x.nextCalls) && x.user == old(x.user)
  {
    if header.None? || header.value == "" {
      x.response := Some(Reply(401, AuthRequired));
      return;
    }
    var token := BearerToken(header.value);
    if token == "" {
      x.response := Some(Reply(401, AuthRequired));
      return;
    }
    var decoded := verify(token);
    if decoded.None? {
      x.response := Some(Reply(401, AuthFailed));
      return;
    }
    var id := Get(decoded.value, "id");
    if id.Throw? {
      x.response := Some(Reply(401, AuthFailed));
      return;
    }
    x.user := Some(AuthUser(id.value));
    x.nextCalls := x.nextCalls + 1;
  }
}
