/**
 * The request middleware of the server: `authenticate` reads a bearer token
 * from the Authorization header and attaches its payload to the request;
 * `authorize(roles)` lets a request through only for the listed roles.
 * Verifying a token's signature is jsonwebtoken's work and is a parameter here.
 */
module Auth {
  import opened Types

  /** What a middleware does with a request: hand it to the next handler, or answer it with an error. */
  datatype Decision = Next | Respond(status: int, error: string)

  const BearerPrefix: string := "Bearer "

  /** The header is present and starts with `Bearer `. */
  predicate HasBearerPrefix(header: Option<string>) {
    header.Some? && |BearerPrefix| <= |header.value| && header.value[..|BearerPrefix|] == BearerPrefix
  }

  /** `substring(7)`: the header with its first seven characters, the prefix, removed. */
  function BearerToken(header: string): (token: string)
    requires HasBearerPrefix(Some(header))
    ensures BearerPrefix + token == header
    ensures |token| == |header| - 7
  {
    assert header == header[..7] + header[7..];
    header[7..]
  }

  /** The incoming request, as far as the middleware sees it. */
  class Request {
    var authorization: Option<string>
    var user: Option<JWTPayload>

    constructor (authorization: Option<string>)
      ensures this.authorization == authorization && user.None?
    {
      this.authorization := authorization;
      user := None;
    }
  }

  /**
   * `authenticate`. `verify` stands for `jwt.verify` with the server's secret:
   * the token's payload, or nothing where `jwt.verify` throws. On success the
   * payload is attached to the request and the request goes on.
   */
  method Authenticate(req: Request, verify: string -> Option<JWTPayload>) returns (d: Decision)
    modifies req
    ensures req.authorization == old(req.authorization)
    ensures !HasBearerPrefix(req.authorization) ==> d == Respond(401, "No token provided") && req.user == old(req.user)
    ensures HasBearerPrefix(req.authorization) ==>
      var payload := verify(BearerToken(req.authorization.value));
      && (payload.None? ==> d == Respond(401, "Invalid token") && req.user == old(req.user))
      && (payload.Some? ==> d == Next && req.user == payload)
  {
    var header := req.authorization;
    if !HasBearerPrefix(header) {
      return Respond(401, "No token provided");
    }
    var token := BearerToken(header.value);
    var payload := verify(token);
    if payload.None? {
      return Respond(401, "Invalid token");
    }
    req.user := payload;
    d := Next;
  }

  /** `authorize(roles)`: 401 without an authenticated user, 403 for a role outside `roles`, otherwise on to the handler. */
  function Authorize(roles: seq<UserRole>, user: Option<JWTPayload>): (d: Decision)
    ensures d == Next <==> user.Some? && user.value.role in roles
    ensures user.None? ==> d == Respond(401, "Authentication required")
    ensures user.Some? && user.value.role !in roles ==> d == Respond(403, "Insufficient permissions")
  {
    if user.None? then Respond(401, "Authentication required")
    else if user.value.role !in roles then Respond(403, "Insufficient permissions")
    else Next
  }

  /** `requireEmployee`: employees and admins pass, plain users are refused. */
  function RequireEmployee(user: Option<JWTPayload>): (d: Decision)
    ensures d == Next <==> user.Some? && user.value.role != User
    ensures user.None? ==> d == Respond(401, "Authentication required")
    ensures user.Some? && user.value.role == User ==> d == Respond(403, "Insufficient permissions")
  {
    assert user.Some? ==> (user.value.role in [Employee, Admin] <==> user.value.role != User) by {
      if user.Some? && user.value.role != User {
        assert user.value.role == Employee || user.value.role == Admin;
      }
    }
    Authorize([Employee, Admin], user)
  }

  /** `requireAdmin`: only admins pass. */
  function RequireAdmin(user: Option<JWTPayload>): (d: Decision)
    ensures d == Next <==> user.Some? && user.value.role == Admin
    ensures user.None? ==> d == Respond(401, "Authentication required")
    ensures user.Some? && user.value.role != Admin ==> d == Respond(403, "Insufficient permissions")
  {
    Authorize([Admin], user)
  }
}
