/** The bearer-token guard `verifyToken` that sits in front of the profile
    image and user routes. The token is the second space-separated field of
    the Authorization header; the first field is not looked at. Token
    verification (`jwt.verify` with the server secret) is a parameter: a
    function giving the decoded identity, or None where `jwt.verify` throws. */
module AuthMiddleware {

  import opened Common
  import Js

  /** The decoded token payload that the handlers read as `req.user`. */
  datatype Identity = Identity(id: int, username: string)

  /** The guard's decision: let the request through with an identity, or
      answer it. */
  datatype Verdict = Proceed(user: Identity) | Reject(response: Response<()>)

  /** `authHeader.split(" ")[1]`; None where that is undefined. */
  function TokenOf(header: string): (token: Option<string>)
    ensures token.Some? ==> ' ' !in token.value && |token.value| < |header|
  {
    var fields := Js.Split(header, ' ');
    if |fields| >= 2 then
      assert Js.Join(fields, ' ') == fields[0] + [' '] + Js.Join(fields[1..], ' ');
      assert Js.Join(fields[1..], ' ')[..|fields[1]|] == fields[1] by {
        if |fields[1..]| > 1 {
          assert Js.Join(fields[1..], ' ') == fields[1] + [' '] + Js.Join(fields[2..], ' ');
        }
      }
      Some(fields[1])
    else None
  }

  /** The accept/reject decision of `verifyToken`. */
  function Guard(authorization: Option<string>, verify: string -> Option<Identity>): (v: Verdict)
    ensures v.Reject? ==> v.response.status == 401 && !v.response.Success() && v.response.data.None?
    ensures v.Proceed? ==> Present(authorization) && Present(TokenOf(authorization.value))
                           && verify(TokenOf(authorization.value).value) == Some(v.user)
  {
    if !Present(authorization) then Reject(Fail(401, "No token provided"))
    else
      var token := TokenOf(authorization.value);
      if !Present(token) then Reject(Fail(401, "No token provided"))
      else
        match verify(token.value)
        case None => Reject(Fail(401, "Invalid token"))
        case Some(user) => Proceed(user)
  }

  /** The token is the second field, whatever the first one says. */
  lemma TokenIsSecondField(fields: seq<string>)
    requires |fields| >= 2
    requires forall i :: 0 <= i < |fields| ==> ' ' !in fields[i]
    ensures TokenOf(Js.Join(fields, ' ')) == Some(fields[1])
  {
    Js.SplitOfJoin(fields, ' ');
  }

  /** A header "<scheme> <token>" is accepted exactly when the token is not
      empty and verifies, and then with the identity the token carries; any
      scheme is taken, "Bearer" or not. */
  lemma GuardOnSchemeAndToken(scheme: string, token: string, verify: string -> Option<Identity>)
    requires ' ' !in scheme && ' ' !in token
    ensures var v := Guard(Some(scheme + " " + token), verify);
      (v.Proceed? <==> token != "" && verify(token).Some?)
      && (v.Proceed? ==> v.user == verify(token).value)
      && (token == "" ==> v == Reject(Fail(401, "No token provided")))
      && (token != "" && verify(token).None? ==> v == Reject(Fail(401, "Invalid token")))
  {
    var fields := [scheme, token];
    assert Js.Join(fields[1..], ' ') == token;
    assert Js.Join(fields, ' ') == scheme + " " + token;
    TokenIsSecondField(fields);
  }

  /** For any header, the decision follows the second field of its split on
      " ": it proceeds exactly when that field exists, is not empty and
      verifies; otherwise "No token provided" when the field is missing or
      empty, and "Invalid token" when it does not verify. Extra fields and
      doubled spaces are covered too ("Bearer  tok" has an empty second
      field). */
  lemma GuardOnHeader(header: string, verify: string -> Option<Identity>)
    ensures var fields := Js.Split(header, ' ');
      var v := Guard(Some(header), verify);
      (v.Proceed? <==> |fields| >= 2 && fields[1] != "" && verify(fields[1]).Some?)
      && (v.Proceed? ==> v.user == verify(fields[1]).value)
      && (|fields| < 2 || fields[1] == "" ==> v == Reject(Fail(401, "No token provided")))
      && (|fields| >= 2 && fields[1] != "" && verify(fields[1]).None? ==> v == Reject(Fail(401, "Invalid token")))
  {
  }

  /** A missing or empty header, or one without a space, has no token. */
  lemma GuardWithoutToken(header: Option<string>, verify: string -> Option<Identity>)
    requires header.Some? ==> ' ' !in header.value
    ensures Guard(header, verify) == Reject(Fail(401, "No token provided"))
  {
    if header.Some? {
      Js.SplitOfSeparatorFree(header.value, ' ');
    }
  }

  /** The request as the guard sees it: its header, and the `user` slot the
      guard fills in. */
  class Request {
    const authorization: Option<string>
    var user: Option<Identity>

    constructor (authorization: Option<string>)
      ensures this.authorization == authorization && user == None
    {
      this.authorization := authorization;
      user := None;
    }
  }

  /** `verifyToken(req, res, next)`: either answers the request (a Some
      reply) or attaches the identity and passes the request on (None, the
      call of `next`), never both. */
  method VerifyToken(req: Request, verify: string -> Option<Identity>) returns (reply: Option<Response<()>>)
    modifies req
    ensures reply.None? <==> Guard(req.authorization, verify).Proceed?
    ensures reply.None? ==> req.user == Some(Guard(req.authorization, verify).user)
    ensures reply.Some? ==> Guard(req.authorization, verify) == Reject(reply.value)
                            && reply.value.status == 401 && req.user == old(req.user)
  {
    match Guard(req.authorization, verify)
    case Proceed(user) =>
      req.user := Some(user);
      reply := None;
    case Reject(response) =>
      reply := Some(response);
  }
}
