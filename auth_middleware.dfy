/** The bearer-token middleware of `middlewares/auth.middleware.ts`. */
module AuthMiddleware {
  import opened Wrappers
  import opened Text
  import opened UserModel

  /** The claims a verified token carries. */
  datatype AuthPayload = AuthPayload(userId: string, role: Role)

  /** What the middleware does with one request: answer it, or attach the claims and call `next`. */
  datatype AuthOutcome = Reject(status: int, message: string) | Next(user: AuthPayload)

  const BearerPrefix: string := "Bearer "
  const MissingTokenMessage: string := "Missing or invalid token"
  const InvalidTokenMessage: string := "Invalid token"

  /**
   * `authHeader.split(' ')[1]` for a header that starts with `"Bearer "`: the text
   * after the prefix up to the next space, or to the end.
   */
  function BearerToken(header: string): (token: string)
    requires StartsWith(header, BearerPrefix)
    ensures ' ' !in token
    ensures StartsWith(header[|BearerPrefix|..], token)
    ensures |BearerPrefix| + |token| < |header| ==> header[|BearerPrefix| + |token|] == ' '
  {
    var rest := header[|BearerPrefix|..];
    assert header == "Bearer" + [' '] + rest;
    SplitAfterPiece("Bearer", ' ', rest);
    FirstPiece(rest, ' ');
    Split(header, ' ')[1]
  }

  /** The first piece of a split is a prefix followed by the separator or the end. */
  lemma FirstPiece(s: string, c: char)
    ensures StartsWith(s, Split(s, c)[0])
    ensures |Split(s, c)[0]| < |s| ==> s[|Split(s, c)[0]|] == c
  {
    var parts := Split(s, c);
    JoinSplit(s, c);
    if |parts| > 1 {
      assert s == parts[0] + [c] + Join(parts[1..], c);
    }
  }

  /** The token is the second space-separated piece: `"Bearer a b"` yields `a`. */
  lemma {:induction false} BearerTokenIsSecondPiece(t: string, more: string)
    requires ' ' !in t
    ensures BearerToken(BearerPrefix + t) == t
    ensures BearerToken(BearerPrefix + t + " " + more) == t
  {
    var h1 := BearerPrefix + t;
    var h2 := BearerPrefix + t + " " + more;
    assert h1 == "Bearer" + [' '] + t;
    assert h2 == "Bearer" + [' '] + (t + [' '] + more);
    SplitAfterPiece("Bearer", ' ', t);
    SplitWhole(t, ' ');
    SplitAfterPiece("Bearer", ' ', t + [' '] + more);
    SplitAfterPiece(t, ' ', more);
  }

  /**
   * The middleware's decision: 401 without a `"Bearer "` header (the prefix is
   * case-sensitive), 403 when the token does not verify, otherwise the claims.
   */
  function Authenticate(header: Option<string>, verify: string -> Option<AuthPayload>): (o: AuthOutcome)
    ensures (o.Reject? && o.status == 401) <==> header.None? || !StartsWith(header.value, BearerPrefix)
    ensures (o.Reject? && o.status == 403) <==>
      header.Some? && StartsWith(header.value, BearerPrefix) && verify(BearerToken(header.value)).None?
    ensures o.Next? <==>
      header.Some? && StartsWith(header.value, BearerPrefix) && verify(BearerToken(header.value)).Some?
    ensures o.Next? ==> Some(o.user) == verify(BearerToken(header.value))
  {
    if header.None? || !StartsWith(header.value, BearerPrefix) then
      Reject(401, MissingTokenMessage)
    else
      match verify(BearerToken(header.value))
      case None => Reject(403, InvalidTokenMessage)
      case Some(decoded) => Next(decoded)
  }

  /** The request/response pair and the `next` callback one middleware invocation sees. */
  class Exchange {
    /** `req.user` */
    var user: Option<AuthPayload>
    /** The status written to the response, if one has been written. */
    var status: Option<int>
    /** How many times `next()` has been called. */
    var nextCalls: nat

    constructor ()
      ensures user == None && status == None && nextCalls == 0
    {
      user, status, nextCalls := None, None, 0;
    }
  }

  /**
   * Runs the middleware on `ex`: either a 401/403 response is written and `next`
   * is not called, or `req.user` becomes the decoded claims and `next` is called
   * exactly once, with no response written.
   */
  method Run(ex: Exchange, header: Option<string>, verify: string -> Option<AuthPayload>)
    modifies ex
    ensures Authenticate(header, verify).Reject? ==>
      && ex.status == Some(Authenticate(header, verify).status)
      && ex.user == old(ex.user) && ex.nextCalls == old(ex.nextCalls)
    ensures Authenticate(header, verify).Next? ==>
      && ex.user == Some(Authenticate(header, verify).user)
      && ex.status == old(ex.status) && ex.nextCalls == old(ex.nextCalls) + 1
  {
    if header.None? || !StartsWith(header.value, BearerPrefix) {
      ex.status := Some(401);
      return;
    }
    var token := BearerToken(header.value);
    var decoded := verify(token);
    if decoded.None? {
      ex.status := Some(403);
      return;
    }
    ex.user := decoded;
    ex.nextCalls := ex.nextCalls + 1;
  }
}
