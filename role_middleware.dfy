/** The operator gate of `middlewares/role.middleware.ts`. */
module RoleMiddleware {
  import opened Wrappers
  import opened UserModel
  import opened AuthMiddleware

  /** The gate either answers 403 (and does not call `next`) or calls `next` without answering. */
  datatype GateOutcome = Deny(status: int, message: string) | Allow

  const OperatorOnlyMessage: string := "Access denied. Operator only."

  /** `requireOperator`: allow exactly the requests whose `req.user.role` is `'operator'`. */
  function RequireOperator(user: Option<AuthPayload>): (g: GateOutcome)
    ensures g == Allow <==> user.Some? && user.value.role == OperatorRole
    ensures g.Deny? ==> g.status == 403
  {
    if user.None? || user.value.role != OperatorRole then Deny(403, OperatorOnlyMessage) else Allow
  }

  /**
   * Behind the bearer middleware, the gate lets a request through exactly when its
   * header carries a token that verifies to operator claims.
   */
  lemma OperatorRouteAdmits(header: Option<string>, verify: string -> Option<AuthPayload>)
    ensures var o := Authenticate(header, verify);
      (o.Next? && RequireOperator(Some(o.user)) == Allow) <==>
      && header.Some? && Text.StartsWith(header.value, BearerPrefix)
      && verify(BearerToken(header.value)).Some?
      && verify(BearerToken(header.value)).value.role == OperatorRole
  {
  }
}
