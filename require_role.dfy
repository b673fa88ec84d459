/**
 * The role check that guards a route after the JWT check: a middleware
 * value holding the required role names and whether all of them or any one
 * of them must match the caller's role. The actix service plumbing is
 * reduced to one call: the request's claims (or none), the inner service as
 * a function, and what the middleware answers.
 */
module RoleGuard {
  import opened Wrappers

  /** `RequireRole`: the roles to compare against and the all/any switch. */
  datatype RequireRole = RequireRole(requiredRoles: seq<string>, requireAll: bool)

  /** `RequireRole::new(role)`: one role, compared under "all". */
  function New(role: string): (m: RequireRole)
    ensures m.requiredRoles == [role] && m.requireAll
  {
    RequireRole([role], true)
  }

  /** `RequireRole::new_any(roles)`: the roles in the order given, any one suffices. */
  function NewAny(roles: seq<string>): (m: RequireRole)
    ensures m.requiredRoles == roles && !m.requireAll
  {
    RequireRole(roles, false)
  }

  /** `RequireRole::new_all(roles)`: the roles in the order given, every one must match. */
  function NewAll(roles: seq<string>): (m: RequireRole)
    ensures m.requiredRoles == roles && m.requireAll
  {
    RequireRole(roles, true)
  }

  /** `roles[from..].iter().all(|r| role == r)`, walking left to right. */
  function AllMatchFrom(roles: seq<string>, role: string, from: nat): (b: bool)
    requires from <= |roles|
    ensures b <==> forall i :: from <= i < |roles| ==> roles[i] == role
    decreases |roles| - from
  {
    if from == |roles| then true
    else roles[from] == role && AllMatchFrom(roles, role, from + 1)
  }

  /** `roles[from..].iter().any(|r| role == r)`, walking left to right. */
  function AnyMatchFrom(roles: seq<string>, role: string, from: nat): (b: bool)
    requires from <= |roles|
    ensures b <==> exists i :: from <= i < |roles| && roles[i] == role
    decreases |roles| - from
  {
    if from == |roles| then false
    else roles[from] == role || AnyMatchFrom(roles, role, from + 1)
  }

  /** The decision of `call`: "all" compares every required role, "any" looks for one. */
  function HasPermission(m: RequireRole, userRole: string): (b: bool)
    ensures m.requireAll ==> (b <==> forall i :: 0 <= i < |m.requiredRoles| ==> m.requiredRoles[i] == userRole)
    ensures !m.requireAll ==> (b <==> userRole in m.requiredRoles)
  {
    if m.requireAll then AllMatchFrom(m.requiredRoles, userRole, 0)
    else
      var b := AnyMatchFrom(m.requiredRoles, userRole, 0);
      assert b ==> userRole in m.requiredRoles;
      assert userRole in m.requiredRoles ==> exists i :: 0 <= i < |m.requiredRoles| && m.requiredRoles[i] == userRole;
      b
  }

  /** A single-role guard admits exactly the callers with that role. */
  lemma NewGrantsExactly(role: string, userRole: string)
    ensures HasPermission(New(role), userRole) <==> userRole == role
  {
    assert New(role).requiredRoles[0] == role;
  }

  /** An any-of guard admits exactly the listed roles; with no roles listed it admits nobody. */
  lemma NewAnyGrantsListed(roles: seq<string>, userRole: string)
    ensures HasPermission(NewAny(roles), userRole) <==> userRole in roles
    ensures roles == [] ==> !HasPermission(NewAny(roles), userRole)
  {
  }

  /**
   * An all-of guard compares one role against every listed role: with no
   * roles listed it admits everybody, and with two different roles listed
   * it admits nobody.
   */
  lemma NewAllGrants(roles: seq<string>, userRole: string)
    ensures HasPermission(NewAll(roles), userRole) <==> forall r :: r in roles ==> r == userRole
    ensures roles == [] ==> HasPermission(NewAll(roles), userRole)
    ensures (exists i, j :: 0 <= i < |roles| && 0 <= j < |roles| && roles[i] != roles[j])
      ==> !HasPermission(NewAll(roles), userRole)
  {
    var m := NewAll(roles);
    if HasPermission(m, userRole) {
      forall r | r in roles
        ensures r == userRole
      {
        var k :| 0 <= k < |roles| && roles[k] == r;
        assert m.requiredRoles[k] == userRole;
      }
    } else {
      var k :| 0 <= k < |roles| && roles[k] != userRole;
      assert roles[k] in roles;
    }
  }

  /** `new_all` of one role behaves as `new` of that role. */
  lemma NewAllOfOneIsNew(role: string, userRole: string)
    ensures HasPermission(NewAll([role]), userRole) == HasPermission(New(role), userRole)
  {
  }

  /** The caller's identity as the JWT check stores it; only these two claims are read here. */
  datatype Claims = Claims(sub: string, role: string)

  /** What the middleware answers: the inner service's response, or its own JSON error. */
  datatype Response<B> =
    | Passed(body: B)
    | ErrorResponse(status: int, code: int, error: string)

  /**
   * `create_error_response`: the status, and the JSON body
   * `{"code": status, "data": {"error": message}}`.
   */
  function ErrorResponseFor<B>(status: int, message: string): (r: Response<B>)
    ensures r.ErrorResponse? && r.status == status && r.code == status && r.error == message
  {
    ErrorResponse(status, status, message)
  }

  const UNAUTHORIZED: int := 401
  const FORBIDDEN: int := 403

  /** `{:?}` of one role name: the name in double quotes. */
  function Quoted(s: string): (q: string)
    ensures |q| == |s| + 2 && q[0] == '"' && q[|q| - 1] == '"' && q[1..|q| - 1] == s
  {
    "\"" + s + "\""
  }

  /** The quoted names, separated by `, `. */
  function QuotedList(roles: seq<string>): string {
    if roles == [] then ""
    else if |roles| == 1 then Quoted(roles[0])
    else Quoted(roles[0]) + ", " + QuotedList(roles[1..])
  }

  /** `{:?}` of the required-role list: `["admin", "teacher"]`. */
  function DebugList(roles: seq<string>): (s: string)
    ensures |s| >= 2 && s[0] == '[' && s[|s| - 1] == ']'
  {
    "[" + QuotedList(roles) + "]"
  }

  /** The message of the 403 answer, naming the required roles. */
  function AccessDenied(roles: seq<string>): string {
    "Access denied. Required role(s): " + DebugList(roles)
  }

  /** One call of the middleware: its answer, and the requests it passed to the inner service. */
  datatype Outcome<R, B, E> = Outcome(result: Result<Response<B>, E>, forwarded: seq<R>)

  /**
   * `RequireRoleMiddleware::call`: without claims the answer is 401
   * "Authentication required"; with claims whose role lacks permission it is
   * 403 naming the required roles; otherwise the request goes to the inner
   * service once and its response, or its error, is passed on unchanged.
   */
  function Call<R, B, E>(m: RequireRole, req: R, claims: Option<Claims>, inner: R -> Result<B, E>)
    : (o: Outcome<R, B, E>)
    ensures o.forwarded == [] || o.forwarded == [req]
    ensures o.forwarded == [req] <==> claims.Some? && HasPermission(m, claims.value.role)
    ensures claims.None? ==> o.result == Ok(ErrorResponseFor(UNAUTHORIZED, "Authentication required"))
    ensures claims.Some? && !HasPermission(m, claims.value.role) ==>
      o.result == Ok(ErrorResponseFor(FORBIDDEN, AccessDenied(m.requiredRoles)))
    ensures o.forwarded == [req] ==>
      && (inner(req).Ok? ==> o.result == Ok(Passed(inner(req).value)))
      && (inner(req).Err? ==> o.result == Err(inner(req).error))
  {
    match claims
    case None => Outcome(Ok(ErrorResponseFor(UNAUTHORIZED, "Authentication required")), [])
    case Some(c) =>
      if HasPermission(m, c.role) then
        match inner(req)
        case Ok(body) => Outcome(Ok(Passed(body)), [req])
        case Err(e) => Outcome(Err(e), [req])
      else Outcome(Ok(ErrorResponseFor(FORBIDDEN, AccessDenied(m.requiredRoles))), [])
  }

  /** Every answer the middleware writes itself is an error status; only the inner service answers otherwise. */
  lemma OwnAnswersAreErrors<R, B, E>(m: RequireRole, req: R, claims: Option<Claims>, inner: R -> Result<B, E>)
    ensures var o := Call(m, req, claims, inner);
      o.forwarded == [] ==> o.result.Ok? && o.result.value.ErrorResponse? && o.result.value.status in {UNAUTHORIZED, FORBIDDEN}
  {
  }

  /** Adding the caller's role to an any-of list never turns a grant into a refusal, and grants that caller. */
  lemma AnyOfMonotone(roles: seq<string>, extra: string, userRole: string)
    ensures HasPermission(NewAny(roles), userRole) ==> HasPermission(NewAny(roles + [extra]), userRole)
    ensures HasPermission(NewAny(roles + [userRole]), userRole)
  {
    var more := roles + [userRole];
    assert more[|roles|] == userRole;
    if userRole in roles {
      var k :| 0 <= k < |roles| && roles[k] == userRole;
      assert (roles + [extra])[k] == userRole;
    }
  }
}
