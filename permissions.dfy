/** The two request policies of utils/permissions.py as pure decisions over the request verb
    and the caller's two role flags, and the 401/403 split the framework applies when a
    policy says no. */
module Permissions {
  import opened Outcomes

  datatype HttpMethod = GET | HEAD | OPTIONS | POST | PUT | PATCH | DELETE

  /** The read-only verbs (the framework's SAFE_METHODS). */
  predicate IsSafe(m: HttpMethod) {
    m == GET || m == HEAD || m == OPTIONS
  }

  /** Who is making the request, as the token authenticator resolves it. An anonymous caller
      has both flags false, like Django's AnonymousUser. */
  datatype Caller = Anonymous | User(id: nat, isStaff: bool, isSuperuser: bool) {
    predicate Authenticated() { User? }
    predicate Staff() { User? && isStaff }
    predicate Superuser() { User? && isSuperuser }
  }

  /** The derived role: the superuser flag takes precedence over the staff flag. */
  datatype Role = Admin | Critic | RegularUser | Guest

  function RoleOf(c: Caller): (r: Role)
    ensures r == Admin <==> c.Superuser()
    ensures r == Critic <==> c.Staff() && !c.Superuser()
    ensures r == Guest <==> !c.Authenticated()
  {
    match c
    case Anonymous => Guest
    case User(_, staff, su) => if su then Admin else if staff then Critic else RegularUser
  }

  /** IsSuperUserOrReadOnly.has_permission: reads for everyone, writes for admins. */
  function IsSuperUserOrReadOnly(m: HttpMethod, c: Caller): (allowed: bool)
    ensures allowed <==> IsSafe(m) || RoleOf(c) == Admin
  {
    if IsSafe(m) then true else c.Superuser()
  }

  /** IsCriticoUser.has_permission: reads for admins and critics, writes for critics only. */
  function IsCriticoUser(m: HttpMethod, c: Caller): (allowed: bool)
    ensures IsSafe(m) ==> (allowed <==> RoleOf(c) == Admin || RoleOf(c) == Critic)
    ensures !IsSafe(m) ==> (allowed <==> RoleOf(c) == Critic)
  {
    if IsSafe(m) && (c.Superuser() || c.Staff()) then true
    else c.Staff() && !c.Superuser()
  }

  datatype Policy = SuperUserOrReadOnly | CriticoUser

  function Allows(p: Policy, m: HttpMethod, c: Caller): bool {
    match p
    case SuperUserOrReadOnly => IsSuperUserOrReadOnly(m, c)
    case CriticoUser => IsCriticoUser(m, c)
  }

  /** The framework's permission check: a refusal is an authentication failure when the
      request carried no valid credential, and an authorization failure otherwise. */
  function Authorize(p: Policy, m: HttpMethod, c: Caller): (r: Outcome)
    ensures r.Pass? <==> Allows(p, m, c)
    ensures r.Fail? ==> (r.error == AuthRequired <==> !c.Authenticated())
    ensures r.Fail? ==> (r.error == Forbidden <==> c.Authenticated())
  {
    if Allows(p, m, c) then Pass
    else if c.Authenticated() then Fail(Forbidden)
    else Fail(AuthRequired)
  }

  /** The intended access table, written independently of the two policies: reads are open to
      everyone, movie writes are for admins, review writes for critics, the review list for
      admins and critics; a guest is refused with 401 and anyone else with 403. */
  datatype Action = ReadMovies | WriteMovie | CreateReview | UpdateReview | ListReviews
  datatype Verdict = Allowed | Denied401 | Denied403

  function Expected(a: Action, r: Role): Verdict {
    match (a, r)
    case (ReadMovies, _) => Allowed
    case (WriteMovie, Admin) => Allowed
    case (CreateReview, Critic) => Allowed
    case (UpdateReview, Critic) => Allowed
    case (ListReviews, Admin) => Allowed
    case (ListReviews, Critic) => Allowed
    case (_, Guest) => Denied401
    case _ => Denied403
  }

  function VerdictOf(o: Outcome): Verdict {
    match o
    case Pass => Allowed
    case Fail(AuthRequired) => Denied401
    case Fail(_) => Denied403
  }

  /** Which policy and which verbs each action goes through (movies/views.py). */
  predicate Routes(a: Action, p: Policy, m: HttpMethod) {
    match a
    case ReadMovies => p == SuperUserOrReadOnly && m == GET
    case WriteMovie => p == SuperUserOrReadOnly && (m == POST || m == PUT || m == PATCH || m == DELETE)
    case CreateReview => p == CriticoUser && m == POST
    case UpdateReview => p == CriticoUser && (m == PUT || m == PATCH)
    case ListReviews => p == CriticoUser && m == GET
  }

  /** The two policies realise the access table for every action, role and verb. */
  lemma MatrixHolds(a: Action, p: Policy, m: HttpMethod, c: Caller)
    requires Routes(a, p, m)
    ensures VerdictOf(Authorize(p, m, c)) == Expected(a, RoleOf(c))
  {
  }

  /** Every read of the catalog is allowed, anonymous callers included. */
  lemma CatalogReadsOpen(m: HttpMethod, c: Caller)
    requires IsSafe(m)
    ensures Authorize(SuperUserOrReadOnly, m, c) == Pass
  {
  }

  /** An account holding both flags may always write movies and never write reviews. */
  lemma SuperuserPrecedence(id: nat, m: HttpMethod)
    requires !IsSafe(m)
    ensures Authorize(SuperUserOrReadOnly, m, User(id, true, true)) == Pass
    ensures Authorize(CriticoUser, m, User(id, true, true)) == Fail(Forbidden)
  {
  }

  /** An anonymous caller is refused every write under both policies, as unauthenticated. */
  lemma AnonymousWritesNeedAuth(p: Policy, m: HttpMethod)
    requires !IsSafe(m)
    ensures Authorize(p, m, Anonymous) == Fail(AuthRequired)
  {
  }
}
