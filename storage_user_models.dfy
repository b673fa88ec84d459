/**
 * The role and status of a user account as the storage layer's models
 * declare them: the same four roles as the API models, but only two
 * statuses (no `suspended`).
 */
module StorageUserModels {
  import opened Wrappers
  import ApiUserModels

  datatype UserRole = Teacher | Student | Admin | ClassRepresentative

  function RoleSerdeName(r: UserRole): string {
    match r
    case Teacher => "teacher"
    case Student => "student"
    case Admin => "admin"
    case ClassRepresentative => "class_representative"
  }

  /** `Display` of a role: its serde name. */
  function RoleDisplay(r: UserRole): (s: string)
    ensures s == RoleSerdeName(r)
  {
    match r
    case Teacher => "teacher"
    case Student => "student"
    case Admin => "admin"
    case ClassRepresentative => "class_representative"
  }

  /** `FromStr` of a role: exactly the four names parse, each to the role it displays. */
  function RoleFromStr(s: string): (r: Result<UserRole, string>)
    ensures r.Ok? <==> s == "teacher" || s == "student" || s == "admin" || s == "class_representative"
    ensures r.Ok? ==> RoleDisplay(r.value) == s
    ensures r.Err? ==> r.error == "Invalid user role: " + s
  {
    match s
    case "teacher" => Ok(Teacher)
    case "student" => Ok(Student)
    case "admin" => Ok(Admin)
    case "class_representative" => Ok(ClassRepresentative)
    case _ => Err("Invalid user role: " + s)
  }

  lemma RoleRoundTrip(r: UserRole, q: UserRole)
    ensures RoleFromStr(RoleDisplay(r)) == Ok(r)
    ensures RoleDisplay(r) == RoleDisplay(q) ==> r == q
  {
    assert RoleFromStr(RoleDisplay(q)) == Ok(q);
  }

  /** The API model's role of the same name. */
  function AsApiRole(r: UserRole): ApiUserModels.UserRole {
    match r
    case Teacher => ApiUserModels.Teacher
    case Student => ApiUserModels.Student
    case Admin => ApiUserModels.Admin
    case ClassRepresentative => ApiUserModels.ClassRepresentative
  }

  /** A role text means the same role in the storage and in the API models. */
  lemma RolesAgreeWithApi(r: UserRole, s: string)
    ensures RoleDisplay(r) == ApiUserModels.RoleDisplay(AsApiRole(r))
    ensures RoleFromStr(s).Ok? <==> ApiUserModels.RoleFromStr(s).Ok?
    ensures RoleFromStr(s).Ok? ==> AsApiRole(RoleFromStr(s).value) == ApiUserModels.RoleFromStr(s).value
  {
  }

  datatype UserStatus = Active | Inactive

  function StatusSerdeName(st: UserStatus): string {
    match st
    case Active => "active"
    case Inactive => "inactive"
  }

  /** `Display` of a status: its serde name. */
  function StatusDisplay(st: UserStatus): (s: string)
    ensures s == StatusSerdeName(st)
  {
    match st
    case Active => "active"
    case Inactive => "inactive"
  }

  /** `FromStr` of a status: only the two names parse; `suspended` is refused. */
  function StatusFromStr(s: string): (r: Result<UserStatus, string>)
    ensures r.Ok? <==> s == "active" || s == "inactive"
    ensures r.Ok? ==> StatusDisplay(r.value) == s
    ensures r.Err? ==> r.error == "Invalid user status: " + s
  {
    match s
    case "active" => Ok(Active)
    case "inactive" => Ok(Inactive)
    case _ => Err("Invalid user status: " + s)
  }

  lemma StatusRoundTrip(st: UserStatus, other: UserStatus)
    ensures StatusFromStr(StatusDisplay(st)) == Ok(st)
    ensures StatusDisplay(st) == StatusDisplay(other) ==> st == other
  {
    assert StatusFromStr(StatusDisplay(other)) == Ok(other);
  }

  /**
   * Every status the storage layer parses the API layer parses too, but a
   * `suspended` account from the API cannot be read back by the storage
   * models.
   */
  lemma StatusesNarrowerThanApi(s: string)
    ensures StatusFromStr(s).Ok? ==> ApiUserModels.StatusFromStr(s).Ok?
    ensures ApiUserModels.StatusFromStr(ApiUserModels.StatusDisplay(ApiUserModels.Suspended)).Ok?
    ensures StatusFromStr(ApiUserModels.StatusDisplay(ApiUserModels.Suspended)).Err?
  {
  }
}
