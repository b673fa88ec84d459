/**
 * The role and status of a user account in the API models: four roles and
 * three statuses, each with `Display`, `FromStr` and serde names given by
 * per-variant `rename` attributes.
 */
module ApiUserModels {
  import opened Wrappers

  datatype UserRole = Teacher | Student | Admin | ClassRepresentative

  /** The `#[serde(rename = ...)]` name of each role. */
  function RoleSerdeName(r: UserRole): string {
    match r
    case Teacher => "teacher"
    case Student => "student"
    case Admin => "admin"
    case ClassRepresentative => "class_representative"
  }

  /** `Display` of a role: its serde name. */
  function RoleDisplay(r: UserRole): (s: string)
    ensures s == RoleSerdeName(r)
  {
    match r
    case Teacher => "teacher"
    case Student => "student"
    case Admin => "admin"
    case ClassRepresentative => "class_representative"
  }

  /** `FromStr` of a role: exactly the four names parse, each to the role it displays. */
  function RoleFromStr(s: string): (r: Result<UserRole, string>)
    ensures r.Ok? <==> s == "teacher" || s == "student" || s == "admin" || s == "class_representative"
    ensures r.Ok? ==> RoleDisplay(r.value) == s
    ensures r.Err? ==> r.error == "Invalid user role: " + s
  {
    match s
    case "teacher" => Ok(Teacher)
    case "student" => Ok(Student)
    case "admin" => Ok(Admin)
    case "class_representative" => Ok(ClassRepresentative)
    case _ => Err("Invalid user role: " + s)
  }

  /** Every role survives `Display` then `FromStr`, so `Display` is injective. */
  lemma RoleRoundTrip(r: UserRole, q: UserRole)
    ensures RoleFromStr(RoleDisplay(r)) == Ok(r)
    ensures RoleDisplay(r) == RoleDisplay(q) ==> r == q
  {
    assert RoleFromStr(RoleDisplay(q)) == Ok(q);
  }

  datatype UserStatus = Active | Inactive | Suspended

  function StatusSerdeName(st: UserStatus): string {
    match st
    case Active => "active"
    case Inactive => "inactive"
    case Suspended => "suspended"
  }

  /** `Display` of a status: its serde name. */
  function StatusDisplay(st: UserStatus): (s: string)
    ensures s == StatusSerdeName(st)
  {
    match st
    case Active => "active"
    case Inactive => "inactive"
    case Suspended => "suspended"
  }

  /** `FromStr` of a status: exactly the three names parse. */
  function StatusFromStr(s: string): (r: Result<UserStatus, string>)
    ensures r.Ok? <==> s == "active" || s == "inactive" || s == "suspended"
    ensures r.Ok? ==> StatusDisplay(r.value) == s
    ensures r.Err? ==> r.error == "Invalid user status: " + s
  {
    match s
    case "active" => Ok(Active)
    case "inactive" => Ok(Inactive)
    case "suspended" => Ok(Suspended)
    case _ => Err("Invalid user status: " + s)
  }

  /** Every status survives `Display` then `FromStr`, so `Display` is injective. */
  lemma StatusRoundTrip(st: UserStatus, other: UserStatus)
    ensures StatusFromStr(StatusDisplay(st)) == Ok(st)
    ensures StatusDisplay(st) == StatusDisplay(other) ==> st == other
  {
    assert StatusFromStr(StatusDisplay(other)) == Ok(other);
  }
}
