/**
 * A member's role inside a class, as `class_users` rows and API payloads
 * carry it: three role names, the role sets the handlers check against, and
 * the text codecs (`Display`, `FromStr`, a hand-written `Deserialize`, the
 * derived snake-case `Serialize`).
 */
module ClassUserRoles {
  import opened Wrappers
  import opened SerdeNames

  datatype ClassUserRole = Student | ClassRepresentative | Teacher

  const STUDENT: string := "student"
  const TEACHER: string := "teacher"
  const CLASSREPRESENTATIVE: string := "class_representative"

  /** The roles that may act as the class's teacher: the teacher alone. */
  function ClassTeacherRoles(): (roles: seq<ClassUserRole>)
    ensures |roles| == 1
    ensures forall r :: r in roles <==> r == Teacher
  {
    [Teacher]
  }

  /** The roles with a representative's rights: every role but the student. */
  function ClassRepresentativeRoles(): (roles: seq<ClassUserRole>)
    ensures |roles| == 2
    ensures forall r :: r in roles <==> r != Student
  {
    var roles := [ClassRepresentative, Teacher];
    assert forall r :: r in roles <==> r != Student by {
      forall r: ClassUserRole
        ensures r in roles <==> r != Student
      {
        if r == ClassRepresentative { assert roles[0] == r; }
        if r == Teacher { assert roles[1] == r; }
      }
    }
    roles
  }

  /** Every role. */
  function AllRoles(): (roles: seq<ClassUserRole>)
    ensures |roles| == 3
    ensures forall r :: r in roles
  {
    var roles := [Student, ClassRepresentative, Teacher];
    assert forall r :: r in roles by {
      forall r: ClassUserRole
        ensures r in roles
      {
        if r == Student { assert roles[0] == r; }
        if r == ClassRepresentative { assert roles[1] == r; }
        if r == Teacher { assert roles[2] == r; }
      }
    }
    roles
  }

  /** Each set of rights includes the next stronger one, and `AllRoles` lists every role once. */
  lemma RoleSetsNested()
    ensures forall r :: r in ClassTeacherRoles() ==> r in ClassRepresentativeRoles()
    ensures forall r :: r in ClassRepresentativeRoles() ==> r in AllRoles()
    ensures forall r: ClassUserRole :: r in AllRoles()
    ensures forall i, j :: 0 <= i < j < |AllRoles()| ==> AllRoles()[i] != AllRoles()[j]
  {
  }

  /** `Display`: the role's name, one of the three constants. */
  function Display(r: ClassUserRole): (s: string)
    ensures s == STUDENT || s == CLASSREPRESENTATIVE || s == TEACHER
  {
    match r
    case Student => "student"
    case ClassRepresentative => "class_representative"
    case Teacher => "teacher"
  }

  /** `FromStr`: exactly the three names parse, each to the role it displays. */
  function FromStr(s: string): (r: Result<ClassUserRole, string>)
    ensures r.Ok? <==> s == STUDENT || s == CLASSREPRESENTATIVE || s == TEACHER
    ensures r.Ok? ==> Display(r.value) == s
    ensures r.Err? ==> r.error == "Invalid class user role: " + s
  {
    match s
    case "student" => Ok(Student)
    case "class_representative" => Ok(ClassRepresentative)
    case "teacher" => Ok(Teacher)
    case _ => Err("Invalid class user role: " + s)
  }

  /** `Display` then `FromStr` gives the role back, so `Display` is injective. */
  lemma DisplayRoundTrip(r: ClassUserRole, q: ClassUserRole)
    ensures FromStr(Display(r)) == Ok(r)
    ensures Display(r) == Display(q) ==> r == q
  {
    assert FromStr(Display(q)) == Ok(q);
  }

  /**
   * The hand-written `Deserialize` of a JSON string: the same three names
   * and results as `FromStr`, with its own (Chinese) error text.
   */
  function Deserialize(s: string): (r: Result<ClassUserRole, string>)
    ensures r.Ok? <==> FromStr(s).Ok?
    ensures r.Ok? ==> r == FromStr(s)
    ensures r.Err? ==> r.error == "无效的班级用户角色: '" + s + "'. 支持的角色: student, class_representative, teacher"
  {
    match s
    case "student" => Ok(Student)
    case "class_representative" => Ok(ClassRepresentative)
    case "teacher" => Ok(Teacher)
    case _ => Err("无效的班级用户角色: '" + s + "'. 支持的角色: student, class_representative, teacher")
  }

  /** The Rust identifier of each variant. */
  function VariantName(r: ClassUserRole): string {
    match r
    case Student => "Student"
    case ClassRepresentative => "ClassRepresentative"
    case Teacher => "Teacher"
  }

  /**
   * The derived `Serialize` writes the snake-case variant name, which is
   * the `Display` name.
   */
  function Serialize(r: ClassUserRole): (s: string)
    ensures s == Display(r)
  {
    var ident := VariantName(r);
    match r
    case Student => StudentName(ident); SnakeCase(ident)
    case Teacher => TeacherName(ident); SnakeCase(ident)
    case ClassRepresentative => ClassRepresentativeName(ident); SnakeCase(ident)
  }

  lemma StudentName(ident: string)
    requires ident == "Student"
    ensures SnakeCase(ident) == "student"
  {
    assert ident == ['S'] + "tudent";
    OneWord('S', "tudent");
  }

  lemma TeacherName(ident: string)
    requires ident == "Teacher"
    ensures SnakeCase(ident) == "teacher"
  {
    assert ident == ['T'] + "eacher";
    OneWord('T', "eacher");
  }

  lemma ClassRepresentativeName(ident: string)
    requires ident == "ClassRepresentative"
    ensures SnakeCase(ident) == "class_representative"
  {
    TwoWords('C', "lass", 'R', "epresentative");
    var name := "class" + "_" + "representative";
    assert SnakeCase(['C'] + "lass" + ['R'] + "epresentative") == name;
    assert ident == ['C'] + "lass" + ['R'] + "epresentative";
    assert name == "class_representative";
  }

  /** Whatever `Serialize` writes, `Deserialize` reads back to the same role. */
  lemma SerializeRoundTrip(r: ClassUserRole)
    ensures Deserialize(Serialize(r)) == Ok(r)
  {
    var name := Serialize(r);
    assert FromStr(name) == Ok(r);
  }
}
