/**
 * The second, separately declared `ClassUserRole` of the class-student
 * records. It has its own codecs; `AgreesWithClassUsers` shows they behave
 * exactly like those of the class-user records.
 */
module ClassStudentRoles {
  import opened Wrappers
  import ClassUserRoles

  datatype ClassUserRole = Student | ClassRepresentative | Teacher

  /** `Display`. */
  function Display(r: ClassUserRole): (s: string)
    ensures s == "student" || s == "class_representative" || s == "teacher"
  {
    match r
    case Student => "student"
    case ClassRepresentative => "class_representative"
    case Teacher => "teacher"
  }

  /** `FromStr`: exactly the three names parse, each to the role it displays. */
  function FromStr(s: string): (r: Result<ClassUserRole, string>)
    ensures r.Ok? <==> s == "student" || s == "class_representative" || s == "teacher"
    ensures r.Ok? ==> Display(r.value) == s
    ensures r.Err? ==> r.error == "Invalid class user role: " + s
  {
    match s
    case "student" => Ok(Student)
    case "class_representative" => Ok(ClassRepresentative)
    case "teacher" => Ok(Teacher)
    case _ => Err("Invalid class user role: " + s)
  }

  /** `Display` then `FromStr` gives the role back, so `Display` is injective. */
  lemma DisplayRoundTrip(r: ClassUserRole, q: ClassUserRole)
    ensures FromStr(Display(r)) == Ok(r)
    ensures Display(r) == Display(q) ==> r == q
  {
    assert FromStr(Display(q)) == Ok(q);
  }

  /** The hand-written `Deserialize`: `FromStr`'s names and results, its own error text. */
  function Deserialize(s: string): (r: Result<ClassUserRole, string>)
    ensures r.Ok? <==> FromStr(s).Ok?
    ensures r.Ok? ==> r == FromStr(s)
    ensures r.Err? ==> r.error == "无效的班级用户角色: '" + s + "'. 支持的角色: student, class_representative, teacher"
  {
    match s
    case "student" => Ok(Student)
    case "class_representative" => Ok(ClassRepresentative)
    case "teacher" => Ok(Teacher)
    case _ => Err("无效的班级用户角色: '" + s + "'. 支持的角色: student, class_representative, teacher")
  }

  /** The same-named variant of the class-user records' role. */
  function AsClassUserRole(r: ClassUserRole): ClassUserRoles.ClassUserRole {
    match r
    case Student => ClassUserRoles.Student
    case ClassRepresentative => ClassUserRoles.ClassRepresentative
    case Teacher => ClassUserRoles.Teacher
  }

  /** The derived `Serialize` writes the snake-case variant name, which is the `Display` name. */
  function Serialize(r: ClassUserRole): (s: string)
    ensures s == Display(r)
  {
    ClassUserRoles.Serialize(AsClassUserRole(r))
  }

  /**
   * The two declarations are interchangeable: same names shown, same
   * strings accepted, same-named variants returned, same error texts.
   */
  lemma AgreesWithClassUsers(r: ClassUserRole, s: string)
    ensures Display(r) == ClassUserRoles.Display(AsClassUserRole(r))
    ensures FromStr(s).Ok? <==> ClassUserRoles.FromStr(s).Ok?
    ensures FromStr(s).Ok? ==> AsClassUserRole(FromStr(s).value) == ClassUserRoles.FromStr(s).value
    ensures FromStr(s).Err? ==> FromStr(s) == ClassUserRoles.FromStr(s).PropagateFailure()
    ensures Deserialize(s).Err? ==> Deserialize(s) == ClassUserRoles.Deserialize(s).PropagateFailure()
  {
  }

  /** Whatever `Serialize` writes, `Deserialize` reads back. */
  lemma SerializeRoundTrip(r: ClassUserRole)
    ensures Deserialize(Serialize(r)) == Ok(r)
  {
    var name := Serialize(r);
    assert FromStr(name) == Ok(r);
  }
}
