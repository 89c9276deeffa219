/**
  The User document (backend/models/user.js): a student or a mentor account.
 */
module UserModel {
  import opened Base

  /** The `role` enum. */
  datatype Role = Student | Mentor

  /** The string stored in the document for each role. */
  function RoleName(r: Role): string {
    match r
    case Student => "student"
    case Mentor => "mentor"
  }

  /** The enum validator: only "student" and "mentor" are accepted. */
  function ParseRole(name: string): (r: Option<Role>)
    ensures r.Some? <==> name == "student" || name == "mentor"
    ensures r.Some? ==> RoleName(r.value) == name
  {
    if name == "student" then Some(Student)
    else if name == "mentor" then Some(Mentor)
    else None
  }

  datatype User = User(
    name: string,
    email: string,
    password: string,
    role: Role,
    bio: string,
    githubUrl: string,
    linkedinUrl: string,
    skills: seq<string>,
    education: string,
    githubUsername: string,
    company: string,
    jobRole: string,
    expertise: seq<string>,
    yearsOfExperience: string,
    createdAt: Timestamp)

  /**
    Creating a User document: the `required` validators reject an empty name,
    email or password, the enum validator rejects an unknown role (a missing
    role takes the default "student"), and the profile fields take their
    defaults. Email uniqueness is an index over the whole collection, checked
    by the store.
   */
  function Create(name: string, email: string, password: string, role: Option<string>,
                  githubUsername: string, now: Timestamp): (r: Option<User>)
    ensures r.Some? <==> name != "" && email != "" && password != ""
                         && (role.None? || ParseRole(role.value).Some?)
    ensures r.Some? ==> r.value.name == name && r.value.email == email
                        && r.value.password == password && r.value.githubUsername == githubUsername
    ensures r.Some? && role.None? ==> r.value.role == Student
    ensures r.Some? && role.Some? ==> RoleName(r.value.role) == role.value
    ensures r.Some? ==> r.value.skills == [] && r.value.expertise == []
    ensures r.Some? ==> r.value.bio == "" && r.value.githubUrl == "" && r.value.linkedinUrl == ""
                        && r.value.education == "" && r.value.company == ""
                        && r.value.jobRole == "" && r.value.yearsOfExperience == ""
    ensures r.Some? ==> r.value.createdAt == now
  {
    var parsed := if role.None? then Some(Student) else ParseRole(role.value);
    if name == "" || email == "" || password == "" || parsed.None? then None
    else Some(User(name, email, password, parsed.value, "", "", "", [], "", githubUsername,
                   "", "", [], "", now))
  }
}
