/**
  The Team document (backend/models/team.js): a named group of students with
  a join code and a leader.
 */
module TeamModel {
  import opened Base

  datatype Team = Team(
    name: string,
    code: string,
    leaderId: Id,
    members: seq<Id>,
    createdAt: Timestamp)

  /** The leader is one of the members, so a team always has at least one member. */
  predicate WellFormed(t: Team) {
    t.leaderId in t.members
  }

  /**
    Creating a Team document: the `required` validators reject an empty name
    or code, and the `uppercase` setter stores the code upper-cased. Code
    uniqueness is an index over the whole collection, checked by the store.
   */
  function Create(name: string, code: string, leaderId: Id, members: seq<Id>,
                  now: Timestamp): (r: Option<Team>)
    ensures r.Some? <==> name != "" && code != ""
    ensures r.Some? ==> r.value.name == name && r.value.leaderId == leaderId
                        && r.value.members == members && r.value.createdAt == now
    ensures r.Some? ==> r.value.code == ToUpper(code)
    ensures r.Some? ==> |r.value.code| == |code|
    ensures r.Some? ==> forall i :: 0 <= i < |code| ==> !('a' <= r.value.code[i] <= 'z')
    ensures r.Some? && (forall i :: 0 <= i < |code| ==> !('a' <= code[i] <= 'z')) ==> r.value.code == code
  {
    if name == "" || code == "" then None
    else Some(Team(name, ToUpper(code), leaderId, members, now))
  }
}
