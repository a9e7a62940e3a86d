/**
 * The student and document records the search engine and the student directory
 * work on, with JavaScript's reading of a missing or empty optional string.
 */
module Profiles {
  import opened Wrappers

  /** One entry of a student's `skills` list. */
  datatype Skill = Skill(skillName: string, proficiencyLevel: string, category: string)

  /** A student profile; fields marked optional in the program are `Option`s. */
  datatype Profile = Profile(
    id: string,
    fullName: string,
    email: string,
    department: Option<string>,
    college: Option<string>,
    yearOfStudy: Option<int>,
    bio: Option<string>,
    skills: seq<Skill>)

  /** An uploaded document. */
  datatype Document = Document(
    id: string,
    title: string,
    description: Option<string>,
    fileType: string,
    uploadedAt: string,
    studentId: string)

  /** A string field is truthy when it is present and not `""`. */
  predicate Truthy(o: Option<string>) {
    o.Some? && o.value != ""
  }

  /** `o || fallback` on an optional string. */
  function OrElse(o: Option<string>, fallback: string): (r: string)
    ensures Truthy(o) ==> r == o.value
    ensures !Truthy(o) ==> r == fallback
  {
    if Truthy(o) then o.value else fallback
  }

  /** `skills.map(s => s.skill_name)`. */
  function SkillNames(skills: seq<Skill>): (r: seq<string>)
    ensures |r| == |skills|
    ensures forall i :: 0 <= i < |skills| ==> r[i] == skills[i].skillName
  {
    seq(|skills|, i requires 0 <= i < |skills| => skills[i].skillName)
  }
}
