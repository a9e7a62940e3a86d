/**
 * `filterStudents` of the student directory: a search box matched against a
 * student's name, email, bio and skill names, followed by exact selections of
 * department, college and skill, where the selection `"all"` lets everyone through.
 */
module Directory {
  import opened Wrappers
  import opened Text
  import opened Sequences
  import opened Profiles

  /** The directory's filter controls. */
  datatype Selection = Selection(searchTerm: string, department: string, college: string, skill: string)

  /** The choice that imposes no constraint in the three drop-downs. */
  const All: string := "all"

  /** The lower-cased term occurs in the lower-cased name, email, bio when there is one, or some skill name. */
  predicate MatchesTerm(term: string, s: Profile) {
    var t := Lower(term);
    || Includes(Lower(s.fullName), t)
    || Includes(Lower(s.email), t)
    || (s.bio.Some? && Includes(Lower(s.bio.value), t))
    || exists k :: 0 <= k < |s.skills| && Includes(Lower(s.skills[k].skillName), t)
  }

  function TermFilter(term: string): Profile -> bool {
    (s: Profile) => MatchesTerm(term, s)
  }

  /** `student.department === selectedDepartment`: a missing department equals no selection. */
  function DepartmentIs(d: string): Profile -> bool {
    (s: Profile) => s.department == Some(d)
  }

  function CollegeIs(c: string): Profile -> bool {
    (s: Profile) => s.college == Some(c)
  }

  /** `student.skills.some(skill => skill.skill_name === selectedSkill)`. */
  function HasSkill(skill: string): Profile -> bool {
    (s: Profile) => exists k :: 0 <= k < |s.skills| && s.skills[k].skillName == skill
  }

  /** One conditional `filter` call of the chain. */
  function Stage<T(!new)>(active: bool, p: T -> bool, s: seq<T>): (r: seq<T>)
    ensures !active ==> r == s
    ensures active ==> r == FilterBy(p, s)
  {
    if active then FilterBy(p, s) else s
  }

  /** `filterStudents()`: the four stages in the order the program applies them. */
  function FilterStudents(students: seq<Profile>, sel: Selection): seq<Profile> {
    var byTerm := Stage(sel.searchTerm != "", TermFilter(sel.searchTerm), students);
    var byDepartment := Stage(sel.department != All, DepartmentIs(sel.department), byTerm);
    var byCollege := Stage(sel.college != All, CollegeIs(sel.college), byDepartment);
    Stage(sel.skill != All, HasSkill(sel.skill), byCollege)
  }

  /** What every active control demands of a listed student. */
  predicate Kept(sel: Selection, s: Profile) {
    && (sel.searchTerm != "" ==> MatchesTerm(sel.searchTerm, s))
    && (sel.department != All ==> s.department == Some(sel.department))
    && (sel.college != All ==> s.college == Some(sel.college))
    && (sel.skill != All ==> exists k :: 0 <= k < |s.skills| && s.skills[k].skillName == sel.skill)
  }

  function KeptBy(sel: Selection): Profile -> bool {
    (s: Profile) => Kept(sel, s)
  }

  /** A stage keeps what it is given when it is inactive, and filters otherwise. */
  function Guarded<T>(active: bool, p: T -> bool): T -> bool {
    (x: T) => !active || p(x)
  }

  lemma StageIsFilter<T(!new)>(active: bool, p: T -> bool, s: seq<T>)
    ensures Stage(active, p, s) == FilterBy(Guarded(active, p), s)
  {
    if active {
      FilterSameOn(p, Guarded(active, p), s);
    } else {
      FilterAll(Guarded(active, p), s);
    }
  }

  /** The chain is one `filter` with the conjunction of what the active controls demand. */
  lemma FilterStudentsIsOneFilter(students: seq<Profile>, sel: Selection)
    ensures FilterStudents(students, sel) == FilterBy(KeptBy(sel), students)
  {
    var a := Guarded(sel.searchTerm != "", TermFilter(sel.searchTerm));
    var b := Guarded(sel.department != All, DepartmentIs(sel.department));
    var c := Guarded(sel.college != All, CollegeIs(sel.college));
    var d := Guarded(sel.skill != All, HasSkill(sel.skill));
    var s1 := Stage(sel.searchTerm != "", TermFilter(sel.searchTerm), students);
    var s2 := Stage(sel.department != All, DepartmentIs(sel.department), s1);
    var s3 := Stage(sel.college != All, CollegeIs(sel.college), s2);
    StageIsFilter(sel.searchTerm != "", TermFilter(sel.searchTerm), students);
    StageIsFilter(sel.department != All, DepartmentIs(sel.department), s1);
    StageIsFilter(sel.college != All, CollegeIs(sel.college), s2);
    StageIsFilter(sel.skill != All, HasSkill(sel.skill), s3);
    FourFilters(a, b, c, d, students);
    FilterSameOn(Both(Both(Both(a, b), c), d), KeptBy(sel), students);
  }

  /** Four `filter` calls in a row are one with the conjunction. */
  lemma FourFilters<T(!new)>(a: T -> bool, b: T -> bool, c: T -> bool, d: T -> bool, s: seq<T>)
    ensures FilterBy(d, FilterBy(c, FilterBy(b, FilterBy(a, s)))) == FilterBy(Both(Both(Both(a, b), c), d), s)
  {
    FilterFilter(a, b, s);
    FilterFilter(Both(a, b), c, s);
    FilterFilter(Both(Both(a, b), c), d, s);
  }

  /** The directory lists exactly the students every active control accepts. */
  lemma FilterStudentsMembers(students: seq<Profile>, sel: Selection, s: Profile)
    ensures s in FilterStudents(students, sel) <==> s in students && Kept(sel, s)
  {
    FilterStudentsIsOneFilter(students, sel);
  }

  /** The directory keeps the students' order and never repeats one. */
  lemma FilterStudentsSubsequence(students: seq<Profile>, sel: Selection)
    ensures IsSubsequence(FilterStudents(students, sel), students)
  {
    FilterStudentsIsOneFilter(students, sel);
  }

  /** With every control cleared the whole directory is listed. */
  lemma FilterStudentsCleared(students: seq<Profile>)
    ensures FilterStudents(students, Selection("", All, All, All)) == students
  {
  }

  /** The stages in the opposite order list the same students in the same order. */
  lemma FilterStudentsOrderFree(students: seq<Profile>, sel: Selection)
    ensures FilterStudents(students, sel) ==
      Stage(sel.searchTerm != "", TermFilter(sel.searchTerm),
        Stage(sel.department != All, DepartmentIs(sel.department),
          Stage(sel.college != All, CollegeIs(sel.college),
            Stage(sel.skill != All, HasSkill(sel.skill), students))))
  {
    var a := Guarded(sel.searchTerm != "", TermFilter(sel.searchTerm));
    var b := Guarded(sel.department != All, DepartmentIs(sel.department));
    var c := Guarded(sel.college != All, CollegeIs(sel.college));
    var d := Guarded(sel.skill != All, HasSkill(sel.skill));
    var s1 := Stage(sel.skill != All, HasSkill(sel.skill), students);
    var s2 := Stage(sel.college != All, CollegeIs(sel.college), s1);
    var s3 := Stage(sel.department != All, DepartmentIs(sel.department), s2);
    StageIsFilter(sel.skill != All, HasSkill(sel.skill), students);
    StageIsFilter(sel.college != All, CollegeIs(sel.college), s1);
    StageIsFilter(sel.department != All, DepartmentIs(sel.department), s2);
    StageIsFilter(sel.searchTerm != "", TermFilter(sel.searchTerm), s3);
    FourFilters(d, c, b, a, students);
    FilterStudentsIsOneFilter(students, sel);
    FilterSameOn(Both(Both(Both(d, c), b), a), KeptBy(sel), students);
  }
}
