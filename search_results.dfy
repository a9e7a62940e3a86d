/**
 * The result handling of the search engine: building a result record per
 * student and document, keeping those above the relevance threshold, sorting
 * them by relevance, and the optional filters applied afterwards. Relevance
 * itself is floating-point arithmetic over the texts; here it is an input.
 */
module SearchResults {
  import opened Wrappers
  import opened Sequences
  import opened Sorting
  import opened Profiles

  datatype Kind = StudentKind | DocumentKind | SkillKind

  /** `SearchResult.metadata`; every field is optional. */
  datatype Metadata = Metadata(
    studentId: Option<string>,
    documentId: Option<string>,
    fileType: Option<string>,
    uploadedAt: Option<string>,
    department: Option<string>,
    college: Option<string>,
    skills: Option<seq<string>>,
    yearOfStudy: Option<int>)

  datatype SearchResult = SearchResult(
    id: string,
    kind: Kind,
    title: string,
    description: string,
    relevance: real,
    metadata: Metadata)

  /** `SearchQuery.filters`. */
  datatype Filters = Filters(
    department: Option<string>,
    college: Option<string>,
    skills: Option<seq<string>>,
    yearOfStudy: Option<int>)

  /** The cutoff below which a result is dropped; only scores strictly above it are kept. */
  const Threshold: real := 0.1

  /** The bio when it is truthy, otherwise "Student in " followed by the department or "Unknown Department". */
  function StudentDescription(student: Profile): (d: string)
    ensures Truthy(student.bio) ==> d == student.bio.value
    ensures !Truthy(student.bio) && Truthy(student.department) ==> d == "Student in " + student.department.value
    ensures !Truthy(student.bio) && !Truthy(student.department) ==> d == "Student in Unknown Department"
  {
    OrElse(student.bio, "Student in " + OrElse(student.department, "Unknown Department"))
  }

  /** `processStudentForSearch(student, query)` with the relevance the query gives the student. */
  function ProcessStudentForSearch(student: Profile, relevance: real): (r: SearchResult)
    ensures r.kind == StudentKind && r.id == student.id && r.title == student.fullName
    ensures r.relevance == relevance
    ensures r.metadata.studentId == Some(student.id)
    ensures r.metadata.department == student.department && r.metadata.college == student.college
    ensures r.metadata.yearOfStudy == student.yearOfStudy
    ensures r.metadata.skills.Some? && |r.metadata.skills.value| == |student.skills|
    ensures forall i :: 0 <= i < |student.skills| ==> r.metadata.skills.value[i] == student.skills[i].skillName
    ensures r.description == StudentDescription(student)
    ensures r.metadata.documentId.None? && r.metadata.fileType.None? && r.metadata.uploadedAt.None?
  {
    SearchResult(
      student.id,
      StudentKind,
      student.fullName,
      StudentDescription(student),
      relevance,
      Metadata(Some(student.id), None, None, None, student.department, student.college,
               Some(SkillNames(student.skills)), student.yearOfStudy))
  }

  /**
   * `processDocumentForSearch(document, query)`; `localeDate` stands for
   * `new Date(d).toLocaleDateString()`, which depends on the runtime.
   */
  function ProcessDocumentForSearch(document: Document, relevance: real, localeDate: string -> string): (r: SearchResult)
    ensures r.kind == DocumentKind && r.id == document.id && r.title == document.title
    ensures r.relevance == relevance
    ensures r.metadata.documentId == Some(document.id) && r.metadata.studentId == Some(document.studentId)
    ensures r.metadata.fileType == Some(document.fileType) && r.metadata.uploadedAt == Some(document.uploadedAt)
    ensures Truthy(document.description) ==> r.description == document.description.value
    ensures !Truthy(document.description) ==> r.description == "Document uploaded on " + localeDate(document.uploadedAt)
    ensures r.metadata.department.None? && r.metadata.college.None? && r.metadata.skills.None? && r.metadata.yearOfStudy.None?
  {
    SearchResult(
      document.id,
      DocumentKind,
      document.title,
      OrElse(document.description, "Document uploaded on " + localeDate(document.uploadedAt)),
      relevance,
      Metadata(Some(document.studentId), Some(document.id), Some(document.fileType), Some(document.uploadedAt),
               None, None, None, None))
  }

  /** The result record of every student, in input order. */
  function StudentResults(students: seq<Profile>, relevance: Profile -> real): (r: seq<SearchResult>)
    ensures |r| == |students|
    ensures forall i :: 0 <= i < |students| ==> r[i] == ProcessStudentForSearch(students[i], relevance(students[i]))
  {
    seq(|students|, i requires 0 <= i < |students| => ProcessStudentForSearch(students[i], relevance(students[i])))
  }

  /** The result record of every document, in input order. */
  function DocumentResults(documents: seq<Document>, relevance: Document -> real, localeDate: string -> string): (r: seq<SearchResult>)
    ensures |r| == |documents|
    ensures forall i :: 0 <= i < |documents| ==> r[i] == ProcessDocumentForSearch(documents[i], relevance(documents[i]), localeDate)
  {
    seq(|documents|, i requires 0 <= i < |documents| => ProcessDocumentForSearch(documents[i], relevance(documents[i]), localeDate))
  }

  /** `result.relevanceScore > 0.1`. */
  function Relevant(): SearchResult -> bool {
    (r: SearchResult) => r.relevance > Threshold
  }

  /** The comparator `(a, b) => b.relevanceScore - a.relevanceScore`, as "may stay ahead". */
  function RelevanceLe(): (SearchResult, SearchResult) -> bool {
    (a: SearchResult, b: SearchResult) => b.relevance - a.relevance <= 0.0
  }

  /** The results pushed before sorting: relevant students, then relevant documents. */
  function Candidates(students: seq<Profile>, documents: seq<Document>,
                      studentRelevance: Profile -> real, documentRelevance: Document -> real,
                      localeDate: string -> string): seq<SearchResult>
  {
    FilterBy(Relevant(), StudentResults(students, studentRelevance))
      + FilterBy(Relevant(), DocumentResults(documents, documentRelevance, localeDate))
  }

  /** `searchAndRank(query, students, documents)`, with the relevance of each record as an input. */
  method SearchAndRank(students: seq<Profile>, documents: seq<Document>,
                       studentRelevance: Profile -> real, documentRelevance: Document -> real,
                       localeDate: string -> string) returns (results: seq<SearchResult>)
    ensures results == SortBy(RelevanceLe(), Candidates(students, documents, studentRelevance, documentRelevance, localeDate))
  {
    var fromStudents := PushStudents(students, studentRelevance);
    var fromDocuments := PushDocuments(documents, documentRelevance, localeDate);
    results := fromStudents + fromDocuments;
    results := SortBy(RelevanceLe(), results);
  }

  /** The `students.forEach` loop of `searchAndRank`: push each student result above the threshold. */
  method PushStudents(students: seq<Profile>, studentRelevance: Profile -> real) returns (results: seq<SearchResult>)
    ensures results == FilterBy(Relevant(), StudentResults(students, studentRelevance))
  {
    results := [];
    ghost var sr := StudentResults(students, studentRelevance);
    for i := 0 to |students|
      invariant results == FilterBy(Relevant(), sr[..i])
    {
      FilterSnoc(Relevant(), sr, i);
      var result := ProcessStudentForSearch(students[i], studentRelevance(students[i]));
      if result.relevance > Threshold {
        results := results + [result];
      }
    }
    assert sr[..|students|] == sr;
  }

  /** The `documents.forEach` loop of `searchAndRank`: push each document result above the threshold. */
  method PushDocuments(documents: seq<Document>, documentRelevance: Document -> real,
                       localeDate: string -> string) returns (results: seq<SearchResult>)
    ensures results == FilterBy(Relevant(), DocumentResults(documents, documentRelevance, localeDate))
  {
    results := [];
    ghost var dr := DocumentResults(documents, documentRelevance, localeDate);
    for i := 0 to |documents|
      invariant results == FilterBy(Relevant(), dr[..i])
    {
      FilterSnoc(Relevant(), dr, i);
      var result := ProcessDocumentForSearch(documents[i], documentRelevance(documents[i]), localeDate);
      if result.relevance > Threshold {
        results := results + [result];
      }
    }
    assert dr[..|documents|] == dr;
  }

  /** The comparator is consistent: "may stay ahead" is total and transitive. */
  lemma RelevanceLeTotalPreorder()
    ensures TotalPreorder(RelevanceLe())
  {
  }

  /** Exactly the relevant student and document records are returned, each once per occurrence. */
  lemma SearchAndRankKeeps(students: seq<Profile>, documents: seq<Document>,
                           studentRelevance: Profile -> real, documentRelevance: Document -> real,
                           localeDate: string -> string)
    ensures var c := Candidates(students, documents, studentRelevance, documentRelevance, localeDate);
      var r := SortBy(RelevanceLe(), c);
      && multiset(r) == multiset(c)
      && (forall x :: x in r ==> x.relevance > Threshold)
      && (forall x :: x in r <==>
            (x in StudentResults(students, studentRelevance) || x in DocumentResults(documents, documentRelevance, localeDate))
            && x.relevance > Threshold)
  {
    var c := Candidates(students, documents, studentRelevance, documentRelevance, localeDate);
    SortByMembers(RelevanceLe(), c);
    CandidatesMembers(students, documents, studentRelevance, documentRelevance, localeDate);
  }

  /** The candidates are the student and document records above the threshold. */
  lemma CandidatesMembers(students: seq<Profile>, documents: seq<Document>,
                          studentRelevance: Profile -> real, documentRelevance: Document -> real,
                          localeDate: string -> string)
    ensures forall x :: x in Candidates(students, documents, studentRelevance, documentRelevance, localeDate) <==>
      (x in StudentResults(students, studentRelevance) || x in DocumentResults(documents, documentRelevance, localeDate))
      && x.relevance > Threshold
  {
  }

  /** The returned results fall in relevance from first to last. */
  lemma SearchAndRankOrdered(students: seq<Profile>, documents: seq<Document>,
                             studentRelevance: Profile -> real, documentRelevance: Document -> real,
                             localeDate: string -> string)
    ensures var r := SortBy(RelevanceLe(), Candidates(students, documents, studentRelevance, documentRelevance, localeDate));
      forall i, j :: 0 <= i < j < |r| ==> r[i].relevance >= r[j].relevance
  {
    RelevanceLeTotalPreorder();
    SortBySorted(RelevanceLe(), Candidates(students, documents, studentRelevance, documentRelevance, localeDate));
  }

  /** `relevanceScore == v`. */
  function ScoredAt(v: real): SearchResult -> bool {
    (r: SearchResult) => r.relevance == v
  }

  /**
   * The sort is stable: the results of one relevance keep the order they were
   * pushed in, students before documents and each in input order.
   */
  lemma SearchAndRankStable(students: seq<Profile>, documents: seq<Document>,
                            studentRelevance: Profile -> real, documentRelevance: Document -> real,
                            localeDate: string -> string, v: real)
    ensures var sr := StudentResults(students, studentRelevance);
      var dr := DocumentResults(documents, documentRelevance, localeDate);
      FilterBy(ScoredAt(v), SortBy(RelevanceLe(), Candidates(students, documents, studentRelevance, documentRelevance, localeDate)))
        == FilterBy(ScoredAt(v), FilterBy(Relevant(), sr)) + FilterBy(ScoredAt(v), FilterBy(Relevant(), dr))
  {
    var sr := StudentResults(students, studentRelevance);
    var dr := DocumentResults(documents, documentRelevance, localeDate);
    var c := Candidates(students, documents, studentRelevance, documentRelevance, localeDate);
    var probe := SearchResult("", StudentKind, "", "", v, Metadata(None, None, None, None, None, None, None, None));
    RelevanceLeTotalPreorder();
    SortByStable(RelevanceLe(), c, probe);
    var s := SortBy(RelevanceLe(), c);
    FilterSameOn(TiedWith(RelevanceLe(), probe), ScoredAt(v), s);
    FilterSameOn(TiedWith(RelevanceLe(), probe), ScoredAt(v), c);
    FilterConcat(ScoredAt(v), FilterBy(Relevant(), sr), FilterBy(Relevant(), dr));
  }

  // ---------------------------------------------------------------------------
  // applyFilters

  /** A numeric field is truthy when it is present and not 0. */
  predicate TruthyNum(o: Option<int>) {
    o.Some? && o.value != 0
  }

  /** The skills filter is active when it is present and not empty. */
  predicate SkillsActive(o: Option<seq<string>>) {
    o.Some? && |o.value| > 0
  }

  /** `filters.skills.some(skill => result.metadata.skills?.includes(skill))`. */
  predicate SharesSkill(wanted: seq<string>, have: Option<seq<string>>) {
    have.Some? && exists i :: 0 <= i < |wanted| && wanted[i] in have.value
  }

  /** The callback of `results.filter`: each active filter must agree with the result. */
  predicate Passes(f: Filters, r: SearchResult) {
    && (Truthy(f.department) ==> r.metadata.department == f.department)
    && (Truthy(f.college) ==> r.metadata.college == f.college)
    && (SkillsActive(f.skills) ==> SharesSkill(f.skills.value, r.metadata.skills))
    && (TruthyNum(f.yearOfStudy) ==> r.metadata.yearOfStudy == f.yearOfStudy)
  }

  function PassesAll(f: Filters): SearchResult -> bool {
    (r: SearchResult) => Passes(f, r)
  }

  /** `applyFilters(results, filters)`. */
  function ApplyFilters(results: seq<SearchResult>, filters: Option<Filters>): (r: seq<SearchResult>)
    ensures filters.None? ==> r == results
    ensures IsSubsequence(r, results)
    ensures filters.Some? ==> forall x :: x in r <==> x in results && Passes(filters.value, x)
  {
    if filters.None? then SubsequenceRefl(results); results else FilterBy(PassesAll(filters.value), results)
  }

  /** Filtering a second time with the same filters changes nothing. */
  lemma ApplyFiltersIdempotent(results: seq<SearchResult>, filters: Option<Filters>)
    ensures ApplyFilters(ApplyFilters(results, filters), filters) == ApplyFilters(results, filters)
  {
    if filters.Some? {
      FilterIdempotent(PassesAll(filters.value), results);
    }
  }

  /** Two filter sets give the same list in either order. */
  lemma ApplyFiltersCommute(results: seq<SearchResult>, f: Option<Filters>, g: Option<Filters>)
    ensures ApplyFilters(ApplyFilters(results, f), g) == ApplyFilters(ApplyFilters(results, g), f)
  {
    if f.Some? && g.Some? {
      FilterCommutes(PassesAll(f.value), PassesAll(g.value), results);
    }
  }

  /** No field is active in both filter sets. */
  predicate Disjoint(f: Filters, g: Filters) {
    && !(Truthy(f.department) && Truthy(g.department))
    && !(Truthy(f.college) && Truthy(g.college))
    && !(SkillsActive(f.skills) && SkillsActive(g.skills))
    && !(TruthyNum(f.yearOfStudy) && TruthyNum(g.yearOfStudy))
  }

  /** The field-wise union: each field from whichever set has it active. */
  function Union(f: Filters, g: Filters): Filters {
    Filters(
      if Truthy(f.department) then f.department else g.department,
      if Truthy(f.college) then f.college else g.college,
      if SkillsActive(f.skills) then f.skills else g.skills,
      if TruthyNum(f.yearOfStudy) then f.yearOfStudy else g.yearOfStudy)
  }

  /** Applying two filter sets with no field in common is applying their union once. */
  lemma ApplyFiltersUnion(results: seq<SearchResult>, f: Filters, g: Filters)
    requires Disjoint(f, g)
    ensures ApplyFilters(ApplyFilters(results, Some(f)), Some(g)) == ApplyFilters(results, Some(Union(f, g)))
  {
    FilterFilter(PassesAll(f), PassesAll(g), results);
    FilterSameOn(Both(PassesAll(f), PassesAll(g)), PassesAll(Union(f, g)), results);
  }

  /** Filters with no active field keep every result. */
  lemma ApplyFiltersInactive(results: seq<SearchResult>, f: Filters)
    requires !Truthy(f.department) && !Truthy(f.college) && !SkillsActive(f.skills) && !TruthyNum(f.yearOfStudy)
    ensures ApplyFilters(results, Some(f)) == results
  {
    FilterAll(PassesAll(f), results);
  }
}
