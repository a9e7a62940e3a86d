/**
 * The two constant tables of the ranking engine, in declaration order, and the
 * position lookups the engine performs on them (`Object.keys(...).indexOf`,
 * `Object.values(...)[i] || 0`, `activities[i] || 0`).
 */
module ActivityTables {

  /** One entry of an `ActivityWeights` object: a category and its points per occurrence. */
  datatype Weight = Weight(key: string, points: int)

  /** One entry of the tie-breaker priority table: the higher `level`, the earlier it is consulted. */
  datatype Priority = Priority(key: string, level: int)

  /** `ACTIVITY_WEIGHTS`: the 17 categories in the order the ranking system reads them. */
  const ActivityWeights: seq<Weight> := [
    Weight("courseCompletion", 7),
    Weight("highCourseScore", 12),
    Weight("researchPaper", 20),
    Weight("patents", 25),
    Weight("hackathonParticipation", 5),
    Weight("hackathonWin", 10),
    Weight("nationalCompetition", 15),
    Weight("internationalCompetition", 20),
    Weight("deanApproval", 15),
    Weight("professorApproval", 10),
    Weight("externalAward", 12),
    Weight("mentoring", 8),
    Weight("organizingEvents", 6),
    Weight("volunteering", 5),
    Weight("moocs", 6),
    Weight("certifications", 10),
    Weight("openSource", 8)
  ]

  /** `TIE_BREAKER_PRIORITY`, in declaration order. */
  const TieBreakerPriority: seq<Priority> := [
    Priority("patents", 15),
    Priority("researchPaper", 14),
    Priority("internationalCompetition", 13),
    Priority("deanApproval", 12),
    Priority("nationalCompetition", 11),
    Priority("professorApproval", 10),
    Priority("hackathonWin", 9),
    Priority("highCourseScore", 8),
    Priority("certifications", 7),
    Priority("mentoring", 6),
    Priority("openSource", 6),
    Priority("courseCompletion", 5),
    Priority("externalAward", 4),
    Priority("organizingEvents", 3),
    Priority("moocs", 2),
    Priority("hackathonParticipation", 1),
    Priority("volunteering", 0)
  ]

  /** `ACTIVITY_NAMES`: display names, by category index. */
  const ActivityNames: seq<string> := [
    "Course completion",
    "High course score",
    "Research paper",
    "Patents",
    "Hackathon participation",
    "Hackathon win",
    "National competition",
    "International competition",
    "Dean approval",
    "Professor approval",
    "External award",
    "Mentoring",
    "Organizing events",
    "Volunteering",
    "MOOCs",
    "Certifications",
    "Open source"
  ]

  /** `ACTIVITY_WEIGHTS` has 17 categories, each worth a positive number of points. */
  lemma WeightTable()
    ensures |ActivityWeights| == 17
    ensures forall i :: 0 <= i < |ActivityWeights| ==> ActivityWeights[i].points > 0
  {
  }

  /** `ACTIVITY_NAMES` gives every category of `ACTIVITY_WEIGHTS` a non-empty display name, by index. */
  lemma NameTable()
    ensures |ActivityNames| == |ActivityWeights|
    ensures forall i :: 0 <= i < |ActivityNames| ==> ActivityNames[i] != ""
  {
  }

  /** `Object.keys(weights)`. */
  function Keys(w: seq<Weight>): (r: seq<string>)
    ensures |r| == |w|
    ensures forall i :: 0 <= i < |w| ==> r[i] == w[i].key
  {
    seq(|w|, i requires 0 <= i < |w| => w[i].key)
  }

  /** `keys.indexOf(k)`: the first position of `k`, or -1 when it is absent. */
  function IndexOf(keys: seq<string>, k: string): (r: int)
    ensures -1 <= r < |keys|
    ensures r == -1 <==> k !in keys
    ensures 0 <= r ==> keys[r] == k && forall j :: 0 <= j < r ==> keys[j] != k
  {
    if keys == [] then -1
    else if keys[0] == k then 0
    else
      var r := IndexOf(keys[1..], k);
      if r == -1 then -1 else r + 1
  }

  /** `Object.values(weights)[i] || 0`: the weight at a position, 0 past the end. */
  function WeightAt(w: seq<Weight>, i: int): (p: int)
    ensures 0 <= i < |w| ==> p == w[i].points
    ensures !(0 <= i < |w|) ==> p == 0
  {
    if 0 <= i < |w| then w[i].points else 0
  }

  /** `activities[i] || 0`: a count, 0 when the vector is too short. */
  function CountAt(counts: seq<int>, i: int): (c: int)
    ensures 0 <= i < |counts| ==> c == counts[i]
    ensures !(0 <= i < |counts|) ==> c == 0
  {
    if 0 <= i < |counts| then counts[i] else 0
  }
}
