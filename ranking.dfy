/**
 * `rankStudents` and the two queries built on it, `searchStudents` and
 * `filterStudentsByActivity`: score, sort by score, break ties, then give
 * competition ranks ("1, 2, 2, 4").
 */
module Ranking {
  import opened Wrappers
  import opened Text
  import opened Sequences
  import opened Sorting
  import opened ActivityTables
  import opened Scoring
  import opened TieBreak

  /** `{ name, score, rank }`. */
  datatype Ranked = Ranked(name: string, score: int, rank: int)

  function EntryName(e: Entry): string {
    e.name
  }

  // ---------------------------------------------------------------------------
  // The rank loop

  /** The `currentRank` the loop holds at position `i`. */
  function RankAt(s: seq<Scored>, i: nat): (r: int)
    requires i < |s|
    ensures 1 <= r <= i + 1
  {
    if i == 0 then 1
    else if s[i].score < s[i - 1].score then i + 1
    else RankAt(s, i - 1)
  }

  /** The students without their ranks. */
  function Unranked(r: seq<Ranked>): (s: seq<Scored>)
    ensures |s| == |r|
    ensures forall i :: 0 <= i < |r| ==> s[i] == Scored(r[i].name, r[i].score)
  {
    seq(|r|, i requires 0 <= i < |r| => Scored(r[i].name, r[i].score))
  }

  /** The students of `s`, in order, each with the rank the loop gives it. */
  function Ranking(s: seq<Scored>): (r: seq<Ranked>)
    ensures |r| == |s|
    ensures forall i {:trigger r[i]} :: 0 <= i < |s| ==> r[i].name == s[i].name && r[i].score == s[i].score && r[i].rank == RankAt(s, i)
  {
    seq(|s|, i requires 0 <= i < |s| => Ranked(s[i].name, s[i].score, RankAt(s, i)))
  }

  /** Dropping the ranks gives back the list that was ranked. */
  lemma UnrankedRanking(s: seq<Scored>)
    ensures Unranked(Ranking(s)) == s
  {
    var r := Ranking(s);
    assert forall i :: 0 <= i < |s| ==> Unranked(r)[i] == s[i];
  }

  /** The rank loop of `rankStudents`, `previousScore` starting as `null`. */
  method AssignRanks(students: seq<Scored>) returns (rankedStudents: seq<Ranked>)
    ensures rankedStudents == Ranking(students)
  {
    rankedStudents := [];
    var currentRank := 1;
    var previousScore: Option<int> := None;
    var i := 0;
    while i < |students|
      invariant 0 <= i <= |students|
      invariant |rankedStudents| == i
      invariant forall k {:trigger rankedStudents[k]} :: 0 <= k < i ==> rankedStudents[k] == Ranked(students[k].name, students[k].score, RankAt(students, k))
      invariant i == 0 ==> previousScore == None && currentRank == 1
      invariant 0 < i ==> previousScore == Some(students[i - 1].score) && currentRank == RankAt(students, i - 1)
    {
      var student := students[i];
      if previousScore.Some? && student.score < previousScore.value {
        currentRank := i + 1;
      }
      assert currentRank == RankAt(students, i);
      rankedStudents := rankedStudents + [Ranked(student.name, student.score, currentRank)];
      previousScore := Some(student.score);
      i := i + 1;
    }
    assert forall k :: 0 <= k < i ==> Ranking(students)[k] == Ranked(students[k].name, students[k].score, RankAt(students, k));
  }

  /** Ranks never go down along the list, whatever its order. */
  lemma {:induction false} RanksNonDecreasing(s: seq<Scored>, i: nat, j: nat)
    requires i <= j < |s|
    ensures RankAt(s, i) <= RankAt(s, j)
    decreases j
  {
    if i < j {
      RanksNonDecreasing(s, i, j - 1);
    }
  }

  /** On a descending list, a rank is one more than the position where that score's run starts. */
  lemma {:induction false} RankIsRunStart(s: seq<Scored>, i: nat)
    requires Descending(s) && i < |s|
    ensures RankAt(s, i) == First(s, s[i].score) + 1
  {
    if i > 0 {
      if s[i].score < s[i - 1].score {
        assert forall j :: 0 <= j < i ==> s[j].score > s[i].score by {
          forall j | 0 <= j < i ensures s[j].score > s[i].score {
            assert s[i - 1].score <= s[j].score;
          }
        }
      } else {
        assert s[i].score == s[i - 1].score;
        RankIsRunStart(s, i - 1);
      }
    }
  }

  /** `s[i].score` is strictly above `v`. */
  function Above(v: int): Scored -> bool {
    (x: Scored) => x.score > v
  }

  /** Competition ranking: one more than the number of students with a higher score. */
  lemma RankCountsHigher(s: seq<Scored>, i: nat)
    requires Descending(s) && i < |s|
    ensures RankAt(s, i) == 1 + |FilterBy(Above(s[i].score), s)|
  {
    var v := s[i].score;
    var f := First(s, v);
    RankIsRunStart(s, i);
    forall k | 0 <= k < |s| ensures Above(v)(s[k]) <==> 0 <= k < f {
      if k < f {
        assert s[i].score <= s[k].score;
      } else if f < k {
        assert s[k].score <= s[f].score;
      }
    }
    FilterRun(Above(v), s, 0, f);
  }

  /** On a descending list, two students share a rank exactly when they share a score. */
  lemma RankEqualIffScoreEqual(s: seq<Scored>, i: nat, j: nat)
    requires Descending(s) && i < |s| && j < |s|
    ensures RankAt(s, i) == RankAt(s, j) <==> s[i].score == s[j].score
  {
    RankIsRunStart(s, i);
    RankIsRunStart(s, j);
  }

  /** Without ties the ranks are the positions, counted from 1. */
  lemma RankWithoutTies(s: seq<Scored>, i: nat)
    requires Descending(s) && DistinctBy(ScoreKey, s) && i < |s|
    ensures RankAt(s, i) == i + 1
  {
    RankIsRunStart(s, i);
    var f := First(s, s[i].score);
    assert ScoreKey(s[f]) == ScoreKey(s[i]);
  }

  // ---------------------------------------------------------------------------
  // rankStudents

  /** `rankStudents(matrix)` under the weights `w`. */
  function RankingOf(m: seq<Entry>, w: seq<Weight>): seq<Ranked> {
    Ranking(TieWriteBack(SortBy(ScoreLe(), Scores(m, w)), m, Keys(w)))
  }

  /** `rankStudents(matrix)`: score, sort with `(a, b) => b.score - a.score`, break ties, rank. */
  method RankStudents(m: seq<Entry>, w: seq<Weight>) returns (rankedStudents: seq<Ranked>)
    ensures rankedStudents == RankingOf(m, w)
  {
    var studentsWithScores := CalculateScores(m, w);
    studentsWithScores := SortBy(ScoreLe(), studentsWithScores);
    studentsWithScores := HandleTies(studentsWithScores, m, Keys(w));
    rankedStudents := AssignRanks(studentsWithScores);
  }

  lemma ScoreLeTotalPreorder()
    ensures TotalPreorder(ScoreLe())
  {
  }

  /** Matrix keys are distinct, so the scored students have distinct names. */
  lemma {:induction false} ScoresKeepNames(m: seq<Entry>, w: seq<Weight>)
    requires DistinctBy(EntryName, m)
    ensures DistinctBy(Name, Scores(m, w))
  {
    var s := Scores(m, w);
    forall i, j | 0 <= i < j < |s| ensures Name(s[i]) != Name(s[j]) {
      assert EntryName(m[i]) != EntryName(m[j]);
    }
  }

  /** The score sort yields a descending permutation of the scores. */
  lemma ScoreSortFacts(m: seq<Entry>, w: seq<Weight>)
    ensures var s := SortBy(ScoreLe(), Scores(m, w));
      SortedBy(ScoreLe(), s) && Descending(s) && multiset(s) == multiset(Scores(m, w))
  {
    ScoreLeTotalPreorder();
    SortBySorted(ScoreLe(), Scores(m, w));
    DescendingIff(SortBy(ScoreLe(), Scores(m, w)));
  }

  /** Scores equal slot by slot with a descending list are descending too. */
  lemma SameScoresDescending(s: seq<Scored>, out: seq<Scored>)
    requires Descending(s) && |out| == |s|
    requires forall i :: 0 <= i < |s| ==> out[i].score == s[i].score
    ensures Descending(out)
  {
    forall i, j | 0 <= i < j < |out| ensures out[j].score <= out[i].score {
      assert out[i].score == s[i].score && out[j].score == s[j].score;
    }
  }

  /**
   * The rank loop over a descending list: scores stay descending, each rank is one more
   * than the number of higher scores, and ranks are equal exactly when scores are.
   */
  lemma RankingOfDescending(s: seq<Scored>)
    requires Descending(s)
    ensures var r := Ranking(s);
      && Unranked(r) == s
      && (forall i, j :: 0 <= i < j < |r| ==> r[j].score <= r[i].score)
      && (forall i :: 0 <= i < |r| ==> r[i].rank == 1 + |FilterBy(Above(r[i].score), Unranked(r))|)
      && (forall i, j :: 0 <= i < |r| && 0 <= j < |r| ==> (r[i].rank == r[j].rank <==> r[i].score == r[j].score))
  {
    var r := Ranking(s);
    UnrankedRanking(s);
    forall i | 0 <= i < |r| ensures r[i].rank == 1 + |FilterBy(Above(r[i].score), s)| {
      RankCountsHigher(s, i);
    }
    forall i, j | 0 <= i < |r| && 0 <= j < |r| ensures r[i].rank == r[j].rank <==> r[i].score == r[j].score {
      RankEqualIffScoreEqual(s, i, j);
    }
  }

  /**
   * When every tied group's tie-break winner already comes first after the score
   * sort, `rankStudents` lists every scored student once, by descending score,
   * ties in comparator order, with competition ranks.
   */
  lemma RankStudentsSpec(m: seq<Entry>, w: seq<Weight>)
    requires DistinctBy(EntryName, m)
    requires WinnersLead(m, Keys(w), SortBy(ScoreLe(), Scores(m, w)))
    ensures var r := RankingOf(m, w);
      && |r| == |m|
      && multiset(Unranked(r)) == multiset(Scores(m, w))
      && (forall i, j :: 0 <= i < j < |r| ==> r[j].score <= r[i].score)
      && (forall i, j :: 0 <= i < j < |r| && r[i].score == r[j].score ==> TieLe(m, Keys(w))(Unranked(r)[i], Unranked(r)[j]))
      && (forall i :: 0 <= i < |r| ==> r[i].rank == 1 + |FilterBy(Above(r[i].score), Unranked(r))|)
  {
    var s := SortBy(ScoreLe(), Scores(m, w));
    ScoreSortFacts(m, w);
    ScoresKeepNames(m, w);
    SortByDistinct(ScoreLe(), Name, Scores(m, w));
    TieWriteBackSpec(s, m, Keys(w));
    var out := TieWriteBack(s, m, Keys(w));
    SameScoresDescending(s, out);
    assert RankingOf(m, w) == Ranking(out);
    RankedPermutation(Scores(m, w), out, TieLe(m, Keys(w)));
  }

  /** The rank loop over a descending permutation of `sc` whose ties stand in `le` order. */
  lemma RankedPermutation(sc: seq<Scored>, out: seq<Scored>, le: (Scored, Scored) -> bool)
    requires |out| == |sc| && multiset(out) == multiset(sc) && Descending(out)
    requires forall i, j :: 0 <= i < j < |out| && out[i].score == out[j].score ==> le(out[i], out[j])
    ensures var r := Ranking(out);
      && |r| == |sc|
      && multiset(Unranked(r)) == multiset(sc)
      && (forall i, j :: 0 <= i < j < |r| ==> r[j].score <= r[i].score)
      && (forall i, j :: 0 <= i < j < |r| && r[i].score == r[j].score ==> le(Unranked(r)[i], Unranked(r)[j]))
      && (forall i :: 0 <= i < |r| ==> r[i].rank == 1 + |FilterBy(Above(r[i].score), Unranked(r))|)
  {
    RankingOfDescending(out);
  }

  /** With pairwise different scores no precondition is needed, and the ranks are 1, 2, 3, ... */
  lemma RankStudentsNoTies(m: seq<Entry>, w: seq<Weight>)
    requires DistinctBy(ScoreKey, Scores(m, w))
    ensures var r := RankingOf(m, w);
      && |r| == |m|
      && multiset(Unranked(r)) == multiset(Scores(m, w))
      && (forall i, j :: 0 <= i < j < |r| ==> r[j].score < r[i].score)
      && (forall i :: 0 <= i < |r| ==> r[i].rank == i + 1)
  {
    var s := SortBy(ScoreLe(), Scores(m, w));
    ScoreSortFacts(m, w);
    SortByDistinct(ScoreLe(), ScoreKey, Scores(m, w));
    NoTiesUnchanged(s, m, Keys(w));
    assert RankingOf(m, w) == Ranking(s);
    StrictRanks(s);
  }

  /** A descending list with pairwise different scores is strictly descending and ranked by position. */
  lemma StrictRanks(s: seq<Scored>)
    requires Descending(s) && DistinctBy(ScoreKey, s)
    ensures var r := Ranking(s);
      && Unranked(r) == s
      && (forall i, j :: 0 <= i < j < |r| ==> r[j].score < r[i].score)
      && (forall i :: 0 <= i < |r| ==> r[i].rank == i + 1)
  {
    var r := Ranking(s);
    forall i | 0 <= i < |r| ensures r[i].score == s[i].score {
      assert Unranked(r)[i] == s[i];
    }
    forall i, j | 0 <= i < j < |s| ensures s[j].score < s[i].score {
      assert ScoreKey(s[i]) != ScoreKey(s[j]);
    }
    forall i | 0 <= i < |s| ensures RankAt(s, i) == i + 1 {
      RankWithoutTies(s, i);
    }
  }

  /** Some entry of `m` has this name and counts worth this score. */
  ghost predicate CameFrom(m: seq<Entry>, w: seq<Weight>, name: string, score: int) {
    exists e :: e in m && e.name == name && score == ScoreOf(e.counts, w)
  }

  /** A scored student of the matrix comes from one of its entries. */
  lemma FromMatrix(m: seq<Entry>, w: seq<Weight>, x: Scored)
    requires x in multiset(Scores(m, w))
    ensures CameFrom(m, w, x.name, x.score)
  {
    var sc := Scores(m, w);
    var k :| 0 <= k < |sc| && sc[k] == x;
    assert m[k] in m;
  }

  /** Every ranked student is a matrix entry with its own score, whatever the ties do. */
  lemma RankingFrom(m: seq<Entry>, w: seq<Weight>)
    ensures var r := RankingOf(m, w);
      forall i :: 0 <= i < |r| ==> CameFrom(m, w, r[i].name, r[i].score)
  {
    var s := SortBy(ScoreLe(), Scores(m, w));
    TieWriteBackFrom(s, m, Keys(w));
    var out := TieWriteBack(s, m, Keys(w));
    var r := Ranking(out);
    forall i | 0 <= i < |r| ensures CameFrom(m, w, r[i].name, r[i].score) {
      assert out[i] in out;
      FromMatrix(m, w, out[i]);
    }
  }

  /** The ranking `r` lists entry `e` with the score of its counts. */
  ghost predicate Lists(r: seq<Ranked>, e: Entry, w: seq<Weight>) {
    exists i :: 0 <= i < |r| && r[i].name == e.name && r[i].score == ScoreOf(e.counts, w)
  }

  /** Under the precondition of `RankStudentsSpec`, every matrix entry is ranked with its score. */
  lemma RankingHasAll(m: seq<Entry>, w: seq<Weight>)
    requires DistinctBy(EntryName, m)
    requires WinnersLead(m, Keys(w), SortBy(ScoreLe(), Scores(m, w)))
    ensures forall e :: e in m ==> Lists(RankingOf(m, w), e, w)
  {
    RankStudentsSpec(m, w);
    var r := RankingOf(m, w);
    var sc := Scores(m, w);
    forall e | e in m ensures Lists(r, e, w) {
      var k :| 0 <= k < |m| && m[k] == e;
      assert sc[k] in multiset(Unranked(r));
      var i :| 0 <= i < |r| && Unranked(r)[i] == sc[k];
    }
  }

  // ---------------------------------------------------------------------------
  // The sample matrix

  /** The score sort of five students whose scores stand in the order of the sample. */
  lemma SortFive(a: Scored, b: Scored, c: Scored, d: Scored, e: Scored)
    requires d.score > e.score > c.score > b.score > a.score
    ensures SortBy(ScoreLe(), [a, b, c, d, e]) == [d, e, c, b, a]
  {
    var p, q := [a, b, c], [d, e];
    assert SortBy(ScoreLe(), q) == q by {
      assert q[1..] == [e];
    }
    SortBelow(ScoreLe(), p, q);
    FiveSplit(a, b, c, d, e);
  }

  /** The sequence facts `SortFive` rests on, kept apart from the sort. */
  lemma FiveSplit<T>(a: T, b: T, c: T, d: T, e: T)
    ensures [a, b, c] + [d, e] == [a, b, c, d, e]
    ensures [d, e] + Reversed([a, b, c]) == [d, e, c, b, a]
  {
    var r := Reversed([a, b, c]);
    assert r[0] == c && r[1] == b && r[2] == a;
  }

  /** Scores that fall from each student to the next are descending and pairwise different. */
  lemma {:induction false} StrictlyFalling(s: seq<Scored>)
    requires forall i :: 0 <= i < |s| - 1 ==> s[i + 1].score < s[i].score
    ensures Descending(s) && DistinctBy(ScoreKey, s)
  {
    if |s| > 1 {
      var t := s[1..];
      forall i | 0 <= i < |t| - 1 ensures t[i + 1].score < t[i].score {
        assert t[i] == s[i + 1] && t[i + 1] == s[i + 2];
      }
      StrictlyFalling(t);
      forall i, j | 0 <= i < j < |s| ensures s[j].score < s[i].score {
        if i == 0 {
          if j > 1 {
            assert s[j] == t[j - 1] && s[1] == t[0];
          }
        } else {
          assert s[i] == t[i - 1] && s[j] == t[j - 1];
        }
      }
    }
  }

  /** Five strictly falling scores. */
  lemma FiveFalling(a: Scored, b: Scored, c: Scored, d: Scored, e: Scored)
    requires a.score > b.score > c.score > d.score > e.score
    ensures Descending([a, b, c, d, e]) && DistinctBy(ScoreKey, [a, b, c, d, e])
  {
    var s := [a, b, c, d, e];
    assert s[1] == b && s[2] == c && s[3] == d && s[4] == e;
    StrictlyFalling(s);
  }

  /** `rankStudents(SAMPLE_STUDENT_MATRIX)`: no ties, so the ranks are 1 to 5. */
  lemma SampleRanking()
    ensures RankingOf(SampleMatrix, ActivityWeights)
         == [Ranked("Diana", 295, 1), Ranked("Eve", 246, 2), Ranked("Charlie", 243, 3), Ranked("Bob", 206, 4), Ranked("Alice", 189, 5)]
  {
    var s := [Scored("Diana", 295), Scored("Eve", 246), Scored("Charlie", 243), Scored("Bob", 206), Scored("Alice", 189)];
    SampleScores();
    SortFive(s[4], s[3], s[2], s[0], s[1]);
    FiveFalling(s[0], s[1], s[2], s[3], s[4]);
    RankingOfUntied(SampleMatrix, ActivityWeights, s);
    FiveRanks(s[0], s[1], s[2], s[3], s[4]);
  }

  /** When the score sort has no ties, the ranking is the rank loop over it. */
  lemma RankingOfUntied(m: seq<Entry>, w: seq<Weight>, s: seq<Scored>)
    requires SortBy(ScoreLe(), Scores(m, w)) == s && DistinctBy(ScoreKey, s)
    ensures RankingOf(m, w) == Ranking(s)
  {
    NoTiesUnchanged(s, m, Keys(w));
  }

  /** Five strictly decreasing scores are ranked 1 to 5. */
  lemma FiveRanks(a: Scored, b: Scored, c: Scored, d: Scored, e: Scored)
    requires a.score > b.score > c.score > d.score > e.score
    ensures Ranking([a, b, c, d, e])
         == [Ranked(a.name, a.score, 1), Ranked(b.name, b.score, 2), Ranked(c.name, c.score, 3), Ranked(d.name, d.score, 4), Ranked(e.name, e.score, 5)]
  {
    var s := [a, b, c, d, e];
    assert RankAt(s, 1) == 2 && RankAt(s, 2) == 3 && RankAt(s, 3) == 4 && RankAt(s, 4) == 5;
  }

  // ---------------------------------------------------------------------------
  // searchStudents

  /** `name.toLowerCase().includes(searchTerm.toLowerCase())`. */
  function NameMatches(searchTerm: string): Entry -> bool {
    (e: Entry) => Includes(Lower(e.name), Lower(searchTerm))
  }

  /** `searchStudents(matrix, searchTerm)`: the matching entries, ranked among themselves. */
  method SearchStudents(m: seq<Entry>, w: seq<Weight>, searchTerm: string) returns (r: seq<Ranked>)
    ensures r == RankingOf(FilterBy(NameMatches(searchTerm), m), w)
  {
    var filteredMatrix := [];
    var e := 0;
    while e < |m|
      invariant 0 <= e <= |m|
      invariant filteredMatrix == FilterBy(NameMatches(searchTerm), m[..e])
    {
      FilterSnoc(NameMatches(searchTerm), m, e);
      if Includes(Lower(m[e].name), Lower(searchTerm)) {
        filteredMatrix := filteredMatrix + [m[e]];
      }
      e := e + 1;
    }
    assert m[..e] == m;
    r := RankStudents(filteredMatrix, w);
  }

  /** The empty search term keeps every student. */
  lemma SearchEmptyTerm(m: seq<Entry>, w: seq<Weight>)
    ensures FilterBy(NameMatches(""), m) == m
    ensures RankingOf(FilterBy(NameMatches(""), m), w) == RankingOf(m, w)
  {
    forall e | e in m ensures NameMatches("")(e) {
      IncludesEmpty(Lower(e.name));
    }
    FilterAll(NameMatches(""), m);
  }

  /** Every student found has a matching name and the score of its entry. */
  lemma SearchKeepsMatches(m: seq<Entry>, w: seq<Weight>, searchTerm: string)
    ensures var r := RankingOf(FilterBy(NameMatches(searchTerm), m), w);
      forall i :: 0 <= i < |r| ==>
        (exists e :: e in m && e.name == r[i].name && r[i].score == ScoreOf(e.counts, w) && Includes(Lower(e.name), Lower(searchTerm)))
  {
    var m' := FilterBy(NameMatches(searchTerm), m);
    var r := RankingOf(m', w);
    RankingFrom(m', w);
    forall i | 0 <= i < |r|
      ensures exists e :: e in m && e.name == r[i].name && r[i].score == ScoreOf(e.counts, w) && Includes(Lower(e.name), Lower(searchTerm))
    {
      assert CameFrom(m', w, r[i].name, r[i].score);
      var e :| e in m' && e.name == r[i].name && r[i].score == ScoreOf(e.counts, w);
      assert NameMatches(searchTerm)(e);
    }
  }

  /** Under the precondition of `RankStudentsSpec` for the matching entries, every matching entry is found. */
  lemma SearchFindsAll(m: seq<Entry>, w: seq<Weight>, searchTerm: string)
    requires DistinctBy(EntryName, m)
    requires WinnersLead(FilterBy(NameMatches(searchTerm), m), Keys(w), SortBy(ScoreLe(), Scores(FilterBy(NameMatches(searchTerm), m), w)))
    ensures forall e :: e in m && Includes(Lower(e.name), Lower(searchTerm)) ==>
      Lists(RankingOf(FilterBy(NameMatches(searchTerm), m), w), e, w)
  {
    var m' := FilterBy(NameMatches(searchTerm), m);
    FilterDistinct(EntryName, NameMatches(searchTerm), m);
    RankingHasAll(m', w);
    forall e | e in m && Includes(Lower(e.name), Lower(searchTerm))
      ensures Lists(RankingOf(m', w), e, w)
    {
      assert NameMatches(searchTerm)(e);
      assert e in m';
    }
  }

  // ---------------------------------------------------------------------------
  // filterStudentsByActivity

  /** `activities[activityIndex] >= minCount`; a missing count is `undefined`, which no comparison accepts. */
  function AtLeast(activityIndex: nat, minCount: int): Entry -> bool {
    (e: Entry) => activityIndex < |e.counts| && e.counts[activityIndex] >= minCount
  }

  /** `filterStudentsByActivity(matrix, activityType, minCount)`. */
  method FilterStudentsByActivity(m: seq<Entry>, w: seq<Weight>, activityType: string, minCount: int) returns (r: seq<Ranked>)
    ensures IndexOf(Keys(w), activityType) == -1 ==> r == []
    ensures IndexOf(Keys(w), activityType) != -1 ==> r == RankingOf(FilterBy(AtLeast(IndexOf(Keys(w), activityType), minCount), m), w)
  {
    var activityKeys := Keys(w);
    var activityIndex := IndexOf(activityKeys, activityType);
    if activityIndex == -1 {
      return [];
    }
    var filteredMatrix := [];
    var e := 0;
    while e < |m|
      invariant 0 <= e <= |m|
      invariant filteredMatrix == FilterBy(AtLeast(activityIndex, minCount), m[..e])
    {
      FilterSnoc(AtLeast(activityIndex, minCount), m, e);
      var activities := m[e].counts;
      if activityIndex < |activities| && activities[activityIndex] >= minCount {
        filteredMatrix := filteredMatrix + [m[e]];
      }
      e := e + 1;
    }
    assert m[..e] == m;
    r := RankStudents(filteredMatrix, w);
  }

  /** `name` and `score` belong to an entry of `m` with at least `minCount` of activity `idx`. */
  ghost predicate KeptFrom(m: seq<Entry>, w: seq<Weight>, idx: nat, minCount: int, name: string, score: int) {
    exists e :: e in m && e.name == name && score == ScoreOf(e.counts, w) && idx < |e.counts| && e.counts[idx] >= minCount
  }

  /** Every student kept has at least `minCount` of the activity and the score of its entry. */
  lemma ActivityFilterKeeps(m: seq<Entry>, w: seq<Weight>, idx: nat, minCount: int)
    ensures var r := RankingOf(FilterBy(AtLeast(idx, minCount), m), w);
      forall i :: 0 <= i < |r| ==> KeptFrom(m, w, idx, minCount, r[i].name, r[i].score)
  {
    var m' := FilterBy(AtLeast(idx, minCount), m);
    RankingFrom(m', w);
    var r := RankingOf(m', w);
    forall i | 0 <= i < |r| ensures KeptFrom(m, w, idx, minCount, r[i].name, r[i].score) {
      CameFromKept(m, w, idx, minCount, r[i].name, r[i].score);
    }
  }

  /** A student drawn from the kept entries is an entry of `m` with enough of the activity. */
  lemma CameFromKept(m: seq<Entry>, w: seq<Weight>, idx: nat, minCount: int, name: string, score: int)
    requires CameFrom(FilterBy(AtLeast(idx, minCount), m), w, name, score)
    ensures KeptFrom(m, w, idx, minCount, name, score)
  {
    var m' := FilterBy(AtLeast(idx, minCount), m);
    var e :| e in m' && e.name == name && score == ScoreOf(e.counts, w);
    assert e in m && AtLeast(idx, minCount)(e);
  }

  /** Under the precondition of `RankStudentsSpec` for the kept entries, every entry with at least `minCount` is kept. */
  lemma ActivityFilterFindsAll(m: seq<Entry>, w: seq<Weight>, idx: nat, minCount: int)
    requires DistinctBy(EntryName, m)
    requires WinnersLead(FilterBy(AtLeast(idx, minCount), m), Keys(w), SortBy(ScoreLe(), Scores(FilterBy(AtLeast(idx, minCount), m), w)))
    ensures forall e :: e in m && idx < |e.counts| && e.counts[idx] >= minCount ==>
      Lists(RankingOf(FilterBy(AtLeast(idx, minCount), m), w), e, w)
  {
    var m' := FilterBy(AtLeast(idx, minCount), m);
    FilterDistinct(EntryName, AtLeast(idx, minCount), m);
    RankingHasAll(m', w);
    forall e | e in m && idx < |e.counts| && e.counts[idx] >= minCount
      ensures Lists(RankingOf(m', w), e, w)
    {
      assert AtLeast(idx, minCount)(e);
      assert e in m';
    }
  }

  /** A category of `ACTIVITY_WEIGHTS` is always found, and an unknown one gives the empty list. */
  lemma ActivityKeyLookup(activityType: string)
    ensures IndexOf(Keys(ActivityWeights), activityType) == -1 <==> forall x :: x in ActivityWeights ==> x.key != activityType
  {
    var k := Keys(ActivityWeights);
    if activityType in k {
      var i :| 0 <= i < |k| && k[i] == activityType;
      assert ActivityWeights[i] in ActivityWeights;
    }
  }
}
