/**
 * Weighted activity scores (`calculateScores`), the sample matrix, and the
 * per-activity explanation text (`getDetailedCalculation`).
 */
module Scoring {
  import opened Wrappers
  import opened ActivityTables
  import opened Text
  import opened Sequences

  /** One `[studentName, counts]` entry of a `StudentActivityMatrix`, in `Object.entries` order. */
  datatype Entry = Entry(name: string, counts: seq<int>)

  /** `matrix[name]`: the counts of the first entry with that name. */
  function Lookup(m: seq<Entry>, name: string): (r: Option<seq<int>>)
    ensures r.None? <==> forall e :: e in m ==> e.name != name
    ensures r.Some? ==> Entry(name, r.value) in m
  {
    if m == [] then None
    else if m[0].name == name then Some(m[0].counts)
    else Lookup(m[1..], name)
  }

  /** `{ name, score }` as `calculateScores` produces it. */
  datatype Scored = Scored(name: string, score: int)

  /** The sum over `i < n` of `counts[i] * (weightValues[i] || 0)`, accumulated left to right. */
  function PartialScore(counts: seq<int>, w: seq<Weight>, n: nat): int
    requires n <= |counts|
  {
    if n == 0 then 0 else PartialScore(counts, w, n - 1) + counts[n - 1] * WeightAt(w, n - 1)
  }

  /** The score of one activity vector. */
  function ScoreOf(counts: seq<int>, w: seq<Weight>): int {
    PartialScore(counts, w, |counts|)
  }

  /** `calculateScores` as a value: one entry per matrix entry, in matrix order. */
  function Scores(m: seq<Entry>, w: seq<Weight>): seq<Scored> {
    seq(|m|, i requires 0 <= i < |m| => Scored(m[i].name, ScoreOf(m[i].counts, w)))
  }

  /** `calculateScores(matrix)`. */
  method CalculateScores(m: seq<Entry>, w: seq<Weight>) returns (students: seq<Scored>)
    ensures |students| == |m|
    ensures forall i :: 0 <= i < |m| ==> students[i] == Scored(m[i].name, ScoreOf(m[i].counts, w))
    ensures students == Scores(m, w)
  {
    students := [];
    var e := 0;
    while e < |m|
      invariant 0 <= e <= |m|
      invariant |students| == e
      invariant forall i :: 0 <= i < e ==> students[i] == Scored(m[i].name, ScoreOf(m[i].counts, w))
    {
      var activities := m[e].counts;
      var score := 0;
      var i := 0;
      while i < |activities|
        invariant 0 <= i <= |activities|
        invariant score == PartialScore(activities, w, i)
      {
        score := score + activities[i] * WeightAt(w, i);
        i := i + 1;
      }
      students := students + [Scored(m[e].name, score)];
      e := e + 1;
    }
  }

  /** Raising one count by `d` raises the score by `d` times that category's weight (0 past the weights). */
  lemma {:induction false} ScoreBump(counts: seq<int>, w: seq<Weight>, i: int, d: int, n: nat)
    requires 0 <= i < |counts| && n <= |counts|
    ensures PartialScore(counts[i := counts[i] + d], w, n)
         == PartialScore(counts, w, n) + (if i < n then d * WeightAt(w, i) else 0)
  {
    if n > 0 {
      ScoreBump(counts, w, i, d, n - 1);
      if i == n - 1 {
        calc {
          counts[i := counts[i] + d][n - 1] * WeightAt(w, n - 1);
          (counts[i] + d) * WeightAt(w, i);
          counts[i] * WeightAt(w, i) + d * WeightAt(w, i);
        }
      }
    }
  }

  /** With non-negative weights, more of any activity never lowers the score. */
  lemma {:induction false} ScoreMonotone(a: seq<int>, b: seq<int>, w: seq<Weight>, n: nat)
    requires |a| == |b| && n <= |a|
    requires forall i :: 0 <= i < |a| ==> a[i] <= b[i]
    requires forall x :: x in w ==> x.points >= 0
    ensures PartialScore(a, w, n) <= PartialScore(b, w, n)
  {
    if n > 0 {
      ScoreMonotone(a, b, w, n - 1);
      var k := WeightAt(w, n - 1);
      assert k >= 0 by {
        if 0 <= n - 1 < |w| {
          assert w[n - 1] in w;
        }
      }
      assert a[n - 1] * k <= b[n - 1] * k by {
        assert (b[n - 1] - a[n - 1]) * k >= 0;
      }
    }
  }

  /** Counts past the end of the weights contribute nothing. */
  lemma {:induction false} ScoreIgnoresExtra(counts: seq<int>, w: seq<Weight>, n: nat)
    requires |w| <= n <= |counts|
    ensures PartialScore(counts, w, n) == ScoreOf(counts[..|w|], w) == PartialScore(counts, w, |w|)
  {
    PrefixScore(counts, |w|, w, |w|);
    if n > |w| {
      ScoreIgnoresExtra(counts, w, n - 1);
    }
  }

  /** The running score of a prefix depends only on that prefix. */
  lemma {:induction false} PrefixScore(counts: seq<int>, k: nat, w: seq<Weight>, n: nat)
    requires n <= k <= |counts|
    ensures PartialScore(counts[..k], w, n) == PartialScore(counts, w, n)
  {
    if n > 0 {
      PrefixScore(counts, k, w, n - 1);
    }
  }

  /** `SAMPLE_STUDENT_MATRIX`. */
  const SampleMatrix: seq<Entry> := [
    Entry("Alice", [3, 2, 1, 0, 2, 1, 0, 0, 1, 1, 1, 2, 1, 3, 2, 1, 1]),
    Entry("Bob", [5, 1, 0, 1, 3, 2, 1, 0, 0, 2, 0, 1, 2, 2, 1, 2, 1]),
    Entry("Charlie", [2, 3, 2, 0, 1, 0, 0, 1, 2, 1, 3, 0, 1, 4, 3, 0, 1]),
    Entry("Diana", [4, 2, 1, 1, 2, 1, 2, 1, 1, 1, 2, 3, 0, 1, 2, 3, 1]),
    Entry("Eve", [1, 1, 0, 2, 1, 3, 1, 2, 1, 0, 1, 1, 3, 2, 1, 1, 1])
  ]

  /** The first nine categories of `ACTIVITY_WEIGHTS`. */
  lemma {:induction false} ScoreFirstNine(c: seq<int>)
    requires |c| == 17
    ensures PartialScore(c, ActivityWeights, 9) == 7 * c[0] + 12 * c[1] + 20 * c[2] + 25 * c[3] + 5 * c[4] + 10 * c[5] + 15 * c[6] + 20 * c[7] + 15 * c[8]
  {
    assert ActivityWeights[0].points == 7 && ActivityWeights[1].points == 12 && ActivityWeights[2].points == 20 && ActivityWeights[3].points == 25 && ActivityWeights[4].points == 5 && ActivityWeights[5].points == 10 && ActivityWeights[6].points == 15 && ActivityWeights[7].points == 20 && ActivityWeights[8].points == 15;
    assert PartialScore(c, ActivityWeights, 1) == PartialScore(c, ActivityWeights, 0) + 7 * c[0];
    assert PartialScore(c, ActivityWeights, 2) == PartialScore(c, ActivityWeights, 1) + 12 * c[1];
    assert PartialScore(c, ActivityWeights, 3) == PartialScore(c, ActivityWeights, 2) + 20 * c[2];
    assert PartialScore(c, ActivityWeights, 4) == PartialScore(c, ActivityWeights, 3) + 25 * c[3];
    assert PartialScore(c, ActivityWeights, 5) == PartialScore(c, ActivityWeights, 4) + 5 * c[4];
    assert PartialScore(c, ActivityWeights, 6) == PartialScore(c, ActivityWeights, 5) + 10 * c[5];
    assert PartialScore(c, ActivityWeights, 7) == PartialScore(c, ActivityWeights, 6) + 15 * c[6];
    assert PartialScore(c, ActivityWeights, 8) == PartialScore(c, ActivityWeights, 7) + 20 * c[7];
    assert PartialScore(c, ActivityWeights, 9) == PartialScore(c, ActivityWeights, 8) + 15 * c[8];
  }

  /** Under `ACTIVITY_WEIGHTS`, a full 17-entry vector scores this weighted sum. */
  lemma {:induction false} ScoreUnderActivityWeights(c: seq<int>)
    requires |c| == 17
    ensures ScoreOf(c, ActivityWeights) == 7 * c[0] + 12 * c[1] + 20 * c[2] + 25 * c[3] + 5 * c[4] + 10 * c[5]
      + 15 * c[6] + 20 * c[7] + 15 * c[8] + 10 * c[9] + 12 * c[10] + 8 * c[11]
      + 6 * c[12] + 5 * c[13] + 6 * c[14] + 10 * c[15] + 8 * c[16]
  {
    ScoreFirstNine(c);
    assert ActivityWeights[9].points == 10 && ActivityWeights[10].points == 12 && ActivityWeights[11].points == 8 && ActivityWeights[12].points == 6 && ActivityWeights[13].points == 5 && ActivityWeights[14].points == 6 && ActivityWeights[15].points == 10 && ActivityWeights[16].points == 8;
    assert PartialScore(c, ActivityWeights, 10) == PartialScore(c, ActivityWeights, 9) + 10 * c[9];
    assert PartialScore(c, ActivityWeights, 11) == PartialScore(c, ActivityWeights, 10) + 12 * c[10];
    assert PartialScore(c, ActivityWeights, 12) == PartialScore(c, ActivityWeights, 11) + 8 * c[11];
    assert PartialScore(c, ActivityWeights, 13) == PartialScore(c, ActivityWeights, 12) + 6 * c[12];
    assert PartialScore(c, ActivityWeights, 14) == PartialScore(c, ActivityWeights, 13) + 5 * c[13];
    assert PartialScore(c, ActivityWeights, 15) == PartialScore(c, ActivityWeights, 14) + 6 * c[14];
    assert PartialScore(c, ActivityWeights, 16) == PartialScore(c, ActivityWeights, 15) + 10 * c[15];
    assert PartialScore(c, ActivityWeights, 17) == PartialScore(c, ActivityWeights, 16) + 8 * c[16];
  }

  /** The sample scores under `ACTIVITY_WEIGHTS`. */
  lemma SampleScores()
    ensures Scores(SampleMatrix, ActivityWeights)
         == [Scored("Alice", 189), Scored("Bob", 206), Scored("Charlie", 243), Scored("Diana", 295), Scored("Eve", 246)]
  {
    SampleScoreAlice();
    SampleScoreBob();
    SampleScoreCharlie();
    SampleScoreDiana();
    SampleScoreEve();
  }

  /** Each sample row scored on its own, under `ACTIVITY_WEIGHTS`. */
  lemma SampleScoreAlice()
    ensures ScoreOf(SampleMatrix[0].counts, ActivityWeights) == 189
  {
    ScoreUnderActivityWeights(SampleMatrix[0].counts);
  }

  lemma SampleScoreBob()
    ensures ScoreOf(SampleMatrix[1].counts, ActivityWeights) == 206
  {
    ScoreUnderActivityWeights(SampleMatrix[1].counts);
  }

  lemma SampleScoreCharlie()
    ensures ScoreOf(SampleMatrix[2].counts, ActivityWeights) == 243
  {
    ScoreUnderActivityWeights(SampleMatrix[2].counts);
  }

  lemma SampleScoreDiana()
    ensures ScoreOf(SampleMatrix[3].counts, ActivityWeights) == 295
  {
    ScoreUnderActivityWeights(SampleMatrix[3].counts);
  }

  lemma SampleScoreEve()
    ensures ScoreOf(SampleMatrix[4].counts, ActivityWeights) == 246
  {
    ScoreUnderActivityWeights(SampleMatrix[4].counts);
  }

  // ---------------------------------------------------------------------------
  // getDetailedCalculation

  /** A JavaScript number as the explanation uses it: an integer, or `NaN` once `undefined` is multiplied in. */
  datatype Num = Finite(n: int) | NaN {
    function Plus(other: Num): Num {
      if this.Finite? && other.Finite? then Finite(n + other.n) else NaN
    }
    /** Template-literal rendering. */
    function Text(): string {
      if this.Finite? then IntToString(n) else "NaN"
    }
  }

  /** `activityCount * weight`, where `weight` is `undefined` past the end of the weights. */
  function Points(counts: seq<int>, w: seq<Weight>, i: nat): Num
    requires i < |counts|
  {
    if i < |w| then Finite(counts[i] * w[i].points) else NaN
  }

  /** The breakdown line of category `i`. */
  function Line(counts: seq<int>, w: seq<Weight>, i: nat): string
    requires i < |counts|
  {
    var key := if i < |w| then w[i].key else "undefined";
    var weight := if i < |w| then IntToString(w[i].points) else "undefined";
    "  " + key + ": " + IntToString(counts[i]) + " \U{00D7} " + weight + " = " + Points(counts, w, i).Text() + "\n"
  }

  /** The categories below `n` that get a line, in ascending order. */
  function Listed(counts: seq<int>, n: nat): (r: seq<nat>)
    requires n <= |counts|
    ensures forall k :: 0 <= k < |r| ==> r[k] < n
  {
    if n == 0 then []
    else if counts[n - 1] > 0 then Listed(counts, n - 1) + [n - 1]
    else Listed(counts, n - 1)
  }

  /** The running `total` after the categories below `n`. */
  function Total(counts: seq<int>, w: seq<Weight>, n: nat): Num
    requires n <= |counts|
  {
    if n == 0 then Finite(0)
    else if counts[n - 1] > 0 then Total(counts, w, n - 1).Plus(Points(counts, w, n - 1))
    else Total(counts, w, n - 1)
  }

  function Concat(lines: seq<string>): string {
    if lines == [] then "" else Concat(lines[..|lines| - 1]) + lines[|lines| - 1]
  }

  function Lines(counts: seq<int>, w: seq<Weight>, idx: seq<nat>): seq<string>
    requires forall k :: 0 <= k < |idx| ==> idx[k] < |counts|
  {
    seq(|idx|, k requires 0 <= k < |idx| => Line(counts, w, idx[k]))
  }

  /** A category with a positive count appends its line. */
  lemma LinesGrow(header: string, counts: seq<int>, w: seq<Weight>, i: nat)
    requires i < |counts| && counts[i] > 0
    ensures Concat([header] + Lines(counts, w, Listed(counts, i + 1)))
         == Concat([header] + Lines(counts, w, Listed(counts, i))) + Line(counts, w, i)
  {
    var before := [header] + Lines(counts, w, Listed(counts, i));
    var after := [header] + Lines(counts, w, Listed(counts, i + 1));
    assert after == before + [Line(counts, w, i)];
    assert after[..|after| - 1] == before;
  }

  function Header(name: string): string {
    name + "'s Score Calculation:\n"
  }

  function TotalLine(total: Num): string {
    "  Total Score: " + total.Text()
  }

  /** The explanation: a header, one line per listed category, and the total. */
  function Explanation(name: string, counts: seq<int>, w: seq<Weight>): string {
    Concat([Header(name)] + Lines(counts, w, Listed(counts, |counts|))) + TotalLine(Total(counts, w, |counts|))
  }

  /** `getDetailedCalculation(name, activities)`. */
  method DetailedCalculation(name: string, counts: seq<int>, w: seq<Weight>) returns (calculation: string)
    ensures calculation == Explanation(name, counts, w)
  {
    var header := Header(name);
    calculation := header;
    assert [header] + Lines(counts, w, Listed(counts, 0)) == [header];
    assert Concat([header]) == header by {
      assert [header][..0] == [];
    }
    var total := Finite(0);
    var i := 0;
    while i < |counts|
      invariant 0 <= i <= |counts|
      invariant calculation == Concat([header] + Lines(counts, w, Listed(counts, i)))
      invariant total == Total(counts, w, i)
    {
      calculation, total := AddCategory(header, counts, w, i, calculation, total);
      i := i + 1;
    }
    calculation := calculation + TotalLine(total);
  }

  /** One pass of the loop of `getDetailedCalculation`: category `i` adds its line and points when its count is positive. */
  method AddCategory(header: string, counts: seq<int>, w: seq<Weight>, i: nat, calculation: string, total: Num)
    returns (calculation': string, total': Num)
    requires i < |counts|
    requires calculation == Concat([header] + Lines(counts, w, Listed(counts, i)))
    requires total == Total(counts, w, i)
    ensures calculation' == Concat([header] + Lines(counts, w, Listed(counts, i + 1)))
    ensures total' == Total(counts, w, i + 1)
  {
    calculation', total' := calculation, total;
    if counts[i] > 0 {
      LinesGrow(header, counts, w, i);
      calculation' := calculation + Line(counts, w, i);
      total' := total.Plus(Points(counts, w, i));
    }
  }

  /** A category gets a line exactly when its count is positive; lines come in category order. */
  lemma {:induction false} ListedExactly(counts: seq<int>, n: nat)
    requires n <= |counts|
    ensures forall i :: i in Listed(counts, n) <==> 0 <= i < n && counts[i] > 0
    ensures forall a, b :: 0 <= a < b < |Listed(counts, n)| ==> Listed(counts, n)[a] < Listed(counts, n)[b]
  {
    if n > 0 {
      ListedExactly(counts, n - 1);
    }
  }

  /** Negative counts treated as absent: what the explanation actually adds up. */
  function PositivePart(counts: seq<int>): (r: seq<int>)
    ensures |r| == |counts|
  {
    seq(|counts|, i requires 0 <= i < |counts| => if counts[i] > 0 then counts[i] else 0)
  }

  /**
   * Within the weights, the explanation's total is the score of the positive
   * counts; so it is the `calculateScores` score whenever no count is negative.
   */
  lemma {:induction false} TotalIsScore(counts: seq<int>, w: seq<Weight>, n: nat)
    requires n <= |counts| && n <= |w|
    ensures Total(counts, w, n) == Finite(PartialScore(PositivePart(counts), w, n))
  {
    if n > 0 {
      TotalIsScore(counts, w, n - 1);
    }
  }

  lemma ExplanationTotalIsScore(counts: seq<int>, w: seq<Weight>)
    requires |counts| <= |w|
    requires forall i :: 0 <= i < |counts| ==> counts[i] >= 0
    ensures Total(counts, w, |counts|) == Finite(ScoreOf(counts, w))
  {
    TotalIsScore(counts, w, |counts|);
    assert PositivePart(counts) == counts;
  }

  /** The total is `NaN` exactly when a positive count lies past the end of the weights. */
  lemma {:induction false} TotalNaN(counts: seq<int>, w: seq<Weight>, n: nat)
    requires n <= |counts|
    ensures Total(counts, w, n) == NaN <==> exists i :: |w| <= i < n && counts[i] > 0
  {
    if n > 0 {
      TotalNaN(counts, w, n - 1);
      if counts[n - 1] > 0 && n - 1 >= |w| {
        assert |w| <= n - 1 < n && counts[n - 1] > 0;
      }
    }
  }
}
