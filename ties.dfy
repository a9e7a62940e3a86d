/**
 * The tie-break pass of `rankStudents` (`handleTies`): students with equal
 * scores are grouped, each group of two or more is re-ordered by the
 * tie-breaker comparator, and the re-ordered group is written back into the
 * score-sorted list.
 */
module TieBreak {
  import opened ActivityTables
  import opened Scoring
  import opened Sequences
  import opened Sorting

  // ---------------------------------------------------------------------------
  // The order in which categories are consulted

  /** The comparator `(a, b) => P[b] - P[a]` of the priority-key sort, as a "may precede" relation. */
  function LevelLe(): (Priority, Priority) -> bool {
    (a: Priority, b: Priority) => b.level - a.level <= 0
  }

  function PriorityNames(p: seq<Priority>): (r: seq<string>)
    ensures |r| == |p|
    ensures forall i :: 0 <= i < |p| ==> r[i] == p[i].key
  {
    seq(|p|, i requires 0 <= i < |p| => p[i].key)
  }

  /**
   * The categories in the order the comparator consults them: from the highest
   * priority down, with `mentoring` ahead of `openSource`, which share priority 6.
   */
  const PriorityKeys: seq<string> := [
    "patents", "researchPaper", "internationalCompetition", "deanApproval",
    "nationalCompetition", "professorApproval", "hackathonWin", "highCourseScore",
    "certifications", "mentoring", "openSource", "courseCompletion",
    "externalAward", "organizingEvents", "moocs", "hackathonParticipation", "volunteering"]

  /** The priority table is declared in non-increasing priority order, so the stable sort leaves it as it is. */
  lemma {:induction false} PriorityTableSorted()
    ensures SortBy(LevelLe(), TieBreakerPriority) == TieBreakerPriority
  {
    assert forall i :: 0 <= i < |TieBreakerPriority| - 1 ==> LevelLe()(TieBreakerPriority[i], TieBreakerPriority[i + 1]);
    SortedByNeighbours(LevelLe(), TieBreakerPriority);
    SortBySortedIdentity(LevelLe(), TieBreakerPriority);
  }

  lemma PriorityTableNames()
    ensures PriorityNames(TieBreakerPriority) == PriorityKeys
  {
    assert |PriorityNames(TieBreakerPriority)| == |PriorityKeys|;
    forall i | 0 <= i < 17 ensures PriorityNames(TieBreakerPriority)[i] == PriorityKeys[i] {
    }
  }

  /** `PriorityKeys` is `Object.keys(TIE_BREAKER_PRIORITY).sort((a, b) => P[b] - P[a])`. */
  lemma PriorityKeysSorted()
    ensures PriorityNames(SortBy(LevelLe(), TieBreakerPriority)) == PriorityKeys
  {
    PriorityTableSorted();
    PriorityTableNames();
  }

  /** Under `ACTIVITY_WEIGHTS` the comparator consults exactly the weighted categories: `indexOf` never gives -1. */
  lemma PriorityKeysKnown()
    ensures forall k :: k in PriorityKeys ==> IndexOf(Keys(ActivityWeights), k) != -1
    ensures forall k :: k in Keys(ActivityWeights) ==> k in PriorityKeys
  {
    assert Keys(ActivityWeights) == [
      "courseCompletion", "highCourseScore", "researchPaper", "patents",
      "hackathonParticipation", "hackathonWin", "nationalCompetition", "internationalCompetition",
      "deanApproval", "professorApproval", "externalAward", "mentoring",
      "organizingEvents", "volunteering", "moocs", "certifications", "openSource"];
  }

  // ---------------------------------------------------------------------------
  // The tie-breaker comparator

  /** Category `key` cannot tell the two count vectors apart (an unknown key never can). */
  predicate Agree(a: seq<int>, b: seq<int>, wkeys: seq<string>, key: string) {
    var idx := IndexOf(wkeys, key);
    idx == -1 || CountAt(a, idx) == CountAt(b, idx)
  }

  /** `bCount - aCount` at category `key`. */
  function Gap(a: seq<int>, b: seq<int>, wkeys: seq<string>, key: string): int {
    var idx := IndexOf(wkeys, key);
    CountAt(b, idx) - CountAt(a, idx)
  }

  /** The comparator's loop over the categories `pkeys`: the first category on which the counts differ decides. */
  function CompareFrom(a: seq<int>, b: seq<int>, pkeys: seq<string>, wkeys: seq<string>): int {
    if pkeys == [] then 0
    else if !Agree(a, b, wkeys, pkeys[0]) then Gap(a, b, wkeys, pkeys[0])
    else CompareFrom(a, b, pkeys[1..], wkeys)
  }

  /** The tie-breaker comparator on two count vectors: negative when `a` goes first. */
  function TieCompare(a: seq<int>, b: seq<int>, wkeys: seq<string>): int {
    CompareFrom(a, b, PriorityKeys, wkeys)
  }

  /** The comparator passed to `group.sort`, as it runs: `for (const priorityKey of priorityKeys) ...`. */
  method CompareCounts(aActivities: seq<int>, bActivities: seq<int>, weightKeys: seq<string>) returns (r: int)
    ensures r == TieCompare(aActivities, bActivities, weightKeys)
  {
    r := CompareOver(aActivities, bActivities, PriorityKeys, weightKeys);
  }

  /** The comparator's loop over the categories in `priorityKeys`. */
  method CompareOver(aActivities: seq<int>, bActivities: seq<int>, priorityKeys: seq<string>, weightKeys: seq<string>)
    returns (r: int)
    ensures r == CompareFrom(aActivities, bActivities, priorityKeys, weightKeys)
  {
    var j := 0;
    while j < |priorityKeys|
      invariant 0 <= j <= |priorityKeys|
      invariant CompareFrom(aActivities, bActivities, priorityKeys[j..], weightKeys)
             == CompareFrom(aActivities, bActivities, priorityKeys, weightKeys)
    {
      assert priorityKeys[j..][1..] == priorityKeys[j + 1..];
      var activityIndex := IndexOf(weightKeys, priorityKeys[j]);
      if activityIndex != -1 {
        var aCount := CountAt(aActivities, activityIndex);
        var bCount := CountAt(bActivities, activityIndex);
        if aCount != bCount {
          return bCount - aCount;
        }
      }
      j := j + 1;
    }
    return 0;
  }

  /**
   * What the comparator decides: 0 exactly when every category agrees, and
   * otherwise `bCount - aCount` at the first category that differs, so the
   * student with more of that activity goes first.
   */
  lemma {:induction false} CompareMeaning(a: seq<int>, b: seq<int>, pkeys: seq<string>, wkeys: seq<string>)
    ensures CompareFrom(a, b, pkeys, wkeys) == 0 <==> forall j :: 0 <= j < |pkeys| ==> Agree(a, b, wkeys, pkeys[j])
    ensures CompareFrom(a, b, pkeys, wkeys) != 0 ==>
      exists j :: 0 <= j < |pkeys| && !Agree(a, b, wkeys, pkeys[j])
        && (forall i :: 0 <= i < j ==> Agree(a, b, wkeys, pkeys[i]))
        && CompareFrom(a, b, pkeys, wkeys) == Gap(a, b, wkeys, pkeys[j])
  {
    if pkeys != [] {
      CompareMeaning(a, b, pkeys[1..], wkeys);
      if Agree(a, b, wkeys, pkeys[0]) {
        if CompareFrom(a, b, pkeys, wkeys) != 0 {
          var j :| 0 <= j < |pkeys[1..]| && !Agree(a, b, wkeys, pkeys[1..][j])
            && (forall i :: 0 <= i < j ==> Agree(a, b, wkeys, pkeys[1..][i]))
            && CompareFrom(a, b, pkeys[1..], wkeys) == Gap(a, b, wkeys, pkeys[1..][j]);
          assert !Agree(a, b, wkeys, pkeys[j + 1]);
          forall i | 0 <= i < j + 1 ensures Agree(a, b, wkeys, pkeys[i]) {
            if i > 0 {
              assert pkeys[i] == pkeys[1..][i - 1];
            }
          }
        } else {
          forall j | 0 <= j < |pkeys| ensures Agree(a, b, wkeys, pkeys[j]) {
            if j > 0 {
              assert pkeys[j] == pkeys[1..][j - 1];
            }
          }
        }
      } else {
        assert !Agree(a, b, wkeys, pkeys[0]);
      }
    }
  }

  /** Swapping the students negates the comparison. */
  lemma {:induction false} CompareAntisymmetric(a: seq<int>, b: seq<int>, pkeys: seq<string>, wkeys: seq<string>)
    ensures CompareFrom(a, b, pkeys, wkeys) == -CompareFrom(b, a, pkeys, wkeys)
  {
    if pkeys != [] {
      CompareAntisymmetric(a, b, pkeys[1..], wkeys);
    }
  }

  /** "May precede" under the comparator is transitive. */
  lemma {:induction false} CompareTransitive(a: seq<int>, b: seq<int>, c: seq<int>, pkeys: seq<string>, wkeys: seq<string>)
    requires CompareFrom(a, b, pkeys, wkeys) <= 0 && CompareFrom(b, c, pkeys, wkeys) <= 0
    ensures CompareFrom(a, c, pkeys, wkeys) <= 0
  {
    if pkeys != [] {
      var k := pkeys[0];
      if Agree(a, b, wkeys, k) && Agree(b, c, wkeys, k) {
        CompareTransitive(a, b, c, pkeys[1..], wkeys);
      }
    }
  }

  /** The counts the comparator reads: `matrix[name]`, or no counts for a name not in the matrix. */
  function CountsOf(m: seq<Entry>, name: string): seq<int> {
    Lookup(m, name).GetOr([])
  }

  /** "`a` may stay ahead of `b`" under the tie-breaker comparator of `group.sort`. */
  function TieLe(m: seq<Entry>, wkeys: seq<string>): (Scored, Scored) -> bool {
    (x: Scored, y: Scored) => TieCompare(CountsOf(m, x.name), CountsOf(m, y.name), wkeys) <= 0
  }

  /** The comparator is consistent, so `group.sort` with it is the stable sort `SortBy`. */
  lemma TieLeTotalPreorder(m: seq<Entry>, wkeys: seq<string>)
    ensures TotalPreorder(TieLe(m, wkeys))
  {
    var le := TieLe(m, wkeys);
    forall x: Scored, y: Scored ensures le(x, y) || le(y, x) {
      CompareAntisymmetric(CountsOf(m, x.name), CountsOf(m, y.name), PriorityKeys, wkeys);
    }
    forall x: Scored, y: Scored, z: Scored | le(x, y) && le(y, z) ensures le(x, z) {
      CompareTransitive(CountsOf(m, x.name), CountsOf(m, y.name), CountsOf(m, z.name), PriorityKeys, wkeys);
    }
  }

  // ---------------------------------------------------------------------------
  // Grouping by score

  function HasScore(v: int): Scored -> bool {
    (x: Scored) => x.score == v
  }

  /** `scoreGroups[v]`: the students with score `v`, in list order. */
  function Group(s: seq<Scored>, v: int): seq<Scored> {
    FilterBy(HasScore(v), s)
  }

  /** The scores of `s` in order of first appearance: the insertion order of `scoreGroups`' keys. */
  function ScoreKeys(s: seq<Scored>): (r: seq<int>)
    ensures forall v :: v in r <==> exists x :: x in s && x.score == v
  {
    if s == [] then []
    else
      var k := ScoreKeys(s[..|s| - 1]);
      assert s == s[..|s| - 1] + [s[|s| - 1]];
      if s[|s| - 1].score in k then k else k + [s[|s| - 1].score]
  }

  ghost predicate Unique(s: seq<int>) {
    forall i, j :: 0 <= i < j < |s| ==> s[i] != s[j]
  }

  lemma {:induction false} ScoreKeysUnique(s: seq<Scored>)
    ensures Unique(ScoreKeys(s))
  {
    if s != [] {
      ScoreKeysUnique(s[..|s| - 1]);
    }
  }

  /** A property name that is an array index: `Object.entries` lists these first, in ascending order. */
  predicate IsArrayIndex(v: int) {
    0 <= v < 0x1_0000_0000 - 1
  }

  /** Any other integer key, listed after the array indices in insertion order. */
  predicate IsOtherKey(v: int) {
    !IsArrayIndex(v)
  }

  function Id(v: int): int {
    v
  }

  function IntLe(): (int, int) -> bool {
    (a: int, b: int) => a <= b
  }

  /** The order in which `Object.entries(scoreGroups)` visits the scores recorded in insertion order `keys`. */
  function EntryOrder(keys: seq<int>): seq<int> {
    SortBy(IntLe(), FilterBy(IsArrayIndex, keys)) + FilterBy(IsOtherKey, keys)
  }

  /** Every recorded score is visited exactly once. */
  lemma EntryOrderVisitsAll(keys: seq<int>)
    requires Unique(keys)
    ensures forall v :: v in EntryOrder(keys) <==> v in keys
    ensures Unique(EntryOrder(keys))
  {
    var a := FilterBy(IsArrayIndex, keys);
    var b := FilterBy(IsOtherKey, keys);
    UniqueById(keys);
    FilterDistinct(Id, IsArrayIndex, keys);
    FilterDistinct(Id, IsOtherKey, keys);
    SortByDistinct(IntLe(), Id, a);
    var sa := SortBy(IntLe(), a);
    UniqueById(sa);
    UniqueById(b);
    assert forall v :: v in sa <==> v in a by {
      forall v ensures v in sa <==> v in a {
        assert v in sa <==> v in multiset(sa);
      }
    }
    UniqueConcat(sa, b);
  }

  lemma UniqueById(s: seq<int>)
    ensures Unique(s) <==> DistinctBy(Id, s)
  {
  }

  lemma UniqueConcat(x: seq<int>, y: seq<int>)
    requires Unique(x) && Unique(y)
    requires forall v :: v in x ==> v !in y
    ensures Unique(x + y)
  {
    var r := x + y;
    forall i, j | 0 <= i < j < |r| ensures r[i] != r[j] {
      if j < |x| {
        assert r[i] == x[i] && r[j] == x[j];
      } else if i >= |x| {
        assert r[i] == y[i - |x|] && r[j] == y[j - |x|];
      } else {
        assert r[i] in x && r[j] in y;
      }
    }
  }

  // ---------------------------------------------------------------------------
  // Writing a re-ordered group back

  /** `students.findIndex(s => s.name === name)`. */
  function FindIndex(s: seq<Scored>, name: string): (r: int)
    ensures -1 <= r < |s|
    ensures r == -1 <==> forall j :: 0 <= j < |s| ==> s[j].name != name
    ensures 0 <= r ==> s[r].name == name && forall j :: 0 <= j < r ==> s[j].name != name
  {
    if s == [] then -1
    else if s[0].name == name then 0
    else
      var r := FindIndex(s[1..], name);
      assert forall j :: 1 <= j < |s| ==> s[j] == s[1..][j - 1];
      if r == -1 then -1 else r + 1
  }

  /**
   * `students[k] = x` for the indices the write-back can produce: an element
   * is replaced, the array grows by one at `k == |s|`, and `k == -1` sets a
   * property that is not an element.
   */
  function Store(s: seq<Scored>, k: int, x: Scored): (r: seq<Scored>)
    requires -1 <= k <= |s|
    ensures 0 <= k < |s| ==> r == s[k := x]
    ensures k == |s| ==> r == s + [x]
    ensures k == -1 ==> r == s
  {
    if k == -1 then s else if k == |s| then s + [x] else s[k := x]
  }

  /** `for (let i = 0; i < group.length; i++) students[startIndex + i] = group[i]`. */
  function WriteBack(s: seq<Scored>, start: int, t: seq<Scored>): seq<Scored>
    requires -1 <= start <= |s|
    decreases |t|
  {
    if t == [] then s
    else WriteBack(Store(s, start, t[0]), start + 1, t[1..])
  }

  /** Inside the list, the write-back overwrites exactly the slots `start .. start + |t|`. */
  lemma {:induction false} WriteBackInside(s: seq<Scored>, start: int, t: seq<Scored>)
    requires 0 <= start && start + |t| <= |s|
    ensures WriteBack(s, start, t) == s[..start] + t + s[start + |t|..]
    decreases |t|
  {
    if t != [] {
      var s' := s[start := t[0]];
      assert WriteBack(s, start, t) == WriteBack(s', start + 1, t[1..]);
      WriteBackInside(s', start + 1, t[1..]);
      UpdateThenSplice(s, start, t);
    }
  }

  /** Storing `t[0]` at `start` and then splicing in the rest of `t` splices in all of `t`. */
  lemma UpdateThenSplice(s: seq<Scored>, start: nat, t: seq<Scored>)
    requires t != [] && start + |t| <= |s|
    ensures s[start := t[0]][..start + 1] + t[1..] + s[start := t[0]][start + |t|..] == s[..start] + t + s[start + |t|..]
  {
    var s' := s[start := t[0]];
    assert s'[..start + 1] == s[..start] + [t[0]];
    assert s'[start + |t|..] == s[start + |t|..];
    assert [t[0]] + t[1..] == t;
  }

  /** Where the group is written from: the new winner's slot as written, or the group's first slot. */
  datatype Anchor = SortedHead | GroupHead

  /** One visit of the `Object.entries(scoreGroups)` loop; the groups were formed from the list `s0` as it came in. */
  function ResolveGroup(le: (Scored, Scored) -> bool, s0: seq<Scored>, cur: seq<Scored>, v: int, anchor: Anchor): seq<Scored> {
    var g := Group(s0, v);
    if |g| <= 1 then cur
    else
      var t := SortBy(le, g);
      var head := if anchor == SortedHead then t[0] else g[0];
      WriteBack(cur, FindIndex(cur, head.name), t)
  }

  /** The visits of the scores in `order`, one after another. */
  function ResolveAll(le: (Scored, Scored) -> bool, s0: seq<Scored>, order: seq<int>, anchor: Anchor): seq<Scored> {
    if order == [] then s0
    else ResolveGroup(le, s0, ResolveAll(le, s0, order[..|order| - 1], anchor), order[|order| - 1], anchor)
  }

  /** `handleTies(students, matrix)` as written: the group is written from `findIndex(group[0].name)` after the group is sorted. */
  function TieWriteBack(s: seq<Scored>, m: seq<Entry>, wkeys: seq<string>): seq<Scored> {
    ResolveAll(TieLe(m, wkeys), s, EntryOrder(ScoreKeys(s)), SortedHead)
  }

  /** The evident intent: the group is written from the slot its first member held before the group was sorted. */
  function TieWriteBackFixed(s: seq<Scored>, m: seq<Entry>, wkeys: seq<string>): seq<Scored> {
    ResolveAll(TieLe(m, wkeys), s, EntryOrder(ScoreKeys(s)), GroupHead)
  }

  /** The first loop of `handleTies`: `scoreGroups[student.score].push(student)`; `keys` is the groups' insertion order. */
  method GroupByScore(students: seq<Scored>) returns (scoreGroups: map<int, seq<Scored>>, keys: seq<int>)
    ensures GroupsOf(students, scoreGroups, keys)
  {
    scoreGroups := map[];
    keys := [];
    var n := 0;
    while n < |students|
      invariant 0 <= n <= |students|
      invariant GroupsOf(students[..n], scoreGroups, keys)
    {
      scoreGroups, keys := AddToGroup(students, n, scoreGroups, keys);
      n := n + 1;
    }
    assert students[..n] == students;
  }

  /** `scoreGroups` and its key order hold the score groups of `s`. */
  ghost predicate GroupsOf(s: seq<Scored>, scoreGroups: map<int, seq<Scored>>, keys: seq<int>) {
    && keys == ScoreKeys(s)
    && (forall v :: v in scoreGroups <==> v in keys)
    && (forall v :: v in scoreGroups ==> scoreGroups[v] == Group(s, v))
  }

  /** One turn of the grouping loop: `(scoreGroups[score] ||= []).push(student)`. */
  method AddToGroup(students: seq<Scored>, n: nat, groups: map<int, seq<Scored>>, keys: seq<int>)
    returns (groups': map<int, seq<Scored>>, keys': seq<int>)
    requires n < |students| && GroupsOf(students[..n], groups, keys)
    ensures GroupsOf(students[..n + 1], groups', keys')
  {
    var student := students[n];
    var v := student.score;
    ScoreKeysSnoc(students, n);
    groups', keys' := groups, keys;
    if v !in groups' {
      GroupEmpty(students[..n], v);
      groups' := groups'[v := []];
      keys' := keys' + [v];
    }
    groups' := groups'[v := groups'[v] + [student]];
    assert keys' == ScoreKeys(students[..n + 1]);
    forall u | u in groups' ensures groups'[u] == Group(students[..n + 1], u) {
      GroupSnoc(students, n, u);
    }
  }

  /** The write-back loop: `students[startIndex + i] = group[i]` for each `i`. */
  method WriteGroup(students: seq<Scored>, startIndex: int, group: seq<Scored>) returns (out: seq<Scored>)
    requires -1 <= startIndex <= |students|
    ensures out == WriteBack(students, startIndex, group)
  {
    out := students;
    var i := 0;
    while i < |group|
      invariant 0 <= i <= |group|
      invariant -1 <= startIndex + i <= |out|
      invariant WriteBack(out, startIndex + i, group[i..]) == WriteBack(students, startIndex, group)
    {
      assert group[i..][1..] == group[i + 1..];
      out := Store(out, startIndex + i, group[i]);
      i := i + 1;
    }
  }

  /** `handleTies(students, matrix)`, as written; `students` is updated in place, so the result is its final contents. */
  method HandleTies(students: seq<Scored>, m: seq<Entry>, weightKeys: seq<string>) returns (out: seq<Scored>)
    ensures out == TieWriteBack(students, m, weightKeys)
  {
    var scoreGroups, keys := GroupByScore(students);
    out := students;
    var order := EntryOrder(keys);
    var j := 0;
    while j < |order|
      invariant 0 <= j <= |order|
      invariant out == ResolveAll(TieLe(m, weightKeys), students, order[..j], SortedHead)
    {
      ResolveAllSnoc(TieLe(m, weightKeys), students, order, j, SortedHead);
      VisitedGroup(students, scoreGroups, keys, j);
      out := VisitGroup(students, m, weightKeys, order[j], scoreGroups[order[j]], out);
      j := j + 1;
    }
    assert order[..j] == order;
  }

  /** Every key `Object.entries` visits is recorded, with its score group. */
  lemma VisitedGroup(students: seq<Scored>, scoreGroups: map<int, seq<Scored>>, keys: seq<int>, j: nat)
    requires GroupsOf(students, scoreGroups, keys) && j < |EntryOrder(keys)|
    ensures EntryOrder(keys)[j] in scoreGroups
    ensures scoreGroups[EntryOrder(keys)[j]] == Group(students, EntryOrder(keys)[j])
  {
    ScoreKeysUnique(students);
    EntryOrderVisitsAll(keys);
    assert EntryOrder(keys)[j] in EntryOrder(keys);
  }

  /** One turn of the loop over `Object.entries(scoreGroups)`: sort a tied group and write it back. */
  method VisitGroup(students: seq<Scored>, m: seq<Entry>, weightKeys: seq<string>, score: int, group0: seq<Scored>, cur: seq<Scored>)
    returns (out: seq<Scored>)
    requires group0 == Group(students, score)
    ensures out == ResolveGroup(TieLe(m, weightKeys), students, cur, score, SortedHead)
  {
    out := cur;
    var group := group0;
    if |group| > 1 {
      group := SortBy(TieLe(m, weightKeys), group);
      var startIndex := FindIndex(out, group[0].name);
      out := WriteGroup(out, startIndex, group);
    }
  }

  lemma GroupSnoc(s: seq<Scored>, n: nat, v: int)
    requires n < |s|
    ensures Group(s[..n + 1], v) == Group(s[..n], v) + (if s[n].score == v then [s[n]] else [])
  {
    assert s[..n + 1] == s[..n] + [s[n]];
    FilterConcat(HasScore(v), s[..n], [s[n]]);
  }

  lemma ScoreKeysSnoc(s: seq<Scored>, n: nat)
    requires n < |s|
    ensures ScoreKeys(s[..n + 1]) == if s[n].score in ScoreKeys(s[..n]) then ScoreKeys(s[..n]) else ScoreKeys(s[..n]) + [s[n].score]
  {
    assert s[..n + 1][..n] == s[..n];
  }

  /** A score that was never recorded has no group. */
  lemma GroupEmpty(s: seq<Scored>, v: int)
    requires v !in ScoreKeys(s)
    ensures Group(s, v) == []
  {
    FilterNone(HasScore(v), s);
  }

  lemma ResolveAllSnoc(le: (Scored, Scored) -> bool, s0: seq<Scored>, order: seq<int>, j: nat, anchor: Anchor)
    requires j < |order|
    ensures ResolveAll(le, s0, order[..j + 1], anchor)
         == ResolveGroup(le, s0, ResolveAll(le, s0, order[..j], anchor), order[j], anchor)
  {
    assert order[..j + 1][..j] == order[..j];
  }

  // ---------------------------------------------------------------------------
  // What the write-back does to a list sorted by score

  /** The comparator `(a, b) => b.score - a.score` of the score sort, as a "may precede" relation. */
  function ScoreLe(): (Scored, Scored) -> bool {
    (a: Scored, b: Scored) => b.score - a.score <= 0
  }

  function Name(x: Scored): string {
    x.name
  }

  /** The position of the first student with score `v`, or `|s|`. */
  function First(s: seq<Scored>, v: int): (r: nat)
    ensures r <= |s|
    ensures forall j :: 0 <= j < r ==> s[j].score != v
    ensures r < |s| ==> s[r].score == v
  {
    if s == [] then 0 else if s[0].score == v then 0 else 1 + First(s[1..], v)
  }

  /** The end of the run of score `v` that starts at `f`. */
  function RunEnd(s: seq<Scored>, v: int, f: nat): (r: nat)
    requires f <= |s|
    ensures f <= r <= |s|
    ensures forall j :: f <= j < r ==> s[j].score == v
    ensures r < |s| ==> s[r].score != v
    decreases |s| - f
  {
    if f == |s| || s[f].score != v then f else RunEnd(s, v, f + 1)
  }

  /** Scores never increase along `s`. */
  ghost predicate Descending(s: seq<Scored>) {
    forall i, j :: 0 <= i < j < |s| ==> s[j].score <= s[i].score
  }

  /** Being sorted by the score comparator is being in descending score order. */
  lemma DescendingIff(s: seq<Scored>)
    ensures SortedBy(ScoreLe(), s) <==> Descending(s)
  {
    if SortedBy(ScoreLe(), s) {
      forall i, j | 0 <= i < j < |s| ensures s[j].score <= s[i].score {
        assert ScoreLe()(s[i], s[j]);
      }
    }
    if Descending(s) {
      forall i, j | 0 <= i < j < |s| ensures ScoreLe()(s[i], s[j]) {
        assert s[j].score <= s[i].score;
      }
    }
  }

  /** Past the run of `v` starting at `First`, no score of a descending list equals `v`. */
  lemma RunIsAll(s: seq<Scored>, v: int)
    requires Descending(s)
    ensures forall i :: RunEnd(s, v, First(s, v)) <= i < |s| ==> s[i].score != v
  {
    var f := First(s, v);
    var e := RunEnd(s, v, f);
    forall i | e < i < |s| ensures s[i].score != v {
      assert s[i].score <= s[e].score;
      assert s[e].score <= s[f].score;
    }
  }

  /** In a descending list, each score group is the contiguous run that starts at `First`. */
  lemma GroupSegment(s: seq<Scored>, v: int)
    requires Descending(s)
    ensures First(s, v) + |Group(s, v)| <= |s|
    ensures s[First(s, v)..First(s, v) + |Group(s, v)|] == Group(s, v)
    ensures forall i :: 0 <= i < |s| ==> (s[i].score == v <==> First(s, v) <= i < First(s, v) + |Group(s, v)|)
  {
    RunIsAll(s, v);
    GroupIsRun(s, v);
  }

  /** When the run of `v` at `First` is its only occurrence, it is the whole group. */
  lemma GroupIsRun(s: seq<Scored>, v: int)
    requires forall i :: RunEnd(s, v, First(s, v)) <= i < |s| ==> s[i].score != v
    ensures Group(s, v) == s[First(s, v)..RunEnd(s, v, First(s, v))]
  {
    var f := First(s, v);
    var e := RunEnd(s, v, f);
    forall i | 0 <= i < |s| ensures HasScore(v)(s[i]) <==> f <= i < e {
    }
    FilterRun(HasScore(v), s, f, e);
  }

  /** Group `v` of `s` sits, re-ordered by the comparator, in its slots of `cur`. */
  ghost predicate Placed(le: (Scored, Scored) -> bool, s: seq<Scored>, cur: seq<Scored>, v: int) {
    var f := First(s, v);
    f + |Group(s, v)| <= |cur| && cur[f..f + |Group(s, v)|] == SortBy(le, Group(s, v))
  }

  /** The state of `students` after the groups with scores in `done` have been visited. */
  ghost predicate Resolved(le: (Scored, Scored) -> bool, s: seq<Scored>, cur: seq<Scored>, done: set<int>) {
    && |cur| == |s|
    && multiset(cur) == multiset(s)
    && (forall i :: 0 <= i < |s| ==> cur[i].score == s[i].score)
    && (forall i :: 0 <= i < |s| && s[i].score !in done ==> cur[i] == s[i])
    && (forall v :: v in done ==> Placed(le, s, cur, v))
  }

  /** When names are distinct, the only student of `cur` with the name of `s[f]` is `s[f]`. */
  lemma NameOnlyAt(s: seq<Scored>, cur: seq<Scored>, f: int, r: int)
    requires DistinctBy(Name, s) && multiset(cur) == multiset(s)
    requires 0 <= f < |s| && 0 <= r < |cur|
    requires cur[r].name == s[f].name
    ensures cur[r] == s[f]
  {
    assert cur[r] in multiset(s);
    var k :| 0 <= k < |s| && s[k] == cur[r];
    assert Name(s[k]) == Name(s[f]);
  }

  /** Group `v` of `s` is still where and as it was in `cur`. */
  ghost predicate Untouched(s: seq<Scored>, cur: seq<Scored>, v: int) {
    |cur| == |s| && forall i :: 0 <= i < |s| && s[i].score == v ==> cur[i] == s[i]
  }

  /** An untouched group still holds its first member at `First`, and no one earlier has that name. */
  lemma FindsGroupHead(s: seq<Scored>, cur: seq<Scored>, v: int)
    requires DistinctBy(Name, s) && multiset(cur) == multiset(s)
    requires Untouched(s, cur, v) && forall i :: 0 <= i < |s| ==> cur[i].score == s[i].score
    requires First(s, v) < |s|
    ensures FindIndex(cur, s[First(s, v)].name) == First(s, v)
  {
    var f := First(s, v);
    assert cur[f] == s[f];
    forall j | 0 <= j < f ensures cur[j].name != s[f].name {
      if cur[j].name == s[f].name {
        NameOnlyAt(s, cur, f, j);
      }
    }
  }

  /** Rewriting only the slots of group `v` leaves every other placed group placed. */
  lemma PlacedKept(le: (Scored, Scored) -> bool, s: seq<Scored>, cur: seq<Scored>, r: seq<Scored>, v: int, u: int)
    requires Descending(s) && |cur| == |s| == |r| && u != v
    requires forall i :: 0 <= i < |s| && s[i].score != v ==> r[i] == cur[i]
    requires Placed(le, s, cur, u)
    ensures Placed(le, s, r, u)
  {
    RunKept(s, cur, r, v, u);
    SliceCarry(cur, r, First(s, u), First(s, u) + |Group(s, u)|, SortBy(le, Group(s, u)));
  }

  /** A slice equal to the same slice of `cur` holds what `cur` holds there. */
  lemma SliceCarry(cur: seq<Scored>, r: seq<Scored>, lo: nat, hi: nat, t: seq<Scored>)
    requires lo <= hi <= |cur| && hi <= |r|
    requires r[lo..hi] == cur[lo..hi] && cur[lo..hi] == t
    ensures r[lo..hi] == t
  {
  }

  /** Changing only the slots of group `v` leaves the run of every other group as it was. */
  lemma RunKept(s: seq<Scored>, cur: seq<Scored>, r: seq<Scored>, v: int, u: int)
    requires Descending(s) && |cur| == |s| == |r| && u != v
    requires forall i :: 0 <= i < |s| && s[i].score != v ==> r[i] == cur[i]
    ensures First(s, u) + |Group(s, u)| <= |s|
    ensures r[First(s, u)..First(s, u) + |Group(s, u)|] == cur[First(s, u)..First(s, u) + |Group(s, u)|]
  {
    GroupSegment(s, u);
    var fu, cu := First(s, u), |Group(s, u)|;
    forall i | fu <= i < fu + cu ensures r[i] == cur[i] {
      assert s[i].score == u;
    }
  }

  /** `r` replaces the slots of `g` in `cur`, from `f` on, by a permutation `t` of `g`. */
  lemma SpliceFacts(cur: seq<Scored>, f: int, g: seq<Scored>, t: seq<Scored>, r: seq<Scored>)
    requires 0 <= f && f + |g| <= |cur| && cur[f..f + |g|] == g
    requires |t| == |g| && multiset(t) == multiset(g)
    requires r == cur[..f] + t + cur[f + |g|..]
    ensures |r| == |cur|
    ensures multiset(r) == multiset(cur)
    ensures r[f..f + |g|] == t
    ensures forall i :: 0 <= i < |cur| && !(f <= i < f + |g|) ==> r[i] == cur[i]
    ensures forall i :: f <= i < f + |g| ==> r[i] in g
  {
    assert cur == cur[..f] + g + cur[f + |g|..];
    forall i | f <= i < f + |g| ensures r[i] in g {
      assert r[i] == t[i - f];
      assert t[i - f] in multiset(t);
    }
  }

  /** A splice that only permutes the slots of group `v` changes no score and nothing outside. */
  lemma SpliceScores(s: seq<Scored>, cur: seq<Scored>, r: seq<Scored>, f: int, g: seq<Scored>, v: int)
    requires |cur| == |s| == |r| && 0 <= f && f + |g| <= |s|
    requires forall i :: 0 <= i < |s| ==> (s[i].score == v <==> f <= i < f + |g|)
    requires forall i :: 0 <= i < |s| ==> cur[i].score == s[i].score
    requires forall i :: 0 <= i < |cur| && !(f <= i < f + |g|) ==> r[i] == cur[i]
    requires forall i :: f <= i < f + |g| ==> r[i] in g
    requires forall x :: x in g ==> x.score == v
    ensures forall i :: 0 <= i < |s| ==> r[i].score == s[i].score
    ensures forall i :: 0 <= i < |s| && s[i].score != v ==> r[i] == cur[i]
  {
  }

  /** A state that differs from a resolved one only by placing group `v` is resolved with `v` done. */
  lemma StepResolved(le: (Scored, Scored) -> bool, s: seq<Scored>, cur: seq<Scored>, r: seq<Scored>, done: set<int>, v: int)
    requires Descending(s)
    requires Resolved(le, s, cur, done) && v !in done
    requires |r| == |s| && multiset(r) == multiset(s)
    requires forall i :: 0 <= i < |s| ==> r[i].score == s[i].score
    requires forall i :: 0 <= i < |s| && s[i].score != v ==> r[i] == cur[i]
    requires Placed(le, s, r, v)
    ensures Resolved(le, s, r, done + {v})
  {
    forall u | u in done ensures Placed(le, s, r, u) {
      PlacedKept(le, s, cur, r, v, u);
    }
  }

  /** An untouched group still fills its run of slots. */
  lemma UntouchedSlice(s: seq<Scored>, cur: seq<Scored>, v: int)
    requires Descending(s) && Untouched(s, cur, v)
    ensures First(s, v) + |Group(s, v)| <= |s|
    ensures cur[First(s, v)..First(s, v) + |Group(s, v)|] == Group(s, v)
    ensures forall i :: 0 <= i < |s| ==> (s[i].score == v <==> First(s, v) <= i < First(s, v) + |Group(s, v)|)
  {
    GroupSegment(s, v);
    var f, c := First(s, v), |Group(s, v)|;
    forall i | f <= i < f + c ensures cur[i] == s[i] {
    }
  }

  /** Splicing the sorted group into its own slots keeps the state `Resolved`. */
  lemma SpliceStep(le: (Scored, Scored) -> bool, s: seq<Scored>, cur: seq<Scored>, done: set<int>, v: int, r: seq<Scored>)
    requires Descending(s)
    requires Resolved(le, s, cur, done) && v !in done
    requires First(s, v) + |Group(s, v)| <= |cur|
    requires r == cur[..First(s, v)] + SortBy(le, Group(s, v)) + cur[First(s, v) + |Group(s, v)|..]
    ensures Resolved(le, s, r, done + {v})
  {
    assert Untouched(s, cur, v);
    UntouchedSlice(s, cur, v);
    SplicePlaces(s, cur, v, SortBy(le, Group(s, v)), r);
    StepResolved(le, s, cur, r, done, v);
  }

  /**
   * Splicing the sorted copy of an untouched group into its own slots permutes the list,
   * keeps every score in its slot, leaves every other student where it was and places the group.
   */
  lemma SplicePlaces(s: seq<Scored>, cur: seq<Scored>, v: int, t: seq<Scored>, r: seq<Scored>)
    requires |cur| == |s| && multiset(cur) == multiset(s)
    requires forall i :: 0 <= i < |s| ==> cur[i].score == s[i].score
    requires First(s, v) + |Group(s, v)| <= |s|
    requires cur[First(s, v)..First(s, v) + |Group(s, v)|] == Group(s, v)
    requires forall i :: 0 <= i < |s| ==> (s[i].score == v <==> First(s, v) <= i < First(s, v) + |Group(s, v)|)
    requires |t| == |Group(s, v)| && multiset(t) == multiset(Group(s, v))
    requires r == cur[..First(s, v)] + t + cur[First(s, v) + |Group(s, v)|..]
    ensures |r| == |s| && multiset(r) == multiset(s)
    ensures forall i :: 0 <= i < |s| ==> r[i].score == s[i].score
    ensures forall i :: 0 <= i < |s| && s[i].score != v ==> r[i] == cur[i]
    ensures r[First(s, v)..First(s, v) + |Group(s, v)|] == t
  {
    assert forall x :: x in Group(s, v) ==> x.score == v;
    SpliceCore(s, cur, r, First(s, v), Group(s, v), t, v);
  }

  /** `SplicePlaces` for a slot range `f` of length `|g|` holding exactly the students of score `v`. */
  lemma SpliceCore(s: seq<Scored>, cur: seq<Scored>, r: seq<Scored>, f: int, g: seq<Scored>, t: seq<Scored>, v: int)
    requires |cur| == |s| && multiset(cur) == multiset(s)
    requires 0 <= f && f + |g| <= |s| && cur[f..f + |g|] == g
    requires forall i :: 0 <= i < |s| ==> (s[i].score == v <==> f <= i < f + |g|)
    requires forall i :: 0 <= i < |s| ==> cur[i].score == s[i].score
    requires forall x :: x in g ==> x.score == v
    requires |t| == |g| && multiset(t) == multiset(g)
    requires r == cur[..f] + t + cur[f + |g|..]
    ensures |r| == |s| && multiset(r) == multiset(s)
    ensures r[f..f + |g|] == t
    ensures forall i :: 0 <= i < |s| ==> r[i].score == s[i].score
    ensures forall i :: 0 <= i < |s| && s[i].score != v ==> r[i] == cur[i]
  {
    SpliceFacts(cur, f, g, t, r);
    SpliceScores(s, cur, r, f, g, v);
  }

  /** With the intended anchor, visiting an unvisited group splices its sorted copy into its own slots. */
  lemma ResolveGroupSplices(le: (Scored, Scored) -> bool, s: seq<Scored>, cur: seq<Scored>, v: int)
    requires Descending(s) && DistinctBy(Name, s)
    requires multiset(cur) == multiset(s) && Untouched(s, cur, v)
    requires forall i :: 0 <= i < |s| ==> cur[i].score == s[i].score
    ensures First(s, v) + |Group(s, v)| <= |cur|
    ensures ResolveGroup(le, s, cur, v, GroupHead)
      == cur[..First(s, v)] + SortBy(le, Group(s, v)) + cur[First(s, v) + |Group(s, v)|..]
  {
    if |Group(s, v)| <= 1 {
      SmallGroupStays(le, s, cur, v);
    } else {
      LargeGroupSplices(le, s, cur, v);
    }
  }

  /** A group of two or more is written from its own first slot, which `findIndex` finds. */
  lemma LargeGroupSplices(le: (Scored, Scored) -> bool, s: seq<Scored>, cur: seq<Scored>, v: int)
    requires Descending(s) && DistinctBy(Name, s)
    requires multiset(cur) == multiset(s) && Untouched(s, cur, v)
    requires forall i :: 0 <= i < |s| ==> cur[i].score == s[i].score
    requires |Group(s, v)| > 1
    ensures First(s, v) + |Group(s, v)| <= |cur|
    ensures ResolveGroup(le, s, cur, v, GroupHead)
      == cur[..First(s, v)] + SortBy(le, Group(s, v)) + cur[First(s, v) + |Group(s, v)|..]
  {
    HeadSlot(s, cur, v);
    HeadWriteBack(le, s, cur, v);
  }

  /** A group of two or more whose head is found at the group's first slot is replaced there by its sorted form. */
  lemma HeadWriteBack(le: (Scored, Scored) -> bool, s: seq<Scored>, cur: seq<Scored>, v: int)
    requires |Group(s, v)| > 1 && First(s, v) + |Group(s, v)| <= |cur|
    requires FindIndex(cur, Group(s, v)[0].name) == First(s, v)
    ensures ResolveGroup(le, s, cur, v, GroupHead)
      == cur[..First(s, v)] + SortBy(le, Group(s, v)) + cur[First(s, v) + |Group(s, v)|..]
  {
    ResolveAtHead(le, s, cur, v);
    WriteAtHead(cur, FindIndex(cur, Group(s, v)[0].name), First(s, v), |Group(s, v)|,
      SortBy(le, Group(s, v)), ResolveGroup(le, s, cur, v, GroupHead));
  }

  /** A write-back of `t` that starts at slot `f` inside the list replaces the `n == |t|` slots from `f`. */
  lemma WriteAtHead(cur: seq<Scored>, idx: int, f: int, n: nat, t: seq<Scored>, r: seq<Scored>)
    requires -1 <= idx <= |cur| && r == WriteBack(cur, idx, t)
    requires idx == f && 0 <= f && n == |t| && f + n <= |cur|
    ensures r == cur[..f] + t + cur[f + n..]
  {
    WriteBackInside(cur, f, t);
  }

  /** While a group is untouched, its first member is found at the group's first slot. */
  lemma HeadSlot(s: seq<Scored>, cur: seq<Scored>, v: int)
    requires Descending(s) && DistinctBy(Name, s)
    requires multiset(cur) == multiset(s) && Untouched(s, cur, v)
    requires forall i :: 0 <= i < |s| ==> cur[i].score == s[i].score
    requires |Group(s, v)| > 0
    ensures First(s, v) + |Group(s, v)| <= |cur|
    ensures FindIndex(cur, Group(s, v)[0].name) == First(s, v)
  {
    GroupHeadAt(s, v);
    FindsGroupHead(s, cur, v);
  }

  /** A non-empty group starts at its first slot in `s`. */
  lemma GroupHeadAt(s: seq<Scored>, v: int)
    requires Descending(s) && |Group(s, v)| > 0
    ensures First(s, v) + |Group(s, v)| <= |s|
    ensures Group(s, v)[0] == s[First(s, v)]
  {
    GroupSegment(s, v);
    assert Group(s, v)[0] == s[First(s, v)..First(s, v) + |Group(s, v)|][0];
  }

  /** Anchored at the group's head, a group of two or more is written back from that student's slot. */
  lemma ResolveAtHead(le: (Scored, Scored) -> bool, s: seq<Scored>, cur: seq<Scored>, v: int)
    requires |Group(s, v)| > 1
    ensures ResolveGroup(le, s, cur, v, GroupHead) == WriteBack(cur, FindIndex(cur, Group(s, v)[0].name), SortBy(le, Group(s, v)))
  {
  }


  /** A group of at most one student is already in order and in place. */
  lemma SmallGroupStays(le: (Scored, Scored) -> bool, s: seq<Scored>, cur: seq<Scored>, v: int)
    requires Descending(s) && Untouched(s, cur, v)
    requires |Group(s, v)| <= 1
    ensures First(s, v) + |Group(s, v)| <= |cur|
    ensures ResolveGroup(le, s, cur, v, GroupHead)
      == cur[..First(s, v)] + SortBy(le, Group(s, v)) + cur[First(s, v) + |Group(s, v)|..]
  {
    UntouchedSlice(s, cur, v);
    SortShort(le, Group(s, v));
    SliceSplit(cur, First(s, v), |Group(s, v)|);
  }

  /** A list is its prefix, one of its slices and the rest. */
  lemma SliceSplit(cur: seq<Scored>, f: nat, c: nat)
    requires f + c <= |cur|
    ensures cur == cur[..f] + cur[f..f + c] + cur[f + c..]
  {
  }

  /** Visiting one more group with the intended anchor keeps the state `Resolved`. */
  lemma ResolveStep(le: (Scored, Scored) -> bool, s: seq<Scored>, cur: seq<Scored>, done: set<int>, v: int)
    requires Descending(s) && DistinctBy(Name, s)
    requires Resolved(le, s, cur, done) && v !in done
    ensures Resolved(le, s, ResolveGroup(le, s, cur, v, GroupHead), done + {v})
  {
    assert Untouched(s, cur, v);
    ResolveGroupSplices(le, s, cur, v);
    SpliceStep(le, s, cur, done, v, ResolveGroup(le, s, cur, v, GroupHead));
  }

  /** The scores an order visits. */
  function Elems(order: seq<int>): (r: set<int>)
    ensures forall v :: v in r <==> v in order
  {
    set v | v in order
  }

  /** The scores of a duplicate-free order, one more at a time. */
  lemma UniqueSnoc(order: seq<int>)
    requires Unique(order) && order != []
    ensures Unique(order[..|order| - 1])
    ensures order[|order| - 1] !in Elems(order[..|order| - 1])
    ensures Elems(order[..|order| - 1]) + {order[|order| - 1]} == Elems(order)
  {
    var n := |order| - 1;
    var prefix := order[..n];
    forall i, j | 0 <= i < j < |prefix| ensures prefix[i] != prefix[j] {
      assert prefix[i] == order[i] && prefix[j] == order[j];
    }
    forall i | 0 <= i < |prefix| ensures prefix[i] != order[n] {
      assert prefix[i] == order[i];
    }
    assert order == prefix + [order[n]];
  }

  /** The intended write-back, over any order of distinct scores, leaves each visited group placed. */
  lemma {:induction false} ResolveAllFixed(le: (Scored, Scored) -> bool, s: seq<Scored>, order: seq<int>)
    requires Descending(s) && DistinctBy(Name, s)
    requires Unique(order)
    ensures Resolved(le, s, ResolveAll(le, s, order, GroupHead), Elems(order))
  {
    if order != [] {
      var n := |order| - 1;
      var prefix := order[..n];
      UniqueSnoc(order);
      ResolveAllFixed(le, s, prefix);
      ResolveStep(le, s, ResolveAll(le, s, prefix, GroupHead), Elems(prefix), order[n]);
    }
  }

  /**
   * The intended write-back on a list sorted by score with distinct names: it only
   * permutes the list, keeps every score in its slot, and orders each group of equal
   * scores by the tie-break comparator.
   */
  lemma TieWriteBackFixedSpec(s: seq<Scored>, m: seq<Entry>, wkeys: seq<string>)
    requires SortedBy(ScoreLe(), s) && DistinctBy(Name, s)
    ensures var out := TieWriteBackFixed(s, m, wkeys);
      && |out| == |s| && multiset(out) == multiset(s)
      && (forall i :: 0 <= i < |s| ==> out[i].score == s[i].score)
      && (forall i, j :: 0 <= i < j < |out| && out[i].score == out[j].score ==> TieLe(m, wkeys)(out[i], out[j]))
  {
    DescendingIff(s);
    var keys := ScoreKeys(s);
    ScoreKeysUnique(s);
    EntryOrderVisitsAll(keys);
    var order := EntryOrder(keys);
    ResolveAllFixed(TieLe(m, wkeys), s, order);
    var out := TieWriteBackFixed(s, m, wkeys);
    TieLeTotalPreorder(m, wkeys);
    forall i, j | 0 <= i < j < |out| && out[i].score == out[j].score ensures TieLe(m, wkeys)(out[i], out[j]) {
      var v := s[i].score;
      assert v in keys;
      assert Placed(TieLe(m, wkeys), s, out, v);
      GroupInOrder(TieLe(m, wkeys), s, out, v, i, j);
    }
  }

  /** Two members of a placed group stand in comparator order. */
  lemma GroupInOrder(le: (Scored, Scored) -> bool, s: seq<Scored>, out: seq<Scored>, v: int, i: int, j: int)
    requires TotalPreorder(le) && Descending(s) && |out| == |s| && Placed(le, s, out, v)
    requires 0 <= i < j < |s| && s[i].score == v && s[j].score == v
    ensures le(out[i], out[j])
  {
    GroupSegment(s, v);
    var f, g := First(s, v), Group(s, v);
    var t := SortBy(le, g);
    SortBySorted(le, g);
    assert out[i] == t[i - f] && out[j] == t[j - f];
  }

  /** The tie-break winner of every group of two or more already stands first in that group. */
  ghost predicate WinnersLead(m: seq<Entry>, wkeys: seq<string>, s: seq<Scored>) {
    Leads(TieLe(m, wkeys), s)
  }

  /** Under `le`, the first of every sorted group of two or more has the name of the group's first member. */
  ghost predicate Leads(le: (Scored, Scored) -> bool, s: seq<Scored>) {
    forall v :: |Group(s, v)| > 1 ==> SortBy(le, Group(s, v))[0].name == Group(s, v)[0].name
  }

  /** When winners already lead, the two anchors find the same start, whatever order the groups are visited in. */
  lemma {:induction false} AnchorsAgree(le: (Scored, Scored) -> bool, s: seq<Scored>, order: seq<int>)
    requires Leads(le, s)
    ensures ResolveAll(le, s, order, SortedHead) == ResolveAll(le, s, order, GroupHead)
  {
    if order != [] {
      AnchorsAgree(le, s, order[..|order| - 1]);
    }
  }

  /** So the write-back as written meets the intended specification when winners lead. */
  lemma TieWriteBackSpec(s: seq<Scored>, m: seq<Entry>, wkeys: seq<string>)
    requires SortedBy(ScoreLe(), s) && DistinctBy(Name, s) && WinnersLead(m, wkeys, s)
    ensures TieWriteBack(s, m, wkeys) == TieWriteBackFixed(s, m, wkeys)
    ensures var out := TieWriteBack(s, m, wkeys);
      && |out| == |s| && multiset(out) == multiset(s)
      && (forall i :: 0 <= i < |s| ==> out[i].score == s[i].score)
      && (forall i, j :: 0 <= i < j < |out| && out[i].score == out[j].score ==> TieLe(m, wkeys)(out[i], out[j]))
  {
    AnchorsAgree(TieLe(m, wkeys), s, EntryOrder(ScoreKeys(s)));
    TieWriteBackFixedSpec(s, m, wkeys);
  }

  /** A write-back only ever stores elements of the list or of the group. */
  lemma {:induction false} WriteBackFrom(s: seq<Scored>, start: int, t: seq<Scored>)
    requires -1 <= start <= |s|
    ensures forall x :: x in WriteBack(s, start, t) ==> x in s || x in t
    decreases |t|
  {
    if t != [] {
      var s' := Store(s, start, t[0]);
      WriteBackFrom(s', start + 1, t[1..]);
      forall x | x in s' ensures x in s || x in t {
        if 0 <= start < |s| {
          var k :| 0 <= k < |s'| && s'[k] == x;
          if k != start {
            assert x == s[k];
          }
        }
      }
    }
  }

  /** Whatever the anchor, every student in the result is one of the input students. */
  lemma {:induction false} ResolveAllFrom(le: (Scored, Scored) -> bool, s: seq<Scored>, order: seq<int>, anchor: Anchor)
    ensures forall x :: x in ResolveAll(le, s, order, anchor) ==> x in s
  {
    if order != [] {
      var cur := ResolveAll(le, s, order[..|order| - 1], anchor);
      ResolveAllFrom(le, s, order[..|order| - 1], anchor);
      var v := order[|order| - 1];
      var g := Group(s, v);
      if |g| > 1 {
        var t := SortBy(le, g);
        var head := if anchor == SortedHead then t[0] else g[0];
        WriteBackFrom(cur, FindIndex(cur, head.name), t);
        forall x | x in t ensures x in s {
          assert x in multiset(g);
        }
      }
    }
  }

  /** The handleTies result never contains a student who was not in its input. */
  lemma TieWriteBackFrom(s: seq<Scored>, m: seq<Entry>, wkeys: seq<string>)
    ensures forall x :: x in TieWriteBack(s, m, wkeys) ==> x in s
  {
    ResolveAllFrom(TieLe(m, wkeys), s, EntryOrder(ScoreKeys(s)), SortedHead);
  }

  function ScoreKey(x: Scored): int {
    x.score
  }

  /** With pairwise different scores every group has at most one student. */
  lemma SingletonGroups(s: seq<Scored>)
    requires DistinctBy(ScoreKey, s)
    ensures forall v :: |Group(s, v)| <= 1
  {
    forall v ensures |Group(s, v)| <= 1 {
      var g := Group(s, v);
      FilterDistinct(ScoreKey, HasScore(v), s);
      assert forall x :: x in g ==> x.score == v;
      assert |g| >= 2 ==> g[0] in g && g[1] in g && ScoreKey(g[0]) != ScoreKey(g[1]);
    }
  }

  /** Without tied groups no visit writes anything, whatever the anchor. */
  lemma {:induction false} NoTiesResolveNothing(le: (Scored, Scored) -> bool, s: seq<Scored>, order: seq<int>, anchor: Anchor)
    requires forall v :: |Group(s, v)| <= 1
    ensures ResolveAll(le, s, order, anchor) == s
  {
    if order != [] {
      NoTiesResolveNothing(le, s, order[..|order| - 1], anchor);
    }
  }

  /** So `handleTies` leaves a list with pairwise different scores as it is. */
  lemma NoTiesUnchanged(s: seq<Scored>, m: seq<Entry>, wkeys: seq<string>)
    requires DistinctBy(ScoreKey, s)
    ensures TieWriteBack(s, m, wkeys) == s
    ensures WinnersLead(m, wkeys, s)
  {
    SingletonGroups(s);
    NoTiesResolveNothing(TieLe(m, wkeys), s, EntryOrder(ScoreKeys(s)), SortedHead);
  }

  // ---------------------------------------------------------------------------
  // The write-back as written, on two students tied at 25 points

  /** "A" reaches 25 points with five hackathon participations, "B" with one patent, "D" has 7. */
  const TieMatrix: seq<Entry> := [Entry("A", [0, 0, 0, 0, 5]), Entry("B", [0, 0, 0, 1]), Entry("D", [1])]

  lemma TieMatrixScores()
    ensures Scores(TieMatrix, ActivityWeights) == [Scored("A", 25), Scored("B", 25), Scored("D", 7)]
  {
    ScorePrefixFacts();
  }

  /** The weights of the first five categories, which are all the sample vectors use. */
  lemma ScorePrefixFacts()
    ensures ScoreOf([0, 0, 0, 0, 5], ActivityWeights) == 25
    ensures ScoreOf([0, 0, 0, 1], ActivityWeights) == 25
    ensures ScoreOf([1], ActivityWeights) == 7
  {
    assert WeightAt(ActivityWeights, 0) == 7 && WeightAt(ActivityWeights, 3) == 25;
    assert WeightAt(ActivityWeights, 4) == 5;
  }

  /** `patents`, the first tie-break category, is the fourth weight key. */
  lemma PatentsIndex()
    ensures IndexOf(Keys(ActivityWeights), "patents") == 3
  {
    var k := Keys(ActivityWeights);
    assert k[0] == "courseCompletion" && k[1] == "highCourseScore" && k[2] == "researchPaper" && k[3] == "patents";
  }

  /** One patent beats five hackathon participations: "B" must come before "A". */
  lemma PatentWins()
    ensures !TieLe(TieMatrix, Keys(ActivityWeights))(Scored("A", 25), Scored("B", 25))
    ensures SortBy(TieLe(TieMatrix, Keys(ActivityWeights)), [Scored("A", 25), Scored("B", 25)])
         == [Scored("B", 25), Scored("A", 25)]
  {
    var wk := Keys(ActivityWeights);
    PatentsIndex();
    assert PriorityKeys[0] == "patents";
    assert CountsOf(TieMatrix, "A") == [0, 0, 0, 0, 5];
    assert CountsOf(TieMatrix, "B") == [0, 0, 0, 1];
    assert !Agree([0, 0, 0, 0, 5], [0, 0, 0, 1], wk, "patents");
    assert TieCompare([0, 0, 0, 0, 5], [0, 0, 0, 1], wk) == 1;
  }

  lemma TiedKeys()
    ensures ScoreKeys([Scored("A", 25)]) == [25]
    ensures ScoreKeys([Scored("A", 25), Scored("B", 25)]) == [25]
    ensures ScoreKeys([Scored("A", 25), Scored("B", 25), Scored("D", 7)]) == [25, 7]
  {
    var a := [Scored("A", 25)];
    assert a[..0] == [];
    var ab := [Scored("A", 25), Scored("B", 25)];
    assert ab[..1] == a;
    assert ScoreKeys(ab) == [25];
    var abd := [Scored("A", 25), Scored("B", 25), Scored("D", 7)];
    assert abd[..2] == ab;
  }

  lemma TiedGroups()
    ensures Group([Scored("A", 25), Scored("B", 25)], 25) == [Scored("A", 25), Scored("B", 25)]
    ensures Group([Scored("A", 25), Scored("B", 25), Scored("D", 7)], 25) == [Scored("A", 25), Scored("B", 25)]
    ensures Group([Scored("A", 25), Scored("B", 25), Scored("D", 7)], 7) == [Scored("D", 7)]
  {
    var abd := [Scored("A", 25), Scored("B", 25), Scored("D", 7)];
    assert abd[1..] == [Scored("B", 25), Scored("D", 7)];
    assert abd[1..][1..] == [Scored("D", 7)];
    assert [Scored("B", 25), Scored("D", 7)][1..] == [Scored("D", 7)];
    assert [Scored("A", 25), Scored("B", 25)][1..] == [Scored("B", 25)];
  }

  /** The groups are visited in ascending score order: first 7, then 25. */
  lemma TiedOrder()
    ensures EntryOrder([25, 7]) == [7, 25]
    ensures EntryOrder([25]) == [25]
  {
    assert [25, 7][1..] == [7];
    assert FilterBy(IsArrayIndex, [25, 7]) == [25, 7];
    assert FilterBy(IsOtherKey, [25, 7]) == [];
    assert SortBy(IntLe(), [7]) == [7];
    assert SortBy(IntLe(), [25, 7]) == Insert(IntLe(), 25, [7]);
    assert FilterBy(IsArrayIndex, [25]) == [25];
    assert FilterBy(IsOtherKey, [25]) == [];
  }

  /** The write-back as written on `[a, b, d]` when `a` and `b` tie, `b` wins, and `d`'s group is visited first. */
  lemma WinnerSecond(s: seq<Scored>, m: seq<Entry>, wk: seq<string>, a: Scored, b: Scored, d: Scored)
    requires s == [a, b, d] && a.name != b.name
    requires EntryOrder(ScoreKeys(s)) == [d.score, a.score]
    requires Group(s, d.score) == [d] && Group(s, a.score) == [a, b]
    requires SortBy(TieLe(m, wk), [a, b]) == [b, a]
    ensures TieWriteBack(s, m, wk) == [a, b, a]
  {
    ResolveTwo(TieLe(m, wk), s, d.score, a.score, SortedHead);
    ResolvePair(TieLe(m, wk), s, s, a.score, a, b, SortedHead);
    FindSecond(s, a, b);
    WriteOverwrite(a, b, d);
  }

  /** The intended write-back on the same list starts at `a`'s slot and keeps `d`. */
  lemma WinnerSecondFixed(s: seq<Scored>, m: seq<Entry>, wk: seq<string>, a: Scored, b: Scored, d: Scored)
    requires s == [a, b, d]
    requires EntryOrder(ScoreKeys(s)) == [d.score, a.score]
    requires Group(s, d.score) == [d] && Group(s, a.score) == [a, b]
    requires SortBy(TieLe(m, wk), [a, b]) == [b, a]
    ensures TieWriteBackFixed(s, m, wk) == [b, a, d]
  {
    ResolveTwo(TieLe(m, wk), s, d.score, a.score, GroupHead);
    ResolvePair(TieLe(m, wk), s, s, a.score, a, b, GroupHead);
    assert FindIndex(s, a.name) == 0;
    WriteSwap(a, b, d);
  }

  /** On `[a, b]` alone, the write-back from `b`'s slot runs one past the end. */
  lemma WinnerSecondGrows(s: seq<Scored>, m: seq<Entry>, wk: seq<string>, a: Scored, b: Scored)
    requires s == [a, b] && a.name != b.name
    requires EntryOrder(ScoreKeys(s)) == [a.score]
    requires Group(s, a.score) == [a, b]
    requires SortBy(TieLe(m, wk), [a, b]) == [b, a]
    ensures TieWriteBack(s, m, wk) == [a, b, a]
  {
    ResolveOne(TieLe(m, wk), s, a.score, SortedHead);
    ResolvePair(TieLe(m, wk), s, s, a.score, a, b, SortedHead);
    FindSecond(s, a, b);
    WriteGrow(a, b);
  }

  /** Visiting a single score is one group visit on the incoming list. */
  lemma ResolveOne(le: (Scored, Scored) -> bool, s: seq<Scored>, w: int, anchor: Anchor)
    ensures ResolveAll(le, s, [w], anchor) == ResolveGroup(le, s, s, w, anchor)
  {
    assert [w][..0] == [];
  }

  /** After a group of at most one student, only the second visit acts. */
  lemma ResolveTwo(le: (Scored, Scored) -> bool, s: seq<Scored>, u: int, w: int, anchor: Anchor)
    requires |Group(s, u)| <= 1
    ensures ResolveAll(le, s, [u, w], anchor) == ResolveGroup(le, s, s, w, anchor)
  {
    assert [u, w][..1] == [u];
    ResolveOne(le, s, u, anchor);
  }

  /** A two-student group that the comparator swaps is written as `[b, a]` from the anchor's slot. */
  lemma ResolvePair(le: (Scored, Scored) -> bool, s: seq<Scored>, cur: seq<Scored>, v: int, a: Scored, b: Scored, anchor: Anchor)
    requires Group(s, v) == [a, b] && SortBy(le, [a, b]) == [b, a]
    ensures ResolveGroup(le, s, cur, v, anchor)
         == WriteBack(cur, FindIndex(cur, (if anchor == SortedHead then b else a).name), [b, a])
  {
  }

  /** `b`'s slot in `s` is 1 when `s` starts with `a, b` and the names differ. */
  lemma FindSecond(s: seq<Scored>, a: Scored, b: Scored)
    requires |s| >= 2 && s[0] == a && s[1] == b && a.name != b.name
    ensures FindIndex(s, b.name) == 1
  {
    assert s[1..][0] == b;
  }

  lemma WriteOverwrite(a: Scored, b: Scored, d: Scored)
    ensures WriteBack([a, b, d], 1, [b, a]) == [a, b, a]
  {
    assert [b, a][1..] == [a] && [a][1..] == [];
    assert Store([a, b, d], 1, b) == [a, b, d];
    assert WriteBack([a, b, d], 1, [b, a]) == WriteBack([a, b, d], 2, [a]);
    assert Store([a, b, d], 2, a) == [a, b, a];
    assert WriteBack([a, b, d], 2, [a]) == WriteBack([a, b, a], 3, []);
  }

  lemma WriteGrow(a: Scored, b: Scored)
    ensures WriteBack([a, b], 1, [b, a]) == [a, b, a]
  {
    assert [b, a][1..] == [a] && [a][1..] == [];
    assert Store([a, b], 1, b) == [a, b];
    assert WriteBack([a, b], 1, [b, a]) == WriteBack([a, b], 2, [a]);
    assert Store([a, b], 2, a) == [a, b, a];
    assert WriteBack([a, b], 2, [a]) == WriteBack([a, b, a], 3, []);
  }

  lemma WriteSwap(a: Scored, b: Scored, d: Scored)
    ensures WriteBack([a, b, d], 0, [b, a]) == [b, a, d]
  {
    assert [b, a][1..] == [a] && [a][1..] == [];
    assert Store([a, b, d], 0, b) == [b, b, d];
    assert WriteBack([a, b, d], 0, [b, a]) == WriteBack([b, b, d], 1, [a]);
    assert Store([b, b, d], 1, a) == [b, a, d];
    assert WriteBack([b, b, d], 1, [a]) == WriteBack([b, a, d], 2, []);
  }

  /**
   * As written, the sorted group is written from the position of its winner "B"
   * (index 1), not from where the group starts: "D" is overwritten by "A", which
   * now appears twice. The intended write-back gives `[B, A, D]`.
   */
  lemma TieOverwrites()
    ensures TieWriteBack([Scored("A", 25), Scored("B", 25), Scored("D", 7)], TieMatrix, Keys(ActivityWeights))
         == [Scored("A", 25), Scored("B", 25), Scored("A", 25)]
    ensures TieWriteBackFixed([Scored("A", 25), Scored("B", 25), Scored("D", 7)], TieMatrix, Keys(ActivityWeights))
         == [Scored("B", 25), Scored("A", 25), Scored("D", 7)]
  {
    TiedKeys();
    TiedOrder();
    TiedGroups();
    PatentWins();
    WinnerSecond([Scored("A", 25), Scored("B", 25), Scored("D", 7)], TieMatrix, Keys(ActivityWeights),
      Scored("A", 25), Scored("B", 25), Scored("D", 7));
    WinnerSecondFixed([Scored("A", 25), Scored("B", 25), Scored("D", 7)], TieMatrix, Keys(ActivityWeights),
      Scored("A", 25), Scored("B", 25), Scored("D", 7));
  }

  /** With only the two tied students, the write-back as written runs past the end and grows the list. */
  lemma TieGrows()
    ensures TieWriteBack([Scored("A", 25), Scored("B", 25)], TieMatrix, Keys(ActivityWeights))
         == [Scored("A", 25), Scored("B", 25), Scored("A", 25)]
  {
    TiedKeys();
    TiedOrder();
    TiedGroups();
    PatentWins();
    WinnerSecondGrows([Scored("A", 25), Scored("B", 25)], TieMatrix, Keys(ActivityWeights), Scored("A", 25), Scored("B", 25));
  }
}
