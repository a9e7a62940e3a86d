/**
 * The list logic of the ranking page: the editable list of advanced filters,
 * the filtered view of the ranked students, and the three activities shown
 * beside each student.
 */
module RankingView {
  import opened Wrappers
  import opened Text
  import opened Sequences
  import opened Sorting
  import opened ActivityTables
  import opened Scoring
  import opened Ranking

  // ---------------------------------------------------------------------------
  // Filter list state

  datatype Operator = Gte | Lte | Eq

  /** `SearchFilter`; an empty `activity` is the unset choice. */
  datatype SearchFilter = SearchFilter(id: string, activity: string, operator: Operator, value: int)

  /** The page's filter state: search box, advanced filters, simple activity filter and its minimum. */
  datatype ViewState = ViewState(searchTerm: string, filters: seq<SearchFilter>, filterActivity: string, minCount: int)

  /** The filter the page starts with and returns to. */
  const DefaultFilter: SearchFilter := SearchFilter("1", "", Gte, 1)

  const InitialState: ViewState := ViewState("", [DefaultFilter], "", 1)

  /** `addFilter()`, where `now` is `Date.now()`: a new unset filter goes at the end. */
  function AddFilter(filters: seq<SearchFilter>, now: nat): (r: seq<SearchFilter>)
    ensures |r| == |filters| + 1 && r[..|filters|] == filters
    ensures r[|filters|] == SearchFilter(NatToString(now), "", Gte, 1)
  {
    filters + [SearchFilter(NatToString(now), "", Gte, 1)]
  }

  function IdIsNot(id: string): SearchFilter -> bool {
    (f: SearchFilter) => f.id != id
  }

  function IdIs(id: string): SearchFilter -> bool {
    (f: SearchFilter) => f.id == id
  }

  /**
   * `removeFilter(id)`: the last remaining filter is never removed. Otherwise every
   * filter with another id survives, each copy of it, and only those.
   */
  function RemoveFilter(filters: seq<SearchFilter>, id: string): (r: seq<SearchFilter>)
    ensures |filters| <= 1 ==> r == filters
    ensures |filters| > 1 ==> IsSubsequence(r, filters) && forall f :: f in r <==> f in filters && f.id != id
    ensures |filters| > 1 ==> |r| + |FilterBy(IdIs(id), filters)| == |filters|
  {
    if |filters| > 1 then
      FilterComplement(IdIsNot(id), IdIs(id), filters);
      FilterBy(IdIsNot(id), filters)
    else filters
  }

  /** A field assignment `{ ...filter, [field]: value }`. */
  datatype FilterUpdate = SetId(id: string) | SetActivity(activity: string) | SetOperator(operator: Operator) | SetValue(value: int)

  /** One filter with one field replaced; every other field is kept. */
  function Apply(f: SearchFilter, u: FilterUpdate): (r: SearchFilter)
    ensures r.id == (if u.SetId? then u.id else f.id)
    ensures r.activity == (if u.SetActivity? then u.activity else f.activity)
    ensures r.operator == (if u.SetOperator? then u.operator else f.operator)
    ensures r.value == (if u.SetValue? then u.value else f.value)
  {
    match u
    case SetId(x) => f.(id := x)
    case SetActivity(x) => f.(activity := x)
    case SetOperator(x) => f.(operator := x)
    case SetValue(x) => f.(value := x)
  }

  /** `updateFilter(id, field, value)`: the update goes to every filter with that id and to no other. */
  function UpdateFilter(filters: seq<SearchFilter>, id: string, u: FilterUpdate): (r: seq<SearchFilter>)
    ensures |r| == |filters|
    ensures forall i :: 0 <= i < |filters| ==> r[i] == if filters[i].id == id then Apply(filters[i], u) else filters[i]
  {
    seq(|filters|, i requires 0 <= i < |filters| => if filters[i].id == id then Apply(filters[i], u) else filters[i])
  }

  /** `clearAllFilters()`: the whole filter state goes back to the initial one. */
  function ClearAllFilters(st: ViewState): (r: ViewState)
    ensures r.searchTerm == "" && r.filterActivity == "" && r.minCount == 1
    ensures r.filters == [DefaultFilter]
  {
    InitialState
  }

  /** Removing the filter just added, under an id no other filter has, gives back the list. */
  lemma RemoveAdded(filters: seq<SearchFilter>, now: nat)
    requires |filters| >= 1
    requires forall f :: f in filters ==> f.id != NatToString(now)
    ensures RemoveFilter(AddFilter(filters, now), NatToString(now)) == filters
  {
    var id := NatToString(now);
    var added := AddFilter(filters, now);
    assert added == filters + [SearchFilter(id, "", Gte, 1)];
    if |added| > 1 {
      FilterConcat(IdIsNot(id), filters, [SearchFilter(id, "", Gte, 1)]);
      FilterAll(IdIsNot(id), filters);
      assert FilterBy(IdIsNot(id), [SearchFilter(id, "", Gte, 1)]) == [];
    }
  }

  /** An update for an id no filter has changes nothing. */
  lemma UpdateMissing(filters: seq<SearchFilter>, id: string, u: FilterUpdate)
    requires forall f :: f in filters ==> f.id != id
    ensures UpdateFilter(filters, id, u) == filters
  {
    var r := UpdateFilter(filters, id, u);
    forall i | 0 <= i < |filters| ensures r[i] == filters[i] {
      assert filters[i] in filters;
    }
  }

  // ---------------------------------------------------------------------------
  // filteredStudents

  /** The comparison an advanced filter makes. */
  predicate Holds(op: Operator, count: int, value: int) {
    match op
    case Gte => count >= value
    case Lte => count <= value
    case Eq => count == value
  }

  /** The weight index an advanced filter tests, or -1 when it is unset or names no weight. */
  function ActiveIndex(w: seq<Weight>, f: SearchFilter): (r: int)
    ensures -1 <= r < |w|
  {
    if f.activity == "" then -1 else IndexOf(Keys(w), f.activity)
  }

  /** Whether an advanced filter lets a student through; a missing count reads as 0. */
  predicate PassesFilter(m: seq<Entry>, w: seq<Weight>, f: SearchFilter, x: Ranked) {
    var idx := ActiveIndex(w, f);
    idx == -1 || Holds(f.operator, CountAt(Lookup(m, x.name).GetOr([]), idx), f.value)
  }

  function PassesAll(m: seq<Entry>, w: seq<Weight>, f: SearchFilter): Ranked -> bool {
    (x: Ranked) => PassesFilter(m, w, f, x)
  }

  /** The advanced filters applied one after the other, as the `for` loop does. */
  function Advanced(r: seq<Ranked>, m: seq<Entry>, w: seq<Weight>, fs: seq<SearchFilter>): seq<Ranked>
    decreases |fs|
  {
    if fs == [] then r
    else
      var prev := Advanced(r, m, w, fs[..|fs| - 1]);
      var f := fs[|fs| - 1];
      if ActiveIndex(w, f) == -1 then prev else FilterBy(PassesAll(m, w, f), prev)
  }

  function NameContains(term: string): Ranked -> bool {
    (x: Ranked) => Includes(Lower(x.name), Lower(term))
  }

  /** What `filterStudentsByActivity(matrix, activity, minCount)` returns. */
  function ActivityResult(m: seq<Entry>, w: seq<Weight>, activity: string, minCount: int): seq<Ranked> {
    var idx := IndexOf(Keys(w), activity);
    if idx == -1 then [] else RankingOf(FilterBy(AtLeast(idx, minCount), m), w)
  }

  /** The names of that result. */
  function ActivityMatches(m: seq<Entry>, w: seq<Weight>, activity: string, minCount: int): set<string> {
    set x | x in ActivityResult(m, w, activity, minCount) :: x.name
  }

  /** A name the simple activity filter lets through belongs to an entry with at least `minCount` of a known activity. */
  lemma ActivityMatchesCounts(m: seq<Entry>, w: seq<Weight>, activity: string, minCount: int, name: string)
    requires name in ActivityMatches(m, w, activity, minCount)
    ensures IndexOf(Keys(w), activity) != -1
    ensures exists e :: e in m && e.name == name && AtLeast(IndexOf(Keys(w), activity), minCount)(e)
  {
    var idx := IndexOf(Keys(w), activity);
    var r := ActivityResult(m, w, activity, minCount);
    var x :| x in r && x.name == name;
    assert idx != -1;
    var i :| 0 <= i < |r| && r[i] == x;
    KeptEntry(m, w, idx, minCount, r, i);
  }

  /** One kept student of `filterStudentsByActivity` and the entry it comes from. */
  lemma KeptEntry(m: seq<Entry>, w: seq<Weight>, idx: nat, minCount: int, r: seq<Ranked>, i: nat)
    requires r == RankingOf(FilterBy(AtLeast(idx, minCount), m), w) && i < |r|
    ensures exists e :: e in m && e.name == r[i].name && AtLeast(idx, minCount)(e)
  {
    ActivityFilterKeeps(m, w, idx, minCount);
    var e :| e in m && e.name == r[i].name && r[i].score == ScoreOf(e.counts, w) && idx < |e.counts| && e.counts[idx] >= minCount;
    assert AtLeast(idx, minCount)(e);
  }

  function NameIn(names: set<string>): Ranked -> bool {
    (x: Ranked) => x.name in names
  }

  /** The search box and the simple activity filter, before the advanced filters. */
  function SimpleStages(ranked: seq<Ranked>, m: seq<Entry>, w: seq<Weight>, st: ViewState): seq<Ranked> {
    var afterName := if st.searchTerm == "" then ranked else FilterBy(NameContains(st.searchTerm), ranked);
    if st.filterActivity == "" then afterName
    else FilterBy(NameIn(ActivityMatches(m, w, st.filterActivity, st.minCount)), afterName)
  }

  /** The list `filteredStudents` computes. */
  function Filtered(ranked: seq<Ranked>, m: seq<Entry>, w: seq<Weight>, st: ViewState): seq<Ranked> {
    Advanced(SimpleStages(ranked, m, w, st), m, w, st.filters)
  }

  /**
   * The `filteredStudents` memo. Every ranked name must be in the matrix: the
   * page ranks the same matrix it looks the names up in, and a missing name
   * would make an advanced filter throw.
   */
  method FilteredStudents(ranked: seq<Ranked>, m: seq<Entry>, w: seq<Weight>, st: ViewState) returns (result: seq<Ranked>)
    requires forall x :: x in ranked ==> Lookup(m, x.name).Some?
    ensures result == Filtered(ranked, m, w, st)
  {
    result := ranked;
    if st.searchTerm != "" {
      result := FilterBy(NameContains(st.searchTerm), result);
    }
    if st.filterActivity != "" {
      var filtered := FilterStudentsByActivity(m, w, st.filterActivity, st.minCount);
      assert filtered == ActivityResult(m, w, st.filterActivity, st.minCount);
      var filteredNames := set x | x in filtered :: x.name;
      result := FilterBy(NameIn(filteredNames), result);
    }
    ghost var base := result;
    for i := 0 to |st.filters|
      invariant result == Advanced(base, m, w, st.filters[..i])
    {
      var filter := st.filters[i];
      assert st.filters[..i + 1][..i] == st.filters[..i];
      if filter.activity != "" {
        var activityIndex := IndexOf(Keys(w), filter.activity);
        if activityIndex != -1 {
          result := FilterBy(PassesAll(m, w, filter), result);
        }
      }
    }
    assert st.filters[..|st.filters|] == st.filters;
  }

  /** The advanced filters keep an order-preserving part of their input. */
  lemma {:induction false} AdvancedSubsequence(r: seq<Ranked>, m: seq<Entry>, w: seq<Weight>, fs: seq<SearchFilter>)
    ensures IsSubsequence(Advanced(r, m, w, fs), r)
    decreases |fs|
  {
    if fs == [] {
      SubsequenceRefl(r);
    } else {
      var prev := Advanced(r, m, w, fs[..|fs| - 1]);
      AdvancedSubsequence(r, m, w, fs[..|fs| - 1]);
      var f := fs[|fs| - 1];
      if ActiveIndex(w, f) != -1 {
        SubsequenceTrans(FilterBy(PassesAll(m, w, f), prev), prev, r);
      }
    }
  }

  /** A student passes every filter of the list. */
  ghost predicate PassesEvery(m: seq<Entry>, w: seq<Weight>, fs: seq<SearchFilter>, x: Ranked) {
    forall i :: 0 <= i < |fs| ==> PassesFilter(m, w, fs[i], x)
  }

  /** Passing a longer list is passing its first part and its last filter. */
  lemma PassesEverySnoc(m: seq<Entry>, w: seq<Weight>, fs: seq<SearchFilter>, x: Ranked)
    requires fs != []
    ensures PassesEvery(m, w, fs, x) <==> PassesEvery(m, w, fs[..|fs| - 1], x) && PassesFilter(m, w, fs[|fs| - 1], x)
  {
    var init := fs[..|fs| - 1];
    assert forall i :: 0 <= i < |init| ==> init[i] == fs[i];
  }

  /** A student passes the advanced filters exactly when it passes each of them. */
  lemma {:induction false} AdvancedMembers(r: seq<Ranked>, m: seq<Entry>, w: seq<Weight>, fs: seq<SearchFilter>, x: Ranked)
    ensures x in Advanced(r, m, w, fs) <==> x in r && PassesEvery(m, w, fs, x)
    decreases |fs|
  {
    if fs != [] {
      var init, f := fs[..|fs| - 1], fs[|fs| - 1];
      AdvancedMembers(r, m, w, init, x);
      PassesEverySnoc(m, w, fs, x);
      var prev := Advanced(r, m, w, init);
      if ActiveIndex(w, f) == -1 {
        assert Advanced(r, m, w, fs) == prev;
        assert PassesFilter(m, w, f, x);
      } else {
        assert Advanced(r, m, w, fs) == FilterBy(PassesAll(m, w, f), prev);
        assert PassesAll(m, w, f)(x) == PassesFilter(m, w, f, x);
      }
    }
  }

  /** The view keeps the ranked entries as they are, in their order: nobody is re-ranked. */
  lemma FilteredSubsequence(ranked: seq<Ranked>, m: seq<Entry>, w: seq<Weight>, st: ViewState)
    ensures IsSubsequence(Filtered(ranked, m, w, st), ranked)
  {
    var afterName := if st.searchTerm == "" then ranked else FilterBy(NameContains(st.searchTerm), ranked);
    if st.searchTerm == "" {
      SubsequenceRefl(ranked);
    }
    var simple := SimpleStages(ranked, m, w, st);
    if st.filterActivity == "" {
      SubsequenceRefl(afterName);
    }
    SubsequenceTrans(simple, afterName, ranked);
    AdvancedSubsequence(simple, m, w, st.filters);
    SubsequenceTrans(Filtered(ranked, m, w, st), simple, ranked);
  }

  /** Whether the page shows a ranked student: an empty search term, activity or filter activity constrains nothing. */
  ghost predicate Shown(m: seq<Entry>, w: seq<Weight>, st: ViewState, x: Ranked) {
    && (st.searchTerm != "" ==> Includes(Lower(x.name), Lower(st.searchTerm)))
    && (st.filterActivity != "" ==> x.name in ActivityMatches(m, w, st.filterActivity, st.minCount))
    && PassesEvery(m, w, st.filters, x)
  }

  /** The view holds exactly the ranked students every active filter lets through. */
  lemma FilteredMembers(ranked: seq<Ranked>, m: seq<Entry>, w: seq<Weight>, st: ViewState, x: Ranked)
    ensures x in Filtered(ranked, m, w, st) <==> x in ranked && Shown(m, w, st, x)
  {
    AdvancedMembers(SimpleStages(ranked, m, w, st), m, w, st.filters, x);
  }

  /** After `clearAllFilters` the page shows every ranked student. */
  lemma ClearedShowsAll(ranked: seq<Ranked>, m: seq<Entry>, w: seq<Weight>, st: ViewState)
    ensures Filtered(ranked, m, w, ClearAllFilters(st)) == ranked
  {
    var fs := [DefaultFilter];
    assert SimpleStages(ranked, m, w, InitialState) == ranked;
    assert fs[..0] == [];
    assert Advanced(ranked, m, w, []) == ranked;
    assert ActiveIndex(w, fs[0]) == -1;
  }

  /** The page's own ranking satisfies the precondition of `FilteredStudents`. */
  lemma RankedNamesFound(m: seq<Entry>, w: seq<Weight>)
    ensures forall x :: x in RankingOf(m, w) ==> Lookup(m, x.name).Some?
  {
    var r := RankingOf(m, w);
    RankingFrom(m, w);
    forall x | x in r ensures Lookup(m, x.name).Some? {
      var i :| 0 <= i < |r| && r[i] == x;
      assert CameFrom(m, w, r[i].name, r[i].score);
      var e :| e in m && e.name == x.name && x.score == ScoreOf(e.counts, w);
    }
  }

  // ---------------------------------------------------------------------------
  // Top activities

  /** `{ count, index }`. */
  datatype Item = Item(count: int, index: nat)

  /** `{ name, count }` as displayed. */
  datatype TopActivity = TopActivity(name: string, count: int)

  /** `activities.map((count, index) => ({ count, index }))`. */
  function ItemsOf(counts: seq<int>): (r: seq<Item>)
    ensures |r| == |counts|
    ensures forall i :: 0 <= i < |counts| ==> r[i] == Item(counts[i], i)
  {
    seq(|counts|, i requires 0 <= i < |counts| => Item(counts[i], i))
  }

  function Positive(): Item -> bool {
    (x: Item) => x.count > 0
  }

  /** The comparator `(a, b) => b.count - a.count`, as "may stay ahead". */
  function CountLe(): (Item, Item) -> bool {
    (a: Item, b: Item) => b.count - a.count <= 0
  }

  function ItemIndex(x: Item): nat {
    x.index
  }

  /** The positive items sorted by count, then `slice(0, 3)`. */
  function TopItems(counts: seq<int>): seq<Item> {
    var s := SortedPositive(counts);
    s[..if |s| < 3 then |s| else 3]
  }

  /** `ACTIVITY_NAMES[index] || \`Activity ${index + 1}\``. */
  function Label(index: nat): string {
    if index < |ActivityNames| && ActivityNames[index] != "" then ActivityNames[index]
    else "Activity " + NatToString(index + 1)
  }

  /** The three activities shown beside a student. */
  function TopActivities(counts: seq<int>): (r: seq<TopActivity>)
    ensures |r| == |TopItems(counts)|
    ensures forall i :: 0 <= i < |r| ==> r[i] == TopActivity(Label(TopItems(counts)[i].index), TopItems(counts)[i].count)
  {
    var t := TopItems(counts);
    seq(|t|, i requires 0 <= i < |t| => TopActivity(Label(t[i].index), t[i].count))
  }

  /** The positive items sorted by count: the list `slice(0, 3)` cuts. */
  function SortedPositive(counts: seq<int>): seq<Item> {
    SortBy(CountLe(), FilterBy(Positive(), ItemsOf(counts)))
  }

  /** `a` stands at an earlier activity than `b`. */
  function IndexBefore(): (Item, Item) -> bool {
    (a: Item, b: Item) => a.index < b.index
  }

  /** `a` stands at the activity of `b` or at an earlier one. */
  function IndexNotAfter(): (Item, Item) -> bool {
    (a: Item, b: Item) => a.index <= b.index
  }

  /** The sorted items are exactly the activities with a positive count. */
  lemma SortedPositiveMembers(counts: seq<int>)
    ensures forall x :: x in SortedPositive(counts) <==> 0 <= x.index < |counts| && x.count == counts[x.index] && x.count > 0
  {
    var items := ItemsOf(counts);
    var p := FilterBy(Positive(), items);
    var s := SortedPositive(counts);
    forall x ensures x in s <==> x in p {
      assert x in s <==> x in multiset(s);
      assert x in p <==> x in multiset(p);
    }
    forall x ensures x in items <==> 0 <= x.index < |counts| && x.count == counts[x.index] {
      if 0 <= x.index < |counts| && x.count == counts[x.index] {
        assert items[x.index] == x;
      }
    }
  }

  /** The sorted items come by falling count. */
  lemma SortedPositiveFalling(counts: seq<int>)
    ensures forall i, j :: 0 <= i < j < |SortedPositive(counts)| ==> SortedPositive(counts)[i].count >= SortedPositive(counts)[j].count
  {
    assert TotalPreorder(CountLe());
    SortBySorted(CountLe(), FilterBy(Positive(), ItemsOf(counts)));
  }

  /** Items with equal counts keep the order of their activities. */
  lemma SortedPositiveTieOrder(counts: seq<int>)
    ensures forall i, j :: 0 <= i < j < |SortedPositive(counts)| && SortedPositive(counts)[i].count == SortedPositive(counts)[j].count ==>
      SortedPositive(counts)[i].index < SortedPositive(counts)[j].index
  {
    var items := ItemsOf(counts);
    var p := FilterBy(Positive(), items);
    var s := SortedPositive(counts);
    forall i, j | 0 <= i < j < |items| ensures IndexNotAfter()(items[i], items[j]) {
      assert items[i].index == i && items[j].index == j;
    }
    FilterKeepsRelation(Positive(), IndexNotAfter(), items);
    SortByKeepsOrder(CountLe(), IndexBefore(), p);
    assert DistinctBy(ItemIndex, items);
    FilterDistinct(ItemIndex, Positive(), items);
    SortByDistinct(CountLe(), ItemIndex, p);
    forall i, j | 0 <= i < j < |s| && s[i].count == s[j].count ensures s[i].index < s[j].index {
      assert CountLe()(s[j], s[i]);
      assert ItemIndex(s[i]) != ItemIndex(s[j]);
    }
  }

  /**
   * At most three activities, each with a positive count taken from the
   * student's row, by falling count and, at equal counts, by activity order;
   * an activity left out has no more than the third one shown.
   */
  lemma TopItemsSpec(counts: seq<int>)
    ensures var r := TopItems(counts);
      && |r| <= 3
      && (forall i :: 0 <= i < |r| ==> r[i].index < |counts| && counts[r[i].index] == r[i].count && r[i].count > 0)
      && (forall i, j :: 0 <= i < j < |r| ==> r[i].count >= r[j].count)
      && (forall i, j :: 0 <= i < j < |r| && r[i].count == r[j].count ==> r[i].index < r[j].index)
      && (forall k :: 0 <= k < |counts| && counts[k] > 0 && (forall i :: 0 <= i < |r| ==> r[i].index != k) ==>
            |r| == 3 && counts[k] <= r[2].count)
  {
    SortedPositiveMembers(counts);
    SortedPositiveFalling(counts);
    SortedPositiveTieOrder(counts);
    var s := SortedPositive(counts);
    var r := TopItems(counts);
    assert forall i :: 0 <= i < |r| ==> r[i] == s[i];
    forall i | 0 <= i < |r| ensures r[i].index < |counts| && counts[r[i].index] == r[i].count && r[i].count > 0 {
      assert s[i] in s;
    }
    forall k | 0 <= k < |counts| && counts[k] > 0 && (forall i :: 0 <= i < |r| ==> r[i].index != k)
      ensures |r| == 3 && counts[k] <= r[2].count
    {
      var x := Item(counts[k], k);
      assert x in s;
      var n :| 0 <= n < |s| && s[n] == x;
      assert x !in r;
      assert r == s[..|r|];
    }
  }
}
