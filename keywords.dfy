/**
 * `keywordSimilarity(query, content)` of the search engine: the share of the
 * query's long terms that occur among the content's terms. The ratio is kept
 * as an exact pair of counts; the division is floating point in the program.
 */
module Keywords {
  import opened Text
  import opened Sequences

  /** `matches / total`, read as `0` when there are no query terms. */
  datatype Fraction = Fraction(matches: nat, total: nat) {
    function Value(): real {
      if total == 0 then 0.0 else matches as real / total as real
    }
  }

  /** `term.length > 2`. */
  function IsLongTerm(): string -> bool {
    (t: string) => |t| > 2
  }

  /** The query terms: the long pieces of the lower-cased query split on whitespace runs. */
  function QueryTerms(query: string): seq<string> {
    FilterBy(IsLongTerm(), SplitWs(Lower(query)))
  }

  /** The content terms: the lower-cased content split on whitespace runs. */
  function ContentTerms(content: string): seq<string> {
    SplitWs(Lower(content))
  }

  /** `contentTerms.includes(term)`. */
  function FoundIn(content: seq<string>): string -> bool {
    (t: string) => t in content
  }

  /** The number of query terms, counted with repetition, found among the content terms. */
  function Matches(q: seq<string>, c: seq<string>): nat {
    |FilterBy(FoundIn(c), q)|
  }

  /** The score the program computes, as a pair of counts. */
  function Similarity(query: string, content: string): Fraction {
    var q := QueryTerms(query);
    if |q| == 0 then Fraction(0, 0) else Fraction(Matches(q, ContentTerms(content)), |q|)
  }

  /** `keywordSimilarity(query, content)`: a count of matches over the query terms. */
  method KeywordSimilarity(query: string, content: string) returns (r: Fraction)
    ensures r == Similarity(query, content)
  {
    var queryTerms := FilterBy(IsLongTerm(), SplitWs(Lower(query)));
    var contentTerms := SplitWs(Lower(content));
    if |queryTerms| == 0 {
      return Fraction(0, 0);
    }
    var matches := 0;
    for i := 0 to |queryTerms|
      invariant matches == Matches(queryTerms[..i], contentTerms)
    {
      FilterSnoc(FoundIn(contentTerms), queryTerms, i);
      if queryTerms[i] in contentTerms {
        matches := matches + 1;
      }
    }
    assert queryTerms[..|queryTerms|] == queryTerms;
    r := Fraction(matches, |queryTerms|);
  }

  /** Every query term is longer than two characters, has no whitespace and no ASCII upper case. */
  lemma QueryTermsShape(query: string)
    ensures forall t :: t in QueryTerms(query) ==>
      |t| > 2 && forall c :: c in t ==> !IsJsSpace(c) && !('A' <= c <= 'Z')
  {
    var pieces := SplitWs(Lower(query));
    forall t | t in QueryTerms(query) ensures |t| > 2 && forall c :: c in t ==> !IsJsSpace(c) && !('A' <= c <= 'Z') {
      assert t in pieces && IsLongTerm()(t);
      PiecesAreLower(Lower(query), t);
    }
  }

  /** The pieces of a lower-cased string are lower-cased. */
  lemma PiecesAreLower(s: string, t: string)
    requires forall c :: c in s ==> !('A' <= c <= 'Z')
    requires t in SplitWs(s)
    ensures forall c :: c in t ==> !('A' <= c <= 'Z')
    decreases |s|
  {
    var k := FirstSpace(s);
    if k < |s| && t != s[..k] {
      var rest := SkipSpaces(s[k..]);
      assert t in SplitWs(rest);
      assert forall c :: c in s[k..] ==> c in s;
      SkipSpacesSuffix(s[k..]);
      PiecesAreLower(rest, t);
    } else {
      assert t == s[..k] || t == s;
      assert forall c :: c in s[..k] ==> c in s;
    }
  }

  /** `SkipSpaces` returns a suffix. */
  lemma {:induction false} SkipSpacesSuffix(s: string)
    ensures forall c :: c in SkipSpaces(s) ==> c in s
    decreases |s|
  {
    if 0 < |s| && IsJsSpace(s[0]) {
      SkipSpacesSuffix(s[1..]);
      assert forall c :: c in s[1..] ==> c in s;
    }
  }

  /** A count of matches no larger than the count of terms is a ratio between 0 and 1. */
  lemma FractionInUnit(r: Fraction)
    requires r.matches <= r.total
    ensures 0.0 <= r.Value() <= 1.0
    ensures r.Value() == 1.0 <==> 0 < r.total && r.matches == r.total
  {
    if r.total > 0 {
      var v := r.Value();
      assert v * r.total as real == r.matches as real;
      if r.matches < r.total {
        assert v < 1.0;
      }
    }
  }

  /** The score lies between 0 and 1, and it is 0 when the query has no term. */
  lemma SimilarityInUnit(query: string, content: string)
    ensures var r := Similarity(query, content);
      r.matches <= r.total && 0.0 <= r.Value() <= 1.0
    ensures |QueryTerms(query)| == 0 ==> Similarity(query, content).Value() == 0.0
  {
    FractionInUnit(Similarity(query, content));
  }

  /** A term counts once per occurrence in the query, and only when the content has it. */
  lemma MatchesSnoc(q: seq<string>, t: string, c: seq<string>)
    ensures Matches(q + [t], c) == Matches(q, c) + (if t in c then 1 else 0)
  {
    FilterConcat(FoundIn(c), q, [t]);
  }

  /** Every query term is a match exactly when the count of matches is the number of terms. */
  lemma {:induction false} MatchesAll(q: seq<string>, c: seq<string>)
    ensures Matches(q, c) == |q| <==> forall t :: t in q ==> t in c
  {
    if q != [] {
      MatchesAll(q[1..], c);
      assert forall t :: t in q ==> t == q[0] || t in q[1..];
      assert forall t :: t in q[1..] ==> t in q;
      assert |FilterBy(FoundIn(c), q[1..])| <= |q[1..]|;
    }
  }

  /** No query term is a match exactly when the count of matches is 0. */
  lemma {:induction false} MatchesNone(q: seq<string>, c: seq<string>)
    ensures Matches(q, c) == 0 <==> forall t :: t in q ==> t !in c
  {
    if q != [] {
      MatchesNone(q[1..], c);
      assert forall t :: t in q ==> t == q[0] || t in q[1..];
      assert forall t :: t in q[1..] ==> t in q;
    }
  }

  /** The score is 1 exactly when there are query terms and all of them occur in the content. */
  lemma FullScore(query: string, content: string)
    ensures Similarity(query, content).Value() == 1.0 <==>
      |QueryTerms(query)| > 0 && forall t :: t in QueryTerms(query) ==> t in ContentTerms(content)
  {
    MatchesAll(QueryTerms(query), ContentTerms(content));
    FractionInUnit(Similarity(query, content));
  }
}
