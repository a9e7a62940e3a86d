/**
 * `getInitials(name)` of the student profile card: the first character of every
 * space-separated part of the name, joined and upper-cased.
 */
module ProfileCard {
  import opened Text
  import opened Sequences

  /** `n[0]` as `join('')` renders it: an empty part gives `undefined`, which joins as the empty string. */
  function FirstChar(part: string): (r: string)
    ensures |r| == if part == "" then 0 else 1
    ensures part != "" ==> r[0] == part[0]
  {
    if part == "" then "" else [part[0]]
  }

  /** `parts.map(n => n[0]).join('')`. */
  function JoinFirsts(parts: seq<string>): string {
    if parts == [] then "" else FirstChar(parts[0]) + JoinFirsts(parts[1..])
  }

  /** `getInitials(name)`. */
  function GetInitials(name: string): string {
    Upper(JoinFirsts(SplitOn(name, ' ')))
  }

  function NonEmpty(): string -> bool {
    (t: string) => t != ""
  }

  /** The initials of the parts are the first characters of the non-empty parts, in order. */
  lemma {:induction false} JoinFirstsNonEmpty(parts: seq<string>)
    ensures |JoinFirsts(parts)| == |FilterBy(NonEmpty(), parts)|
    ensures forall i :: 0 <= i < |FilterBy(NonEmpty(), parts)| ==>
      FilterBy(NonEmpty(), parts)[i] != "" && JoinFirsts(parts)[i] == FilterBy(NonEmpty(), parts)[i][0]
  {
    if parts != [] {
      var p, rest := parts[0], parts[1..];
      JoinFirstsNonEmpty(rest);
      var ne, ne' := FilterBy(NonEmpty(), parts), FilterBy(NonEmpty(), rest);
      var j, j' := JoinFirsts(parts), JoinFirsts(rest);
      if p == "" {
        assert ne == ne' && j == j';
      } else {
        assert ne == [p] + ne' && j == [p[0]] + j';
        forall i | 0 <= i < |ne| ensures ne[i] != "" && j[i] == ne[i][0] {
          if i > 0 {
            assert ne[i] == ne'[i - 1] && j[i] == j'[i - 1];
          }
        }
      }
    }
  }

  /**
   * One upper-cased character per non-empty part of the name split at single
   * spaces: leading, trailing and doubled spaces add nothing.
   */
  lemma GetInitialsSpec(name: string)
    ensures var ne := FilterBy(NonEmpty(), SplitOn(name, ' '));
      && |GetInitials(name)| == |ne|
      && forall i :: 0 <= i < |ne| ==> ne[i] != "" && GetInitials(name)[i] == UpperChar(ne[i][0])
  {
    JoinFirstsNonEmpty(SplitOn(name, ' '));
  }

  /** A name without spaces gives its own first character, upper-cased; the empty name gives nothing. */
  lemma GetInitialsOneWord(name: string)
    requires ' ' !in name
    ensures GetInitials(name) == if name == "" then "" else [UpperChar(name[0])]
  {
    var k := FirstOf(name, ' ');
    assert forall j :: 0 <= j < |name| ==> name[j] != ' ';
    assert SplitOn(name, ' ') == [name];
    assert JoinFirsts([name]) == FirstChar(name) + JoinFirsts([]);
  }
}
