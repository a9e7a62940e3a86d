/**
 * The string operations the core relies on, over `seq<char>`.
 * Case mapping is ASCII only; JavaScript's full Unicode mapping is not modelled.
 */
module Text {

  /** `toLowerCase` of one character, ASCII only. */
  function LowerChar(c: char): char {
    if 'A' <= c <= 'Z' then (c as int + 32) as char else c
  }

  /** `toUpperCase` of one character, ASCII only. */
  function UpperChar(c: char): char {
    if 'a' <= c <= 'z' then (c as int - 32) as char else c
  }

  function Lower(s: string): string {
    seq(|s|, i requires 0 <= i < |s| => LowerChar(s[i]))
  }

  function Upper(s: string): string {
    seq(|s|, i requires 0 <= i < |s| => UpperChar(s[i]))
  }

  /** `t` occurs in `s` starting at position `i`. */
  predicate OccursAt(s: string, t: string, i: int) {
    0 <= i && i + |t| <= |s| && s[i..i + |t|] == t
  }

  /** `s.includes(t)`: a left-to-right substring search. */
  predicate Includes(s: string, t: string)
    decreases |s|
  {
    |t| <= |s| && (s[..|t|] == t || (0 < |s| && Includes(s[1..], t)))
  }

  /** The search succeeds exactly when `t` occurs somewhere in `s`. */
  lemma {:induction false} IncludesIff(s: string, t: string)
    ensures Includes(s, t) <==> exists i :: OccursAt(s, t, i)
    decreases |s|
  {
    if Includes(s, t) && s[..|t|] != t {
      IncludesIff(s[1..], t);
      var i :| OccursAt(s[1..], t, i);
      assert s[1..][i..i + |t|] == s[i + 1..i + 1 + |t|];
      assert OccursAt(s, t, i + 1);
    } else if Includes(s, t) {
      assert OccursAt(s, t, 0);
    }
    if exists i :: OccursAt(s, t, i) {
      var i :| OccursAt(s, t, i);
      if i > 0 && s[..|t|] != t {
        assert s[1..][i - 1..i - 1 + |t|] == s[i..i + |t|];
        assert OccursAt(s[1..], t, i - 1);
        IncludesIff(s[1..], t);
      }
    }
  }

  /** Every string includes the empty string, so an empty search term keeps everything. */
  lemma IncludesEmpty(s: string)
    ensures Includes(s, "")
  {
  }

  /** The characters that the regular expression class `\s` matches. */
  predicate IsJsSpace(c: char) {
    || c == ' ' || c == '\t' || c == '\n' || c == '\r' || c == '\U{000B}' || c == '\U{000C}'
    || c == '\U{00A0}' || c == '\U{1680}' || ('\U{2000}' <= c <= '\U{200A}')
    || c == '\U{2028}' || c == '\U{2029}' || c == '\U{202F}' || c == '\U{205F}'
    || c == '\U{3000}' || c == '\U{FEFF}'
  }

  /** The position of the first character of `s` that satisfies `IsJsSpace`, or `|s|`. */
  function FirstSpace(s: string): (k: nat)
    ensures k <= |s|
    ensures forall j :: 0 <= j < k ==> !IsJsSpace(s[j])
    ensures k < |s| ==> IsJsSpace(s[k])
  {
    if s == [] then 0
    else if IsJsSpace(s[0]) then 0
    else 1 + FirstSpace(s[1..])
  }

  /** `s` without its leading run of whitespace. */
  function SkipSpaces(s: string): (r: string)
    ensures |r| <= |s|
    ensures 0 < |s| && IsJsSpace(s[0]) ==> |r| < |s|
    ensures 0 < |r| ==> !IsJsSpace(r[0])
  {
    if 0 < |s| && IsJsSpace(s[0]) then SkipSpaces(s[1..]) else s
  }

  /**
   * `s.split(/\s+/)`: the pieces between maximal runs of whitespace. A leading
   * or trailing run yields an empty first or last piece, and `""` yields `[""]`.
   */
  function SplitWs(s: string): (r: seq<string>)
    ensures 1 <= |r|
    ensures forall t, c :: t in r && c in t ==> !IsJsSpace(c)
    decreases |s|
  {
    var k := FirstSpace(s);
    if k == |s| then [s]
    else [s[..k]] + SplitWs(SkipSpaces(s[k..]))
  }

  /**
   * The whitespace runs `split(/\s+/)` consumes, in order: one non-empty run
   * of whitespace between each two neighbouring pieces.
   */
  function Gaps(s: string): (g: seq<string>)
    ensures |g| + 1 == |SplitWs(s)|
    ensures forall t :: t in g ==> 0 < |t| && AllSpace(t)
    decreases |s|
  {
    var k := FirstSpace(s);
    if k == |s| then []
    else
      var tail := s[k..];
      var rest := SkipSpaces(tail);
      SkipSpacesSplit(tail);
      var gap := tail[..|tail| - |rest|];
      assert tail[0] == s[k];
      [gap] + Gaps(rest)
  }

  lemma ConsSpaces(c: char, run: string)
    requires IsJsSpace(c) && AllSpace(run)
    ensures AllSpace([c] + run)
  {
    forall j | 0 <= j < |run| + 1 ensures IsJsSpace(([c] + run)[j]) {
      if 0 < j {
        assert ([c] + run)[j] == run[j - 1];
      }
    }
  }

  /** `SkipSpaces` drops a non-empty run of whitespace from a string that starts with one. */
  lemma {:induction false} SkipSpacesSplit(s: string)
    ensures var r := SkipSpaces(s); |r| <= |s| && s == s[..|s| - |r|] + r && AllSpace(s[..|s| - |r|])
    ensures 0 < |s| && IsJsSpace(s[0]) ==> |SkipSpaces(s)| < |s|
    decreases |s|
  {
    if 0 < |s| && IsJsSpace(s[0]) {
      var t := s[1..];
      SkipSpacesSplit(t);
      var r := SkipSpaces(t);
      assert r == SkipSpaces(s);
      var run := t[..|t| - |r|];
      assert s[..|s| - |r|] == [s[0]] + run;
      ConsSpaces(s[0], run);
    }
  }

  /** Every character of `t` is whitespace. */
  predicate AllSpace(t: string) {
    forall j :: 0 <= j < |t| ==> IsJsSpace(t[j])
  }

  /** Pieces and the separators between them, put back together. */
  function Interleave(pieces: seq<string>, gaps: seq<string>): string
    requires |pieces| == |gaps| + 1
    decreases |gaps|
  {
    if gaps == [] then pieces[0] else pieces[0] + gaps[0] + Interleave(pieces[1..], gaps[1..])
  }

  /** Splitting on whitespace loses nothing: the pieces with the runs between them give back the input. */
  lemma {:induction false} SplitWsRoundTrip(s: string)
    ensures Interleave(SplitWs(s), Gaps(s)) == s
    decreases |s|
  {
    var k := FirstSpace(s);
    if k < |s| {
      var tail := s[k..];
      var rest := SkipSpaces(tail);
      SplitWsRoundTrip(rest);
      var piece, gap := SplitWsStep(s);
      InterleaveCons(piece, gap, SplitWs(rest), Gaps(rest), s);
    }
  }

  /** One step of `split(/\s+/)`: a first piece, then a run of whitespace, then the rest. */
  lemma SplitWsStep(s: string) returns (piece: string, gap: string)
    requires FirstSpace(s) < |s|
    ensures var rest := SkipSpaces(s[FirstSpace(s)..]);
      && SplitWs(s) == [piece] + SplitWs(rest)
      && Gaps(s) == [gap] + Gaps(rest)
      && s == piece + gap + rest
  {
    var k := FirstSpace(s);
    var tail := s[k..];
    var rest := SkipSpaces(tail);
    SkipSpacesSplit(tail);
    piece, gap := s[..k], tail[..|tail| - |rest|];
    assert s == piece + tail;
    Regroup(s, piece, tail, gap, rest);
  }

  lemma Regroup(s: string, a: string, t: string, b: string, c: string)
    requires s == a + t && t == b + c
    ensures s == a + b + c
  {
    assert a + (b + c) == (a + b) + c;
  }

  lemma InterleaveCons(p: string, g: string, ps: seq<string>, gs: seq<string>, s: string)
    requires |ps| == |gs| + 1
    requires s == p + g + Interleave(ps, gs)
    ensures Interleave([p] + ps, [g] + gs) == s
  {
    assert ([p] + ps)[1..] == ps && ([g] + gs)[1..] == gs;
  }

  /**
   * The runs are maximal: every piece but the first and the last is non-empty,
   * so no two runs of whitespace stand next to each other.
   */
  lemma {:induction false} SplitWsInterior(s: string)
    ensures forall i :: 0 < i < |SplitWs(s)| - 1 ==> SplitWs(s)[i] != ""
    decreases |s|
  {
    var k := FirstSpace(s);
    if k < |s| {
      var rest := SkipSpaces(s[k..]);
      SplitWsInterior(rest);
      var r, r' := SplitWs(s), SplitWs(rest);
      assert r[1..] == r';
      if 2 < |r| {
        assert FirstSpace(rest) < |rest|;
        assert r'[0] == rest[..FirstSpace(rest)];
      }
    }
  }

  /** The position of the first `sep` in `s`, or `|s|`. */
  function FirstOf(s: string, sep: char): (k: nat)
    ensures k <= |s|
    ensures forall j :: 0 <= j < k ==> s[j] != sep
    ensures k < |s| ==> s[k] == sep
  {
    if s == [] then 0
    else if s[0] == sep then 0
    else 1 + FirstOf(s[1..], sep)
  }

  /** `s.split(sep)` for a one-character separator: every occurrence splits, so doubled separators yield empty pieces. */
  function SplitOn(s: string, sep: char): (r: seq<string>)
    ensures 1 <= |r|
    ensures forall t :: t in r ==> sep !in t
    decreases |s|
  {
    var k := FirstOf(s, sep);
    if k == |s| then [s]
    else [s[..k]] + SplitOn(s[k + 1..], sep)
  }

  /** `parts.join(sep)`: the parts with one `sep` between each two neighbours. */
  function JoinOn(parts: seq<string>, sep: char): string
    decreases |parts|
  {
    if parts == [] then ""
    else if |parts| == 1 then parts[0]
    else parts[0] + [sep] + JoinOn(parts[1..], sep)
  }

  /** Splitting on `sep` and joining with `sep` gives back the input. */
  lemma {:induction false} SplitOnRoundTrip(s: string, sep: char)
    ensures JoinOn(SplitOn(s, sep), sep) == s
    decreases |s|
  {
    var k := FirstOf(s, sep);
    if k < |s| {
      SplitOnRoundTrip(s[k + 1..], sep);
      SplitOnStep(s, sep);
      JoinCons(s[..k], SplitOn(s[k + 1..], sep), sep);
    }
  }

  /** Joining parts free of `sep` and splitting again gives back the parts. */
  lemma {:induction false} JoinOnRoundTrip(parts: seq<string>, sep: char)
    requires 1 <= |parts|
    requires forall t :: t in parts ==> sep !in t
    ensures SplitOn(JoinOn(parts, sep), sep) == parts
    decreases |parts|
  {
    if 1 < |parts| {
      var p, ps := parts[0], parts[1..];
      assert parts == [p] + ps;
      JoinOnRoundTrip(ps, sep);
      JoinCons(p, ps, sep);
      var s := JoinOn(parts, sep);
      JoinSlices(s, p, sep, JoinOn(ps, sep));
      FirstOfPrefix(p, sep, s);
      SplitOnStep(s, sep);
    } else {
      FirstOfPrefix(parts[0], sep, parts[0]);
    }
  }

  /** One step of `split(sep)`: the first piece, the separator, then the rest. */
  lemma SplitOnStep(s: string, sep: char)
    requires FirstOf(s, sep) < |s|
    ensures var k := FirstOf(s, sep);
      && SplitOn(s, sep) == [s[..k]] + SplitOn(s[k + 1..], sep)
      && s == s[..k] + [sep] + s[k + 1..]
  {
    var k := FirstOf(s, sep);
    SplitAround(s, k);
  }

  lemma SplitAround<T>(s: seq<T>, k: nat)
    requires k < |s|
    ensures s == s[..k] + [s[k]] + s[k + 1..]
  {
    assert s[..k] + s[k..] == s;
    assert s[k..] == [s[k]] + s[k + 1..];
  }

  lemma JoinCons(p: string, ps: seq<string>, sep: char)
    requires ps != []
    ensures JoinOn([p] + ps, sep) == p + [sep] + JoinOn(ps, sep)
  {
    assert ([p] + ps)[1..] == ps;
  }

  lemma JoinSlices(s: string, p: string, sep: char, t: string)
    requires s == p + [sep] + t
    ensures p <= s && s[|p|] == sep && s[..|p|] == p && s[|p| + 1..] == t
  {
  }

  lemma {:induction false} FirstOfPrefix(p: string, sep: char, s: string)
    requires sep !in p
    requires p <= s
    requires |p| < |s| ==> s[|p|] == sep
    ensures FirstOf(s, sep) == |p|
    decreases |p|
  {
    if p != [] {
      assert s[0] == p[0];
      FirstOfPrefix(p[1..], sep, s[1..]);
    }
  }

  function DigitChar(d: int): char
    requires 0 <= d < 10
  {
    ('0' as int + d) as char
  }

  /** Decimal rendering of a natural number, as a template literal prints it. */
  function NatToString(n: nat): (r: string)
    ensures 1 <= |r|
    ensures forall c :: c in r ==> '0' <= c <= '9'
  {
    if n < 10 then [DigitChar(n)] else NatToString(n / 10) + [DigitChar(n % 10)]
  }

  /** The number a string of decimal digits denotes, most significant first. */
  function DigitsValue(ds: string): int
    decreases |ds|
  {
    if ds == [] then 0 else DigitsValue(ds[..|ds| - 1]) * 10 + (ds[|ds| - 1] as int - '0' as int)
  }

  /** The rendering denotes `n` and has no leading zero except for `0` itself. */
  lemma {:induction false} NatToStringRoundTrip(n: nat)
    ensures DigitsValue(NatToString(n)) == n
    ensures NatToString(n)[0] == '0' ==> n == 0
  {
    if 10 <= n {
      NatToStringRoundTrip(n / 10);
      var r := NatToString(n);
      assert r[..|r| - 1] == NatToString(n / 10);
      assert r[0] == NatToString(n / 10)[0];
    }
  }

  /** Decimal rendering of an integer, with a leading `-` when negative. */
  function IntToString(n: int): string {
    if n < 0 then "-" + NatToString(-n) else NatToString(n)
  }
}
