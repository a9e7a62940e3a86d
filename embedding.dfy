/**
 * The integer part of the mock embedding `generateEmbedding(text)`: a 32-bit
 * string hash per word and the slot each word's hash lands in. The program
 * stores `(hash % 1000) / 1000`; the model keeps the integer numerator.
 */
module Embedding {
  import opened Text

  /** The length of every embedding vector. */
  const Dim: nat := 384

  const TwoTo32: int := 0x1_0000_0000
  const TwoTo31: int := 0x8000_0000

  /** ECMAScript `ToInt32`: the signed 32-bit integer congruent to `x` modulo 2^32. */
  function ToInt32(x: int): (r: int)
    ensures -TwoTo31 <= r < TwoTo31
    ensures (x - r) % TwoTo32 == 0
  {
    var m := x % TwoTo32;
    if m >= TwoTo31 then m - TwoTo32 else m
  }

  /** Integers congruent modulo 2^32 have the same `ToInt32`. */
  lemma ToInt32Congruent(x: int, y: int)
    requires (x - y) % TwoTo32 == 0
    ensures ToInt32(x) == ToInt32(y)
  {
    var k := (x - y) / TwoTo32;
    assert x == y + TwoTo32 * k;
    assert x % TwoTo32 == y % TwoTo32;
  }

  /** `ToInt32` of a signed 32-bit integer is that integer. */
  lemma ToInt32Small(x: int)
    requires -TwoTo31 <= x < TwoTo31
    ensures ToInt32(x) == x
  {
  }

  /** `h << 5` on a number: both the operand and the result are 32-bit signed. */
  function ShiftLeft5(h: int): int {
    ToInt32(ToInt32(h) * 32)
  }

  /** `((hash << 5) - hash + c) & 0xffffffff`: `& 0xffffffff` is `ToInt32` of the other operand. */
  function HashStep(h: int, c: char): int {
    ToInt32(ShiftLeft5(h) - h + c as int)
  }

  /** The hash of a word after its characters have been folded in from left to right. */
  function WordHash(w: string): int
    decreases |w|
  {
    if w == [] then 0 else HashStep(WordHash(w[..|w| - 1]), w[|w| - 1])
  }

  /** The same hash as an unbounded polynomial in 31 over the character codes. */
  function Polynomial(w: string): int
    decreases |w|
  {
    if w == [] then 0 else 31 * Polynomial(w[..|w| - 1]) + w[|w| - 1] as int
  }

  /** Each step is `31 * h + c` reduced to 32 bits, once `h` is itself 32-bit. */
  lemma HashStepIs31(h: int, c: char)
    requires -TwoTo31 <= h < TwoTo31
    ensures HashStep(h, c) == ToInt32(31 * h + c as int)
  {
    ToInt32Small(h);
    var s := ToInt32(h * 32);
    assert (h * 32 - s) % TwoTo32 == 0;
    ToInt32Congruent(s - h + c as int, 31 * h + c as int);
  }

  /** The word hash is the polynomial hash `sum of c[i] * 31^(n-1-i)` modulo 2^32, read as signed. */
  lemma {:induction false} WordHashIsPolynomial(w: string)
    ensures WordHash(w) == ToInt32(Polynomial(w))
    decreases |w|
  {
    if w != [] {
      var p, c := w[..|w| - 1], w[|w| - 1];
      WordHashIsPolynomial(p);
      var h := WordHash(p);
      HashStepIs31(h, c);
      StepCongruent(Polynomial(p), h, c as int);
      ToInt32Congruent(31 * Polynomial(p) + c as int, 31 * h + c as int);
    }
  }

  /** One step `31 * x + c` keeps congruence modulo 2^32. */
  lemma StepCongruent(x: int, y: int, c: int)
    requires (x - y) % TwoTo32 == 0
    ensures (31 * x + c - (31 * y + c)) % TwoTo32 == 0
  {
    var k := (x - y) / TwoTo32;
    assert x - y == TwoTo32 * k;
    assert 31 * x + c - (31 * y + c) == TwoTo32 * (31 * k);
  }

  /** `hash % 1000` in JavaScript: the remainder takes the sign of the dividend. */
  function Rem1000(h: int): (r: int)
    ensures -1000 < r < 1000
    ensures h >= 0 ==> r >= 0
    ensures h < 0 ==> r <= 0
    ensures (h - r) % 1000 == 0
  {
    if h >= 0 then h % 1000 else -((-h) % 1000)
  }

  /** The value stored for a word: the numerator of `(hash % 1000) / 1000`. */
  function Slot(w: string): int {
    Rem1000(WordHash(w))
  }

  /** The last word position below `n` that lands in slot `k`, or -1 when there is none. */
  function Latest(n: nat, k: nat): (j: int)
    requires k < Dim
    ensures j == -1 <==> n <= k
    ensures j >= 0 ==> j < n && j % Dim == k && n <= j + Dim
  {
    if k < n then k + Dim * ((n - 1 - k) / Dim) else -1
  }

  /** One more word moves the latest position of its own slot only. */
  lemma LatestStep(i: nat, k: nat)
    requires k < Dim
    ensures Latest(i + 1, k) == if i % Dim == k then i else Latest(i, k)
  {
    var j := Latest(i + 1, k);
    if i % Dim == k {
      assert i < j + Dim && j <= i;
      assert (i - j) % Dim == 0;
    } else if k < i {
      var j' := Latest(i, k);
      assert j != i;
      assert j < i && i <= j + Dim;
      assert j' <= j;
      assert (j - j') % Dim == 0;
    }
  }

  /** What slot `k` holds after the first `n` words of `words`. */
  function SlotAfter(words: seq<string>, n: nat, k: nat): int
    requires n <= |words| && k < Dim
  {
    var j := Latest(n, k);
    if j == -1 then 0 else Slot(words[j])
  }

  /** The words of the text: its lower-cased pieces between whitespace runs. */
  function Words(text: string): seq<string> {
    SplitWs(Lower(text))
  }

  /**
   * `generateEmbedding(text)`: each slot holds the value of the last word whose
   * position is congruent to it modulo 384, and slots no word reaches stay 0.
   */
  method GenerateEmbedding(text: string) returns (embedding: array<int>)
    ensures fresh(embedding) && embedding.Length == Dim
    ensures forall k :: 0 <= k < Dim ==> embedding[k] == SlotAfter(Words(text), |Words(text)|, k)
    ensures forall k :: 0 <= k < Dim ==> -1000 < embedding[k] < 1000
  {
    var words := SplitWs(Lower(text));
    embedding := new int[Dim](_ => 0);
    for index := 0 to |words|
      invariant embedding.Length == Dim
      invariant forall k :: 0 <= k < Dim ==> embedding[k] == SlotAfter(words, index, k)
    {
      var hash := HashWord(words[index]);
      forall k | 0 <= k < Dim {
        LatestStep(index, k);
      }
      embedding[index % Dim] := Rem1000(hash);
    }
  }

  /** The inner loop of `generateEmbedding`: the hash of one word. */
  method HashWord(word: string) returns (hash: int)
    ensures hash == WordHash(word)
  {
    hash := 0;
    for i := 0 to |word|
      invariant hash == WordHash(word[..i])
    {
      assert word[..i + 1][..i] == word[..i];
      hash := HashStep(hash, word[i]);
    }
    assert word[..|word|] == word;
  }

  /** With fewer than 384 words, slot `k` holds the `k`-th word's value and the rest are 0. */
  lemma ShortText(words: seq<string>, k: nat)
    requires |words| <= Dim && k < Dim
    ensures SlotAfter(words, |words|, k) == if k < |words| then Slot(words[k]) else 0
  {
  }
}
