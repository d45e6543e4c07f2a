/**
  The in-place shuffle of randln's line records.

  The random device is replaced by a caller-supplied sequence of words,
  one consumed per step. The loop picks each partner from the positions
  strictly after the current one, so the permutation it builds is
  Sattolo's cyclic shuffle rather than Fisher-Yates: no position is ever
  swapped with itself.
 */
module Shuffler {
  import opened Segments

  /** One draw from the random device: a 64-bit size_t. */
  const WordLimit: nat := 0x1_0000_0000_0000_0000
  type Word = w: nat | w < WordLimit

  /**
    random_line: the index that `word mod count` selects in the sub-array of
    `count` records starting at `base`.
   */
  function RandomLine(base: nat, count: nat, word: Word): (r: nat)
    requires count > 0
    ensures base <= r < base + count
  {
    base + word % count
  }

  /** Every index of the sub-array is selected by some word. */
  lemma RandomLineReachesEvery(base: nat, count: nat, k: Word)
    requires k < count
    ensures RandomLine(base, count, k) == base + k
  {
  }

  /** The array contents after swap_lines exchanges positions `i` and `j`. */
  function Swap(s: seq<TextSegment>, i: nat, j: nat): (r: seq<TextSegment>)
    requires i < |s| && j < |s|
    ensures |r| == |s| && r[i] == s[j] && r[j] == s[i]
    ensures forall p :: 0 <= p < |s| && p != i && p != j ==> r[p] == s[p]
    ensures multiset(r) == multiset(s)
  {
    s[j := s[i]][i := s[j]]
  }

  /** swap_lines: exchanges two records and leaves every other element alone. */
  method SwapLines(lines: array<TextSegment>, i: nat, j: nat)
    requires i < lines.Length && j < lines.Length
    modifies lines
    ensures lines[..] == Swap(old(lines[..]), i, j)
  {
    var temporary := lines[j];
    lines[j] := lines[i];
    lines[i] := temporary;
  }

  /** The swap partner of position `i` at step `i`: a position in (i, n). */
  function Partner(i: nat, n: nat, word: Word): (j: nat)
    requires i + 1 < n
    ensures i < j < n
  {
    RandomLine(i + 1, n - i - 1, word)
  }

  /**
    The shuffle loop from step `i` on. Positions before `i` are never
    touched again, and the result is a permutation of `s`.
   */
  function ShuffleFrom(s: seq<TextSegment>, words: seq<Word>, i: nat): (r: seq<TextSegment>)
    requires |s| <= |words| + 1
    decreases |s| - i
    ensures |r| == |s|
    ensures multiset(r) == multiset(s)
    ensures i <= |s| ==> r[..i] == s[..i]
  {
    if i + 1 >= |s| then s
    else ShuffleFrom(Swap(s, i, Partner(i, |s|, words[i])), words, i + 1)
  }

  /** The array contents after shuffle, given the words drawn at each step. */
  function Shuffled(s: seq<TextSegment>, words: seq<Word>): seq<TextSegment>
    requires |s| <= |words| + 1
  {
    ShuffleFrom(s, words, 0)
  }

  /**
    shuffle: steps i = 0 .. count - 2, swapping position i with a partner
    drawn from (i, count). The guard `i + 1 < count` is randln's
    `i < count - 1` for every count >= 1; for count == 0 it leaves the
    array alone, where randln's size_t subtraction wraps (SizeTMinusOne).
   */
  method Shuffle(lines: array<TextSegment>, words: seq<Word>)
    requires lines.Length <= |words| + 1
    modifies lines
    ensures lines[..] == Shuffled(old(lines[..]), words)
  {
    var count := lines.Length;
    var i := 0;
    while i + 1 < count
      invariant i <= count
      invariant ShuffleFrom(lines[..], words, i) == Shuffled(old(lines[..]), words)
    {
      var partner := RandomLine(i + 1, count - i - 1, words[i]);
      SwapLines(lines, i, partner);
      i := i + 1;
    }
  }

  /**
    randln's loop bound `count - 1`, evaluated in 64-bit size_t arithmetic:
    the plain predecessor for count >= 1, the largest size_t for count == 0.
   */
  function SizeTMinusOne(count: Word): (r: Word)
    ensures 1 <= count ==> r == count - 1
    ensures count == 0 ==> r == WordLimit - 1
  {
    (count + WordLimit - 1) % WordLimit
  }

  /** A shuffle of at most one record changes nothing. */
  lemma ShuffledShortIsIdentity(s: seq<TextSegment>, words: seq<Word>)
    requires |s| <= 1 && |s| <= |words| + 1
    ensures Shuffled(s, words) == s
  {
  }

  predicate Distinct(s: seq<TextSegment>) {
    forall p, q :: 0 <= p < q < |s| ==> s[p] != s[q]
  }

  /**
    The loop invariant behind the derangement: before step `i`, every
    position below `i` holds something other than its original record;
    every position from `i` on holds its original record or one that came
    from below `i`; and once a step has run, at least one position from
    `i` on holds a record from below `i`.
   */
  lemma {:induction false} DerangedFrom(s0: seq<TextSegment>, a: seq<TextSegment>, words: seq<Word>, i: nat)
    requires 2 <= |s0| == |a| <= |words| + 1
    requires i < |a|
    requires Distinct(s0)
    requires forall p :: 0 <= p < i ==> a[p] != s0[p]
    requires forall p :: i <= p < |a| ==> a[p] == s0[p] || a[p] in s0[..i]
    requires 1 <= i ==> exists p :: i <= p < |a| && a[p] in s0[..i]
    decreases |a| - i
    ensures forall p :: 0 <= p < |a| ==> ShuffleFrom(a, words, i)[p] != s0[p]
  {
    var n := |a|;
    if i + 1 >= n {
      var p :| i <= p < n && a[p] in s0[..i];
      assert p == n - 1;
    } else {
      var j := Partner(i, n, words[i]);
      var b := Swap(a, i, j);
      assert b[i] != s0[i] by {
        assert b[i] == a[j];
        if a[j] != s0[j] {
          var q :| 0 <= q < i && s0[..i][q] == a[j];
        }
      }
      forall p | i + 1 <= p < n
        ensures b[p] == s0[p] || b[p] in s0[..i + 1]
      {
        assert s0[..i + 1] == s0[..i] + [s0[i]];
      }
      assert b[j] in s0[..i + 1] by {
        assert s0[..i + 1] == s0[..i] + [s0[i]];
      }
      DerangedFrom(s0, b, words, i + 1);
    }
  }

  /**
    For two or more distinct records, the shuffle leaves no record at its
    original position.
   */
  lemma ShuffledIsDerangement(s: seq<TextSegment>, words: seq<Word>)
    requires 2 <= |s| <= |words| + 1
    requires Distinct(s)
    ensures forall p :: 0 <= p < |s| ==> Shuffled(s, words)[p] != s[p]
  {
    DerangedFrom(s, s, words, 0);
  }
}
