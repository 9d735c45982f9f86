/**
 * `sum_phrase_indices_odd_or_even`: the alphabet positions of every other
 * character, counted back from the second-to-last one.
 */
module IndexSum {
  import opened Common
  import opened Alphabet

  /** The alphabet position (`find`) of every character of a phrase. */
  function Positions(phrase: string): (r: seq<int>)
    ensures |r| == |phrase|
    ensures forall k :: 0 <= k < |phrase| ==> r[k] == Index(phrase[k])
  {
    seq(|phrase|, k requires 0 <= k < |phrase| => Index(phrase[k]))
  }

  /** Characters of the alphabet have non-negative positions. */
  lemma ValidPositions(phrase: string)
    requires Valid(phrase)
    ensures forall k :: 0 <= k < |phrase| ==> Positions(phrase)[k] >= 0
  {
    forall k | 0 <= k < |phrase|
      ensures Index(phrase[k]) >= 0
    {
      FindMisses(PhraseChars, phrase[k]);
    }
  }

  /**
   * The reference sum: the values at `|xs| - 2`, `|xs| - 4`, ... down to 0
   * or 1, that is, at the indices with the same parity as the length.
   */
  function AlternateSum(xs: seq<int>): int
  {
    if |xs| < 2 then 0 else xs[|xs| - 2] + AlternateSum(xs[..|xs| - 2])
  }

  /** The `while` loop of the source: add the value at `i` and step by two. */
  function SumFrom(xs: seq<int>, i: int): int
    requires 0 <= i
    decreases |xs| - i
  {
    if i > |xs| - 1 then 0 else xs[i] + SumFrom(xs, i + 2)
  }

  /**
   * `sum_phrase_indices_odd_or_even`: a ValueError for a phrase outside the
   * alphabet; otherwise the sum of the alphabet positions at the indices of
   * the same parity as the length.
   */
  function SumPhraseIndicesOddOrEven(phrase: string): (r: Result<int>)
    ensures r.Err? <==> !Valid(phrase)
    ensures r.Err? ==> r.error == ValueError
    ensures r.Ok? ==> r.value == AlternateSum(Positions(phrase)) && r.value >= 0
  {
    if !IsValidString(phrase) then Err(ValueError)
    else
      var xs := Positions(phrase);
      SumMatchesReference(xs);
      ValidPositions(phrase);
      AlternateSumNonNegative(xs);
      Ok(SumFrom(xs, |phrase| % 2))
  }

  lemma {:induction false} AlternateSumNonNegative(xs: seq<int>)
    requires forall k :: 0 <= k < |xs| ==> xs[k] >= 0
    ensures AlternateSum(xs) >= 0
    decreases |xs|
  {
    if |xs| >= 2 {
      AlternateSumNonNegative(xs[..|xs| - 2]);
    }
  }

  /** Dropping the last two values keeps the sum of every other value before them. */
  lemma {:induction false} SumFromPrefix(xs: seq<int>, i: int, steps: nat)
    requires 0 <= i && i + 2 * steps == |xs| - 2
    ensures SumFrom(xs, i) == SumFrom(xs[..|xs| - 2], i) + xs[|xs| - 2]
    decreases steps
  {
    if steps > 0 {
      SumFromPrefix(xs, i + 2, steps - 1);
    }
  }

  /** The forward loop computes the reference sum. */
  lemma {:induction false} SumMatchesReference(xs: seq<int>)
    ensures SumFrom(xs, |xs| % 2) == AlternateSum(xs)
    decreases |xs|
  {
    if |xs| >= 2 {
      var i, half := |xs| % 2, |xs| / 2;
      SumFromPrefix(xs, i, half - 1);
      SumMatchesReference(xs[..|xs| - 2]);
    }
  }
}
