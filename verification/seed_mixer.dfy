/** The seed mixer: folds the shorter of site and phrase over the longer one. */
module SeedMixer {
  import opened Common
  import opened Alphabet

  /**
   * `get_combined_site_and_phrase_string`: a ValueError when either string is
   * empty; otherwise one character per position of the longer string (the site
   * on a tie), the alphabet character at the sum of the indices of that
   * position's character and of the shorter string's character at the same
   * position taken cyclically. Characters outside the alphabet take part with
   * index -1, as `find` reports them.
   */
  function GetCombinedSiteAndPhraseString(site: string, phrase: string): (r: Result<string>)
    ensures r.Err? <==> |site| < 1 || |phrase| < 1
    ensures r.Ok? ==> |r.value| == if |phrase| > |site| then |phrase| else |site|
    ensures r.Ok? ==> Valid(r.value)
    ensures r.Ok? && |site| >= |phrase| ==>
              forall i :: 0 <= i < |r.value| ==>
                r.value[i] == MixedChar(site, phrase, i)
    ensures r.Ok? && |site| < |phrase| ==>
              forall i :: 0 <= i < |r.value| ==>
                r.value[i] == MixedChar(phrase, site, i)
  {
    if |site| < 1 || |phrase| < 1 then Err(ValueError)
    else if |phrase| > |site| then Ok(Fold(phrase, site, ""))
    else Ok(Fold(site, phrase, ""))
  }

  /**
   * The mixed character at position `i`: the alphabet character at position
   * (Index(long[i]) + Index(short[i mod |short|])) mod 95.
   */
  function MixedChar(long: string, short: string, i: nat): char
    requires i < |long| && |short| > 0
  {
    CharAt(MixedIndex(long, short, i))
  }

  /** The sum of the two alphabet positions that `MixedChar` reduces modulo 95. */
  function MixedIndex(long: string, short: string, i: nat): int
    requires i < |long| && |short| > 0
  {
    Index(long[i]) + Index(short[i % |short|])
  }

  /** The loop of the mixer: `acc` holds the characters produced for the first `|acc|` positions. */
  function Fold(long: string, short: string, acc: string): (r: string)
    requires |short| > 0 && |acc| <= |long|
    requires forall i :: 0 <= i < |acc| ==> acc[i] == MixedChar(long, short, i)
    ensures |r| == |long|
    ensures forall i :: 0 <= i < |r| ==> r[i] == MixedChar(long, short, i)
    decreases |long| - |acc|
  {
    if |acc| == |long| then acc
    else
      FoldStep(long, short, acc);
      Fold(long, short, acc + [MixedChar(long, short, |acc|)])
  }

  /** Producing the character for the next position keeps `acc` a correct prefix. */
  lemma FoldStep(long: string, short: string, acc: string)
    requires |short| > 0 && |acc| < |long|
    requires forall i :: 0 <= i < |acc| ==> acc[i] == MixedChar(long, short, i)
    ensures forall i :: 0 <= i <= |acc| ==>
              (acc + [MixedChar(long, short, |acc|)])[i] == MixedChar(long, short, i)
  {
    var next := acc + [MixedChar(long, short, |acc|)];
    forall i | 0 <= i <= |acc|
      ensures next[i] == MixedChar(long, short, i)
    {
      if i < |acc| {
        assert next[i] == acc[i];
      }
    }
  }

  /** On strings of equal length no cycling happens and the two roles can be swapped. */
  lemma MixedCharSwaps(a: string, b: string, i: nat)
    requires |a| == |b| && i < |a|
    ensures MixedChar(a, b, i) == MixedChar(b, a, i)
  {
    MixedIndexSwaps(a, b, i);
  }

  lemma MixedIndexSwaps(a: string, b: string, i: nat)
    requires |a| == |b| && i < |a|
    ensures MixedIndex(a, b, i) == MixedIndex(b, a, i)
  {
    SmallModulus(i, |a|);
  }

  lemma SmallModulus(i: nat, n: nat)
    requires i < n
    ensures i % n == i
  {
  }

  /** Mixing does not depend on which string is the site and which the phrase. */
  lemma MixingIsSymmetric(a: string, b: string)
    ensures GetCombinedSiteAndPhraseString(a, b) == GetCombinedSiteAndPhraseString(b, a)
  {
    if |a| == |b| > 0 {
      var s1 := Fold(a, b, "");
      var s2 := Fold(b, a, "");
      forall i | 0 <= i < |s1|
        ensures s1[i] == s2[i]
      {
        MixedCharSwaps(a, b, i);
      }
      assert s1 == s2;
    }
  }

  /** Mixing two one-character strings yields the one mixed character. */
  lemma MixSingle(a: char, b: char)
    ensures GetCombinedSiteAndPhraseString([a], [b]) == Ok([MixedChar([a], [b], 0)])
  {
    var r := GetCombinedSiteAndPhraseString([a], [b]);
    assert r.value == [r.value[0]];
  }

  lemma MixUpperOWithX()
    ensures GetCombinedSiteAndPhraseString("O", "x") == Ok("\\")
  {
    assert MixedChar("O", "x", 0) == CharAt(63) by {
      UppercaseIndex('O');
      LowercaseIndex('x');
    }
    assert CharAt(63) == '\\' by {
      BackslashIsDuplicated();
    }
    MixSingle('O', 'x');
  }

  lemma MixBackslashWithX()
    ensures GetCombinedSiteAndPhraseString("\\", "x") == Ok("\\")
  {
    assert MixedChar("\\", "x", 0) == CharAt(86) by {
      BackslashIsDuplicated();
      LowercaseIndex('x');
    }
    assert CharAt(86) == '\\' by {
      BackslashIsDuplicated();
    }
    MixSingle('\\', 'x');
  }

  /**
   * Because of the duplicated backslash, mixing is not injective in the longer
   * string: "O" (index 40) and a backslash (index 63) both mix with "x" (index
   * 23) into a backslash, at positions 63 and 86 of the alphabet.
   */
  lemma MixingCollides()
    ensures GetCombinedSiteAndPhraseString("O", "x") == GetCombinedSiteAndPhraseString("\\", "x") == Ok("\\")
  {
    MixUpperOWithX();
    MixBackslashWithX();
  }
}
