/**
 * `make_password`: the loop that builds a password of the requested length
 * from the scrambled seed material, forcing a random character of the
 * deficit class whenever the class counts drift apart, and rotating the
 * material through the alphabet each time it is used up.
 */
module PasswordBuilder {
  import opened Common
  import opened Alphabet
  import opened SeedMixer
  import opened Scrambler
  import opened Deficit
  import opened IndexSum

  // ---------------------------------------------------------------------
  // Class counts (`symbol_types`)
  // ---------------------------------------------------------------------

  /** How many characters of `pw` belong to class `k`. */
  function CountClass(pw: string, k: CharClass): (n: nat)
    ensures n <= |pw|
  {
    if pw == [] then 0
    else CountClass(pw[..|pw| - 1], k) + (if Classify(pw[|pw| - 1]) == Some(k) then 1 else 0)
  }

  /** The values of `symbol_types` for a password, in key order. */
  function ClassCounts(pw: string): (r: seq<int>)
    ensures |r| == |ClassOrder|
  {
    seq(|ClassOrder|, i requires 0 <= i < |ClassOrder| => CountClass(pw, ClassOrder[i]))
  }

  /** The sum of the four class counts. */
  function Total(counts: seq<int>): int
    requires |counts| == |ClassOrder|
  {
    counts[0] + counts[1] + counts[2] + counts[3]
  }

  /** Distinct positions of `ClassOrder` hold distinct classes. */
  lemma ClassIndexOfOrder(i: int)
    requires 0 <= i < |ClassOrder|
    ensures ClassIndex(ClassOrder[i]) == i
  {
  }

  /** Every character of a class string is an alphabet character of that class. */
  lemma ClassMember(c: char, k: CharClass)
    requires c in ClassChars(k)
    ensures c in PhraseChars && ClassOf(c) == k
  {
    AlphabetIsClassUnion(c);
  }

  /** The last character of a password is counted once, under its own class. */
  lemma CountsLast(pw: string)
    requires pw != [] && pw[|pw| - 1] in PhraseChars
    ensures ClassCounts(pw) == Bump(ClassCounts(pw[..|pw| - 1]), ClassIndex(ClassOf(pw[|pw| - 1])))
  {
    var c := pw[|pw| - 1];
    ClassifyPartitionsAlphabet(c);
    assert Classify(c) == Some(ClassOf(c));
    var before, after := ClassCounts(pw[..|pw| - 1]), ClassCounts(pw);
    var k := ClassIndex(ClassOf(c));
    forall i | 0 <= i < |ClassOrder|
      ensures after[i] == Bump(before, k)[i]
    {
      ClassIndexOfOrder(i);
      assert after[i] == before[i] + if ClassOrder[i] == ClassOf(c) then 1 else 0;
    }
  }

  /** Appending an alphabet character counts it once, under its own class. */
  lemma CountsAppend(pw: string, c: char)
    requires c in PhraseChars
    ensures ClassCounts(pw + [c]) == Bump(ClassCounts(pw), ClassIndex(ClassOf(c)))
  {
    var p := pw + [c];
    assert p[..|p| - 1] == pw;
    CountsLast(p);
  }

  /** Each character of a valid password is counted under exactly one class. */
  lemma {:induction false} CountsSumToLength(pw: string)
    requires Valid(pw)
    ensures Total(ClassCounts(pw)) == |pw|
    decreases |pw|
  {
    if pw != [] {
      var p := pw[..|pw| - 1];
      assert Valid(p);
      CountsSumToLength(p);
      CountsLast(pw);
    }
  }

  // ---------------------------------------------------------------------
  // Material rotation
  // ---------------------------------------------------------------------

  /** Alphabet characters sit at positions 0 to 94. */
  lemma IndexInRange(c: char)
    requires c in PhraseChars
    ensures 0 <= Index(c) < Size
  {
    FindMisses(PhraseChars, c);
    SizeIsAlphabetLength();
  }

  /**
   * `phrase_offset`: half the distance between the alphabet positions of the
   * first and last material characters, rounded down, but at least 1.
   */
  function RotationOffset(material: string): (r: int)
    requires Valid(material) && |material| > 0
    ensures 1 <= r <= (Size - 1) / 2
  {
    IndexInRange(material[0]);
    IndexInRange(material[|material| - 1]);
    var d := Index(material[0]) - Index(material[|material| - 1]);
    var distance := if d < 0 then -d else d;
    if distance / 2 > 1 then distance / 2 else 1
  }

  /** A character moved `offset` places along the alphabet, wrapping around; it stays in the alphabet. */
  function Moved(c: char, offset: int): (m: char)
    ensures m in PhraseChars
  {
    CharAtInAlphabet(Index(c) + offset);
    CharAt(Index(c) + offset)
  }

  /** Every character of `material` moved `offset` places along the alphabet. */
  function Shift(material: string, offset: int): (r: string)
    ensures |r| == |material|
    ensures Valid(r)
  {
    seq(|material|, k requires 0 <= k < |material| => Moved(material[k], offset))
  }

  /** `CharAt` always lands in the alphabet. */
  lemma CharAtInAlphabet(n: int)
    ensures CharAt(n) in PhraseChars
  {
    SizeIsAlphabetLength();
  }

  /** The regenerated material (`new_material`): same length, still over the alphabet. */
  function Rotate(material: string): (r: string)
    requires Valid(material) && |material| > 0
    ensures |r| == |material|
    ensures Valid(r)
  {
    Shift(material, RotationOffset(material))
  }

  /** 'N' and '!' sit at alphabet positions 39 and 62, each 24 places before a backslash. */
  lemma PositionsBeforeBackslashes()
    ensures Index('N') == 39 && Index('!') == 62
  {
    UppercaseIndex('N');
    assert SymbolChars[0] == '!';
    SymbolIndex('!');
  }

  /**
   * Rotation is not one-to-one: the backslash sits at positions 63 and 86,
   * so moving by 24 turns both 'N' and '!' into a backslash.
   */
  lemma RotationMergesIntoBackslash()
    ensures Moved('N', 24) == Moved('!', 24) == '\\'
  {
    PositionsBeforeBackslashes();
    BackslashIsDuplicated();
    assert Moved('N', 24) == CharAt(63);
    assert Moved('!', 24) == CharAt(86);
  }

  // ---------------------------------------------------------------------
  // The loop of `make_password`
  // ---------------------------------------------------------------------

  /**
   * The state of the loop: the password so far, `symbol_types`, the current
   * material, and `phrase_index`.
   */
  datatype Build = Build(password: string, counts: seq<int>, material: string, cursor: int)

  /** What holds before and after every iteration. */
  ghost predicate Inv(b: Build)
  {
    Valid(b.password)
    && b.counts == ClassCounts(b.password)
    && Balanced(b.counts)
    && Valid(b.material)
    && 0 <= b.cursor < |b.material|
  }

  /** The class the loop forces at this iteration, if any (the result of `get_char_type_deficit`). */
  function Forced(b: Build): (r: Option<nat>)
    requires Inv(b)
    ensures r.Some? ==> r.value < |ClassOrder|
  {
    CharTypeDeficit(b.counts).value
  }

  /** The character inserted at this iteration: a draw from the forced class, or the next material character. */
  function NextChar(b: Build, roll: nat): (c: char)
    requires Inv(b)
    ensures c in PhraseChars
    ensures Forced(b).Some? ==> c in ClassChars(ClassOrder[Forced(b).value])
    ensures Forced(b).None? ==> c == b.material[b.cursor]
  {
    match Forced(b)
    case Some(m) => Draw(ClassOrder[m], roll)
    case None => b.material[b.cursor]
  }

  /** A random character of class `k`: an alphabet character of that class. */
  function Draw(k: CharClass, roll: nat): (c: char)
    ensures c in PhraseChars && c in ClassChars(k)
  {
    var c := RandomCharacter(ClassChars(k), roll);
    ClassMember(c, k);
    c
  }

  /**
   * `phrase_index` and the material after an iteration: the index moves on
   * only when the material character was taken, and once it reaches the
   * end the material is rotated and read again from the front.
   */
  function Advance(b: Build): (r: (string, int))
    requires Inv(b)
    ensures |r.0| == |b.material| && Valid(r.0) && 0 <= r.1 < |r.0|
    ensures Forced(b).Some? ==> r == (b.material, b.cursor)
    ensures Forced(b).None? && b.cursor + 1 < |b.material| ==> r == (b.material, b.cursor + 1)
    ensures Forced(b).None? && b.cursor + 1 == |b.material| ==> r == (Rotate(b.material), 0)
  {
    var cursor := if Forced(b).None? then b.cursor + 1 else b.cursor;
    if cursor == |b.material| then (Rotate(b.material), 0) else (b.material, cursor)
  }

  /** Counting the character an iteration inserts keeps the loop invariant's counts. */
  lemma InsertKeepsCounts(b: Build, roll: nat)
    requires Inv(b)
    ensures Valid(b.password + [NextChar(b, roll)])
    ensures ClassCounts(b.password + [NextChar(b, roll)])
              == Bump(b.counts, ClassIndex(ClassOf(NextChar(b, roll))))
    ensures Balanced(Bump(b.counts, ClassIndex(ClassOf(NextChar(b, roll)))))
  {
    var c := NextChar(b, roll);
    CountsAppend(b.password, c);
    StepKeepsBalance(b, c);
    ValidAppend(b.password, c);
  }

  /** Counting the inserted character keeps the counts balanced. */
  lemma StepKeepsBalance(b: Build, c: char)
    requires Inv(b)
    requires c in PhraseChars
    requires Forced(b).Some? ==> c in ClassChars(ClassOrder[Forced(b).value])
    ensures Balanced(Bump(b.counts, ClassIndex(ClassOf(c))))
  {
    var k := ClassIndex(ClassOf(c));
    if Forced(b).Some? {
      var m := Forced(b).value;
      ClassMember(c, ClassOrder[m]);
      ClassIndexOfOrder(m);
    }
    DeficitKeepsBalance(b.counts, k);
  }

  /** Appending an alphabet character keeps a string over the alphabet. */
  lemma ValidAppend(s: string, c: char)
    requires Valid(s) && c in PhraseChars
    ensures Valid(s + [c])
  {
    var t := s + [c];
    forall i | 0 <= i < |t|
      ensures t[i] in PhraseChars
    {
      if i < |s| {
        assert t[i] == s[i];
      }
    }
  }

  /** `get_char_type` on an inserted character reports its class, so the count it bumps is `ClassOf`'s. */
  lemma InsertedCharType(c: char)
    requires c in PhraseChars
    ensures GetCharType([c]) == Ok(Some(ClassOf(c)))
  {
    ClassifyPartitionsAlphabet(c);
  }

  /**
   * One iteration of the loop: insert the next character, count it under the
   * class `get_char_type` reports, and, when the material is used up,
   * rotate it and start reading it again from the front. The value of
   * `sum_phrase_indices_odd_or_even` is never used; the call cannot raise
   * because the password is always over the alphabet.
   */
  function Step(b: Build, roll: nat): (r: Build)
    requires Inv(b)
    ensures Inv(r)
    ensures |r.password| == |b.password| + 1
    ensures r.password[..|b.password|] == b.password
    ensures r.password[|b.password|] == NextChar(b, roll)
    ensures (r.material, r.cursor) == Advance(b)
    ensures SumPhraseIndicesOddOrEven(b.password).Ok?
  {
    var c := NextChar(b, roll);
    InsertedCharType(c);
    InsertKeepsCounts(b, roll);
    var password := b.password + [c];
    assert password[..|b.password|] == b.password;
    var (material, cursor) := Advance(b);
    Build(password, Bump(b.counts, ClassIndex(ClassOf(c))), material, cursor)
  }

  /**
   * The `for` loop from iteration `i` to `length`; `roll(i)` is the random
   * draw the iteration would make if it forces a class.
   */
  function Loop(b: Build, i: int, length: int, roll: nat -> nat): (r: Build)
    requires Inv(b)
    requires 0 <= i <= length && |b.password| == i
    ensures Inv(r)
    ensures |r.password| == length
    ensures r.password[..i] == b.password
    decreases length - i
  {
    if i == length then b
    else
      var next := Step(b, roll(i));
      var r := Loop(next, i + 1, length, roll);
      PrefixOfPrefix(r.password, next.password, i);
      r
  }

  /** A prefix of a prefix is a prefix. */
  lemma PrefixOfPrefix(s: string, t: string, i: nat)
    requires i < |s| && s[..i + 1] == t
    ensures s[..i] == t[..i]
  {
    assert s[..i] == s[..i + 1][..i];
  }

  /** The state before the first iteration. */
  function Start(material: string): (b: Build)
    requires Valid(material) && |material| > 0
    ensures Inv(b)
    ensures b.password == [] && b.material == material && b.cursor == 0
  {
    var b := Build([], [0, 0, 0, 0], material, 0);
    assert ClassCounts([]) == [0, 0, 0, 0];
    b
  }

  /** At the start every count is zero, so no class is forced. */
  lemma StartForcesNothing(material: string)
    requires Valid(material) && |material| > 0
    ensures Forced(Start(material)) == None
  {
    var counts := Start(material).counts;
    assert forall i, j :: 0 <= i < |counts| && 0 <= j < |counts| ==> counts[i] - counts[j] == 0;
  }

  /**
   * The first character of every password is the first character of the
   * scrambled seed, whatever the random draws.
   */
  lemma FirstCharacterIsSeed(length: int, site: string, phrase: string, roll: nat -> nat)
    ensures MakePassword(length, site, phrase, roll).Ok? ==>
              MakePassword(length, site, phrase, roll).value[0] == Material(site, phrase)[0]
  {
    if !MakePassword(length, site, phrase, roll).Ok? {
      return;
    }
    var b := Start(Material(site, phrase));
    StartForcesNothing(Material(site, phrase));
    var next := Step(b, roll(0));
    var r := Loop(next, 1, length, roll);
    assert Loop(b, 0, length, roll) == r;
    assert r.password[..1] == next.password;
  }

  /** The seed material: the scrambled combination of site and phrase. */
  function Material(site: string, phrase: string): (m: string)
    requires Valid(site) && Valid(phrase) && |site| > 0 && |phrase| > 0
    ensures Valid(m) && |m| > 0
  {
    var seed := GetCombinedSiteAndPhraseString(site, phrase).value;
    var m := ScramblePhrase(seed);
    assert multiset(m) == multiset(seed);
    forall k | 0 <= k < |m|
      ensures m[k] in PhraseChars
    {
      assert m[k] in multiset(seed);
    }
    m
  }

  /** The arguments `make_password` rejects with a ValueError. */
  predicate Rejected(length: int, site: string, phrase: string)
  {
    length < 1 || !IsValidString(site) || |site| < 1 || !IsValidString(phrase) || |phrase| < 1
  }

  /**
   * `make_password`: a ValueError for a non-positive length or an empty or
   * out-of-alphabet site or phrase; otherwise a password of exactly `length`
   * alphabet characters whose class counts stay within `DeficitNumber` of
   * each other. `roll` supplies the random draws.
   */
  function MakePassword(length: int, site: string, phrase: string, roll: nat -> nat): (r: Result<string>)
    ensures r.Err? <==> length < 1 || !Valid(site) || |site| < 1 || !Valid(phrase) || |phrase| < 1
    ensures r.Err? ==> r.error == ValueError
    ensures r.Ok? ==> |r.value| == length && Valid(r.value)
    ensures r.Ok? ==> Balanced(ClassCounts(r.value)) && Total(ClassCounts(r.value)) == length
  {
    if Rejected(length, site, phrase) then Err(ValueError)
    else
      var b := Loop(Start(Material(site, phrase)), 0, length, roll);
      CountsSumToLength(b.password);
      Ok(b.password)
  }
}
