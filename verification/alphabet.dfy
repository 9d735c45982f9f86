/**
 * The fixed, ordered 95-character universe of the password generator, its
 * four character classes, index lookup and membership checking.
 */
module Alphabet {
  import opened Common

  const LowercaseLetters: string := "abcdefghijklmnopqrstuvwxyz"
  const UppercaseLetters: string := "ABCDEFGHIJKLMNOPQRSTUVWXYZ"
  const Digits: string := "0123456789"
  /** 33 symbols; the backslash occurs twice (positions 1 and 24 of this block). */
  const SymbolChars: string := "!\\\"#$%&'()*+,-./:;<>=?@[\\]^_`{|}~"
  /** The alphabet: lowercase, uppercase, digits, symbols, in that order. */
  const PhraseChars: string := LowercaseLetters + UppercaseLetters + Digits + SymbolChars

  /** The modulus of all index arithmetic: the length of the alphabet. */
  const Size: nat := 95

  lemma SizeIsAlphabetLength()
    ensures |PhraseChars| == Size
  {
  }

  /** Python's `str.find` for one character: the first position of `c` in `s`, or -1 when it does not occur. */
  function Find(s: string, c: char): (r: int)
    ensures -1 <= r < |s|
    ensures r >= 0 ==> s[r] == c
    ensures forall j :: 0 <= j < |s| && (r == -1 || j < r) ==> s[j] != c
  {
    if |s| == 0 then -1
    else if s[0] == c then 0
    else
      var k := Find(s[1..], c);
      assert forall j :: 1 <= j < |s| ==> s[j] == s[1..][j - 1];
      if k == -1 then -1 else k + 1
  }

  /** `find` reports -1 exactly for the characters that do not occur. */
  lemma FindMisses(s: string, c: char)
    ensures Find(s, c) == -1 <==> c !in s
  {
  }

  /** The alphabet index of `c`: its first position in `PhraseChars`, or -1. */
  function Index(c: char): int
  {
    Find(PhraseChars, c)
  }

  /** The character at alphabet position `n` taken modulo the alphabet size (Python `%`). */
  function CharAt(n: int): char
  {
    PhraseChars[n % Size]
  }

  /** Looking a character up in a concatenation whose first part lacks it. */
  lemma {:induction false} FindPastPrefix(a: string, b: string, c: char)
    requires c !in a
    ensures Find(a + b, c) == if c in b then |a| + Find(b, c) else -1
    decreases |a|
  {
    if a == [] {
      assert a + b == b;
    } else {
      assert (a + b)[0] == a[0];
      assert (a + b)[1..] == a[1..] + b;
      assert c !in a[1..] by {
        assert forall j :: 0 <= j < |a[1..]| ==> a[1..][j] == a[j + 1];
      }
      FindPastPrefix(a[1..], b, c);
    }
  }

  /** Looking a character up in a concatenation whose first part holds it. */
  lemma FindInPrefix(a: string, b: string, c: char)
    requires c in a
    ensures Find(a + b, c) == Find(a, c)
  {
    var k := Find(a, c);
    assert (a + b)[k] == c;
  }

  /** The index of a symbol is 62 plus its first position in the symbol block. */
  lemma SymbolIndex(c: char)
    requires c in SymbolChars
    ensures Index(c) == |LowercaseLetters + UppercaseLetters + Digits| + Find(SymbolChars, c)
  {
    LowercaseRange(c);
    UppercaseRange(c);
    DigitRange(c);
    SymbolsAreNotAlphanumeric(c);
    FindPastPrefix(LowercaseLetters + UppercaseLetters + Digits, SymbolChars, c);
  }

  /**
   * The backslash occupies alphabet positions 63 and 86; lookup answers 63,
   * so position 86 is never the index of any character.
   */
  lemma BackslashIsDuplicated()
    ensures PhraseChars[63] == '\\' && PhraseChars[86] == '\\'
    ensures Index('\\') == 63
    ensures forall c :: Index(c) != 86
  {
    var prefix := LowercaseLetters + UppercaseLetters + Digits;
    assert |prefix| == 62;
    assert PhraseChars == prefix + SymbolChars;
    assert PhraseChars[63] == SymbolChars[1] == '\\';
    assert PhraseChars[86] == SymbolChars[24] == '\\';
    assert Find(SymbolChars, '\\') == 1 by {
      assert SymbolChars[0] == '!' && SymbolChars[1] == '\\';
    }
    SymbolIndex('\\');
  }

  /** Every character of `s` belongs to the alphabet. */
  ghost predicate Valid(s: string)
  {
    forall i :: 0 <= i < |s| ==> s[i] in PhraseChars
  }

  /** `is_valid_string`: scans `phrase` from the left and fails at the first character `find` misses. */
  function IsValidString(phrase: string): (r: bool)
    ensures r <==> Valid(phrase)
  {
    IsValidFrom(phrase, 0)
  }

  /** The scan of `is_valid_string` from position `i` on. */
  function IsValidFrom(phrase: string, i: nat): (r: bool)
    requires i <= |phrase|
    ensures r <==> forall j :: i <= j < |phrase| ==> phrase[j] in PhraseChars
    decreases |phrase| - i
  {
    if i == |phrase| then true
    else if Index(phrase[i]) == -1 then
      FindMisses(PhraseChars, phrase[i]);
      false
    else
      FindMisses(PhraseChars, phrase[i]);
      IsValidFrom(phrase, i + 1)
  }

  /** The four character classes, in the key order of the generator's class counts. */
  datatype CharClass = Lowercase | Uppercase | Numbers | Symbols

  const ClassOrder: seq<CharClass> := [Lowercase, Uppercase, Numbers, Symbols]

  /** The characters of class `k`. */
  function ClassChars(k: CharClass): string
  {
    match k
    case Lowercase => LowercaseLetters
    case Uppercase => UppercaseLetters
    case Numbers => Digits
    case Symbols => SymbolChars
  }

  /** The position of class `k` in `ClassOrder`. */
  function ClassIndex(k: CharClass): (i: nat)
    ensures i < |ClassOrder| && ClassOrder[i] == k
  {
    match k
    case Lowercase => 0
    case Uppercase => 1
    case Numbers => 2
    case Symbols => 3
  }

  /** The classification of `get_char_type`: the first class, in priority order, whose string contains `c`. */
  function Classify(c: char): Option<CharClass>
  {
    if Find(LowercaseLetters, c) > -1 then Some(Lowercase)
    else if Find(UppercaseLetters, c) > -1 then Some(Uppercase)
    else if Find(Digits, c) > -1 then Some(Numbers)
    else if Find(SymbolChars, c) > -1 then Some(Symbols)
    else None
  }

  /** The class strings of letters and digits are runs of consecutive character codes. */
  lemma ClassCodes()
    ensures forall i :: 0 <= i < |LowercaseLetters| ==> LowercaseLetters[i] == ('a' as int + i) as char
    ensures forall i :: 0 <= i < |UppercaseLetters| ==> UppercaseLetters[i] == ('A' as int + i) as char
    ensures forall i :: 0 <= i < |Digits| ==> Digits[i] == ('0' as int + i) as char
  {
  }

  lemma LowercaseRange(c: char)
    ensures c in LowercaseLetters <==> 'a' <= c <= 'z'
  {
    ClassCodes();
    if 'a' <= c <= 'z' { assert LowercaseLetters[c as int - 'a' as int] == c; }
  }

  lemma UppercaseRange(c: char)
    ensures c in UppercaseLetters <==> 'A' <= c <= 'Z'
  {
    ClassCodes();
    if 'A' <= c <= 'Z' { assert UppercaseLetters[c as int - 'A' as int] == c; }
  }

  lemma DigitRange(c: char)
    ensures c in Digits <==> '0' <= c <= '9'
  {
    ClassCodes();
    if '0' <= c <= '9' { assert Digits[c as int - '0' as int] == c; }
  }

  /** The alphabet index of a lowercase letter is its offset from 'a'. */
  lemma LowercaseIndex(c: char)
    requires 'a' <= c <= 'z'
    ensures Index(c) == c as int - 'a' as int
  {
    ClassCodes();
    LowercaseRange(c);
    FindInPrefix(LowercaseLetters + UppercaseLetters + Digits, SymbolChars, c);
    FindInPrefix(LowercaseLetters + UppercaseLetters, Digits, c);
    FindInPrefix(LowercaseLetters, UppercaseLetters, c);
    var r := Find(LowercaseLetters, c);
    assert LowercaseLetters[r] == ('a' as int + r) as char;
  }

  /** The alphabet index of an uppercase letter is 26 plus its offset from 'A'. */
  lemma UppercaseIndex(c: char)
    requires 'A' <= c <= 'Z'
    ensures Index(c) == 26 + (c as int - 'A' as int)
  {
    ClassCodes();
    LowercaseRange(c);
    UppercaseRange(c);
    FindInPrefix(LowercaseLetters + UppercaseLetters + Digits, SymbolChars, c);
    FindInPrefix(LowercaseLetters + UppercaseLetters, Digits, c);
    FindPastPrefix(LowercaseLetters, UppercaseLetters, c);
    var r := Find(UppercaseLetters, c);
    assert UppercaseLetters[r] == ('A' as int + r) as char;
  }

  lemma SymbolsAreNotAlphanumeric(c: char)
    requires c in SymbolChars
    ensures !('a' <= c <= 'z') && !('A' <= c <= 'Z') && !('0' <= c <= '9')
  {
  }

  lemma AlphabetIsClassUnion(c: char)
    ensures c in PhraseChars <==>
              c in LowercaseLetters || c in UppercaseLetters || c in Digits || c in SymbolChars
  {
  }

  /** The four class strings are pairwise disjoint. */
  lemma ClassesDisjoint(c: char)
    ensures c in LowercaseLetters ==> c !in UppercaseLetters && c !in Digits && c !in SymbolChars
    ensures c in UppercaseLetters ==> c !in Digits && c !in SymbolChars
    ensures c in Digits ==> c !in SymbolChars
  {
    LowercaseRange(c);
    UppercaseRange(c);
    DigitRange(c);
    if c in SymbolChars {
      SymbolsAreNotAlphanumeric(c);
    }
  }

  /** The `find`-based tests of `Classify` are membership tests. */
  lemma ClassifyByMembership(c: char)
    ensures Classify(c) ==
              if c in LowercaseLetters then Some(Lowercase)
              else if c in UppercaseLetters then Some(Uppercase)
              else if c in Digits then Some(Numbers)
              else if c in SymbolChars then Some(Symbols)
              else None
  {
    FindMisses(LowercaseLetters, c);
    FindMisses(UppercaseLetters, c);
    FindMisses(Digits, c);
    FindMisses(SymbolChars, c);
  }

  /**
   * `get_char_type` on an alphabet character: it finds a class, and the class
   * it finds is the one and only class whose string holds the character.
   */
  lemma ClassifyPartitionsAlphabet(c: char)
    ensures Classify(c).Some? <==> c in PhraseChars
    ensures forall k :: c in ClassChars(k) <==> Classify(c) == Some(k)
  {
    ClassifyByMembership(c);
    AlphabetIsClassUnion(c);
    ClassesDisjoint(c);
    forall k: CharClass
      ensures c in ClassChars(k) <==> Classify(c) == Some(k)
    {
      match k
      case Lowercase =>
      case Uppercase =>
      case Numbers =>
      case Symbols =>
    }
  }

  /** `get_char_type`: a ValueError unless the argument is exactly one character; None outside the alphabet. */
  function GetCharType(charArg: string): (r: Result<Option<CharClass>>)
    ensures r.Err? <==> |charArg| != 1
    ensures r.Ok? ==> (r.value.Some? <==> charArg[0] in PhraseChars)
    ensures r.Ok? && r.value.Some? ==> charArg[0] in ClassChars(r.value.value)
    ensures r.Ok? && r.value.Some? ==>
              forall j :: 0 <= j < ClassIndex(r.value.value) ==> charArg[0] !in ClassChars(ClassOrder[j])
  {
    if |charArg| != 1 then Err(ValueError)
    else
      var c := charArg[0];
      ClassifyPartitionsAlphabet(c);
      if Classify(c).Some? then
        EarlierClassesMiss(c, Classify(c).value);
        Ok(Classify(c))
      else
        Ok(None)
  }

  /** A classified character lies in none of the classes tried before its own. */
  lemma EarlierClassesMiss(c: char, k: CharClass)
    requires Classify(c) == Some(k)
    ensures forall j :: 0 <= j < ClassIndex(k) ==> c !in ClassChars(ClassOrder[j])
  {
    FindMisses(LowercaseLetters, c);
    FindMisses(UppercaseLetters, c);
    FindMisses(Digits, c);
    forall j | 0 <= j < ClassIndex(k)
      ensures c !in ClassChars(ClassOrder[j])
    {
      assert ClassOrder[j] == if j == 0 then Lowercase else if j == 1 then Uppercase else Numbers;
    }
  }

  /** The class of an alphabet character. */
  function ClassOf(c: char): (k: CharClass)
    requires c in PhraseChars
    ensures c in ClassChars(k)
    ensures forall k' :: c in ClassChars(k') ==> k' == k
  {
    ClassifyPartitionsAlphabet(c);
    Classify(c).value
  }

  /**
   * `_get_random_character`: the character of `chars` at the position a call of
   * `random.randint(0, len(chars) - 1)` picked; `roll` is that draw, reduced into range.
   */
  function RandomCharacter(chars: string, roll: nat): (c: char)
    requires |chars| > 0
    ensures c in chars
  {
    chars[roll % |chars|]
  }

  /** Every character of the class string can be drawn. */
  lemma RandomCharacterReachesAll(chars: string, c: char)
    requires c in chars
    ensures exists roll: nat :: RandomCharacter(chars, roll) == c
  {
    var i :| 0 <= i < |chars| && chars[i] == c;
    assert i % |chars| == i;
    assert RandomCharacter(chars, i) == c;
  }
}
