/** The sounds of the letters: between vowels each has its own; groups of letters, and letters at
    the beginning or the end of a word, have others. */
module MetaphoneSounds {
  import opened MetaphoneCode

  /** The sound of a letter between two As: most consonants stand for themselves. */
  function Sound(c: char): string {
    match c
    case 'C' => "K"
    case 'D' => "T"
    case 'G' => "K"
    case 'Q' => "K"
    case 'V' => "F"
    case 'X' => "KS"
    case 'Z' => "S"
    case _ => if c == 'A' || c == 'E' || c == 'I' || c == 'O' || c == 'U' then "" else [c]
  }

  /** A word of capitals in which every second letter, and the first and the last one, is an A. */
  predicate Alternating(word: string) {
    && |word| % 2 == 1
    && (forall i :: 0 <= i < |word| ==> 'A' <= word[i] <= 'Z')
    && forall i :: 0 <= i < |word| && i % 2 == 0 ==> word[i] == 'A'
  }

  function SoundsFrom(word: string, w: nat): string
    requires w <= |word|
    decreases |word| - w
  {
    if w == |word| then "" else Sound(word[w]) + SoundsFrom(word, w + 1)
  }

  lemma TestsOnA()
    ensures IsVowel('A') && !AffectsH('A') && !MakesSoft('A') && !NoGhToF('A')
  {
  }

  lemma Around(word: string, w: nat)
    requires Alternating(word) && 0 < w < |word|
    ensures At(word, w) == word[w] && IsAlpha(word[w])
    ensures if w % 2 == 0 then word[w] == 'A' else Back(word, w, 1) == 'A' && Ahead(word, w, 1) == 'A'
  {
  }

  /** A letter between two As contributes its own sound, and an A after a letter nothing. */
  lemma LetterBetween(word: string, w: nat)
    requires Alternating(word) && 0 < w < |word|
    ensures Encode(word, w) == Code(Sound(word[w]), 0)
  {
    hide IsVowel, AffectsH, MakesSoft, NoGhToF, Ahead, Back, At, Alternating, IsAlpha, EncodeC, EncodeG, EncodeS;
    TestsOnA();
    Around(word, w);
    Capital(word, w);
    ThreeGroups('A', Ahead(word, w, 2), Ahead(word, w, 3), NoGhToF(Back(word, w, 3)) || Back(word, w, 4) == 'H');
    OwnSounds(word[w]);
  }

  lemma ThreeGroups(next: char, after: char, third: char, silent: bool)
    requires next == 'A'
    ensures EncodeC('A', next, after) == Code("K", 0)
    ensures EncodeG('A', next, after, third, silent) == Code("K", 0)
    ensures EncodeS(next, after, third) == Code("S", 0)
  {
  }

  lemma Capital(word: string, w: nat)
    requires Alternating(word) && 0 < w < |word|
    ensures 'A' <= word[w] <= 'Z'
  {
  }

  lemma OwnSounds(c: char)
    requires 'A' <= c <= 'Z'
    ensures c in "FJLMNR" ==> Sound(c) == [c]
    ensures c in "FJLMNR" <==> c == 'F' || c == 'J' || c == 'L' || c == 'M' || c == 'N' || c == 'R'
  {
  }

  lemma {:induction false} RestOfAlternating(word: string, w: nat)
    requires Alternating(word) && 0 < w <= |word|
    ensures Rest(word, w) == SoundsFrom(word, w)
    decreases |word| - w
  {
    hide Encode, Sound;
    if w < |word| {
      LetterBetween(word, w);
      RestOfAlternating(word, w + 1);
    }
  }

  /** So the code of such a word is an A and the sounds of its letters, one after the other; unless
      its second letter is an E, before which the first A is silent. */
  lemma CodeOfAlternating(word: string)
    requires Alternating(word) && (|word| > 1 ==> word[1] != 'E')
    ensures FullCode(word) == "A" + SoundsFrom(word, 1)
  {
    hide Rest, Sound, Encode, Start;
    assert IsAlpha(word[0]) && FirstLetter(word, 0) == 0;
    BeginsWithA(word);
    RestOfAlternating(word, 1);
  }

  lemma BeginsWithA(word: string)
    requires Alternating(word) && (|word| > 1 ==> word[1] != 'E')
    ensures Start(word, 0) == Code("A", 1)
  {
    assert ToUpper(word[0]) == 'A';
  }

  // ---------------------------------------------------------------- groups of letters

  /** Groups of letters, from the second place of a word on. */
  lemma GroupsWithSoftC()
    ensures Encode("ACIA", 1) == Code("X", 0) && Encode("ACE", 1) == Code("S", 0) && Encode("ASCE", 2) == Code("", 0)
  {
  }

  lemma GroupsWithCH()
    ensures Encode("ACHE", 1) == Code("X", 1) && Encode("ACHRA", 1) == Code("K", 1)
    ensures Encode("ASCHE", 2) == Code("K", 1) && Encode("ASCHWA", 1) == Code("X", 2)
  {
  }

  lemma GroupsWithDAndG()
    ensures Encode("ADGE", 1) == Code("J", 1) && Encode("ADGA", 1) == Code("T", 0)
    ensures Encode("AGE", 1) == Code("J", 0) && Encode("AGGE", 1) == Code("K", 0) && Encode("AGGE", 2) == Code("", 0)
  {
  }

  lemma GroupsWithGN()
    ensures Encode("AGN", 1) == Code("", 0) && Encode("AGNED", 1) == Code("", 0) && Encode("AGNA", 1) == Code("K", 0)
  {
  }

  lemma GroupsWithH()
    ensures Encode("AGHA", 1) == Code("F", 1) && Encode("BAAGHA", 3) == Code("", 0)
    ensures Encode("AHA", 1) == Code("H", 0) && Encode("AH", 1) == Code("", 0) && Encode("THA", 1) == Code("", 0)
    ensures Encode("ACKA", 2) == Code("", 0) && Encode("APHA", 1) == Code("F", 0) && Encode("AMB", 2) == Code("", 0)
  {
  }

  lemma GroupsWithOthers()
    ensures Encode("ASIO", 1) == Code("X", 0) && Encode("ASIA", 1) == Code("X", 0) && Encode("ASHA", 1) == Code("X", 1)
    ensures Encode("ATIO", 1) == Code("X", 0) && Encode("ATIA", 1) == Code("X", 0) && Encode("ATHA", 1) == Code("0", 1)
    ensures Encode("AWA", 1) == Code("W", 0) && Encode("AW", 1) == Code("", 0) && Encode("AY", 1) == Code("", 0)
    ensures Encode("ALL", 2) == Code("", 0) && Encode("ACC", 2) == Code("K", 0)
  {
  }

  /** The beginnings that are special. */
  lemma Beginnings()
    ensures Start("AE", 0) == Code("E", 2) && Start("AN", 0) == Code("A", 1)
    ensures Start("GN", 0) == Code("N", 2) && Start("KN", 0) == Code("N", 2) && Start("PN", 0) == Code("N", 2)
    ensures Start("WR", 0) == Code("R", 2) && Start("WH", 0) == Code("H", 2) && Start("WA", 0) == Code("W", 2)
  {
  }

  lemma OtherBeginnings()
    ensures Start("XA", 0) == Code("S", 1) && Start("EA", 0) == Code("E", 1) && Start("IA", 0) == Code("I", 1)
    ensures Start("OA", 0) == Code("O", 1) && Start("UA", 0) == Code("U", 1) && Start("BA", 0) == Code("", 0)
    ensures Start("GA", 0) == Start("KA", 0) == Start("PA", 0) == Start("WB", 0) == Code("", 0)
  {
  }

  /** The documented example. */
  lemma Gumbo()
    ensures FullCode("GUMBO") == "KM"
  {
    hide Encode, Start, Rest, FirstLetter;
    LettersOfGumbo();
    RestOfGumbo();
    FirstOfGumbo();
  }

  lemma FirstOfGumbo()
    ensures FirstLetter("GUMBO", 0) == 0
  {
  }

  lemma RestOfGumbo()
    ensures Rest("GUMBO", 0) == "KM"
  {
    hide Encode;
    LettersOfGumbo();
    assert Rest("GUMBO", 3) == "";
    assert Rest("GUMBO", 1) == "M";
  }

  lemma LettersOfGumbo()
    ensures Start("GUMBO", 0) == Code("", 0)
    ensures Encode("GUMBO", 0) == Code("K", 0) && Encode("GUMBO", 1) == Code("", 0)
    ensures Encode("GUMBO", 2) == Code("M", 0) && Encode("GUMBO", 3) == Code("", 0) && Encode("GUMBO", 4) == Code("", 0)
  {
  }
}
