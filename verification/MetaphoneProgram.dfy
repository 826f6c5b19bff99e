/** The program that computes a metaphone code, letter by letter, into a buffer. */
module MetaphoneProgram {
  import opened Outcomes
  import opened MetaphoneCode

  const MAX_METAPHONE_STRLEN := 255

  class Phonizer {
    const word: string
    const max: nat
    const phoned: array<char>  // one place more than max, for the final NUL
    var wIdx: nat
    var pIdx: nat
    var skipLetter: nat

    ghost predicate Valid()
      reads this
    {
      Ascii(word) && max > 0 && phoned.Length == max + 1 && wIdx <= |word| && pIdx <= max
    }

    ghost function Output(): string
      reads this, phoned
      requires Valid()
    {
      phoned[..pIdx]
    }

    constructor (word: string, max: nat)
      requires Ascii(word) && max > 0
      ensures Valid() && wIdx == 0 && Output() == "" && fresh(phoned)
      ensures this.word == word && this.max == max
    {
      this.word, this.max := word, max;
      phoned := new char[max + 1](_ => NUL);
      wIdx, pIdx, skipLetter := 0, 0, 0;
    }

    method Phonize(c: char)
      requires Valid() && pIdx < max
      modifies this`pIdx, phoned
      ensures Valid() && Output() == old(Output()) + [c]
    {
      phoned[pIdx] := c;
      pIdx := pIdx + 1;
    }

    function CurrLetter(): char
      reads this
      requires Valid()
    {
      At(word, wIdx)
    }

    /** Never read past the NUL at the end of the word. */
    function NextLetter(): (c: char)
      reads this
      requires Valid() && wIdx < |word|
      ensures c == Ahead(word, wIdx, 1)
    {
      At(word, wIdx + 1)
    }

    function AfterNextLetter(): (c: char)
      reads this
      requires Valid() && wIdx < |word|
      ensures c == Ahead(word, wIdx, 2)
    {
      if NextLetter() != NUL then At(word, wIdx + 2) else NUL
    }

    function PrevLetter(): char
      reads this
      requires Valid()
    {
      Back(word, wIdx, 1)
    }

    method Lookahead(howFar: nat) returns (c: char)
      requires Valid()
      ensures c == Ahead(word, wIdx, howFar)
    {
      var idx := 0;
      while At(word, wIdx + idx) != NUL && idx < howFar
        invariant idx <= howFar && wIdx + idx <= |word|
        decreases howFar - idx
      {
        idx := idx + 1;
      }
      return At(word, wIdx + idx);
    }

    /** The part of the loop that codes the current letter. */
    method CodeLetter()
      requires Valid() && wIdx < |word| && pIdx < max
      modifies this`pIdx, this`skipLetter, phoned
      ensures Valid()
      ensures skipLetter == Encode(word, wIdx).skip
      ensures Output() == Take(old(Output()) + Encode(word, wIdx).out, max)
    {
      hide IsVowel, AffectsH, MakesSoft, NoGhToF, Ascii, EncodeC, EncodeG, EncodeS, Ahead, Back;
      skipLetter := 0;
      if !IsAlpha(CurrLetter()) {
        return;
      }
      if CurrLetter() == PrevLetter() && CurrLetter() != 'C' {
        return;
      }
      match CurrLetter()
      case 'B' =>
        if PrevLetter() != 'M' {
          Phonize('B');
        }
      case 'C' => CodeC();
      case 'D' =>
        if NextLetter() == 'G' && MakesSoft(AfterNextLetter()) {
          Phonize('J');
          skipLetter := skipLetter + 1;
        } else {
          Phonize('T');
        }
      case 'G' => CodeG();
      case 'H' =>
        if IsVowel(NextLetter()) && !AffectsH(PrevLetter()) {
          Phonize('H');
        }
      case 'K' =>
        if PrevLetter() != 'C' {
          Phonize('K');
        }
      case 'P' =>
        if NextLetter() == 'H' {
          Phonize('F');
        } else {
          Phonize('P');
        }
      case 'Q' => Phonize('K');
      case 'S' => CodeS();
      case 'T' =>
        if NextLetter() == 'I' && (AfterNextLetter() == 'O' || AfterNextLetter() == 'A') {
          Phonize('X');
        } else if NextLetter() == 'H' {
          Phonize('0');
          skipLetter := skipLetter + 1;
        } else {
          Phonize('T');
        }
      case 'V' => Phonize('F');
      case 'W' =>
        if IsVowel(NextLetter()) {
          Phonize('W');
        }
      case 'X' =>
        Phonize('K');
        if pIdx < max {
          Phonize('S');
        }
      case 'Y' =>
        if IsVowel(NextLetter()) {
          Phonize('Y');
        }
      case 'Z' => Phonize('S');
      case 'F' => Phonize(CurrLetter());
      case 'J' => Phonize(CurrLetter());
      case 'L' => Phonize(CurrLetter());
      case 'M' => Phonize(CurrLetter());
      case 'N' => Phonize(CurrLetter());
      case 'R' => Phonize(CurrLetter());
      case _ =>
    }

    method CodeC()
      requires Valid() && wIdx < |word| && pIdx < max && skipLetter == 0
      modifies this`pIdx, this`skipLetter, phoned
      ensures Valid()
      ensures var e := EncodeC(PrevLetter(), NextLetter(), AfterNextLetter());
              skipLetter == e.skip && Output() == old(Output()) + e.out
    {
      hide MakesSoft, Ascii;
      LetterI();
      if MakesSoft(NextLetter()) {
        if AfterNextLetter() == 'A' && NextLetter() == 'I' {
          Phonize('X');
        } else if PrevLetter() == 'S' {
        } else {
          Phonize('S');
        }
      } else if NextLetter() == 'H' {
        if AfterNextLetter() == 'R' || PrevLetter() == 'S' {
          Phonize('K');
        } else {
          Phonize('X');
        }
        skipLetter := skipLetter + 1;
      } else {
        Phonize('K');
      }
    }

    method CodeG()
      requires Valid() && wIdx < |word| && pIdx < max && skipLetter == 0
      modifies this`pIdx, this`skipLetter, phoned
      ensures Valid()
      ensures var silent := NoGhToF(Back(word, wIdx, 3)) || Back(word, wIdx, 4) == 'H';
              var e := EncodeG(PrevLetter(), NextLetter(), AfterNextLetter(), Ahead(word, wIdx, 3), silent);
              skipLetter == e.skip && Output() == old(Output()) + e.out
    {
      hide MakesSoft, NoGhToF, Ascii;
      if NextLetter() == 'H' {
        if !(NoGhToF(Back(word, wIdx, 3)) || Back(word, wIdx, 4) == 'H') {
          Phonize('F');
          skipLetter := skipLetter + 1;
        }
      } else if NextLetter() == 'N' {
        var third := Lookahead(3);
        if !IsAlpha(AfterNextLetter()) || (AfterNextLetter() == 'E' && third == 'D') {
        } else {
          Phonize('K');
        }
      } else if MakesSoft(NextLetter()) && PrevLetter() != 'G' {
        Phonize('J');
      } else {
        Phonize('K');
      }
    }

    method CodeS()
      requires Valid() && wIdx < |word| && pIdx < max && skipLetter == 0
      modifies this`pIdx, this`skipLetter, phoned
      ensures Valid()
      ensures var e := EncodeS(NextLetter(), AfterNextLetter(), Ahead(word, wIdx, 3));
              skipLetter == e.skip && Output() == old(Output()) + e.out
    {
      hide Ascii;
      var second := Lookahead(2);
      var third := Lookahead(3);
      if NextLetter() == 'I' && (AfterNextLetter() == 'O' || AfterNextLetter() == 'A') {
        Phonize('X');
      } else if NextLetter() == 'H' {
        Phonize('X');
        skipLetter := skipLetter + 1;
      } else if NextLetter() == 'C' && second == 'H' && third == 'W' {
        Phonize('X');
        skipLetter := skipLetter + 2;
      } else {
        Phonize('S');
      }
    }

    /** The special treatment of the first letter. */
    method CodeFirstLetter()
      requires Valid() && wIdx < |word| && pIdx == 0
      modifies this`wIdx, this`pIdx, phoned
      ensures Valid() && wIdx == old(wIdx) + Start(word, old(wIdx)).skip
      ensures Output() == Start(word, old(wIdx)).out
    {
      hide IsVowel, Ascii;
      match CurrLetter()
      case 'A' =>
        if NextLetter() == 'E' {
          Phonize('E');
          wIdx := wIdx + 2;
        } else {
          Phonize('A');
          wIdx := wIdx + 1;
        }
      case 'G' => CodeN();
      case 'K' => CodeN();
      case 'P' => CodeN();
      case 'W' =>
        if NextLetter() == 'H' || NextLetter() == 'R' {
          Phonize(NextLetter());
          wIdx := wIdx + 2;
        } else if IsVowel(NextLetter()) {
          VowelIsNotNul();
          Phonize('W');
          wIdx := wIdx + 2;
        }
      case 'X' =>
        Phonize('S');
        wIdx := wIdx + 1;
      case _ =>
        if CurrLetter() in "EIOU" {
          Phonize(CurrLetter());
          wIdx := wIdx + 1;
        }
    }

    /** GN, KN and PN at the beginning. */
    method CodeN()
      requires Valid() && wIdx < |word| && pIdx == 0
      modifies this`wIdx, this`pIdx, phoned
      ensures Valid() && wIdx == old(wIdx) + if old(NextLetter()) == 'N' then 2 else 0
      ensures Output() == if old(NextLetter()) == 'N' then "N" else ""
    {
      hide Ascii;
      if NextLetter() == 'N' {
        Phonize('N');
        wIdx := wIdx + 2;
      }
    }

    /** The loop that looks for the first letter. */
    method FindFirstLetter() returns (found: bool)
      requires Valid() && wIdx == 0
      modifies this`wIdx
      ensures Valid() && wIdx == FirstLetter(word, 0) && found == (wIdx < |word|)
    {
      hide Ascii;
      while !IsAlpha(CurrLetter())
        invariant Valid() && FirstLetter(word, 0) == FirstLetter(word, wIdx)
        decreases |word| - wIdx
      {
        if CurrLetter() == NUL {
          NulIsTheEnd(word, wIdx);
          return false;
        }
        SameLetter(word[wIdx]);
        wIdx := wIdx + 1;
      }
      LetterIsInside(word, wIdx);
      return true;
    }

    /** The loop over the other letters. */
    method CodeRest()
      requires Valid()
      modifies this, phoned
      ensures Valid() && Output() == Take(old(Output()) + Rest(word, old(wIdx)), max)
    {
      hide IsAlpha, Encode, Take, Ascii;
      ghost var all := Output() + Rest(word, wIdx);
      while CurrLetter() != NUL && pIdx < max
        invariant Valid()
        invariant Take(Output() + Rest(word, wIdx), max) == Take(all, max)
        decreases |word| - wIdx
      {
        NulIsTheEnd(word, wIdx);
        ghost var before := Output();
        CodeLetter();
        TakeStep(before, Encode(word, wIdx).out, Rest(word, wIdx + 1 + Encode(word, wIdx).skip), max);
        wIdx := wIdx + skipLetter + 1;
      }
      NulIsTheEnd(word, wIdx);
      TakeEnd(Output(), Rest(word, wIdx), max);
    }

    /** _metaphone: the result is the full code, cut at the limit, and ends with a NUL that
        still lies inside the buffer. */
    method Run()
      requires Valid() && wIdx == 0 && pIdx == 0
      modifies this, phoned
      ensures Valid() && Output() == Take(FullCode(word), max) && phoned[pIdx] == NUL
    {
      hide IsAlpha, Encode, Start, Rest, Ascii, FirstLetter;
      var found := FindFirstLetter();
      if found {
        CodeFirstLetter();
        CodeRest();
      }
      phoned[pIdx] := NUL;
    }
  }

  lemma NulIsTheEnd(word: string, w: nat)
    requires Ascii(word) && w <= |word|
    ensures At(word, w) == NUL <==> w == |word|
  {
  }

  lemma LetterI()
    ensures MakesSoft('I')
  {
  }

  lemma VowelIsNotNul()
    ensures !IsVowel(NUL)
  {
  }

  lemma SameLetter(c: char)
    ensures IsAlpha(ToUpper(c)) == IsAlpha(c)
  {
  }

  lemma LetterIsInside(word: string, w: nat)
    requires w <= |word| && IsAlpha(At(word, w))
    ensures w < |word| && FirstLetter(word, w) == w
  {
  }

  lemma TakeStep(a: string, b: string, c: string, n: nat)
    requires |a| <= n
    ensures Take(Take(a + b, n) + c, n) == Take(a + (b + c), n)
  {
    assert a + (b + c) == a + b + c;
    if |a + b| > n {
      assert (a + b + c)[..n] == (a + b)[..n];
      assert ((a + b)[..n] + c)[..n] == (a + b)[..n];
    }
  }

  lemma TakeEnd(a: string, c: string, n: nat)
    requires |a| <= n && (|a| == n || c == "")
    ensures Take(a + c, n) == a
  {
  }

  datatype Error = InputTooLong | LimitTooHigh | LimitNotPositive

  /** The SQL function metaphone. */
  method Metaphone(input: string, reqlen: int) returns (r: Result<string, Error>)
    requires Ascii(input)
    ensures r == if input == "" then Success("")
                 else if |input| > MAX_METAPHONE_STRLEN then Failure(InputTooLong)
                 else if reqlen > MAX_METAPHONE_STRLEN then Failure(LimitTooHigh)
                 else if reqlen <= 0 then Failure(LimitNotPositive)
                 else Success(Take(FullCode(input), reqlen))
  {
    hide FullCode, Ascii;
    if !(|input| > 0) {
      return Success("");
    }
    if |input| > MAX_METAPHONE_STRLEN {
      return Failure(InputTooLong);
    }
    if reqlen > MAX_METAPHONE_STRLEN {
      return Failure(LimitTooHigh);
    }
    if !(reqlen > 0) {
      return Failure(LimitNotPositive);
    }
    var p := new Phonizer(input, reqlen);
    p.Run();
    return Success(p.phoned[..p.pIdx]);
  }
}
