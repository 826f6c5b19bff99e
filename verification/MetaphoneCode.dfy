/** The metaphone code of a word: how single letters are coded, the code as a whole, and the
    program that computes as much of it as is asked for. */
module MetaphoneCode {
  const SH := "X"
  const TH := "0"
  const NUL := '\0'

  /** Words in ASCII; a word contains no NUL. */
  predicate Ascii(word: string) {
    forall i :: 0 <= i < |word| ==> 1 <= word[i] as int < 128
  }

  predicate IsAlpha(c: char) {
    'A' <= c <= 'Z' || 'a' <= c <= 'z'
  }

  function ToUpper(c: char): char {
    if 'a' <= c <= 'z' then c - 'a' + 'A' else c
  }

  /** _codes: what each letter of the alphabet takes part in, as a sum of powers of two. */
  const CODES: seq<nat> := [1, 16, 4, 16, 9, 2, 4, 16, 9, 2, 0, 2, 2, 2, 1, 4, 0, 2, 4, 4, 1, 0, 0, 0, 8, 0]

  function GetCode(c: char): nat {
    if IsAlpha(c) then CODES[ToUpper(c) as int - 'A' as int] else 0
  }

  predicate IsVowel(c: char) {
    GetCode(c) % 2 == 1
  }

  /** Forms a diphthong before H. */
  predicate AffectsH(c: char) {
    GetCode(c) / 4 % 2 == 1
  }

  /** Makes C and G soft. */
  predicate MakesSoft(c: char) {
    GetCode(c) / 8 % 2 == 1
  }

  /** Keeps GH from becoming F. */
  predicate NoGhToF(c: char) {
    GetCode(c) / 16 % 2 == 1
  }

  /** The table says what the names of its bits say. */
  lemma CodesMean(c: char)
    requires ToUpper(c) == c
    ensures IsVowel(c) <==> c in "AEIOU"
    ensures AffectsH(c) <==> c in "CGPST"
    ensures MakesSoft(c) <==> c in "EIY"
    ensures NoGhToF(c) <==> c in "BDH"
  {
    assert IsAlpha(c) ==> 'A' <= c <= 'Z';
  }

  // ---------------------------------------------------------------- letters around a place

  /** The letter at a place, in upper case, or NUL at the end of the word. */
  function At(word: string, i: nat): char
    requires i <= |word|
  {
    if i < |word| then ToUpper(word[i]) else NUL
  }

  /** The letter n places on, or NUL if the word ends before. */
  function Ahead(word: string, w: nat, n: nat): char {
    if w + n < |word| then At(word, w + n) else NUL
  }

  function Back(word: string, w: nat, n: nat): char
    requires w <= |word|
  {
    if w >= n then At(word, w - n) else NUL
  }

  // ---------------------------------------------------------------- the code of one letter

  /** What a letter contributes to the code, and how many letters after it are skipped. */
  datatype Code = Code(out: string, skip: nat)

  function Encode(word: string, w: nat): (r: Code)
    requires w < |word|
    ensures w + 1 + r.skip <= |word| && |r.out| <= 2
  {
    var c, prev, next, after := At(word, w), Back(word, w, 1), Ahead(word, w, 1), Ahead(word, w, 2);
    if !IsAlpha(c) || (c == prev && c != 'C') then Code("", 0)
    else match c
      case 'B' => Code(if prev == 'M' then "" else "B", 0)
      case 'C' => EncodeC(prev, next, after)
      case 'D' => if next == 'G' && MakesSoft(after) then Code("J", 1) else Code("T", 0)
      case 'G' =>
        EncodeG(prev, next, after, Ahead(word, w, 3), NoGhToF(Back(word, w, 3)) || Back(word, w, 4) == 'H')
      case 'H' => Code(if IsVowel(next) && !AffectsH(prev) then "H" else "", 0)
      case 'K' => Code(if prev == 'C' then "" else "K", 0)
      case 'P' => Code(if next == 'H' then "F" else "P", 0)
      case 'Q' => Code("K", 0)
      case 'S' => EncodeS(next, after, Ahead(word, w, 3))
      case 'T' =>
        if next == 'I' && (after == 'O' || after == 'A') then Code(SH, 0)
        else if next == 'H' then Code(TH, 1)
        else Code("T", 0)
      case 'V' => Code("F", 0)
      case 'W' => Code(if IsVowel(next) then "W" else "", 0)
      case 'X' => Code("KS", 0)
      case 'Y' => Code(if IsVowel(next) then "Y" else "", 0)
      case 'Z' => Code("S", 0)
      case _ => Code(if c in "FJLMNR" then [c] else "", 0)
  }

  /** CIA is coded as SH; C before E, I or Y is dropped after S and else coded as S; CH is coded
      as SH, or as K in SCH and CHR. */
  function EncodeC(prev: char, next: char, after: char): Code {
    if next == 'I' && after == 'A' then Code(SH, 0)
    else if MakesSoft(next) then Code(if prev == 'S' then "" else "S", 0)
    else if next == 'H' then Code(if after == 'R' || prev == 'S' then "K" else SH, 1)
    else Code("K", 0)
  }

  /** GH is coded as F unless B, D or H stands before it in certain places; GN is dropped at the
      end of a word and in GNED; soft G is coded as J unless doubled. */
  function EncodeG(prev: char, next: char, after: char, third: char, silent: bool): Code {
    if next == 'H' then (if silent then Code("", 0) else Code("F", 1))
    else if next == 'N' then Code(if !IsAlpha(after) || (after == 'E' && third == 'D') then "" else "K", 0)
    else Code(if MakesSoft(next) && prev != 'G' then "J" else "K", 0)
  }

  /** SIO, SIA, SH and SCHW are coded as SH. */
  function EncodeS(next: char, after: char, third: char): Code {
    if next == 'I' && (after == 'O' || after == 'A') then Code(SH, 0)
    else if next == 'H' then Code(SH, 1)
    else if next == 'C' && after == 'H' && third == 'W' then Code(SH, 2)
    else Code("S", 0)
  }

  // ---------------------------------------------------------------- the code of a word

  /** The code from a place on, as long as it gets. */
  function Rest(word: string, w: nat): string
    requires w <= |word|
    decreases |word| - w
  {
    if w == |word| then "" else Encode(word, w).out + Rest(word, w + 1 + Encode(word, w).skip)
  }

  function FirstLetter(word: string, w: nat): (r: nat)
    requires w <= |word|
    ensures w <= r <= |word|
    ensures r < |word| ==> IsAlpha(word[r])
    ensures forall i :: w <= i < r ==> !IsAlpha(word[i])
    decreases |word| - w
  {
    if w == |word| || IsAlpha(word[w]) then w else FirstLetter(word, w + 1)
  }

  /** The first letter is special: its code, and by how much it moves on. If it does not move
      on, the letter is then coded as any other. */
  function Start(word: string, w: nat): (r: Code)
    requires w < |word|
    ensures w + r.skip <= |word| && |r.out| <= 1
  {
    var c, next := At(word, w), Ahead(word, w, 1);
    match c
    case 'A' => if next == 'E' then Code("E", 2) else Code("A", 1)
    case 'G' => if next == 'N' then Code("N", 2) else Code("", 0)
    case 'K' => if next == 'N' then Code("N", 2) else Code("", 0)
    case 'P' => if next == 'N' then Code("N", 2) else Code("", 0)
    case 'W' =>
      if next == 'H' || next == 'R' then Code([next], 2)
      else if IsVowel(next) then Code("W", 2)
      else Code("", 0)
    case 'X' => Code("S", 1)
    case _ => if c in "EIOU" then Code([c], 1) else Code("", 0)
  }

  /** The whole code, without a limit. */
  function FullCode(word: string): string {
    var w := FirstLetter(word, 0);
    if w == |word| then "" else Start(word, w).out + Rest(word, w + Start(word, w).skip)
  }

  function Take(s: string, n: nat): string {
    if |s| <= n then s else s[..n]
  }

  // ---------------------------------------------------------------- what the code does not depend on

  /** Characters that make no difference to each other: all that are not letters. */
  predicate Alike(a: char, b: char) {
    a == b || (!IsAlpha(a) && !IsAlpha(b))
  }

  /** The neighbourhoods of two places make no difference. */
  predicate SameAround(u: string, v: nat, word: string, w: nat)
    requires v <= |u| && w <= |word|
  {
    && Alike(Ahead(u, v, 0), Ahead(word, w, 0)) && Alike(Ahead(u, v, 1), Ahead(word, w, 1))
    && Alike(Ahead(u, v, 2), Ahead(word, w, 2)) && Alike(Ahead(u, v, 3), Ahead(word, w, 3))
    && Alike(Back(u, v, 1), Back(word, w, 1)) && Alike(Back(u, v, 3), Back(word, w, 3))
    && Alike(Back(u, v, 4), Back(word, w, 4))
  }

  lemma AlikeTests(a: char, b: char)
    requires Alike(a, b)
    ensures IsVowel(a) == IsVowel(b) && AffectsH(a) == AffectsH(b)
    ensures MakesSoft(a) == MakesSoft(b) && NoGhToF(a) == NoGhToF(b)
    ensures IsAlpha(a) == IsAlpha(b) && (IsAlpha(a) ==> a == b)
  {
  }

  lemma EncodeCSame(a1: char, a2: char, a3: char, b1: char, b2: char, b3: char)
    requires Alike(a1, b1) && Alike(a2, b2) && Alike(a3, b3)
    ensures EncodeC(a1, a2, a3) == EncodeC(b1, b2, b3)
  {
    hide MakesSoft, Alike;
    AlikeTests(a1, b1);
    AlikeTests(a2, b2);
    AlikeTests(a3, b3);
  }

  lemma EncodeGSame(a1: char, a2: char, a3: char, a4: char, b1: char, b2: char, b3: char, b4: char, silent: bool)
    requires Alike(a1, b1) && Alike(a2, b2) && Alike(a3, b3) && Alike(a4, b4)
    ensures EncodeG(a1, a2, a3, a4, silent) == EncodeG(b1, b2, b3, b4, silent)
  {
    hide MakesSoft, Alike;
    AlikeTests(a1, b1);
    AlikeTests(a2, b2);
    AlikeTests(a3, b3);
    AlikeTests(a4, b4);
  }

  lemma EncodeSSame(a1: char, a2: char, a3: char, b1: char, b2: char, b3: char)
    requires Alike(a1, b1) && Alike(a2, b2) && Alike(a3, b3)
    ensures EncodeS(a1, a2, a3) == EncodeS(b1, b2, b3)
  {
    hide Alike;
    AlikeTests(a1, b1);
    AlikeTests(a2, b2);
    AlikeTests(a3, b3);
  }

  /** Letters are coded by their neighbourhood alone, and there only letters matter. */
  lemma EncodeSame(u: string, v: nat, word: string, w: nat)
    requires v < |u| && w < |word| && SameAround(u, v, word, w)
    ensures Encode(u, v) == Encode(word, w)
  {
    hide IsVowel, AffectsH, MakesSoft, NoGhToF, Ahead, Back, Alike, EncodeC, EncodeG, EncodeS;
    var prev, next, after, third := Back(u, v, 1), Ahead(u, v, 1), Ahead(u, v, 2), Ahead(u, v, 3);
    var prev', next', after', third' := Back(word, w, 1), Ahead(word, w, 1), Ahead(word, w, 2), Ahead(word, w, 3);
    AlikeTests(Ahead(u, v, 0), Ahead(word, w, 0));
    AlikeTests(prev, prev');
    AlikeTests(next, next');
    AlikeTests(after, after');
    AlikeTests(Back(u, v, 3), Back(word, w, 3));
    AlikeTests(Back(u, v, 4), Back(word, w, 4));
    AheadIsHere(u, v);
    AheadIsHere(word, w);
    EncodeCSame(prev, next, after, prev', next', after');
    EncodeGSame(prev, next, after, third, prev', next', after', third',
                NoGhToF(Back(u, v, 3)) || Back(u, v, 4) == 'H');
    EncodeSSame(next, after, third, next', after', third');
  }

  lemma AheadIsHere(word: string, w: nat)
    requires w < |word|
    ensures Ahead(word, w, 0) == At(word, w)
  {
  }

  lemma StartSame(u: string, v: nat, word: string, w: nat)
    requires v < |u| && w < |word| && SameAround(u, v, word, w)
    ensures Start(u, v) == Start(word, w)
  {
    hide IsVowel, Ahead, Back, Alike;
    AlikeTests(Ahead(u, v, 0), Ahead(word, w, 0));
    AlikeTests(Ahead(u, v, 1), Ahead(word, w, 1));
    AheadIsHere(u, v);
    AheadIsHere(word, w);
  }

  /** One word stands in the other, shifted by d places, as far as letters are concerned. */
  ghost predicate Embedded(word: string, u: string, d: nat) {
    && d + |word| <= |u|
    && (forall i :: 0 <= i < |word| ==> Alike(ToUpper(u[d + i]), ToUpper(word[i])))
    && (forall i :: 0 <= i < |u| && !(d <= i < d + |word|) ==> !IsAlpha(u[i]))
  }

  lemma EmbeddedAround(word: string, u: string, d: nat, w: nat)
    requires Embedded(word, u, d) && w <= |word|
    ensures SameAround(u, w + d, word, w)
  {
    EmbeddedAhead(word, u, d, w, 0);
    EmbeddedAhead(word, u, d, w, 1);
    EmbeddedAhead(word, u, d, w, 2);
    EmbeddedAhead(word, u, d, w, 3);
    EmbeddedBack(word, u, d, w, 1);
    EmbeddedBack(word, u, d, w, 3);
    EmbeddedBack(word, u, d, w, 4);
    hide Ahead, Back, Alike;
  }

  lemma EmbeddedAhead(word: string, u: string, d: nat, w: nat, n: nat)
    requires Embedded(word, u, d) && w <= |word|
    ensures Alike(Ahead(u, w + d, n), Ahead(word, w, n))
  {
    if w + n < |word| {
      assert Alike(ToUpper(u[d + (w + n)]), ToUpper(word[w + n]));
    } else if w + d + n < |u| {
      assert !IsAlpha(u[w + d + n]);
    }
  }

  lemma EmbeddedBack(word: string, u: string, d: nat, w: nat, n: nat)
    requires Embedded(word, u, d) && w <= |word|
    ensures Alike(Back(u, w + d, n), Back(word, w, n))
  {
    if n == 0 {
      EmbeddedAhead(word, u, d, w, 0);
    } else if w >= n {
      assert Alike(ToUpper(u[d + (w - n)]), ToUpper(word[w - n]));
    } else if w + d >= n {
      assert !IsAlpha(u[w + d - n]);
    }
  }

  lemma {:induction false} NothingAfter(u: string, v: nat)
    requires v <= |u| && forall i :: v <= i < |u| ==> !IsAlpha(u[i])
    ensures Rest(u, v) == ""
    decreases |u| - v
  {
    if v < |u| {
      NothingAfter(u, v + 1);
    }
  }

  lemma {:induction false} RestSame(word: string, u: string, d: nat, w: nat)
    requires Embedded(word, u, d) && w <= |word|
    ensures Rest(u, w + d) == Rest(word, w)
    decreases |word| - w
  {
    hide Encode, Alike;
    if w == |word| {
      NothingAfter(u, w + d);
    } else {
      EmbeddedAround(word, u, d, w);
      EncodeSame(u, w + d, word, w);
      RestSame(word, u, d, w + 1 + Encode(word, w).skip);
    }
  }

  lemma {:induction false} FirstLetterShifted(word: string, u: string, d: nat, v: nat)
    requires Embedded(word, u, d) && v <= |u|
    requires forall i :: 0 <= i < v ==> !IsAlpha(u[i])
    ensures var f := FirstLetter(word, 0);
            FirstLetter(u, v) == if f < |word| then f + d else |u|
    decreases |u| - v
  {
    var f := FirstLetter(word, 0);
    if f < |word| {
      assert Alike(ToUpper(u[d + f]), ToUpper(word[f]));
      assert v <= d + f;
    }
    if v < |u| {
      if IsAlpha(u[v]) {
        assert d <= v < d + |word|;
        assert Alike(ToUpper(u[d + (v - d)]), ToUpper(word[v - d]));
        assert f <= v - d;
      } else {
        FirstLetterShifted(word, u, d, v + 1);
      }
    }
  }

  /** Characters other than letters, before and after the word, do not count, and letters count
      the same in either case. */
  lemma CodeOfEmbedded(word: string, u: string, d: nat)
    requires Embedded(word, u, d)
    ensures FullCode(u) == FullCode(word)
  {
    hide Embedded, Start, Rest, FirstLetter;
    FirstLetterShifted(word, u, d, 0);
    var f := FirstLetter(word, 0);
    EmbeddedFits(word, u, d);
    if f < |word| {
      EmbeddedAround(word, u, d, f);
      StartSame(u, f + d, word, f);
      RestSame(word, u, d, f + Start(word, f).skip);
    }
  }

  lemma EmbeddedFits(word: string, u: string, d: nat)
    requires Embedded(word, u, d)
    ensures d + |word| <= |u|
  {
  }

  function Uppercase(word: string): string {
    seq(|word|, i requires 0 <= i < |word| => ToUpper(word[i]))
  }

  /** The code of a word is that of the word in upper case. */
  lemma CaseDoesNotMatter(word: string)
    ensures FullCode(Uppercase(word)) == FullCode(word)
  {
    hide FullCode;
    assert Embedded(word, Uppercase(word), 0);
    CodeOfEmbedded(word, Uppercase(word), 0);
  }

  /** Text around a word that is not letters may be dropped. */
  lemma OtherCharactersDoNotMatter(before: string, word: string, after: string)
    requires forall i :: 0 <= i < |before| ==> !IsAlpha(before[i])
    requires forall i :: 0 <= i < |after| ==> !IsAlpha(after[i])
    ensures FullCode(before + word + after) == FullCode(word)
  {
    hide FullCode;
    var u := before + word + after;
    assert Embedded(word, u, |before|) by {
      assert forall i :: 0 <= i < |word| ==> u[|before| + i] == word[i];
      assert forall i :: 0 <= i < |before| ==> u[i] == before[i];
      assert forall i :: |before| + |word| <= i < |u| ==> u[i] == after[i - |before| - |word|];
    }
    CodeOfEmbedded(word, u, |before|);
  }

  // ---------------------------------------------------------------- what the code consists of

  predicate Consonants(s: string) {
    forall i :: 0 <= i < |s| ==> s[i] in "0BFHJKLMNPRSTWXY"
  }

  lemma {:induction false} RestHasNoVowel(word: string, w: nat)
    requires w <= |word|
    ensures Consonants(Rest(word, w))
    decreases |word| - w
  {
    if w < |word| {
      EncodeHasNoVowel(word, w);
      hide Encode;
      RestHasNoVowel(word, w + 1 + Encode(word, w).skip);
    }
  }

  lemma EncodeHasNoVowel(word: string, w: nat)
    requires w < |word|
    ensures Consonants(Encode(word, w).out)
  {
    hide IsVowel, AffectsH, MakesSoft, NoGhToF, Ahead, Back;
  }

  /** A code consists of the sixteen sounds; only its first may be a vowel instead. */
  lemma VowelsOnlyAtFront(word: string)
    ensures var s := FullCode(word);
            s == "" || ((s[0] in "AEIOU" || Consonants(s[..1])) && Consonants(s[1..]))
  {
    hide Rest, FirstLetter;
    var w := FirstLetter(word, 0);
    if w < |word| {
      var first := Start(word, w);
      StartIsOne(word, w);
      RestHasNoVowel(word, w + first.skip);
      hide Start, Consonants;
      if first.out != "" {
        assert FullCode(word)[1..] == Rest(word, w + first.skip) && FullCode(word)[..1] == first.out;
      } else {
        ConsonantsSplit(Rest(word, w + first.skip));
        assert FullCode(word) == Rest(word, w + first.skip);
      }
    }
  }

  lemma StartIsOne(word: string, w: nat)
    requires w < |word|
    ensures var out := Start(word, w).out;
            out == "" || (|out| == 1 && (out[0] in "AEIOU" || Consonants(out)))
  {
  }

  lemma ConsonantsSplit(s: string)
    requires Consonants(s)
    ensures s != "" ==> Consonants(s[..1]) && Consonants(s[1..])
  {
  }
}
