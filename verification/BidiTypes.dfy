/** Bidirectional character types and the rules that resolve them, pass by pass over an array, as in
    sections 3.3.3 and 3.3.4 of Unicode Standard Annex #9 (revision 13). */
module BidiTypes {

  // Character types of the code points 0 to 0xf7.
  const LOW_1: string := "bbbbbbbbbtstwsbbbbbbbbbbbbbbsss"
  const LOW_2: string := "twNN%%%NNNNNN,N,N1111111111NNNN"
  const LOW_3: string := "NNNLLLLLLLLLLLLLLLLLLLLLLLLLLNN"
  const LOW_4: string := "NNNNLLLLLLLLLLLLLLLLLLLLLLLLLLN"
  const LOW_5: string := "NNNbbbbbbsbbbbbbbbbbbbbbbbbbbbb"
  const LOW_6: string := "bbbbb,N%%%%NNNNLNNNNN%%11NLNNN1"
  const LOW_7: string := "LNNNNNLLLLLLLLLLLLLLLLLLLLLLLNL"
  const LOW_8: string := "LLLLLLLLLLLLLLLLLLLLLLLLLLLLLLN"
  const LOW_TYPES: string := LOW_1 + LOW_2 + LOW_3 + LOW_4 + LOW_5 + LOW_6 + LOW_7 + LOW_8

  // Those of 0x600 to 0x6ed.
  const ARABIC_1: string := "rrrrrrrrrrrr,rNNmmmmmmrrrrrrrrrrrr"
  const ARABIC_2: string := "rrrrrrrrrrrrrrrrrrrrrrrrrrrrrrrrrr"
  const ARABIC_3: string := "rrrrrrrmmmmmmmmmmmmmmrrrrrrrnnnnnn"
  const ARABIC_4: string := "nnnn%nnrrrmrrrrrrrrrrrrrrrrrrrrrrr"
  const ARABIC_5: string := "rrrrrrrrrrrrrrrrrrrrrrrrrrrrrrrrrr"
  const ARABIC_6: string := "rrrrrrrrrrrrrrrrrrrrrrrrrrrrrrrrrr"
  const ARABIC_7: string := "rrrrrrrrrrmmmmmmmmmmmmmmmmmmmNmmmm"
  const ARABIC_TYPES: string := ARABIC_1 + ARABIC_2 + ARABIC_3 + ARABIC_4 + ARABIC_5 + ARABIC_6 + ARABIC_7

  /** charType */
  function CharType(code: int): char
    requires 0 <= code
  {
    TableSizes();
    if code <= 0xf7 then LOW_TYPES[code]
    else if 0x590 <= code <= 0x5f4 then 'R'
    else if 0x600 <= code <= 0x6ed then ARABIC_TYPES[code - 0x600]
    else if 0x6ee <= code <= 0x8ac then 'r'
    else if 0x2000 <= code <= 0x200b then 'w'
    else if code == 0x200c then 'b'
    else 'L'
  }

  lemma TableSizes()
    ensures |LOW_TYPES| == 0xf8 && |ARABIC_TYPES| == 0xee
  {
  }

  /** A type that is there outside Hebrew and Arabic. */
  predicate PlainType(t: char)
  {
    t == 'L' || t == 'b' || t == 's' || t == 't' || t == 'w' || t == 'N' || t == ',' || t == '%' || t == '1'
  }

  predicate KnownType(t: char) { PlainType(t) || t == 'R' || t == 'r' || t == 'n' || t == 'm' }

  ghost predicate AllTypes(p: char -> bool, s: string)
  {
    forall i: nat | i < |s| :: p(s[i])
  }

  lemma AllOfBoth(p: char -> bool, s: string, t: string)
    requires AllTypes(p, s) && AllTypes(p, t)
    ensures AllTypes(p, s + t)
  {
  }

  lemma LowTypesArePlain()
    ensures AllTypes(PlainType, LOW_TYPES)
  {
    LowRows1ArePlain();
    LowRows2ArePlain();
    hide AllTypes;
    AllOfBoth(PlainType, LOW_1, LOW_2);
    AllOfBoth(PlainType, LOW_1 + LOW_2, LOW_3);
    AllOfBoth(PlainType, LOW_1 + LOW_2 + LOW_3, LOW_4);
    AllOfBoth(PlainType, LOW_1 + LOW_2 + LOW_3 + LOW_4, LOW_5);
    AllOfBoth(PlainType, LOW_1 + LOW_2 + LOW_3 + LOW_4 + LOW_5, LOW_6);
    AllOfBoth(PlainType, LOW_1 + LOW_2 + LOW_3 + LOW_4 + LOW_5 + LOW_6, LOW_7);
    AllOfBoth(PlainType, LOW_1 + LOW_2 + LOW_3 + LOW_4 + LOW_5 + LOW_6 + LOW_7, LOW_8);
  }

  lemma LowRows1ArePlain()
    ensures AllTypes(PlainType, LOW_1) && AllTypes(PlainType, LOW_2)
    ensures AllTypes(PlainType, LOW_3) && AllTypes(PlainType, LOW_4)
  {
  }

  lemma LowRows2ArePlain()
    ensures AllTypes(PlainType, LOW_5) && AllTypes(PlainType, LOW_6)
    ensures AllTypes(PlainType, LOW_7) && AllTypes(PlainType, LOW_8)
  {
  }

  lemma ArabicTypesAreKnown()
    ensures AllTypes(KnownType, ARABIC_TYPES)
  {
    ArabicRows1AreKnown();
    ArabicRows2AreKnown();
    hide AllTypes;
    AllOfBoth(KnownType, ARABIC_1, ARABIC_2);
    AllOfBoth(KnownType, ARABIC_1 + ARABIC_2, ARABIC_3);
    AllOfBoth(KnownType, ARABIC_1 + ARABIC_2 + ARABIC_3, ARABIC_4);
    AllOfBoth(KnownType, ARABIC_1 + ARABIC_2 + ARABIC_3 + ARABIC_4, ARABIC_5);
    AllOfBoth(KnownType, ARABIC_1 + ARABIC_2 + ARABIC_3 + ARABIC_4 + ARABIC_5, ARABIC_6);
    AllOfBoth(KnownType, ARABIC_1 + ARABIC_2 + ARABIC_3 + ARABIC_4 + ARABIC_5 + ARABIC_6, ARABIC_7);
  }

  lemma ArabicRows1AreKnown()
    ensures AllTypes(KnownType, ARABIC_1) && AllTypes(KnownType, ARABIC_2)
    ensures AllTypes(KnownType, ARABIC_3) && AllTypes(KnownType, ARABIC_4)
  {
  }

  lemma ArabicRows2AreKnown()
    ensures AllTypes(KnownType, ARABIC_5) && AllTypes(KnownType, ARABIC_6)
    ensures AllTypes(KnownType, ARABIC_7)
  {
  }

  /** The + of the rule W4 and the ! of the rule W5 are no types, and only Hebrew and Arabic have right-to-left ones. */
  lemma TypesAreKnown(code: int)
    requires 0 <= code
    ensures KnownType(CharType(code))
    ensures code < 0x590 || code > 0x8ac ==> PlainType(CharType(code))
  {
    TableSizes();
    LowTypesArePlain();
    ArabicTypesAreKnown();
    assert code <= 0xf7 ==> PlainType(LOW_TYPES[code]);
    assert 0x600 <= code <= 0x6ed ==> KnownType(ARABIC_TYPES[code - 0x600]);
  }

  /** The code points that \\s matches (ECMAScript 5.1, sections 7.2, 7.3 and 15.10.2.12). */
  predicate IsSpace(code: int)
  {
    || 9 <= code <= 13 || code == 0x20 || code == 0xa0 || code == 0x1680 || code == 0x180e
    || 0x2000 <= code <= 0x200a || code == 0x2028 || code == 0x2029 || code == 0x202f || code == 0x205f
    || code == 0x3000 || code == 0xfeff
  }

  predicate IsNeutral(t: char) { t == 's' || t == 't' || t == 'w' || t == 'N' }

  predicate NotNeutral(t: char) { !IsNeutral(t) }

  /** What white space can be before the rules are applied: neutral, a common separator, or left-to-right. */
  predicate SpaceType(t: char) { IsNeutral(t) || t == ',' || t == 'L' }

  lemma SpacesAreHarmless(code: int)
    requires 0 <= code && IsSpace(code)
    ensures SpaceType(CharType(code))
  {
    LowSpaces();
    hide LOW_TYPES;
  }

  lemma LowSpaces()
    ensures |LOW_TYPES| == 0xf8 && forall i: nat | 9 <= i <= 13 :: IsNeutral(LOW_TYPES[i])
    ensures LOW_TYPES[0x20] == 'w' && LOW_TYPES[0xa0] == ','
  {
    assert LOW_TYPES[9] == 't' && LOW_TYPES[10] == 's' && LOW_TYPES[11] == 't' && LOW_TYPES[12] == 'w' &&
      LOW_TYPES[13] == 's';
  }
}
