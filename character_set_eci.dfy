/** `ZXCharacterSetECI`: the character-set Extended Channel
    Interpretations and their assignment numbers (ISO/IEC 18004:2006
    section 6.4.2). */
module CharacterSetEci {
  import opened Errors

  datatype CharacterSetECI =
    | ASCII | Cp437 | ISO8859_1 | ISO8859_2 | ISO8859_3 | ISO8859_4
    | ISO8859_5 | ISO8859_6 | ISO8859_7 | ISO8859_8 | ISO8859_9 | ISO8859_10
    | ISO8859_11 | ISO8859_13 | ISO8859_14 | ISO8859_15 | ISO8859_16 | Cp1250
    | Cp1251 | Cp1252 | Cp1256 | UnicodeBig_Unmarked | UTF8 | Big5
    | SJIS | GB18030 | EUC_KR

  /** `defaultCharacterSet`. */
  const DefaultCharacterSet: CharacterSetECI := ISO8859_1

  /** `values`, in declaration order. */
  const Values: seq<CharacterSetECI> := [
    ASCII, Cp437, ISO8859_1, ISO8859_2, ISO8859_3, ISO8859_4,
    ISO8859_5, ISO8859_6, ISO8859_7, ISO8859_8, ISO8859_9, ISO8859_10,
    ISO8859_11, ISO8859_13, ISO8859_14, ISO8859_15, ISO8859_16, Cp1250,
    Cp1251, Cp1252, Cp1256, UnicodeBig_Unmarked, UTF8, Big5,
    SJIS, GB18030, EUC_KR
  ]

  /** `lookupIds`: the assignment numbers each character set answers to. */
  function LookupIds(c: CharacterSetECI): (r: seq<int>)
    ensures |r| >= 1
  {
    match c
    case ASCII => [27, 170]
    case Cp437 => [0, 2]
    case ISO8859_1 => [1, 3]
    case ISO8859_2 => [4]
    case ISO8859_3 => [5]
    case ISO8859_4 => [6]
    case ISO8859_5 => [7]
    case ISO8859_6 => [8]
    case ISO8859_7 => [9]
    case ISO8859_8 => [10]
    case ISO8859_9 => [11]
    case ISO8859_10 => [12]
    case ISO8859_11 => [13]
    case ISO8859_13 => [15]
    case ISO8859_14 => [16]
    case ISO8859_15 => [17]
    case ISO8859_16 => [18]
    case Cp1250 => [21]
    case Cp1251 => [22]
    case Cp1252 => [23]
    case Cp1256 => [24]
    case UnicodeBig_Unmarked => [25]
    case UTF8 => [26]
    case Big5 => [28]
    case SJIS => [20]
    case GB18030 => [29]
    case EUC_KR => [30]
  }

  /** `value`: the first lookup id; never nil. */
  function Value(c: CharacterSetECI): (r: Option<int>)
    ensures r == Some(LookupIds(c)[0])
  {
    var ids := LookupIds(c);
    if ids == [] then None else Some(ids[0])
  }

  /** `matches(lookupId:)`. */
  predicate Matches(c: CharacterSetECI, test: int)
  {
    test in LookupIds(c)
  }

  /** The character set that claims an assignment number, read off the
      table by number: the reference for `lookup(lookupId:)`. */
  function Owner(id: int): Option<CharacterSetECI>
  {
    match id
    case 0 => Some(Cp437)
    case 1 => Some(ISO8859_1)
    case 2 => Some(Cp437)
    case 3 => Some(ISO8859_1)
    case 4 => Some(ISO8859_2)
    case 5 => Some(ISO8859_3)
    case 6 => Some(ISO8859_4)
    case 7 => Some(ISO8859_5)
    case 8 => Some(ISO8859_6)
    case 9 => Some(ISO8859_7)
    case 10 => Some(ISO8859_8)
    case 11 => Some(ISO8859_9)
    case 12 => Some(ISO8859_10)
    case 13 => Some(ISO8859_11)
    case 15 => Some(ISO8859_13)
    case 16 => Some(ISO8859_14)
    case 17 => Some(ISO8859_15)
    case 18 => Some(ISO8859_16)
    case 20 => Some(SJIS)
    case 21 => Some(Cp1250)
    case 22 => Some(Cp1251)
    case 23 => Some(Cp1252)
    case 24 => Some(Cp1256)
    case 25 => Some(UnicodeBig_Unmarked)
    case 26 => Some(UTF8)
    case 27 => Some(ASCII)
    case 28 => Some(Big5)
    case 29 => Some(GB18030)
    case 30 => Some(EUC_KR)
    case 170 => Some(ASCII)
    case _ => None
  }

  /** A character set claims exactly the numbers the reference assigns to
      it, so no number is claimed twice. */
  lemma MatchesOwner(c: CharacterSetECI, id: int)
    ensures Matches(c, id) <==> Owner(id) == Some(c)
  {
  }

  /** The position of each case in `values`. */
  function Position(c: CharacterSetECI): (r: int)
    ensures 0 <= r < |Values| && Values[r] == c
  {
    match c
    case ASCII => 0
    case Cp437 => 1
    case ISO8859_1 => 2
    case ISO8859_2 => 3
    case ISO8859_3 => 4
    case ISO8859_4 => 5
    case ISO8859_5 => 6
    case ISO8859_6 => 7
    case ISO8859_7 => 8
    case ISO8859_8 => 9
    case ISO8859_9 => 10
    case ISO8859_10 => 11
    case ISO8859_11 => 12
    case ISO8859_13 => 13
    case ISO8859_14 => 14
    case ISO8859_15 => 15
    case ISO8859_16 => 16
    case Cp1250 => 17
    case Cp1251 => 18
    case Cp1252 => 19
    case Cp1256 => 20
    case UnicodeBig_Unmarked => 21
    case UTF8 => 22
    case Big5 => 23
    case SJIS => 24
    case GB18030 => 25
    case EUC_KR => 26
  }

  /** `values` lists every case exactly once. */
  lemma ValuesOnce()
    ensures |Values| == 27
    ensures forall c :: c in Values
    ensures forall i, j :: 0 <= i < j < |Values| ==> Values[i] != Values[j]
  {
    forall c
      ensures c in Values
    {
      assert Values[Position(c)] == c;
    }
    forall i | 0 <= i < |Values|
      ensures Position(Values[i]) == i
    {
    }
  }

  /** `values.first(where:)` with `matches(lookupId:)`: the earliest
      entry of s that claims `test`. */
  function FirstMatch(s: seq<CharacterSetECI>, test: int): (r: Option<CharacterSetECI>)
    ensures r.Some? ==> r.value in s && Matches(r.value, test)
    ensures r.None? <==> forall i :: 0 <= i < |s| ==> !Matches(s[i], test)
  {
    if s == [] then None
    else if Matches(s[0], test) then Some(s[0])
    else FirstMatch(s[1..], test)
  }

  /** `lookup(lookupId:)`: ids outside 0..899 are a format error;
      otherwise the first character set that claims the id, if any. */
  function Lookup(test: int): (r: Result<Option<CharacterSetECI>>)
    ensures r.Err? <==> test < 0 || test >= 900
    ensures r.Err? ==> r.error == InvalidFormat
    ensures r.Ok? ==> r.value == Owner(test)
  {
    if test < 0 || test >= 900 then Err(InvalidFormat)
    else
      LookupIsOwner(test);
      Ok(FirstMatch(Values, test))
  }

  /** The first match in `values` is the owner of the id. */
  lemma LookupIsOwner(test: int)
    ensures FirstMatch(Values, test) == Owner(test)
  {
    ValuesOnce();
    var found := FirstMatch(Values, test);
    match Owner(test)
    case Some(c) =>
      MatchesOwner(c, test);
      assert Values[Position(c)] == c;
      MatchesOwner(found.value, test);
    case None =>
      if found.Some? {
        MatchesOwner(found.value, test);
      }
  }

  /** Every character set is found again from its value, and that value
      fits the eight-bit ECI field. */
  lemma LookupValue(c: CharacterSetECI)
    ensures Value(c).Some? && 0 <= Value(c).value <= 127
    ensures Lookup(Value(c).value) == Ok(Some(c))
  {
    MatchesOwner(c, Value(c).value);
  }

  /** Numbers in range that no case claims, such as 14 and 19, give no
      character set. */
  lemma UnclaimedIds(id: int)
    requires id == 14 || id == 19
    ensures Lookup(id) == Ok(None)
  {
    assert Owner(id) == None;
  }
}
