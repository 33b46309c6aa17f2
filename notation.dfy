/** The move notation codec of `modules/rubik.js`: `parse_rotations`,
    `rotation_to_string`, `rotations_to_string`, and the laws tying them
    to the signed rotation codes that `rotate` decodes. */
module Notation {
  import opened Wrappers
  import opened Rubik

  /** The `rotation` table: a move letter and its base code. */
  function LetterCode(c: char): (r: Option<int>)
    ensures r.Some? ==> IsBase(r.value)
  {
    if c == 'F' then Some(F)
    else if c == 'B' then Some(B)
    else if c == 'R' then Some(R)
    else if c == 'L' then Some(L)
    else if c == 'D' then Some(D)
    else if c == 'U' then Some(U)
    else if c == 'M' then Some(M)
    else if c == 'E' then Some(E)
    else if c == 'S' then Some(S)
    else if c == 'X' then Some(X)
    else if c == 'Y' then Some(Y)
    else if c == 'Z' then Some(Z)
    else None
  }

  /** The codes a notation string can denote: b, b' (that is -b) and b2
      (that is 2b) for a base b. */
  predicate IsCode(c: int) {
    IsBase(c) || IsBase(-c) || (c % 2 == 0 && IsBase(c / 2))
  }

  /** Every character is ASCII, where `toUpperCase` and `toLowerCase` only
      map the 26 letters. */
  predicate Ascii(s: string) {
    forall i :: 0 <= i < |s| ==> s[i] < '\U{80}'
  }

  /** `toUpperCase` on one character (ASCII letters only). */
  function UpperChar(c: char): char {
    if 'a' <= c <= 'z' then (c as int - 32) as char else c
  }

  function Upper(s: string): (r: string)
    ensures |r| == |s|
  {
    seq(|s|, i requires 0 <= i < |s| => UpperChar(s[i]))
  }

  function LowerChar(c: char): char {
    if 'A' <= c <= 'Z' then (c as int + 32) as char else c
  }

  function Lower(s: string): (r: string)
    ensures |r| == |s|
  {
    seq(|s|, i requires 0 <= i < |s| => LowerChar(s[i]))
  }

  /** The global match of /[FBRLDUMESXYZ](?:'|2)?/ over an upper-cased
      string, each match mapped to its code: a letter, optionally followed
      by a prime (counter-clockwise) or a 2 (double); any other character
      is skipped. */
  function Matches(s: string): (r: seq<int>)
    ensures |r| <= |s|
    ensures forall i :: 0 <= i < |r| ==> IsCode(r[i])
  {
    if s == [] then []
    else match LetterCode(s[0])
      case None => Matches(s[1..])
      case Some(b) =>
        if |s| >= 2 && s[1] == '\'' then [-b] + Matches(s[2..])
        else if |s| >= 2 && s[1] == '2' then [2 * b] + Matches(s[2..])
        else [b] + Matches(s[1..])
  }

  /** `parse_rotations`: at most one code per character, each a base move,
      its inverse or its double. */
  function ParseRotations(s: string): (r: seq<int>)
    ensures |r| <= |s|
    ensures forall i :: 0 <= i < |r| ==> IsCode(r[i])
  {
    Matches(Upper(s))
  }

  /** `rotation_to_string`: the move letter and its suffix, or "?" for 0
      and for any code whose base has no table entry.  A name is the letter
      of the code's base, then a prime exactly for a negative code and a 2
      exactly for a positive even one. */
  function RotationToString(code: int): (r: string)
    ensures 1 <= |r| <= 2
    ensures r != "?" ==> LetterCode(r[0]) == Some(BaseRotation(code))
    ensures r != "?" ==> (r[1..] == "'" <==> code < 0) && (r[1..] == "2" <==> code > 0 && code % 2 == 0)
    ensures r != "?" ==> r[1..] == "" || r[1..] == "'" || r[1..] == "2"
  {
    if code == 0 then "?"
    else
      var (base, suffix) :=
        if code < 0 then (-code, "'")
        else if code % 2 == 0 then (code / 2, "2")
        else (code, "");
      match RotateData(base)
      case None => "?"
      case Some(m) => [m.name] + suffix
  }

  /** `rotations_to_string`: the codes joined by single spaces, one or two
      characters per code. */
  function RotationsToString(codes: seq<int>): (r: string)
    ensures r == [] <==> codes == []
    ensures codes != [] ==> 2 * |codes| - 1 <= |r| <= 3 * |codes| - 1
  {
    if codes == [] then ""
    else if |codes| == 1 then RotationToString(codes[0])
    else RotationToString(codes[0]) + (" " + RotationsToString(codes[1..]))
  }

  // ---------------------------------------------------------------------
  // Laws

  /** Every table entry is named by the letter the notation reads for it. */
  lemma NameLetter(b: int)
    requires IsBase(b)
    ensures LetterCode(RotateData(b).value.name) == Some(b)
  {
  }

  /** `rotation_to_string` names a code exactly when it is b, b' or b2. */
  lemma ToStringDefined(code: int)
    ensures RotationToString(code) != "?" <==> IsCode(code)
  {
    if code < 0 {
      if IsBase(-code) {
        NameLetter(-code);
      }
      assert !(code % 2 == 0 && IsBase(code / 2));
    } else if code > 0 && code % 2 == 0 {
      if IsBase(code / 2) {
        NameLetter(code / 2);
      }
    } else if code > 0 {
      if IsBase(code) {
        NameLetter(code);
        assert RotationToString(code) == [RotateData(code).value.name];
      }
    }
  }

  /** `rotation_to_string(0) == '?'`, and a counter-clockwise double turn
      (-2b) has no name either. */
  lemma ToStringUnnamed(b: int)
    requires IsBase(b)
    ensures RotationToString(0) == "?"
    ensures RotationToString(-2 * b) == "?"
  {
    assert !IsBase(2 * b);
  }

  /** `base_rotation` maps b, b', b2 and -2b to b. */
  lemma BaseOfCodes(b: int)
    requires IsBase(b)
    ensures BaseRotation(b) == b && BaseRotation(-b) == b
    ensures BaseRotation(2 * b) == b && BaseRotation(-2 * b) == b
  {
  }

  /** Parsing the name of one code followed by a space or the end reads
      that code back. */
  lemma {:induction false} MatchOne(code: int, rest: string)
    requires IsCode(code)
    requires rest == [] || rest[0] == ' '
    ensures Matches(RotationToString(code) + rest) == [code] + Matches(rest)
  {
    if code < 0 {
      var b := -code;
      NameLetter(b);
      MatchSuffixed(RotateData(b).value.name, b, '\'', rest);
      assert RotationToString(code) == [RotateData(b).value.name, '\''];
    } else if code % 2 == 0 {
      var b := code / 2;
      NameLetter(b);
      MatchSuffixed(RotateData(b).value.name, b, '2', rest);
      assert RotationToString(code) == [RotateData(b).value.name, '2'];
    } else {
      NameLetter(code);
      MatchLetter(RotateData(code).value.name, code, rest);
      assert RotationToString(code) == [RotateData(code).value.name];
    }
  }

  /** A letter followed by a prime or a 2 reads as b' or b2. */
  lemma MatchSuffixed(c: char, b: int, suffix: char, rest: string)
    requires LetterCode(c) == Some(b) && (suffix == '\'' || suffix == '2')
    ensures Matches([c, suffix] + rest) == [if suffix == '2' then 2 * b else -b] + Matches(rest)
  {
    assert ([c, suffix] + rest)[2..] == rest;
  }

  /** A letter followed by a space or the end reads as b. */
  lemma MatchLetter(c: char, b: int, rest: string)
    requires LetterCode(c) == Some(b)
    requires rest == [] || rest[0] == ' '
    ensures Matches([c] + rest) == [b] + Matches(rest)
  {
    assert ([c] + rest)[1..] == rest;
  }

  /** No character of a formatted code list is a lower-case letter. */
  lemma {:induction false} UpperOfFormatted(codes: seq<int>)
    ensures Upper(RotationsToString(codes)) == RotationsToString(codes)
  {
    var s := RotationsToString(codes);
    forall i | 0 <= i < |s|
      ensures UpperChar(s[i]) == s[i]
    {
      FormattedChar(codes, i);
    }
  }

  lemma {:induction false} FormattedChar(codes: seq<int>, i: int)
    requires 0 <= i < |RotationsToString(codes)|
    ensures !('a' <= RotationsToString(codes)[i] <= 'z')
  {
    NameNotLower(codes[0]);
    if |codes| > 1 {
      var head := RotationToString(codes[0]);
      if i > |head| {
        FormattedChar(codes[1..], i - |head| - 1);
      }
    }
  }

  /** A code's name has no lower-case letter. */
  lemma NameNotLower(code: int)
    ensures forall j :: 0 <= j < |RotationToString(code)| ==> !('a' <= RotationToString(code)[j] <= 'z')
  {
    var r := RotationToString(code);
    if |r| == 2 {
      assert r[1] == r[1..][0];
    }
  }

  /** The round trip: parsing the formatted codes gives them back. */
  lemma {:induction false} MatchesOfFormatted(codes: seq<int>)
    requires forall i :: 0 <= i < |codes| ==> IsCode(codes[i])
    ensures Matches(RotationsToString(codes)) == codes
  {
    if |codes| == 1 {
      MatchOne(codes[0], []);
      assert RotationToString(codes[0]) + [] == RotationsToString(codes);
    } else if |codes| > 1 {
      var rest := RotationsToString(codes[1..]);
      MatchesOfFormatted(codes[1..]);
      MatchOne(codes[0], " " + rest);
      MatchSpace(rest);
      assert [codes[0]] + codes[1..] == codes;
    }
  }

  /** A leading space is skipped. */
  lemma MatchSpace(rest: string)
    ensures Matches(" " + rest) == Matches(rest)
  {
    assert (" " + rest)[1..] == rest;
  }

  /** `parse_rotations(rotations_to_string(rs)) == rs` for codes b, b', b2. */
  lemma {:induction false} ParseRoundTrip(codes: seq<int>)
    requires forall i :: 0 <= i < |codes| ==> IsCode(codes[i])
    ensures ParseRotations(RotationsToString(codes)) == codes
  {
    UpperOfFormatted(codes);
    MatchesOfFormatted(codes);
  }

  /** Parsing an ASCII string ignores case. */
  lemma ParseIgnoresCase(s: string)
    requires Ascii(s)
    ensures ParseRotations(Lower(s)) == ParseRotations(s)
  {
    assert Upper(Lower(s)) == Upper(s);
  }

  /** A leading ASCII character that is not a move letter is skipped. */
  lemma ParseSkips(c: char, s: string)
    requires c < '\U{80}' && LetterCode(UpperChar(c)).None?
    ensures ParseRotations([c] + s) == ParseRotations(s)
  {
    assert Upper([c] + s) == [UpperChar(c)] + Upper(s);
    assert ([UpperChar(c)] + Upper(s))[1..] == Upper(s);
  }

  /** The parse is empty exactly when the string holds no move letter. */
  lemma {:induction false} MatchesEmpty(s: string)
    ensures Matches(s) == [] <==> forall i :: 0 <= i < |s| ==> LetterCode(s[i]).None?
  {
    if s != [] {
      MatchesEmpty(s[1..]);
      assert forall i :: 1 <= i < |s| ==> s[i] == s[1..][i - 1];
    }
  }

  /** An ASCII string parses to nothing exactly when none of its
      characters upper-cases to a move letter. */
  lemma ParseEmpty(s: string)
    requires Ascii(s)
    ensures ParseRotations(s) == [] <==> forall i :: 0 <= i < |s| ==> LetterCode(UpperChar(s[i])).None?
  {
    MatchesEmpty(Upper(s));
    assert forall i :: 0 <= i < |s| ==> Upper(s)[i] == UpperChar(s[i]);
  }
}
