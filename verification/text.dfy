/** The string operations the core relies on: `toLowerCase`,
    `toUpperCase` of one character, and `includes`. Case mapping is modelled
    on the ASCII letters. */
module Text {

  predicate IsUpper(c: char) { 'A' <= c <= 'Z' }

  predicate IsLower(c: char) { 'a' <= c <= 'z' }

  /** An upper-case letter becomes its lower-case letter; every other
      character is kept. */
  function LowerChar(c: char): (d: char)
    ensures !IsUpper(d)
    ensures IsUpper(c) ==> IsLower(d) && d as int == c as int + 32
    ensures !IsUpper(c) ==> d == c
  {
    if IsUpper(c) then (c as int + 32) as char else c
  }

  /** A lower-case letter becomes its upper-case letter; every other
      character is kept. */
  function UpperChar(c: char): (d: char)
    ensures !IsLower(d)
    ensures IsLower(c) ==> IsUpper(d) && d as int == c as int - 32
    ensures !IsLower(c) ==> d == c
  {
    if IsLower(c) then (c as int - 32) as char else c
  }

  /** The two case mappings undo each other: lower-casing an upper-cased
      character gives it back unless it was an upper-case letter already. */
  lemma CaseRoundTrip(c: char)
    ensures !IsUpper(c) ==> LowerChar(UpperChar(c)) == c
    ensures !IsLower(c) ==> UpperChar(LowerChar(c)) == c
  {
  }

  /** `s.toLowerCase()`. */
  function Lower(s: string): (r: string)
    ensures |r| == |s|
    ensures forall i :: 0 <= i < |s| ==> r[i] == LowerChar(s[i])
  {
    seq(|s|, i requires 0 <= i < |s| => LowerChar(s[i]))
  }

  /** Lower-casing leaves no upper-case letter and is idempotent. */
  lemma LowerIsLowered(s: string)
    ensures forall i :: 0 <= i < |s| ==> !IsUpper(Lower(s)[i])
    ensures Lower(Lower(s)) == Lower(s)
  {
  }

  /** `needle` occurs in `hay` starting at position `i`. */
  ghost predicate OccursAt(hay: string, needle: string, i: int) {
    0 <= i && i + |needle| <= |hay| && hay[i..i + |needle|] == needle
  }

  /** `hay.includes(needle)`: scan `hay` for a position where `needle` is a
      prefix of the rest. The empty string is included in every string. */
  function Contains(hay: string, needle: string): bool
    decreases |hay|
  {
    if needle <= hay then true
    else if hay == [] then false
    else Contains(hay[1..], needle)
  }

  lemma OccursShift(hay: string, needle: string, i: int)
    requires |hay| > 0 && 0 <= i
    ensures OccursAt(hay[1..], needle, i) <==> OccursAt(hay, needle, i + 1)
  {
    if 0 <= i && i + |needle| <= |hay| - 1 {
      assert hay[1..][i..i + |needle|] == hay[i + 1..i + 1 + |needle|];
    }
  }

  /** The scan agrees with the definition of a substring: `Contains` holds
      exactly when `needle` occurs at some position of `hay`. */
  lemma {:induction false} ContainsIffOccurs(hay: string, needle: string)
    ensures Contains(hay, needle) <==> exists i :: OccursAt(hay, needle, i)
    decreases |hay|
  {
    if needle <= hay {
      assert hay[0..|needle|] == needle;
      assert OccursAt(hay, needle, 0);
    } else if hay == [] {
      assert |needle| > 0;
      forall i ensures !OccursAt(hay, needle, i) {
      }
    } else {
      ContainsIffOccurs(hay[1..], needle);
      if Contains(hay, needle) {
        var k :| OccursAt(hay[1..], needle, k);
        OccursShift(hay, needle, k);
      } else {
        forall i | OccursAt(hay, needle, i) ensures false {
          if i > 0 {
            OccursShift(hay, needle, i - 1);
          }
        }
      }
    }
  }

  /** The first character upper-cased, the rest unchanged; the empty
      string stays empty. */
  function Capitalize(s: string): (r: string)
    ensures |r| == |s|
    ensures |s| > 0 ==> r[0] == UpperChar(s[0]) && !IsLower(r[0]) && r[1..] == s[1..]
    ensures |s| > 0 && !IsLower(s[0]) ==> r == s
  {
    if s == [] then [] else [UpperChar(s[0])] + s[1..]
  }

  /** Capitalizing a string with no upper-case letter loses nothing:
      lower-casing the result gives the string back. */
  lemma CapitalizeLowersBack(s: string)
    requires forall i :: 0 <= i < |s| ==> !IsUpper(s[i])
    ensures Lower(Capitalize(s)) == s
  {
    var r := Capitalize(s);
    forall i | 0 <= i < |s|
      ensures Lower(r)[i] == s[i]
    {
      if i == 0 {
        CaseRoundTrip(s[0]);
      } else {
        assert r[i] == r[1..][i - 1] == s[1..][i - 1];
      }
    }
  }
}
