/**
  What the two digit tables of hexadecimal formatting write: the text of an address tells its
  bytes by the character codes alone, and the tables differ in the case of letters only.
*/
module HexText {
  import opened ConsoleScript
  import opened MacAddress

  /** The value of a hexadecimal digit, from its character code; -1 for other characters. */
  function HexValue(c: char): int {
    if '0' <= c <= '9' then c as int - '0' as int
    else if 'a' <= c <= 'f' then c as int - 'a' as int + 10
    else if 'A' <= c <= 'F' then c as int - 'A' as int + 10
    else -1
  }

  lemma DigitValues(k: nat)
    requires k < 16
    ensures HexValue(UPPER[k]) == k == HexValue(LOWER[k])
    ensures SameLetter(UPPER[k], LOWER[k]) && !('a' <= UPPER[k] <= 'z') && !('A' <= LOWER[k] <= 'Z')
  {
  }

  lemma ByteAt(d: Alphabet, a: Mac, i: nat)
    requires i < 6
    ensures |Canonical(d, a)| == 17 && Renders(d, a[i], Canonical(d, a), 3 * i)
  {
    CanonicalShape(d, a);
    ByteOfShape(d, a, Canonical(d, a), i);
  }

  lemma ByteOfShape(d: Alphabet, a: Mac, s: string, i: nat)
    requires IsCanonical(d, a, s) && i < 6
    ensures Renders(d, a[i], s, 3 * i)
  {
  }

  lemma RenderedValue(d: Alphabet, b: Byte, s: string, at: nat)
    requires at + 2 <= |s| && Renders(d, b, s, at) && (d == UPPER || d == LOWER)
    ensures HexValue(s[at]) == b / 16 && HexValue(s[at + 1]) == b % 16
  {
    DigitValues(b / 16);
    DigitValues(b % 16);
  }

  /** Position by position, the digits of the canonical text have the values of the bytes. */
  lemma CanonicalTellsBytes(d: Alphabet, a: Mac, i: nat)
    requires (d == UPPER || d == LOWER) && i < 6
    ensures var s := Canonical(d, a);
            && |s| == 17 && 0 <= HexValue(s[3 * i]) < 16 && 0 <= HexValue(s[3 * i + 1]) < 16
            && 16 * HexValue(s[3 * i]) + HexValue(s[3 * i + 1]) == a[i]
  {
    ByteAt(d, a, i);
    RenderedValue(d, a[i], Canonical(d, a), 3 * i);
  }

  /** The same character but for the case of a letter, and the case is the table's. */
  predicate CaseFits(upper: char, lower: char) {
    SameLetter(upper, lower) && !('a' <= upper <= 'z') && !('A' <= lower <= 'Z')
  }

  lemma RenderedCase(b: Byte, s: string, t: string, at: nat)
    requires at + 2 <= |s| == |t| && Renders(UPPER, b, s, at) && Renders(LOWER, b, t, at)
    ensures CaseFits(s[at], t[at]) && CaseFits(s[at + 1], t[at + 1])
  {
    DigitValues(b / 16);
    DigitValues(b % 16);
  }

  predicate CaseFitsAt(s: string, t: string, at: nat)
    requires at + 2 <= |s| == |t|
  {
    CaseFits(s[at], t[at]) && CaseFits(s[at + 1], t[at + 1])
  }

  lemma CaseOfByte(a: Mac, i: nat)
    requires i < 6
    ensures var s, t := Canonical(UPPER, a), Canonical(LOWER, a);
            |s| == 17 == |t| && CaseFitsAt(s, t, 3 * i)
  {
    ByteAt(UPPER, a, i);
    ByteAt(LOWER, a, i);
    RenderedCase(a[i], Canonical(UPPER, a), Canonical(LOWER, a), 3 * i);
  }

  predicate HasDashes(s: string) {
    |s| == 17 && s[2] == s[5] == s[8] == s[11] == s[14] == '-'
  }

  lemma DashesStay(d: Alphabet, a: Mac)
    ensures HasDashes(Canonical(d, a))
  {
    CanonicalShape(d, a);
  }

  lemma CaseFitsEverywhere(s: string, t: string)
    requires HasDashes(s) && HasDashes(t)
    requires CaseFitsAt(s, t, 0) && CaseFitsAt(s, t, 3) && CaseFitsAt(s, t, 6)
    requires CaseFitsAt(s, t, 9) && CaseFitsAt(s, t, 12) && CaseFitsAt(s, t, 15)
    ensures SameUpToCase(s, t)
    ensures forall k :: 0 <= k < |s| ==> !('a' <= s[k] <= 'z')
    ensures forall k :: 0 <= k < |t| ==> !('A' <= t[k] <= 'Z')
  {
    forall k | 0 <= k < 17
      ensures CaseFits(s[k], t[k])
    {
    }
  }

  /** The two tables write the same text up to the case of letters, one without small letters
      and the other without capitals. */
  lemma CanonicalCase(a: Mac)
    ensures var s, t := Canonical(UPPER, a), Canonical(LOWER, a);
            && SameUpToCase(s, t)
            && (forall k :: 0 <= k < |s| ==> !('a' <= s[k] <= 'z'))
            && (forall k :: 0 <= k < |t| ==> !('A' <= t[k] <= 'Z'))
  {
    DashesStay(UPPER, a);
    DashesStay(LOWER, a);
    CaseOfByte(a, 0);
    CaseOfByte(a, 1);
    CaseOfByte(a, 2);
    CaseOfByte(a, 3);
    CaseOfByte(a, 4);
    CaseOfByte(a, 5);
    CaseFitsEverywhere(Canonical(UPPER, a), Canonical(LOWER, a));
  }
}
