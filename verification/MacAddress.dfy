/**
  The text form in which adapter addresses are compared: six bytes in hexadecimal, padded
  with spaces to two characters, joined by dashes, with the padding then replaced by zeros.
*/
module MacAddress {
  import opened Options
  import opened Substitution
  import Locality

  type Byte = x: int | 0 <= x < 256

  type Mac = s: seq<Byte> | |s| == 6 witness [0, 0, 0, 0, 0, 0]

  /** The digits that the formatting library uses for hexadecimal. */
  type Alphabet = d: string | IsAlphabet(d) witness "0123456789abcdef"

  const LOWER: Alphabet := "0123456789abcdef"
  const UPPER: Alphabet := "0123456789ABCDEF"

  predicate IsAlphabet(d: string) {
    && |d| == 16
    && (forall i, j :: 0 <= i < j < 16 ==> d[i] != d[j])
    && ' ' !in d
    && '-' !in d
  }

  /** The character that replaces the padding is no digit of positive value. */
  predicate Unambiguous(d: Alphabet) {
    '0' !in d[1..]
  }

  // ------------------------------------------------------------------
  // Formatting
  // ------------------------------------------------------------------

  function Hex(d: Alphabet, b: Byte): string {
    if b < 16 then [d[b]] else [d[b / 16], d[b % 16]]
  }

  /** A field of the format: hexadecimal, right-aligned in two characters. */
  function Field(d: Alphabet, b: Byte): string {
    if |Hex(d, b)| < 2 then " " + Hex(d, b) else Hex(d, b)
  }

  function Format(d: Alphabet, a: Mac): string {
    Field(d, a[0]) + "-" + Field(d, a[1]) + "-" + Field(d, a[2]) + "-" +
    (Field(d, a[3]) + "-" + Field(d, a[4]) + "-" + Field(d, a[5]))
  }

  function Canonical(d: Alphabet, a: Mac): string {
    Rewrite(Format(d, a), " ", "0")
  }

  /** An occurrence of a space cannot lie across a dash, so both sides are padded by themselves. */
  lemma PadAroundDash(x: string, y: string)
    ensures Rewrite(x + "-" + y, " ", "0") == Rewrite(x, " ", "0") + "-" + Rewrite(y, " ", "0")
  {
    Locality.LocalityWithoutStraddling(x + "-", y, " ", "0");
    Locality.LocalityWithoutStraddling(x, "-", " ", "0");
    assert Rewrite("-", " ", "0") == "-" by {
      UnchangedIff("-", " ", "0");
    }
  }

  /** A field with its padding replaced. */
  function Padded(d: Alphabet, b: Byte): string {
    Rewrite(Field(d, b), " ", "0")
  }

  /** One call on the whole text does the same as one call on each field. */
  lemma CanonicalByFields(d: Alphabet, a: Mac)
    ensures Canonical(d, a) ==
              Padded(d, a[0]) + "-" + Padded(d, a[1]) + "-" + Padded(d, a[2]) + "-" +
              (Padded(d, a[3]) + "-" + Padded(d, a[4]) + "-" + Padded(d, a[5]))
  {
    ThreeByFields(Field(d, a[0]), Field(d, a[1]), Field(d, a[2]));
    ThreeByFields(Field(d, a[3]), Field(d, a[4]), Field(d, a[5]));
    PadAroundDash(Field(d, a[0]) + "-" + Field(d, a[1]) + "-" + Field(d, a[2]),
                  Field(d, a[3]) + "-" + Field(d, a[4]) + "-" + Field(d, a[5]));
  }

  lemma ThreeByFields(x: string, y: string, z: string)
    ensures Rewrite(x + "-" + y + "-" + z, " ", "0") ==
              Rewrite(x, " ", "0") + "-" + Rewrite(y, " ", "0") + "-" + Rewrite(z, " ", "0")
  {
    PadAroundDash(x + "-" + y, z);
    PadAroundDash(x, y);
  }

  /** With single characters, a rewrite is a substitution of characters in place. */
  lemma {:induction false} RewriteChars(text: string, x: char, y: char)
    ensures var r := Rewrite(text, [x], [y]);
            |r| == |text| && forall i :: 0 <= i < |text| ==> r[i] == if text[i] == x then y else text[i]
  {
    if text != "" {
      RewriteChars(text[1..], x, y);
      assert text[..1] == [text[0]];
    }
  }

  function HighChar(d: Alphabet, b: Byte): char {
    if b < 16 then '0' else d[b / 16]
  }

  /** Canonical form, position by position. */
  ghost predicate IsCanonical(d: Alphabet, a: Mac, s: string) {
    && |s| == 17
    && s[2] == s[5] == s[8] == s[11] == s[14] == '-'
    && Renders(d, a[0], s, 0) && Renders(d, a[1], s, 3) && Renders(d, a[2], s, 6)
    && Renders(d, a[3], s, 9) && Renders(d, a[4], s, 12) && Renders(d, a[5], s, 15)
  }

  ghost predicate Renders(d: Alphabet, b: Byte, s: string, at: nat)
    requires at + 2 <= |s|
  {
    s[at] == HighChar(d, b) && s[at + 1] == d[b % 16]
  }

  lemma FieldChars(d: Alphabet, b: Byte)
    ensures |Field(d, b)| == 2
    ensures Field(d, b)[0] == if b < 16 then ' ' else d[b / 16]
    ensures Field(d, b)[1] == d[b % 16]
  {
  }

  /** Fields and dashes of three bytes of the format. */
  lemma HalfChars(d: Alphabet, x: Byte, y: Byte, z: Byte)
    ensures var h := Field(d, x) + "-" + Field(d, y) + "-" + Field(d, z);
            && |h| == 8 && h[2] == h[5] == '-'
            && h[0..2] == Field(d, x) && h[3..5] == Field(d, y) && h[6..8] == Field(d, z)
  {
    FieldChars(d, x);
    FieldChars(d, y);
    FieldChars(d, z);
  }

  lemma FormatChars(d: Alphabet, a: Mac)
    ensures var s := Format(d, a);
            && |s| == 17
            && s[2] == s[5] == s[8] == s[11] == s[14] == '-'
            && s[0..2] == Field(d, a[0]) && s[3..5] == Field(d, a[1]) && s[6..8] == Field(d, a[2])
            && s[9..11] == Field(d, a[3]) && s[12..14] == Field(d, a[4]) && s[15..17] == Field(d, a[5])
  {
    var s := Format(d, a);
    var left := Field(d, a[0]) + "-" + Field(d, a[1]) + "-" + Field(d, a[2]);
    var right := Field(d, a[3]) + "-" + Field(d, a[4]) + "-" + Field(d, a[5]);
    HalfChars(d, a[0], a[1], a[2]);
    HalfChars(d, a[3], a[4], a[5]);
    HalvesAppend(left, right, s);
  }

  lemma HalvesAppend(left: string, right: string, s: string)
    requires |left| == |right| == 8 && s == left + "-" + right
    ensures |s| == 17 && s[8] == '-'
    ensures s[2] == left[2] && s[5] == left[5] && s[11] == right[2] && s[14] == right[5]
    ensures s[0..2] == left[0..2] && s[3..5] == left[3..5] && s[6..8] == left[6..8]
    ensures s[9..11] == right[0..2] && s[12..14] == right[3..5] && s[15..17] == right[6..8]
  {
  }

  lemma RendersField(d: Alphabet, b: Byte, f: string, at: nat)
    requires at + 2 <= |f| && f[at..at + 2] == Field(d, b)
    requires |Rewrite(f, " ", "0")| == |f|
    requires forall i :: 0 <= i < |f| ==> Rewrite(f, " ", "0")[i] == if f[i] == ' ' then '0' else f[i]
    ensures Renders(d, b, Rewrite(f, " ", "0"), at)
  {
    FieldChars(d, b);
    assert f[at] == f[at..at + 2][0] && f[at + 1] == f[at..at + 2][1];
    assert d[b / 16] in d && d[b % 16] in d;
  }

  /** After the call to `StringReplace` the text has 17 characters, dashes in the five fixed
      places, two digits for each byte and no space. */
  lemma CanonicalShape(d: Alphabet, a: Mac)
    ensures IsCanonical(d, a, Canonical(d, a))
    ensures ' ' !in Canonical(d, a)
  {
    var f := Format(d, a);
    FormatChars(d, a);
    RewriteChars(f, ' ', '0');
    RendersField(d, a[0], f, 0);
    RendersField(d, a[1], f, 3);
    RendersField(d, a[2], f, 6);
    RendersField(d, a[3], f, 9);
    RendersField(d, a[4], f, 12);
    RendersField(d, a[5], f, 15);
  }

  lemma CanonicalIsUnique(d: Alphabet, a: Mac, s: string)
    ensures s == Canonical(d, a) <==> IsCanonical(d, a, s)
  {
    CanonicalShape(d, a);
    if IsCanonical(d, a, s) {
      ShapeDetermines(d, a, s, Canonical(d, a));
    }
  }

  lemma ShapeDetermines(d: Alphabet, a: Mac, s: string, t: string)
    requires IsCanonical(d, a, s) && IsCanonical(d, a, t)
    ensures s == t
  {
    forall i | 0 <= i < 17
      ensures s[i] == t[i]
    {
    }
  }

  // ------------------------------------------------------------------
  // Parsing
  // ------------------------------------------------------------------

  /** The value of a digit, which is at least `from`. */
  function DigitFrom(d: Alphabet, c: char, from: nat): (r: Option<nat>)
    ensures r.None? ==> forall i: nat :: from <= i < 16 ==> d[i] != c
    ensures r.Some? ==> from <= r.value < 16 && d[r.value] == c
    decreases 16 - from
  {
    if from >= 16 then None
    else if d[from] == c then Some(from)
    else DigitFrom(d, c, from + 1)
  }

  /** The byte written in the two characters at `at`. */
  function ParseByte(d: Alphabet, s: string, at: nat): Option<Byte>
    requires at + 2 <= |s|
  {
    match (if s[at] == '0' then Some(0) else DigitFrom(d, s[at], 1), DigitFrom(d, s[at + 1], 0))
    case (Some(high), Some(low)) => Some(16 * high + low)
    case _ => None
  }

  predicate IsReadable(d: Alphabet, s: string) {
    && |s| == 17
    && s[2] == s[5] == s[8] == s[11] == s[14] == '-'
    && ParseByte(d, s, 0).Some? && ParseByte(d, s, 3).Some? && ParseByte(d, s, 6).Some?
    && ParseByte(d, s, 9).Some? && ParseByte(d, s, 12).Some? && ParseByte(d, s, 15).Some?
  }

  function Parse(d: Alphabet, s: string): Option<Mac> {
    if IsReadable(d, s) then
      Some([ParseByte(d, s, 0).value, ParseByte(d, s, 3).value, ParseByte(d, s, 6).value,
            ParseByte(d, s, 9).value, ParseByte(d, s, 12).value, ParseByte(d, s, 15).value])
    else None
  }

  lemma ParseByteRenders(d: Alphabet, s: string, at: nat, b: Byte)
    requires at + 2 <= |s| && Unambiguous(d)
    ensures ParseByte(d, s, at) == Some(b) <==> Renders(d, b, s, at)
  {
    var high := if s[at] == '0' then Some(0) else DigitFrom(d, s[at], 1);
    var low := DigitFrom(d, s[at + 1], 0);
    assert forall i :: 1 <= i < 16 ==> d[i] == d[1..][i - 1];
    if Renders(d, b, s, at) {
      assert b >= 16 ==> d[b / 16] != '0';
      assert high == Some(b / 16);
      assert low == Some(b % 16);
    }
    if high.Some? && low.Some? && b == 16 * high.value + low.value {
      assert b / 16 == high.value && b % 16 == low.value;
    }
  }

  lemma ParseReadsShape(d: Alphabet, s: string, a: Mac)
    requires Unambiguous(d)
    ensures Parse(d, s) == Some(a) <==> IsCanonical(d, a, s)
  {
    if |s| == 17 {
      ParseByteRenders(d, s, 0, a[0]);
      ParseByteRenders(d, s, 3, a[1]);
      ParseByteRenders(d, s, 6, a[2]);
      ParseByteRenders(d, s, 9, a[3]);
      ParseByteRenders(d, s, 12, a[4]);
      ParseByteRenders(d, s, 15, a[5]);
      assert a == [a[0], a[1], a[2], a[3], a[4], a[5]];
    }
  }

  /** The parser accepts exactly the canonical texts and inverts the rendering. */
  lemma ParseInvertsCanonical(d: Alphabet, s: string, a: Mac)
    requires Unambiguous(d)
    ensures Parse(d, s) == Some(a) <==> s == Canonical(d, a)
  {
    ParseReadsShape(d, s, a);
    CanonicalIsUnique(d, a, s);
  }

  ghost predicate CanonicalIsInjective(d: Alphabet) {
    forall a: Mac, b: Mac :: Canonical(d, a) == Canonical(d, b) ==> a == b
  }

  /** Equal texts mean equal addresses exactly if '0', which stands in for the padding, is not
      also the digit of some positive value. */
  lemma InjectiveIff(d: Alphabet)
    ensures CanonicalIsInjective(d) <==> Unambiguous(d)
  {
    if Unambiguous(d) {
      forall a: Mac, b: Mac | Canonical(d, a) == Canonical(d, b)
        ensures a == b
      {
        ParseInvertsCanonical(d, Canonical(d, a), a);
        ParseInvertsCanonical(d, Canonical(d, a), b);
      }
    } else {
      var k :| 0 <= k < 15 && d[1..][k] == '0';
      Collision(d, k + 1);
    }
  }

  lemma Collision(d: Alphabet, k: nat)
    requires 1 <= k < 16 && d[k] == '0'
    ensures !CanonicalIsInjective(d)
  {
    var a: Mac := [0, 0, 0, 0, 0, 0];
    var b: Mac := [16 * k, 0, 0, 0, 0, 0];
    CanonicalShape(d, a);
    CanonicalIsUnique(d, b, Canonical(d, a));
    assert a[0] != b[0];
  }
}
