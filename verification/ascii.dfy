/**
 * The ASCII translator: `SANE_ASCII` and `asciify` in helpers.py.
 *
 * Each byte becomes the character it encodes when that character is a
 * letter, digit or punctuation mark, the `zero` placeholder when it is 0,
 * and the `nonascii` placeholder otherwise. Whitespace is not "sane": it is
 * awkward to display, so it is shown as the `nonascii` placeholder too.
 */
module Ascii {
  import opened Common

  /** Python's `string.ascii_lowercase`. */
  const AsciiLowercase: string := "abcdefghijklmnopqrstuvwxyz"

  /** Python's `string.ascii_uppercase`. */
  const AsciiUppercase: string := "ABCDEFGHIJKLMNOPQRSTUVWXYZ"

  /** Python's `string.ascii_letters`. */
  const AsciiLetters: string := AsciiLowercase + AsciiUppercase

  /** Python's `string.digits`. */
  const Digits: string := "0123456789"

  /** Python's `string.punctuation`. */
  const Punctuation: string := "!\"#$%&'()*+,-./:;<=>?@[\\]^_`{|}~"

  /** The characters `asciify` shows as themselves. */
  const SaneChars: string := AsciiLetters + Digits + Punctuation

  /**
   * `{ord(ch): ch for ch in chars}`: the dictionary comprehension, entry by
   * entry in the order of `chars`.
   */
  function CodePointTable(chars: string): (m: map<int, char>)
    ensures forall b :: b in m <==> exists k | 0 <= k < |chars| :: chars[k] as int == b
    ensures forall b | b in m :: m[b] as int == b
  {
    if chars == [] then map[]
    else
      var last := chars[|chars| - 1];
      var m := CodePointTable(chars[..|chars| - 1])[last as int := last];
      assert forall k | 0 <= k < |chars| - 1 :: chars[..|chars| - 1][k] == chars[k];
      m
  }

  /** `SANE_ASCII`: the code point of each sane character, mapped to that character. */
  const SaneAscii: map<int, char> := CodePointTable(SaneChars)

  /** The visible (non-blank, non-control) ASCII code points. */
  predicate Visible(b: int) {
    33 <= b <= 126
  }

  lemma LowercaseRun(i: int)
    requires 0 <= i < 26
    ensures AsciiLowercase[i] as int == 97 + i
  {
  }

  lemma UppercaseRun(i: int)
    requires 0 <= i < 26
    ensures AsciiUppercase[i] as int == 65 + i
  {
  }

  lemma DigitsRun(i: int)
    requires 0 <= i < 10
    ensures Digits[i] as int == 48 + i
  {
  }

  /** `string.punctuation` is the four gaps 33-47, 58-64, 91-96 and 123-126 between letters and digits. */
  lemma PunctuationRuns(i: int)
    requires 0 <= i < 32
    ensures Punctuation[i] as int ==
      if i < 15 then 33 + i
      else if i < 22 then 58 + (i - 15)
      else if i < 28 then 91 + (i - 22)
      else 123 + (i - 28)
  {
  }

  /** Which group character `k` of `SaneChars` comes from. */
  lemma SaneCharsAt(k: int)
    requires 0 <= k < |SaneChars|
    ensures |SaneChars| == 94
    ensures SaneChars[k] ==
      if k < 26 then AsciiLowercase[k]
      else if k < 52 then AsciiUppercase[k - 26]
      else if k < 62 then Digits[k - 52]
      else Punctuation[k - 62]
  {
    assert SaneChars == AsciiLowercase + (AsciiUppercase + (Digits + Punctuation));
  }

  /** Where code point `b` sits in `SaneChars`. */
  function SanePosition(b: int): nat
    requires Visible(b)
  {
    if 97 <= b <= 122 then b - 97
    else if 65 <= b <= 90 then 26 + (b - 65)
    else if 48 <= b <= 57 then 52 + (b - 48)
    else if b <= 47 then 62 + (b - 33)
    else if b <= 64 then 62 + 15 + (b - 58)
    else if b <= 96 then 62 + 22 + (b - 91)
    else 62 + 28 + (b - 123)
  }

  lemma SaneLettersAt(k: int)
    requires 0 <= k < 52
    ensures k < |SaneChars|
    ensures SaneChars[k] as int == if k < 26 then 97 + k else 65 + (k - 26)
  {
    SaneCharsAt(k);
    if k < 26 {
      LowercaseRun(k);
    } else {
      UppercaseRun(k - 26);
    }
  }

  lemma SaneDigitsAt(k: int)
    requires 52 <= k < 62
    ensures k < |SaneChars|
    ensures SaneChars[k] as int == 48 + (k - 52)
  {
    SaneCharsAt(k);
    DigitsRun(k - 52);
  }

  lemma SanePunctuationAt(k: int)
    requires 62 <= k < 94
    ensures k < |SaneChars|
    ensures SaneChars[k] as int ==
      if k < 77 then 33 + (k - 62)
      else if k < 84 then 58 + (k - 77)
      else if k < 90 then 91 + (k - 84)
      else 123 + (k - 90)
  {
    SaneCharsAt(k);
    PunctuationRuns(k - 62);
  }

  /** The code point of character `k` of `SaneChars`: seven runs of consecutive code points. */
  lemma SaneCodePoint(k: int)
    requires 0 <= k < |SaneChars|
    ensures SaneChars[k] as int ==
      if k < 26 then 97 + k
      else if k < 52 then 65 + (k - 26)
      else if k < 62 then 48 + (k - 52)
      else if k < 77 then 33 + (k - 62)
      else if k < 84 then 58 + (k - 77)
      else if k < 90 then 91 + (k - 84)
      else 123 + (k - 90)
  {
    SaneCharsAt(0);
    if k < 52 {
      SaneLettersAt(k);
    } else if k < 62 {
      SaneDigitsAt(k);
    } else {
      SanePunctuationAt(k);
    }
  }

  lemma SanePositionCorrect(b: int)
    requires Visible(b)
    ensures SanePosition(b) < |SaneChars| && SaneChars[SanePosition(b)] as int == b
  {
    SaneCharsAt(0);
    SaneCodePoint(SanePosition(b));
  }

  /**
   * `ascii_letters + digits + punctuation` is exactly the code points 33 to
   * 126, and `SANE_ASCII` maps each of them to its own character.
   */
  lemma SaneAsciiIsVisibleRange()
    ensures forall b :: b in SaneAscii <==> Visible(b)
    ensures forall b | b in SaneAscii :: SaneAscii[b] as int == b
  {
    forall b ensures b in SaneAscii <==> Visible(b) {
      if Visible(b) {
        SanePositionCorrect(b);
        var k := SanePosition(b);
      }
      if b in SaneAscii {
        var k :| 0 <= k < |SaneChars| && SaneChars[k] as int == b;
        SaneCodePoint(k);
      }
    }
  }

  /** `{**SANE_ASCII, 0: zero}`: the table `asciify` builds on each call. */
  function Translation(zero: string): (t: map<int, string>)
    ensures forall b :: b in t <==> b == 0 || Visible(b)
    ensures 0 in t && t[0] == zero
    ensures forall b | Visible(b) :: b in t && t[b] == [b as char]
  {
    SaneAsciiIsVisibleRange();
    (map b | b in SaneAscii :: [SaneAscii[b]])[0 := zero]
  }

  /** `translation.get(byte, nonascii)`. */
  function Lookup(t: map<int, string>, b: Byte, nonascii: string): string {
    if b in t then t[b] else nonascii
  }

  /**
   * Reference definition: the single character one byte is shown as, when
   * both placeholders are single characters.
   */
  function DisplayChar(b: Byte, zero: char, nonascii: char): char {
    if Visible(b) then b as char else if b == 0 then zero else nonascii
  }

  /**
   * Looking a byte up in the translation table, for any placeholder strings,
   * gives the byte's own character when it is visible, `zero` for the zero
   * byte and `nonascii` for every other byte.
   */
  lemma LookupTranslation(b: Byte, zero: string, nonascii: string)
    ensures Lookup(Translation(zero), b, nonascii) ==
      if Visible(b) then [b as char] else if b == 0 then zero else nonascii
  {
  }

  /**
   * `"".join(translation.get(byte, nonascii) for byte in data)`. When every
   * entry of the table and the default are single characters, the result
   * has one character per byte, the one looked up for it.
   */
  function JoinLookups(t: map<int, string>, data: seq<Byte>, nonascii: string): (r: string)
    ensures (forall b | b in t :: |t[b]| == 1) && |nonascii| == 1 ==>
      && |r| == |data|
      && forall k | 0 <= k < |data| :: r[k] == Lookup(t, data[k], nonascii)[0]
  {
    if data == [] then []
    else
      var head := Lookup(t, data[0], nonascii);
      var rest := JoinLookups(t, data[1..], nonascii);
      assert forall k | 1 <= k < |data| :: data[1..][k - 1] == data[k];
      head + rest
  }

  /**
   * `asciify(data, zero, nonascii)`, with the source's defaults of "." for
   * both placeholders. With one-character placeholders it keeps the length
   * of its input and shows byte `k` as character `k`: itself when visible,
   * `zero` for 0, `nonascii` for everything else (blank, control and
   * non-ASCII bytes).
   */
  function Asciify(data: seq<Byte>, zero: string := ".", nonascii: string := "."): (r: string)
    ensures |zero| == 1 && |nonascii| == 1 ==>
      && |r| == |data|
      && forall k | 0 <= k < |data| :: r[k] == DisplayChar(data[k], zero[0], nonascii[0])
  {
    var t := Translation(zero);
    assert forall b | b in t :: |t[b]| == (if b == 0 then |zero| else 1);
    JoinLookups(t, data, nonascii)
  }

  /** `asciify` works byte by byte, whatever the placeholders, so it distributes over concatenation. */
  lemma AsciifyAppend(a: seq<Byte>, b: seq<Byte>, zero: string, nonascii: string)
    ensures Asciify(a + b, zero, nonascii) == Asciify(a, zero, nonascii) + Asciify(b, zero, nonascii)
  {
    JoinLookupsAppend(Translation(zero), a, b, nonascii);
  }

  lemma {:induction false} JoinLookupsAppend(t: map<int, string>, a: seq<Byte>, b: seq<Byte>, nonascii: string)
    ensures JoinLookups(t, a + b, nonascii) == JoinLookups(t, a, nonascii) + JoinLookups(t, b, nonascii)
  {
    if a != [] {
      JoinLookupsAppend(t, a[1..], b, nonascii);
      assert (a + b)[0] == a[0] && (a + b)[1..] == a[1..] + b;
    } else {
      assert a + b == b;
    }
  }

  /** Bytes 00 41 20 FF with the default placeholders show as ".A..": space is not sane. */
  lemma AsciifyExample()
    ensures Asciify([0x00, 0x41, 0x20, 0xFF]) == ".A.."
  {
  }
}
