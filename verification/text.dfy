/** ASCII text as the triage engine sees it: lower-casing, substring containment,
    character classes and the decimal rendering of integers. */
module Text {

  predicate IsUpper(c: char) { 'A' <= c <= 'Z' }

  predicate IsDigit(c: char) { '0' <= c <= '9' }

  /** The ASCII characters for which Python's `str.isspace` holds (and so `\s` in `re`):
      tab, line feed, vertical tab, form feed, carriage return, the four separators
      U+001C to U+001F, and space. */
  predicate IsSpace(c: char) { 9 <= c as int <= 13 || 28 <= c as int <= 32 }

  predicate IsLowerLetter(c: char) { 'a' <= c <= 'z' }

  /** `str.lower` on one ASCII character. */
  function LowerChar(c: char): (d: char)
    ensures !IsUpper(d)
    ensures IsUpper(c) ==> d as int - c as int == 'a' as int - 'A' as int
    ensures !IsUpper(c) ==> d == c
  {
    if IsUpper(c) then (c as int - 'A' as int + 'a' as int) as char else c
  }

  /** `str.lower` on ASCII text: the same length, every letter lower-cased. */
  function Lower(s: string): (r: string)
    ensures |r| == |s|
    ensures forall i :: 0 <= i < |s| ==> r[i] == LowerChar(s[i])
  {
    seq(|s|, i requires 0 <= i < |s| => LowerChar(s[i]))
  }

  /** Text with no upper-case letter in it. */
  predicate IsLowered(s: string) { forall i :: 0 <= i < |s| ==> !IsUpper(s[i]) }

  /** `word` occurs in `text` starting at index `i`. */
  predicate OccursAt(text: string, word: string, i: int)
  {
    0 <= i <= |text| - |word| && text[i..i + |word|] == word
  }

  /** Python's `word in text` on strings. */
  predicate Contains(text: string, word: string)
  {
    exists i | 0 <= i <= |text| - |word| :: OccursAt(text, word, i)
  }

  /** Python's `any(word in text for word in words)`. */
  predicate AnyContains(text: string, words: seq<string>)
  {
    exists j :: 0 <= j < |words| && Contains(text, words[j])
  }

  predicate AllDigits(s: string) { forall k :: 0 <= k < |s| ==> IsDigit(s[k]) }

  lemma LowerIsLowered(s: string)
    ensures IsLowered(Lower(s))
  {
  }

  /** Lower-casing twice is lower-casing once. */
  lemma LowerIdempotent(s: string)
    ensures Lower(Lower(s)) == Lower(s)
  {
    assert forall i :: 0 <= i < |s| ==> Lower(Lower(s))[i] == Lower(s)[i];
  }

  /** Every piece of a lower-cased text is itself lower-cased. */
  lemma ContainedInLowered(text: string, word: string)
    requires IsLowered(text) && Contains(text, word)
    ensures IsLowered(word)
  {
    var i :| 0 <= i <= |text| - |word| && OccursAt(text, word, i);
    assert text[i..i + |word|] == word;
    forall k | 0 <= k < |word| ensures !IsUpper(word[k]) {
      assert word[k] == text[i + k];
    }
  }

  /** A word holding an upper-case letter never occurs in `message.lower()`. */
  lemma UpperWordNeverInLowered(message: string, word: string)
    requires !IsLowered(word)
    ensures !Contains(Lower(message), word)
  {
    if Contains(Lower(message), word) {
      LowerIsLowered(message);
      ContainedInLowered(Lower(message), word);
    }
  }

  /** Nothing but the empty word occurs in the empty text. */
  lemma NothingInEmpty(word: string)
    requires word != []
    ensures !Contains([], word)
  {
  }

  // ---------------------------------------------------------------- decimal text

  function DigitChar(d: nat): (c: char)
    requires d < 10
    ensures IsDigit(c)
  {
    ('0' as int + d) as char
  }

  function DigitValue(c: char): nat
    requires IsDigit(c)
  {
    c as int - '0' as int
  }

  /** `str(n)` for a natural number: its decimal digits, most significant first. */
  function NatString(n: nat): (s: string)
    ensures |s| >= 1 && AllDigits(s)
    ensures n < 10 <==> |s| == 1
    ensures s[0] == '0' <==> n == 0
  {
    if n < 10 then [DigitChar(n)] else NatString(n / 10) + [DigitChar(n % 10)]
  }

  /** `str(n)` for a Python integer. */
  function DecimalString(n: int): string
  {
    if n < 0 then "-" + NatString(-n) else NatString(n)
  }

  /** The number a string of decimal digits denotes (leading zeros allowed). */
  function DigitsValue(s: string): nat
    requires AllDigits(s)
  {
    if s == [] then 0 else DigitsValue(s[..|s| - 1]) * 10 + DigitValue(s[|s| - 1])
  }

  /** Reading back the digits of `str(n)` gives `n`. */
  lemma {:induction false} NatStringRoundTrip(n: nat)
    ensures DigitsValue(NatString(n)) == n
  {
    if n >= 10 {
      var s := NatString(n);
      assert s[..|s| - 1] == NatString(n / 10);
      NatStringRoundTrip(n / 10);
    }
  }

  /** A digit string with no leading zero has a positive first digit and so a
      positive value. */
  lemma {:induction false} LeadingDigitPositive(s: string)
    requires |s| >= 1 && AllDigits(s) && s[0] != '0'
    ensures DigitsValue(s) >= 1
  {
    if |s| > 1 {
      assert s[..|s| - 1][0] == s[0];
      LeadingDigitPositive(s[..|s| - 1]);
    }
  }

  /** `str(n)` is the only spelling of `n` in decimal digits without a leading zero. */
  lemma {:induction false} NatStringCanonical(s: string, n: nat)
    requires |s| >= 1 && AllDigits(s) && (|s| == 1 || s[0] != '0')
    requires DigitsValue(s) == n
    ensures s == NatString(n)
  {
    var m := |s| - 1;
    if m == 0 {
      assert DigitsValue(s) == DigitValue(s[0]);
    } else {
      var front := s[..m];
      assert front[0] == s[0];
      LeadingDigitPositive(front);
      assert n / 10 == DigitsValue(front) && n % 10 == DigitValue(s[m]);
      NatStringCanonical(front, n / 10);
      assert s == front + [s[m]];
    }
  }

  function Zeros(k: nat): (z: string)
    ensures |z| == k && AllDigits(z)
    ensures forall i :: 0 <= i < k ==> z[i] == '0'
  {
    seq(k, _ => '0')
  }

  /** Leading zeros do not change the value of a digit string. */
  lemma {:induction false} LeadingZeros(k: nat, s: string)
    requires AllDigits(s)
    ensures AllDigits(Zeros(k) + s)
    ensures DigitsValue(Zeros(k) + s) == DigitsValue(s)
  {
    var t := Zeros(k) + s;
    if s == [] {
      assert t == Zeros(k);
      if k > 0 {
        assert t[..|t| - 1] == Zeros(k - 1);
        LeadingZeros(k - 1, []);
        assert Zeros(k - 1) + [] == Zeros(k - 1);
      }
    } else {
      assert t[..|t| - 1] == Zeros(k) + s[..|s| - 1];
      LeadingZeros(k, s[..|s| - 1]);
    }
  }

  /** Python's `str.zfill(width)`: pads with zeros on the left up to `width`
      characters, keeping a leading sign in front of the padding. */
  function ZFill(s: string, width: nat): (r: string)
    ensures |r| == if |s| >= width then |s| else width
    ensures |s| >= width ==> r == s
    ensures |s| < width && (s == [] || (s[0] != '+' && s[0] != '-')) ==> r == Zeros(width - |s|) + s
    ensures |s| < width && s != [] && (s[0] == '+' || s[0] == '-') ==> r == [s[0]] + Zeros(width - |s|) + s[1..]
  {
    if |s| >= width then s
    else if s != [] && (s[0] == '+' || s[0] == '-') then [s[0]] + Zeros(width - |s|) + s[1..]
    else Zeros(width - |s|) + s
  }
}
