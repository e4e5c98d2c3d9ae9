/**
  The few Swift standard-library string operations the client relies on:
  `String(_:)` of an integer, `split(separator:maxSplits:omittingEmptySubsequences:)`
  with one split, `lowercased()`, and a total order standing in for
  `localizedStandardCompare`.
 */
module SwiftText {
  import opened Wrappers

  predicate IsDigit(c: char) {
    '0' <= c <= '9'
  }

  predicate AllDigits(s: string) {
    forall i :: 0 <= i < |s| ==> IsDigit(s[i])
  }

  function DigitChar(d: nat): (c: char)
    requires d < 10
    ensures IsDigit(c)
  {
    (('0' as int) + d) as char
  }

  function DigitValue(c: char): (d: nat)
    requires IsDigit(c)
    ensures d < 10
  {
    (c as int) - ('0' as int)
  }

  /** `String(n)` for a non-negative integer: its decimal digits, most significant first. */
  function NatToDecimal(n: nat): (s: string)
    ensures |s| >= 1 && AllDigits(s)
  {
    if n < 10 then [DigitChar(n)] else NatToDecimal(n / 10) + [DigitChar(n % 10)]
  }

  /** `String(n)` for a Swift integer: negative values carry a leading '-'. */
  function IntToDecimal(n: int): (s: string)
    ensures |s| >= 1
    ensures n < 0 <==> s[0] == '-'
    ensures n >= 0 ==> AllDigits(s)
    ensures n < 0 ==> AllDigits(s[1..])
  {
    if n < 0 then "-" + NatToDecimal(-n) else NatToDecimal(n)
  }

  /** The number a string of decimal digits denotes: the reading direction of `NatToDecimal`. */
  function DigitsValue(s: string): nat
    requires AllDigits(s)
  {
    if |s| == 0 then 0 else DigitsValue(s[..|s| - 1]) * 10 + DigitValue(s[|s| - 1])
  }

  lemma {:induction false} DigitsValueOfDecimal(n: nat)
    ensures DigitsValue(NatToDecimal(n)) == n
  {
    if n >= 10 {
      var s := NatToDecimal(n);
      assert s[..|s| - 1] == NatToDecimal(n / 10);
      DigitsValueOfDecimal(n / 10);
    }
  }

  /** Distinct integers have distinct decimal renderings. */
  lemma IntToDecimalInjective(a: int, b: int)
    ensures IntToDecimal(a) == IntToDecimal(b) <==> a == b
  {
    if IntToDecimal(a) == IntToDecimal(b) {
      if a < 0 {
        assert b < 0;
        assert IntToDecimal(a)[1..] == NatToDecimal(-a);
        assert IntToDecimal(b)[1..] == NatToDecimal(-b);
        DigitsValueOfDecimal(-a);
        DigitsValueOfDecimal(-b);
      } else {
        assert b >= 0;
        DigitsValueOfDecimal(a);
        DigitsValueOfDecimal(b);
      }
    }
  }

  /** A decimal rendering never begins with a letter. */
  lemma IntToDecimalIsNotAWord(n: int, word: string)
    requires |word| > 0 && ('a' <= word[0] <= 'z' || 'A' <= word[0] <= 'Z')
    ensures IntToDecimal(n) != word
  {
  }

  /** The index of the first occurrence of `c` in `s`. */
  function IndexOf(s: string, c: char): (r: Option<nat>)
    ensures r.Some? ==> r.value < |s| && s[r.value] == c && c !in s[..r.value]
    ensures r.None? ==> c !in s
  {
    if |s| == 0 then None
    else if s[0] == c then Some(0)
    else match IndexOf(s[1..], c)
      case None => None
      case Some(i) =>
        assert s[..i + 1] == [s[0]] + s[1..][..i];
        Some(i + 1)
  }

  /**
    `s.split(separator: sep, maxSplits: 1, omittingEmptySubsequences: false)`:
    the text before the first separator and the text after it, or the whole
    string when it holds no separator.
   */
  function SplitAtFirst(s: string, sep: char): (parts: seq<string>)
    ensures |parts| == 1 || |parts| == 2
    ensures |parts| == 2 <==> sep in s
    ensures |parts| == 1 ==> parts[0] == s
    ensures |parts| == 2 ==> sep !in parts[0] && parts[0] + [sep] + parts[1] == s
  {
    match IndexOf(s, sep)
    case None => [s]
    case Some(i) =>
      assert s[..i] + [sep] + s[i + 1..] == s;
      [s[..i], s[i + 1..]]
  }

  /** Joining with a separator the first part does not contain is undone by `SplitAtFirst`. */
  lemma SplitAtFirstOfJoin(a: string, b: string, sep: char)
    requires sep !in a
    ensures SplitAtFirst(a + [sep] + b, sep) == [a, b]
  {
    var s := a + [sep] + b;
    assert s[|a|] == sep;
    var i := IndexOf(s, sep).value;
    assert s[..|a|] == a;
    assert i == |a|;
    assert s[..i] == a;
    assert s[i + 1..] == b;
  }

  function AsciiLower(c: char): char {
    if 'A' <= c <= 'Z' then ((c as int) + 32) as char else c
  }

  /** `s.lowercased()`, with case folding restricted to the ASCII letters. */
  function Lowercased(s: string): (r: string)
    ensures |r| == |s|
    ensures forall i :: 0 <= i < |s| ==> r[i] == AsciiLower(s[i])
  {
    if |s| == 0 then [] else [AsciiLower(s[0])] + Lowercased(s[1..])
  }

  /** `s` spells `word` (a lower-case ASCII word) with any mix of letter cases. */
  predicate SpellsInAnyCase(s: string, word: string) {
    |s| == |word| &&
    forall i :: 0 <= i < |s| ==> s[i] == word[i] || (s[i] as int) + 32 == word[i] as int
  }

  /** `s.lowercased() == "folder"` holds exactly when `s` is "folder" in any letter case. */
  lemma LowercasedIsFolderIff(s: string)
    ensures Lowercased(s) == "folder" <==> SpellsInAnyCase(s, "folder")
  {
    var w := "folder";
    if Lowercased(s) == w {
      forall i | 0 <= i < |s|
        ensures s[i] == w[i] || (s[i] as int) + 32 == w[i] as int
      {
        assert AsciiLower(s[i]) == w[i];
      }
    }
    if SpellsInAnyCase(s, w) {
      forall i | 0 <= i < |s|
        ensures Lowercased(s)[i] == w[i]
      {
        assert AsciiLower(s[i]) == w[i];
      }
    }
  }

  /**
    Code-point lexicographic order on strings. It stands in for the
    locale-dependent `localizedStandardCompare`, of which the model only uses
    that it is a total order.
   */
  predicate StrLe(a: string, b: string) {
    if |a| == 0 then true
    else if |b| == 0 then false
    else if a[0] != b[0] then a[0] < b[0]
    else StrLe(a[1..], b[1..])
  }

  lemma {:induction false} StrLeTotal(a: string, b: string)
    ensures StrLe(a, b) || StrLe(b, a)
  {
    if |a| > 0 && |b| > 0 && a[0] == b[0] {
      StrLeTotal(a[1..], b[1..]);
    }
  }

  lemma {:induction false} StrLeTransitive(a: string, b: string, c: string)
    requires StrLe(a, b) && StrLe(b, c)
    ensures StrLe(a, c)
  {
    if |a| > 0 && |b| > 0 && |c| > 0 && a[0] == b[0] && b[0] == c[0] {
      StrLeTransitive(a[1..], b[1..], c[1..]);
    }
  }
}
