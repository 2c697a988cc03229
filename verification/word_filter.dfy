/** The indexer's own token filter, applied after the analyzer: short words
    (except "h2") and plain numbers are not indexed. */
module WordFilter {
  import opened JavaStrings

  /** `\d` in a `java.util.regex` pattern without UNICODE_CHARACTER_CLASS. */
  predicate IsDigit(c: char) {
    '0' <= c <= '9'
  }

  /** `\d+`: one or more digits. */
  predicate AllDigits(s: string) {
    |s| > 0 && forall i :: 0 <= i < |s| ==> IsDigit(s[i])
  }

  /** The length of the run of digits starting at index `j`. */
  function DigitRun(s: string, j: nat): (n: nat)
    requires j <= |s|
    ensures j + n <= |s|
    ensures forall i :: j <= i < j + n ==> IsDigit(s[i])
    ensures j + n < |s| ==> !IsDigit(s[j + n])
    decreases |s| - j
  {
    if j < |s| && IsDigit(s[j]) then 1 + DigitRun(s, j + 1) else 0
  }

  /** `\d+(\.\d+)?` matched against the whole of `t`, by scanning: a digit
      run that ends the string, or is followed by `.` and a digit run that
      ends the string. */
  predicate IsUnsignedNumber(t: string) {
    var n := DigitRun(t, 0);
    n > 0 && (n == |t| || (t[n] == '.' && n + 1 < |t| && DigitRun(t, n + 1) == |t| - n - 1))
  }

  /** `str.matches("-?\\d+(\\.\\d+)?")`. The optional `-` is greedy, and a
      `-` can never start `\d+`, so a leading `-` is always the sign. */
  predicate IsNumeric(s: string) {
    var t := if |s| > 0 && s[0] == '-' then s[1..] else s;
    IsUnsignedNumber(t)
  }

  /** The language of `\d+(\.\d+)?`, written as a concatenation: digits, or
      digits, a dot and digits. */
  ghost predicate UnsignedShape(t: string) {
    || AllDigits(t)
    || exists k :: 0 < k < |t| - 1 && t[k] == '.' && AllDigits(t[..k]) && AllDigits(t[k + 1..])
  }

  /** The language of `-?\d+(\.\d+)?`. */
  ghost predicate NumberShape(s: string) {
    UnsignedShape(s) || (|s| > 0 && s[0] == '-' && UnsignedShape(s[1..]))
  }

  /** The scanner accepts exactly the strings of `\d+(\.\d+)?`. */
  lemma UnsignedNumberIff(t: string)
    ensures IsUnsignedNumber(t) <==> UnsignedShape(t)
  {
    var n := DigitRun(t, 0);
    if IsUnsignedNumber(t) {
      if n == |t| {
        assert AllDigits(t);
      } else {
        assert AllDigits(t[..n]);
        assert forall i :: n + 1 <= i < |t| ==> t[n + 1..][i - n - 1] == t[i];
        assert AllDigits(t[n + 1..]);
      }
    }
    if UnsignedShape(t) {
      if AllDigits(t) {
        assert n == |t|;
      } else {
        var k :| 0 < k < |t| - 1 && t[k] == '.' && AllDigits(t[..k]) && AllDigits(t[k + 1..]);
        assert forall i :: 0 <= i < k ==> t[..k][i] == t[i];
        assert n == k;
        var m := DigitRun(t, k + 1);
        assert forall i :: k + 1 <= i < |t| ==> t[k + 1..][i - k - 1] == t[i];
        assert m == |t| - k - 1;
      }
    }
  }

  /** `isNumeric` accepts exactly the strings of `-?\d+(\.\d+)?`. */
  lemma NumericIff(s: string)
    ensures IsNumeric(s) <==> NumberShape(s)
  {
    if |s| > 0 && s[0] == '-' {
      UnsignedNumberIff(s[1..]);
      assert !AllDigits(s);
      assert !UnsignedShape(s);
    } else {
      UnsignedNumberIff(s);
      assert !(|s| > 0 && s[0] == '-');
    }
  }

  /** `include`: a word shorter than three UTF-16 code units is dropped
      unless its lower-case form is "h2", and a plain number is dropped. */
  function Include(word: string): (r: bool)
    ensures r <==> (Utf16Length(word) >= 3 || word == "h2" || word == "H2") && !NumberShape(word)
  {
    NumericIff(word);
    if Utf16Length(word) < 3 && (ShortLowerH2(word); ToLowerAscii(word) != "h2") then false
    else !IsNumeric(word)
  }

  /** Among words shorter than three UTF-16 code units, only "h2" and "H2" have
      "h2" as their lower-case form. Full Unicode lower-casing agrees: no
      other character lower-cases to `h` or `2`, and no single character
      lower-cases to two that start with `h`. */
  lemma ShortLowerH2(word: string)
    requires Utf16Length(word) < 3
    ensures ToLowerAscii(word) == "h2" <==> word == "h2" || word == "H2"
  {
    if ToLowerAscii(word) == "h2" {
      assert LowerAscii(word[0]) == 'h' && LowerAscii(word[1]) == '2';
      assert word == [word[0], word[1]];
    }
  }

  /** Words the filter keeps: long words, "h2" in either case, and a word
      that merely starts with digits. */
  lemma IncludeExamples()
    ensures Include("cdi") && Include("h2") && Include("H2") && Include("42nd")
  {
    assert Utf16Length("cdi") == 3 && Utf16Length("42nd") == 4;
  }

  /** A flag emoji is kept: two code points, but four UTF-16 code units. */
  lemma IncludeFlag()
    ensures Include("\U{1F1EB}\U{1F1F7}")
  {
    assert Utf16Length("\U{1F1EB}\U{1F1F7}") == 4;
  }

  /** Plain numbers are dropped, signed or with a fraction. */
  lemma ExcludeNumbers()
    ensures !Include("42") && !Include("-3.14")
  {
    assert IsNumeric("42");
    assert IsNumeric("-3.14");
  }

  /** Short words are dropped. */
  lemma ExcludeShort()
    ensures !Include("an") && !Include("")
  {
    assert Utf16Length("an") == 2 && Utf16Length("") == 0;
  }
}
